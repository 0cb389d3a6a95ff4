/** Reads, audit entries, publishes, flushes and commits in any order, with faults anywhere. */
module DeliveryRuns {
  import opened Prelude
  import opened CanonicalJson
  import opened DedupeKey
  import opened CrmTables
  import opened Delivery

  datatype Act =
    | Publish(pub: Publication, recipients: seq<int>, failing: set<CrmCall>)
    | Flush
    | Commit(answered: bool)
    | Read(answered: bool)
    | Audit(entry: string, named: bool, failing: set<CrmCall>)

  /** An aborted transaction, or a commit that fails, falls back to the committed rows. */
  function Committed(s: State, answered: bool): State {
    if answered && !s.aborted then s.(committed := s.outbox)
    else s.(outbox := s.committed, aborted := false)
  }

  /** A read outside any savepoint: when it fails, the whole transaction has failed. */
  function ReadOnly(s: State, answered: bool): State {
    s.(aborted := s.aborted || !answered)
  }

  /** An audit entry under a savepoint of its own; the writer is looked up before that, if there is one. */
  function Audited(s: State, entry: string, named: bool, failing: set<CrmCall>): State {
    if s.aborted || OpenSavepoint in failing || (named && FindWriter in failing) then s.(aborted := true)
    else if InsertAudit in failing || ReleaseSavepoint in failing then s.(aborted := RollbackToSavepoint in failing)
    else s.(outbox := s.outbox.(audit := s.outbox.audit + [entry]))
  }

  /** An audit entry is staged or nothing is, the rest of the transaction untouched; it is staged if no call fails. */
  lemma AuditAllOrNothing(s: State, entry: string, named: bool, failing: set<CrmCall>)
    ensures var t := Audited(s, entry, named, failing);
            && (t.committed, t.next, t.pending, t.emitted) == (s.committed, s.next, s.pending, s.emitted)
            && (t.outbox.notifications, t.outbox.messages) == (s.outbox.notifications, s.outbox.messages)
            && (t.outbox.audit == s.outbox.audit + [entry] || t.outbox.audit == s.outbox.audit)
            && (!s.aborted && failing == {} ==> t.outbox.audit == s.outbox.audit + [entry] && !t.aborted)
            && (t.outbox.audit != s.outbox.audit ==> !t.aborted)
            && (!s.aborted && OpenSavepoint !in failing && !(named && FindWriter in failing) && RollbackToSavepoint !in failing ==> !t.aborted)
  {
  }

  function Perform(dir: Directory, lib: Library, s: State, act: Act): State
    requires IsDigest(lib.sha)
  {
    match act
    case Publish(pub, recipients, failing) => Published(dir, lib, s, pub, recipients, failing).0
    case Flush => Flushed(s)
    case Commit(answered) => Committed(s, answered)
    case Read(answered) => ReadOnly(s, answered)
    case Audit(entry, named, failing) => Audited(s, entry, named, failing)
  }

  function RunActs(dir: Directory, lib: Library, s: State, acts: seq<Act>): State
    requires IsDigest(lib.sha)
    decreases |acts|
  {
    if acts == [] then s else RunActs(dir, lib, Perform(dir, lib, s, acts[0]), acts[1..])
  }

  // ---- one row per key ----------------------------------------------------

  ghost predicate OutboundOk(s: State) {
    KeysDistinct(s.outbox.messages) && KeysDistinct(s.committed.messages) && s.committed.messages <= s.outbox.messages
  }

  lemma PerformKeepsOutbound(dir: Directory, lib: Library, s: State, act: Act)
    requires IsDigest(lib.sha) && OutboundOk(s)
    ensures OutboundOk(Perform(dir, lib, s, act))
    ensures s.committed.messages <= Perform(dir, lib, s, act).committed.messages
  {
    if act.Publish? {
      var plan := PlanOf(dir, lib, act.pub, s.next, act.recipients);
      InsertKeepsDistinct(s.outbox.messages, plan.candidates);
    }
  }

  /** No run ever holds two rows with one key, and committed rows are never taken back. */
  lemma {:induction false} RunKeepsOutbound(dir: Directory, lib: Library, s: State, acts: seq<Act>)
    requires IsDigest(lib.sha) && OutboundOk(s)
    ensures OutboundOk(RunActs(dir, lib, s, acts))
    ensures s.committed.messages <= RunActs(dir, lib, s, acts).committed.messages
    decreases |acts|
  {
    if acts != [] {
      PerformKeepsOutbound(dir, lib, s, acts[0]);
      RunKeepsOutbound(dir, lib, Perform(dir, lib, s, acts[0]), acts[1..]);
    }
  }

  // ---- idempotency --------------------------------------------------------

  /** Every message this publication would queue is already queued. */
  ghost predicate AllQueued(dir: Directory, lib: Library, messages: seq<Message>, pub: Publication, recipients: seq<int>)
    requires IsDigest(lib.sha)
  {
    forall u :: u in recipients && Email in Effective(dir, pub, u) && Addressable(dir, u) ==> HasKey(messages, KeyFor(lib, pub, u))
  }

  lemma LandedIsQueued(dir: Directory, lib: Library, s: State, pub: Publication, recipients: seq<int>, failing: set<CrmCall>)
    requires IsDigest(lib.sha) && Lands(s, pub, recipients, PlanOf(dir, lib, pub, s.next, recipients), failing)
    ensures AllQueued(dir, lib, Published(dir, lib, s, pub, recipients, failing).0.outbox.messages, pub, recipients)
  {
    var plan := PlanOf(dir, lib, pub, s.next, recipients);
    ThroughElements(dir, pub, recipients, Email);
    forall u | u in recipients && Email in Effective(dir, pub, u) && Addressable(dir, u)
      ensures HasKey(InsertNew(s.outbox.messages, plan.candidates), KeyFor(lib, pub, u))
    {
      var m := MessageFor(dir, lib, pub, plan.rows, u);
      CandidatesExact(dir, lib, pub, plan.rows, plan.byEmail, m);
      var i :| 0 <= i < |plan.candidates| && plan.candidates[i] == m;
      InsertedHaveKeys(s.outbox.messages, plan.candidates, i);
    }
  }

  lemma QueuedAddsNothing(dir: Directory, lib: Library, s: State, pub: Publication, recipients: seq<int>, failing: set<CrmCall>)
    requires IsDigest(lib.sha) && AllQueued(dir, lib, s.outbox.messages, pub, recipients)
    ensures Published(dir, lib, s, pub, recipients, failing).0.outbox.messages == s.outbox.messages
  {
    var plan := PlanOf(dir, lib, pub, s.next, recipients);
    ThroughElements(dir, pub, recipients, Email);
    forall i | 0 <= i < |plan.candidates| ensures HasKey(s.outbox.messages, plan.candidates[i].dedupeKey) {
      CandidatesExact(dir, lib, pub, plan.rows, plan.byEmail, plan.candidates[i]);
    }
    InsertNothing(s.outbox.messages, plan.candidates);
  }

  lemma QueuedForSameAudience(dir: Directory, lib: Library, messages: seq<Message>, longer: seq<Message>, pub: Publication,
                              r1: seq<int>, r2: seq<int>)
    requires IsDigest(lib.sha) && AllQueued(dir, lib, messages, pub, r1) && messages <= longer
    requires forall u :: u in r2 ==> u in r1
    ensures AllQueued(dir, lib, longer, pub, r2)
  {
    forall u | u in r2 && Email in Effective(dir, pub, u) && Addressable(dir, u) ensures HasKey(longer, KeyFor(lib, pub, u)) {
      HasKeyGrows(messages, longer, KeyFor(lib, pub, u));
    }
  }

  /**
   * Once a publication has landed and been committed, publishing it again to the same audience,
   * after any run and with any faults, changes nothing in the outbound table. The payload may be
   * another value with the same meaning.
   */
  lemma RepublishingIsIdempotent(dir: Directory, lib: Library, s: State, pub: Publication, r1: seq<int>, f1: set<CrmCall>,
                                 acts: seq<Act>, again: Publication, r2: seq<int>, f2: set<CrmCall>)
    requires IsDigest(lib.sha) && OutboundOk(s)
    requires Lands(s, pub, r1, PlanOf(dir, lib, pub, s.next, r1), f1)
    requires again == pub.(data := again.data) && WellFormed(Payload(pub)) && WellFormed(Payload(again))
    requires Meaning(Payload(again)) == Meaning(Payload(pub))
    requires IsAudience(dir, pub.target, r1) && IsAudience(dir, pub.target, r2)
    ensures var s1 := Committed(Published(dir, lib, s, pub, r1, f1).0, true);
            var s2 := RunActs(dir, lib, s1, acts);
            Published(dir, lib, s2, again, r2, f2).0.outbox.messages == s2.outbox.messages
  {
    var s1 := Committed(Published(dir, lib, s, pub, r1, f1).0, true);
    var s2 := RunActs(dir, lib, s1, acts);
    LandedIsQueued(dir, lib, s, pub, r1, f1);
    PerformKeepsOutbound(dir, lib, s, Publish(pub, r1, f1));
    RunKeepsOutbound(dir, lib, s1, acts);
    assert s1.committed.messages <= s2.outbox.messages;
    SameAudience(dir, pub.target, r1, r2);
    QueuedForSameAudience(dir, lib, s1.committed.messages, s2.outbox.messages, pub, r1, r2);
    CanonicalIffSameMeaning(Payload(pub), Payload(again));
    assert forall u :: KeyFor(lib, again, u) == KeyFor(lib, pub, u);
    assert forall u :: Effective(dir, again, u) == Effective(dir, pub, u);
    QueuedAddsNothing(dir, lib, s2, again, r2, f2);
  }

  lemma SameAudience(dir: Directory, target: Target, r1: seq<int>, r2: seq<int>)
    requires IsAudience(dir, target, r1) && IsAudience(dir, target, r2)
    ensures forall u :: u in r2 <==> u in r1
  {
    if target.CommunityTarget? {
      var reached := Reached(dir, target.id, target.roles, target.excludeAuthId);
      forall u ensures u in r2 <==> u in r1 {
        assert u in reached <==> u in r1;
        assert u in reached <==> u in r2;
      }
    }
  }

  // ---- conservation of hints ----------------------------------------------

  function RowPairs(rows: seq<Notification>): multiset<(int, Option<int>)> {
    multiset(seq(|rows|, i requires 0 <= i < |rows| => (rows[i].user, rows[i].community)))
  }

  function HintPairs(h: Hint): multiset<(int, Option<int>)> {
    multiset(seq(|h.users|, i requires 0 <= i < |h.users| => (h.users[i], h.community)))
  }

  function Pairs(hints: seq<Hint>): multiset<(int, Option<int>)> {
    if hints == [] then multiset{} else HintPairs(hints[0]) + Pairs(hints[1..])
  }

  lemma {:induction false} PairsAppend(a: seq<Hint>, b: seq<Hint>)
    ensures Pairs(a + b) == Pairs(a) + Pairs(b)
  {
    if a == [] {
      assert a + b == b;
    } else {
      assert (a + b)[1..] == a[1..] + b;
      PairsAppend(a[1..], b);
    }
  }

  lemma RowPairsAppend(a: seq<Notification>, b: seq<Notification>)
    ensures RowPairs(a + b) == RowPairs(a) + RowPairs(b)
  {
    var x := seq(|a|, i requires 0 <= i < |a| => (a[i].user, a[i].community));
    var y := seq(|b|, i requires 0 <= i < |b| => (b[i].user, b[i].community));
    var z := seq(|a + b|, i requires 0 <= i < |a + b| => ((a + b)[i].user, (a + b)[i].community));
    assert z == x + y;
  }

  lemma HintMatchesRows(first: int, users: seq<int>, pub: Publication)
    ensures HintPairs(Hint(users, SourceCommunity(pub.target))) == RowPairs(NewNotifications(first, users, pub))
  {
    var rows := NewNotifications(first, users, pub);
    var h := Hint(users, SourceCommunity(pub.target));
    var x := seq(|h.users|, i requires 0 <= i < |h.users| => (h.users[i], h.community));
    var y := seq(|rows|, i requires 0 <= i < |rows| => (rows[i].user, rows[i].community));
    assert x == y;
  }

  /** The in-app rows one act adds for good reason: those of a publish that lands. */
  function RowsOf(dir: Directory, lib: Library, s: State, act: Act): seq<Notification>
    requires IsDigest(lib.sha)
  {
    if act.Publish? && Lands(s, act.pub, act.recipients, PlanOf(dir, lib, act.pub, s.next, act.recipients), act.failing)
    then PlanOf(dir, lib, act.pub, s.next, act.recipients).rows else []
  }

  lemma PublishConserves(dir: Directory, lib: Library, s: State, pub: Publication, recipients: seq<int>, failing: set<CrmCall>)
    requires IsDigest(lib.sha)
    ensures var t := Published(dir, lib, s, pub, recipients, failing).0;
            && t.emitted == s.emitted
            && Pairs(t.pending) == Pairs(s.pending) + RowPairs(RowsOf(dir, lib, s, Publish(pub, recipients, failing)))
  {
    var plan := PlanOf(dir, lib, pub, s.next, recipients);
    assert RowPairs([]) == multiset{};
    if Lands(s, pub, recipients, plan, failing) {
      var h := Hint(plan.inApp, SourceCommunity(pub.target));
      HintMatchesRows(s.next, plan.inApp, pub);
      PairsAppend(s.pending, [h]);
      assert Pairs([h]) == HintPairs(h) + Pairs([]);
      if plan.inApp == [] { assert plan.rows == []; }
    }
  }

  /** The in-app rows of the publishes of a run that returned successfully. */
  function LandedRows(dir: Directory, lib: Library, s: State, acts: seq<Act>): seq<Notification>
    requires IsDigest(lib.sha)
    decreases |acts|
  {
    if acts == [] then []
    else RowsOf(dir, lib, s, acts[0]) + LandedRows(dir, lib, Perform(dir, lib, s, acts[0]), acts[1..])
  }

  /** Hints sent and hints waiting, pair for pair. */
  function Hinted(s: State): multiset<(int, Option<int>)> { Pairs(s.emitted) + Pairs(s.pending) }

  lemma FlushConserves(s: State)
    ensures Hinted(Flushed(s)) == Hinted(s)
  {
    PairsAppend(s.emitted, s.pending);
  }

  lemma QuietActsConserve(dir: Directory, lib: Library, s: State, act: Act)
    requires IsDigest(lib.sha) && !act.Publish? && !act.Flush?
    ensures Perform(dir, lib, s, act).emitted == s.emitted && Perform(dir, lib, s, act).pending == s.pending
  {
  }

  lemma PerformConserves(dir: Directory, lib: Library, s: State, act: Act)
    requires IsDigest(lib.sha)
    ensures Hinted(Perform(dir, lib, s, act)) == Hinted(s) + RowPairs(RowsOf(dir, lib, s, act))
  {
    match act {
      case Publish(pub, recipients, failing) =>
        PublishConserves(dir, lib, s, pub, recipients, failing);
      case Flush =>
        FlushConserves(s);
        assert RowPairs([]) == multiset{};
      case _ =>
        QuietActsConserve(dir, lib, s, act);
        assert RowPairs([]) == multiset{};
    }
  }

  /**
   * Over any interleaving, the hints sent and the hints waiting are, pair for pair, the in-app
   * rows of the publishes that returned successfully.
   */
  lemma {:induction false} HintsAreConserved(dir: Directory, lib: Library, s: State, acts: seq<Act>)
    requires IsDigest(lib.sha)
    ensures var t := RunActs(dir, lib, s, acts);
            Hinted(t) == Hinted(s) + RowPairs(LandedRows(dir, lib, s, acts))
    decreases |acts|
  {
    if acts == [] {
      assert RowPairs([]) == multiset{};
    } else {
      var mid := Perform(dir, lib, s, acts[0]);
      PerformConserves(dir, lib, s, acts[0]);
      HintsAreConserved(dir, lib, mid, acts[1..]);
      RowPairsAppend(RowsOf(dir, lib, s, acts[0]), LandedRows(dir, lib, mid, acts[1..]));
    }
  }

  // ---- the caller's transaction -------------------------------------------

  /** Everything staged so far is still staged. */
  ghost predicate Extends(longer: Outbox, outbox: Outbox) {
    && outbox.notifications <= longer.notifications && outbox.messages <= longer.messages && outbox.audit <= longer.audit
  }

  /**
   * A publish never takes back what its caller staged, but it can doom it: the caller's commit,
   * answered or not, then keeps nothing, if and only if a call outside the savepoint failed, or
   * one under it did and the rollback to the savepoint failed too.
   */
  lemma CallerLosesWorkIff(dir: Directory, lib: Library, s: State, pub: Publication, recipients: seq<int>, failing: set<CrmCall>)
    requires IsDigest(lib.sha) && !s.aborted && Extends(s.outbox, s.committed) && s.outbox != s.committed
    ensures var plan := PlanOf(dir, lib, pub, s.next, recipients);
            var t := Published(dir, lib, s, pub, recipients, failing).0;
            var doomed := failing * CallsOutside(pub, recipients, plan) != {}
                          || (failing * CallsInside(plan) != {} && RollbackToSavepoint in failing);
            && Extends(t.outbox, s.outbox)
            && (Committed(t, true).committed == s.committed <==> doomed)
            && (!doomed ==> Extends(Committed(t, true).committed, s.outbox))
  {
    var plan := PlanOf(dir, lib, pub, s.next, recipients);
    var outside, inside := CallsOutside(pub, recipients, plan), CallsInside(plan);
    assert failing * (outside + inside) == failing * outside + failing * inside;
    var t := Published(dir, lib, s, pub, recipients, failing).0;
    ExtendsAntisymmetric(t.outbox, s.outbox, s.committed);
  }

  lemma ExtendsAntisymmetric(longest: Outbox, middle: Outbox, first: Outbox)
    requires Extends(longest, middle) && Extends(middle, first)
    ensures longest == first ==> middle == first
  {
    if longest == first {
      assert |middle.notifications| == |first.notifications| && |middle.messages| == |first.messages|;
    }
  }

  // ---- announcing one post ------------------------------------------------

  lemma RunOne(dir: Directory, lib: Library, s: State, acts: seq<Act>)
    requires IsDigest(lib.sha) && acts != []
    ensures RunActs(dir, lib, s, acts) == RunActs(dir, lib, Perform(dir, lib, s, acts[0]), acts[1..])
  {
  }

  /** What follows a publish when a post is announced: a commit that may be lost, then the flush. */
  function Announce(pub: Publication, recipients: seq<int>, failing: set<CrmCall>, answered: bool): seq<Act> {
    [Publish(pub, recipients, failing), Commit(answered), Flush]
  }

  /**
   * The hints go out whatever became of the commit, so they may announce rows that never became
   * durable: every hinted row is committed if and only if the commit was answered or the publish
   * staged no in-app row.
   */
  lemma HintedRowsDurableIff(dir: Directory, lib: Library, s: State, pub: Publication, recipients: seq<int>,
                             failing: set<CrmCall>, answered: bool)
    requires IsDigest(lib.sha) && s.pending == [] && s.outbox == s.committed && !s.aborted
    ensures var rows := RowsOf(dir, lib, s, Publish(pub, recipients, failing));
            var t := RunActs(dir, lib, s, Announce(pub, recipients, failing, answered));
            && t.pending == []
            && Pairs(t.emitted) == Pairs(s.emitted) + RowPairs(rows)
            && (t.committed.notifications == s.committed.notifications + rows <==> answered || rows == [])
  {
    var acts := Announce(pub, recipients, failing, answered);
    var s1 := Published(dir, lib, s, pub, recipients, failing).0;
    var s2 := Committed(s1, answered);
    RunOne(dir, lib, s, acts);
    RunOne(dir, lib, s1, [Commit(answered), Flush]);
    RunOne(dir, lib, s2, [Flush]);
    assert acts[1..] == [Commit(answered), Flush] && [Commit(answered), Flush][1..] == [Flush];
    PublishConserves(dir, lib, s, pub, recipients, failing);
    PairsAppend(s.emitted, s1.pending);
    var rows := RowsOf(dir, lib, s, Publish(pub, recipients, failing));
    assert s.committed.notifications + [] == s.committed.notifications;
    assert |s.committed.notifications + rows| == |s.committed.notifications| + |rows|;
  }
}
