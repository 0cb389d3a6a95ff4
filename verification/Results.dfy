/** Poll results: what the counts add up to, and what a withheld answer cannot depend on. */
module Results {
  import opened Prelude
  import opened LocalTables
  import opened NewsBoard
  import opened BoardInvariant

  // ---- tallies ------------------------------------------------------------

  function SumOfCounts(t: Tables, scope: Option<int>, id: int, options: seq<int>): nat {
    if options == [] then 0 else |VotesFor(t, scope, id, options[0])| + SumOfCounts(t, scope, id, options[1..])
  }

  function VotesAmong(t: Tables, scope: Option<int>, id: int, options: seq<int>): set<int> {
    set v | v in ScopedVotes(t, scope, id) && t.votes[v].option in options
  }

  lemma {:induction false} SumIsUnion(t: Tables, scope: Option<int>, id: int, options: seq<int>)
    requires NoDuplicates(options)
    ensures SumOfCounts(t, scope, id, options) == |VotesAmong(t, scope, id, options)|
  {
    if options == [] {
      assert VotesAmong(t, scope, id, options) == {};
    } else {
      SumIsUnion(t, scope, id, options[1..]);
      var head, tail := VotesFor(t, scope, id, options[0]), VotesAmong(t, scope, id, options[1..]);
      forall v ensures v in VotesAmong(t, scope, id, options) <==> v in head + tail {
        if v in tail { assert t.votes[v].option in options; }
      }
      assert forall i :: 0 <= i < |options[1..]| ==> options[1..][i] == options[i + 1] != options[0];
      assert VotesAmong(t, scope, id, options) == head + tail && head * tail == {};
    }
  }

  /** The voters of a set of vote rows are at most as many as the rows ... */
  lemma {:induction false} VotersAtMost(t: Tables, rows: set<int>)
    requires forall v :: v in rows ==> v in t.votes
    ensures |set v | v in rows :: t.votes[v].voter| <= |rows|
  {
    if rows != {} {
      var x := Inhabitant(rows);
      VotersAtMost(t, rows - {x});
      assert (set v | v in rows :: t.votes[v].voter)
          == (set v | v in rows - {x} :: t.votes[v].voter) + {t.votes[x].voter};
    }
  }

  /** ... and exactly as many when no two rows share a voter. */
  lemma {:induction false} VotersExactly(t: Tables, rows: set<int>)
    requires forall v :: v in rows ==> v in t.votes
    requires forall v, w :: v in rows && w in rows && t.votes[v].voter == t.votes[w].voter ==> v == w
    ensures |set v | v in rows :: t.votes[v].voter| == |rows|
  {
    if rows != {} {
      var x := Inhabitant(rows);
      VotersExactly(t, rows - {x});
      assert (set v | v in rows :: t.votes[v].voter)
          == (set v | v in rows - {x} :: t.votes[v].voter) + {t.votes[x].voter};
    }
  }

  /** No option can have more rows than there are distinct voters. */
  lemma CountAtMostVoters(t: Tables, scope: Option<int>, id: int, option: int)
    requires UniqueBallots(t)
    ensures |VotesFor(t, scope, id, option)| <= |DistinctVoters(t, scope, id)|
  {
    var rows := VotesFor(t, scope, id, option);
    VotersExactly(t, rows);
    SubsetCardinality(set v | v in rows :: t.votes[v].voter, DistinctVoters(t, scope, id));
  }

  lemma {:induction false} SumAtMost(t: Tables, scope: Option<int>, id: int, options: seq<int>)
    requires UniqueBallots(t)
    ensures SumOfCounts(t, scope, id, options) <= |DistinctVoters(t, scope, id)| * |options|
  {
    if options != [] {
      CountAtMostVoters(t, scope, id, options[0]);
      SumAtMost(t, scope, id, options[1..]);
    }
  }

  /**
   * Conservation: the per-option counts of a poll add up to its vote rows, in every community;
   * the distinct voters bound them from both sides, and on a single-choice poll they are equal.
   */
  lemma TalliesAddUp(db: Db, scope: Option<int>, id: int, options: seq<int>)
    requires Inv(db) && FindPost(db.tables, scope, id).Some?
    requires Enumerates(options, OptionsOf(db.tables, id))
    ensures var sum := SumOfCounts(db.tables, scope, id, options);
            var voters := |DistinctVoters(db.tables, scope, id)|;
            && sum == |PostVotes(db.tables, id)|
            && voters <= sum <= voters * |options|
            && (db.tables.posts[id].kind == SingleChoice ==> sum == voters)
  {
    var t := db.tables;
    ScopedCountIsTrueCount(t, scope, id);
    SumIsUnion(t, scope, id, options);
    forall v ensures v in VotesAmong(t, scope, id, options) <==> v in ScopedVotes(t, scope, id) {
      if v in ScopedVotes(t, scope, id) {
        assert t.votes[v].option in OptionsOf(t, id);
      }
    }
    assert VotesAmong(t, scope, id, options) == ScopedVotes(t, scope, id);
    SumAtMost(t, scope, id, options);
    VotersAtMost(t, ScopedVotes(t, scope, id));
    if t.posts[id].kind == SingleChoice {
      VotersExactly(t, ScopedVotes(t, scope, id));
    }
  }

  // ---- hiding -------------------------------------------------------------

  /** Two databases with the same board but possibly different votes. */
  ghost predicate SameBoard(a: Tables, b: Tables) {
    a.posts == b.posts && a.options == b.options
  }

  lemma SameOptions(a: Tables, b: Tables, id: int)
    requires SameBoard(a, b)
    ensures OptionsOf(a, id) == OptionsOf(b, id)
  {
  }

  /** A withheld answer depends on nothing in the vote table but whether the requester has voted. */
  lemma WithheldHidesVotes(a: Tables, b: Tables, ctx: Context, id: int)
    requires SameBoard(a, b) && HasVotedInResults(a, ctx, id) == HasVotedInResults(b, ctx, id)
    requires GetResults(a, ctx, id).Tallied? && GetResults(a, ctx, id).results.Withheld?
    ensures GetResults(b, ctx, id) == GetResults(a, ctx, id)
  {
  }

  /** An aggregate answer depends on votes only through the counts and the number of voters. */
  lemma AggregateHidesVoters(a: Tables, b: Tables, ctx: Context, id: int)
    requires SameBoard(a, b) && HasVotedInResults(a, ctx, id) == HasVotedInResults(b, ctx, id)
    requires GetResults(a, ctx, id).Tallied? && GetResults(a, ctx, id).results.Shown?
          && GetResults(a, ctx, id).results.mode == Aggregate
    requires |DistinctVoters(a, ctx.scope, id)| == |DistinctVoters(b, ctx.scope, id)|
    requires forall o :: o in OptionsOf(a, id) ==> |VotesFor(a, ctx.scope, id, o)| == |VotesFor(b, ctx.scope, id, o)|
    ensures GetResults(b, ctx, id) == GetResults(a, ctx, id)
  {
    SameOptions(a, b, id);
    forall o | o in OptionsOf(a, id) ensures TallyOf(a, ctx, id, Aggregate, o) == TallyOf(b, ctx, id, Aggregate, o) {}
    assert Tallies(a, ctx, id, Aggregate) == Tallies(b, ctx, id, Aggregate);
  }

  /** Voting settles only the after-vote question: nobody else's visibility depends on it. */
  lemma OnlyAfterVoteReadsVotes(p: Post, privileged: bool, ended: bool)
    ensures Visibility(p, privileged, true, ended) != Visibility(p, privileged, false, ended)
       <==> (!privileged && p.memberDisplay == Some(AfterVote)
             && p.memberVisibility.Some? && p.memberVisibility.value != MemberNone)
  {
  }

  ghost predicate NamesVoters(answer: PollResults, o: int) {
    answer.Shown? && exists tally :: tally in answer.tallies && tally.option == o && tally.voters.Some?
  }

  /** What the poll's settings promise about voter identities. */
  predicate MayNameVoters(t: Tables, ctx: Context, id: int)
    requires id in t.posts
  {
    var p := t.posts[id];
    if Privileged(ctx) then p.adminVisibility == Some(AdminFull)
    else
      && p.memberVisibility == Some(MemberFull)
      && (|| p.memberDisplay == Some(BeforeVote)
          || (p.memberDisplay == Some(AfterVote) && HasVotedInResults(t, ctx, id))
          || (p.memberDisplay == Some(WhenPollEnds) && PollEnded(p, ctx.now)))
  }

  /** Identities are shown exactly to those the poll's matrix grants full results, when it does. */
  lemma IdentitiesShownIff(t: Tables, ctx: Context, id: int, o: int)
    requires FindPost(t, ctx.scope, id).Some? && t.posts[id].kind.IsPoll() && o in OptionsOf(t, id)
    ensures NamesVoters(GetResults(t, ctx, id).results, o) <==> MayNameVoters(t, ctx, id)
  {
    var answer := GetResults(t, ctx, id).results;
    if answer.Shown? {
      var tally := TallyOf(t, ctx, id, answer.mode, o);
      assert tally in answer.tallies && tally.option == o;
      assert forall x :: x in answer.tallies ==> (x.voters.Some? <==> answer.mode == Full);
    }
  }

  /** On any board that requests can produce, a poll has a deadline and a full matrix. */
  lemma MatrixAlwaysSet(events: seq<Event>, id: int)
    requires id in Run(EMPTY, events).tables.posts && Run(EMPTY, events).tables.posts[id].kind.IsPoll()
    ensures var p := Run(EMPTY, events).tables.posts[id];
            p.expiresAt.Some? && p.adminVisibility.Some? && p.memberVisibility.Some? && p.memberDisplay.Some?
  {
    ReachableInv(events);
    assert FieldsFit(Run(EMPTY, events).tables.posts[id]);
  }

  /**
   * Who sees any result of a poll on a reachable board: a manager always; a member when the
   * poll grants members something and its moment has come. The fallbacks for an unset matrix
   * are never needed, because every poll has a full one.
   */
  lemma ShownIff(db: Db, ctx: Context, id: int)
    requires Inv(db) && FindPost(db.tables, ctx.scope, id).Some? && db.tables.posts[id].kind.IsPoll()
    ensures var p := db.tables.posts[id];
            && p.expiresAt.Some? && p.adminVisibility.Some? && p.memberVisibility.Some? && p.memberDisplay.Some?
            && GetResults(db.tables, ctx, id).Tallied?
            && (GetResults(db.tables, ctx, id).results.Shown?
                <==> Privileged(ctx)
                     || (p.memberVisibility.value != MemberNone
                         && match p.memberDisplay.value
                            case Never => false
                            case BeforeVote => true
                            case AfterVote => HasVotedInResults(db.tables, ctx, id)
                            case WhenPollEnds => p.expiresAt.value <= ctx.now))
  {
    assert FieldsFit(db.tables.posts[id]);
  }
}
