/** What one publish reaches, writes and queues, spelled out on the directory and the publication. */
module DeliveryExact {
  import opened Prelude
  import opened Text
  import opened Decimal
  import opened CanonicalJson
  import opened DedupeKey
  import opened CrmTables
  import opened Delivery

  // ---- the audience -------------------------------------------------------

  /** A community target reaches its members with a wanted role, if roles are given, without the named author. */
  lemma AudienceExact(dir: Directory, target: Target, recipients: seq<int>, u: int)
    requires IsAudience(dir, target, recipients)
    ensures u in recipients <==>
      match target
      case UserTarget(user, _) => u == user
      case UsersTarget(users, _) => u in users
      case CommunityTarget(id, roles, exclude) =>
        var key := CrmTables.MemberKey(id, u);
        && key in dir.members
        && (roles.None? || roles.value == [] || dir.members[key] in roles.value)
        && !(exclude.Some? && exclude.value != "" && u in dir.users && dir.users[u].authId == exclude.value)
  {
    match target
    case UserTarget(_, _) =>
    case UsersTarget(_, _) =>
    case CommunityTarget(id, roles, exclude) =>
      var reached, key := Reached(dir, id, roles, exclude), CrmTables.MemberKey(id, u);
      assert u in recipients <==> u in reached;
      if key in dir.members && RoleWanted(roles, dir.members[key]) && !Excluded(dir, exclude, u) {
        assert key.community == id && key.user == u;
      }
      if u in reached {
        var k :| k in dir.members && k.community == id && RoleWanted(roles, dir.members[k])
              && !Excluded(dir, exclude, k.user) && k.user == u;
        assert k == key;
      }
  }

  /** An explicit list of users keeps the order of their first mention. */
  lemma {:induction false} DedupeKeepsOrder(s: seq<int>, i: nat, j: nat)
    requires i < j < |Dedupe(s)|
    ensures exists k :: 0 <= k < |s| && s[k] == Dedupe(s)[i] && Dedupe(s)[j] !in s[..k + 1]
  {
    var init, last := s[..|s| - 1], s[|s| - 1];
    var d := Dedupe(init);
    if j < |d| {
      DedupeKeepsOrder(init, i, j);
      var k :| 0 <= k < |init| && init[k] == d[i] && d[j] !in init[..k + 1];
      assert s[k] == init[k] && s[..k + 1] == init[..k + 1];
    } else {
      assert Dedupe(s)[j] == last && last !in init;
      assert d[i] in init;
      var k :| 0 <= k < |init| && init[k] == d[i];
      assert s[k] == init[k] && s[..k + 1] == init[..k + 1];
    }
  }

  // ---- channels -----------------------------------------------------------

  /** A channel is used for a recipient if it was asked for and, unless the message must arrive, is not switched off. */
  ghost predicate Wanted(dir: Directory, pub: Publication, user: int, channel: Channel) {
    && channel in pub.channels
    && (pub.category == Transactional || !SwitchedOff(dir, user, TypePrefixOf(pub.kind), channel))
  }

  /** Who is told in the app and who by email, from the preference rows. */
  lemma ChannelsExact(dir: Directory, lib: Library, pub: Publication, first: int, recipients: seq<int>, u: int)
    requires IsDigest(lib.sha)
    ensures var plan := PlanOf(dir, lib, pub, first, recipients);
            && (u in plan.inApp <==> u in recipients && Wanted(dir, pub, u, InApp))
            && (u in plan.byEmail <==> u in recipients && Wanted(dir, pub, u, Email))
  {
    ThroughElements(dir, pub, recipients, InApp);
    ThroughElements(dir, pub, recipients, Email);
    ModeFromRows(dir, u, TypePrefixOf(pub.kind), InApp);
    ModeFromRows(dir, u, TypePrefixOf(pub.kind), Email);
  }

  /** The specific row wins: it alone decides, whatever the default row says. */
  lemma SpecificRowWins(dir: Directory, lib: Library, pub: Publication, first: int, recipients: seq<int>, u: int)
    requires IsDigest(lib.sha) && pub.category == Informational && InApp in pub.channels && u in recipients
    requires PreferenceKey(u, TypePrefixOf(pub.kind), InApp) in dir.preferences
    ensures u in PlanOf(dir, lib, pub, first, recipients).inApp
       <==> dir.preferences[PreferenceKey(u, TypePrefixOf(pub.kind), InApp)] != 3
  {
    ChannelsExact(dir, lib, pub, first, recipients, u);
  }

  /** Without a specific row the default row decides, and without either the recipient is told. */
  lemma DefaultRowDecides(dir: Directory, lib: Library, pub: Publication, first: int, recipients: seq<int>, u: int)
    requires IsDigest(lib.sha) && pub.category == Informational && InApp in pub.channels && u in recipients
    requires PreferenceKey(u, TypePrefixOf(pub.kind), InApp) !in dir.preferences
    ensures u in PlanOf(dir, lib, pub, first, recipients).inApp
       <==> (PreferenceKey(u, "", InApp) in dir.preferences ==> dir.preferences[PreferenceKey(u, "", InApp)] != 3)
  {
    ChannelsExact(dir, lib, pub, first, recipients, u);
  }

  /** The prefix of a two-part type is its first part. */
  lemma {:induction false} PrefixOfType(head: string, tail: string)
    requires '.' !in head
    ensures TypePrefixOf(head + ['.'] + tail) == head
  {
    var s := head + ['.'] + tail;
    if head != "" {
      assert s[0] == head[0] && s[1..] == head[1..] + ['.'] + tail;
      PrefixOfType(head[1..], tail);
    }
  }

  // ---- rows and messages --------------------------------------------------

  function CommunityOf(target: Target): Option<int> {
    if target.UserTarget? then target.community
    else if target.UsersTarget? then target.community
    else Some(target.id)
  }

  /** Each in-app row, field by field. */
  lemma RowExact(dir: Directory, lib: Library, pub: Publication, first: int, recipients: seq<int>, i: nat)
    requires IsDigest(lib.sha) && i < |PlanOf(dir, lib, pub, first, recipients).rows|
    ensures var plan := PlanOf(dir, lib, pub, first, recipients);
            && |plan.rows| == |plan.inApp|
            && var row := plan.rows[i];
               && row.user == plan.inApp[i] && row.id == first + i && row.kind == pub.kind
               && row.community == CommunityOf(pub.target)
               && row.data == if pub.data.Some? then pub.data.value else Obj([])
  {
    var plan := PlanOf(dir, lib, pub, first, recipients);
    var k: int := i;
    assert plan.rows[k] == Notification(first + k, SourceCommunity(pub.target), plan.inApp[k], pub.kind, Payload(pub));
  }

  /** Nothing but white space at the ends is lost, and all of it is. */
  lemma {:induction false} StripRightExact(s: string) returns (after: string)
    ensures s == StripRight(s) + after && forall i :: 0 <= i < |after| ==> IsSpace(after[i])
    ensures StripRight(s) != "" ==> !IsSpace(StripRight(s)[|StripRight(s)| - 1])
  {
    if s != "" && IsSpace(s[|s| - 1]) {
      after := StripRightExact(s[..|s| - 1]);
      after := after + [s[|s| - 1]];
    } else {
      after := "";
    }
  }

  lemma {:induction false} StripLeftExact(s: string) returns (before: string)
    ensures s == before + StripLeft(s) && forall i :: 0 <= i < |before| ==> IsSpace(before[i])
    ensures StripLeft(s) != "" ==> !IsSpace(StripLeft(s)[0])
  {
    if s != "" && IsSpace(s[0]) {
      before := StripLeftExact(s[1..]);
      before := [s[0]] + before;
    } else {
      before := "";
    }
  }

  ghost predicate StrippedTo(s: string, core: string) {
    && (core != "" ==> !IsSpace(core[0]) && !IsSpace(core[|core| - 1]))
    && exists before, after :: s == before + core + after
         && (forall i :: 0 <= i < |before| ==> IsSpace(before[i])) && (forall i :: 0 <= i < |after| ==> IsSpace(after[i]))
  }

  lemma StripExact(s: string)
    ensures StrippedTo(s, Strip(s))
  {
    var before := StripLeftExact(s);
    var after := StripRightExact(StripLeft(s));
    assert s == before + Strip(s) + after;
    assert Strip(s) != "" ==> Strip(s)[0] == StripLeft(s)[0];
  }

  ghost predicate Blank(name: Option<string>) { name.None? || Strip(name.value) == "" }

  /** The parts of a name that are there, with one blank between two. */
  ghost predicate NameSays(first: Option<string>, last: Option<string>, name: Option<string>) {
    && (Blank(first) && Blank(last) ==> name == None)
    && (!Blank(first) && Blank(last) ==> name == first)
    && (Blank(first) && !Blank(last) ==> name == last)
    && (!Blank(first) && !Blank(last) ==> name == Some(first.value + " " + last.value))
  }

  lemma NameExact(first: Option<string>, last: Option<string>)
    ensures NameSays(first, last, JoinNames(first, last))
  {
    assert Strip("") == "";
  }

  /** The text of a key. */
  lemma KeyExact(sha: string -> string, lower: string -> string, channel: int, kind: string, data: Json,
                 idUser: Option<int>, recipient: Option<string>, override: Option<string>)
    requires IsDigest(sha)
    ensures BuildDedupeKey(sha, lower, channel, kind, data, idUser, recipient, override)
         == if override.Some? && override.value != "" then
              (if |override.value| <= 200 then override.value else override.value[..200])
            else if idUser.Some? then
              IntText(channel) + ":" + kind + ":u" + IntText(idUser.value) + ":" + sha(Canonical(data))[..32]
            else
              IntText(channel) + ":" + kind + ":a" + sha(lower(Strip(if recipient.Some? then recipient.value else "")))[..16]
              + ":" + sha(Canonical(data))[..32]
  {
    if !(override.Some? && override.value != "") {
      var c, h := IntText(channel), sha(Canonical(data))[..32];
      if idUser.Some? {
        var r := IntText(idUser.value);
        assert c + [':'] + kind + [':'] + (['u'] + r) + [':'] + h == c + ":" + kind + ":u" + r + ":" + h;
      } else {
        var r := sha(lower(Strip(if recipient.Some? then recipient.value else "")))[..16];
        assert c + [':'] + kind + [':'] + (['a'] + r) + [':'] + h == c + ":" + kind + ":a" + r + ":" + h;
      }
    }
  }

  /** One queued message, field by field. */
  ghost predicate MessageSays(dir: Directory, lib: Library, pub: Publication, u: int, m: Message)
    requires IsDigest(lib.sha) && u in dir.users
  {
    var user, data := dir.users[u], if pub.data.Some? then pub.data.value else Obj([]);
    && m.channel == Email && m.recipient == Strip(user.email)
    && NameSays(user.firstName, user.lastName, m.recipientName)
    && m.locale == (if user.locale.Some? then user.locale.value else "")
    && m.community == CommunityOf(pub.target)
    && m.kind == pub.kind && m.category == pub.category && m.data == data
    && m.dedupeKey == if pub.dedupeKey.Some? && pub.dedupeKey.value != "" then
                        (if |pub.dedupeKey.value| <= 200 then pub.dedupeKey.value else pub.dedupeKey.value[..200])
                      else "2:" + pub.kind + ":u" + IntText(u) + ":" + lib.sha(Canonical(data))[..32]
  }

  /** Has an address that cannot break out of a mail header. */
  ghost predicate Reachable(dir: Directory, u: int) {
    u in dir.users && Strip(dir.users[u].email) != ""
    && '\r' !in Strip(dir.users[u].email) && '\n' !in Strip(dir.users[u].email)
  }

  /** The message points at the recipient's own new row, or at none if there is none. */
  ghost predicate LinkSays(rows: seq<Notification>, u: int, m: Message) {
    if exists i :: 0 <= i < |rows| && rows[i].user == u
    then exists i :: 0 <= i < |rows| && rows[i].user == u && m.notification == Some(rows[i].id)
    else m.notification == None
  }

  lemma MessageForSays(dir: Directory, lib: Library, pub: Publication, rows: seq<Notification>, u: int)
    requires IsDigest(lib.sha) && u in dir.users
    ensures MessageSays(dir, lib, pub, u, MessageFor(dir, lib, pub, rows, u))
  {
    var user := dir.users[u];
    NameExact(user.firstName, user.lastName);
    KeyExact(lib.sha, lib.lower, ChannelCode(Email), pub.kind, Payload(pub), Some(u), None, pub.dedupeKey);
    assert IntText(2) == "2";
    assert IntText(ChannelCode(Email)) + ":" == "2:";
  }

  lemma SameSayings(dir: Directory, lib: Library, pub: Publication, u: int, m: Message, n: Message)
    requires IsDigest(lib.sha) && u in dir.users
    requires MessageSays(dir, lib, pub, u, m) && MessageSays(dir, lib, pub, u, n)
    ensures m == n.(notification := m.notification)
  {
  }

  lemma {:induction false} LinkOf(rows: seq<Notification>, u: int)
    ensures match NotificationFor(rows, u)
            case Some(id) => exists i :: 0 <= i < |rows| && rows[i].user == u && rows[i].id == id
            case None => forall i :: 0 <= i < |rows| ==> rows[i].user != u
  {
    if rows != [] && rows[|rows| - 1].user != u {
      LinkOf(rows[..|rows| - 1], u);
      if NotificationFor(rows, u).Some? {
        var i :| 0 <= i < |rows| - 1 && rows[..|rows| - 1][i].user == u && rows[..|rows| - 1][i].id == NotificationFor(rows, u).value;
        assert rows[i] == rows[..|rows| - 1][i];
      } else {
        forall i | 0 <= i < |rows| ensures rows[i].user != u {
          if i < |rows| - 1 { assert rows[i] == rows[..|rows| - 1][i]; }
        }
      }
    }
  }

  /**
   * The messages to queue are exactly these: one for each recipient with EMAIL wanted and a usable
   * address, saying what `MessageSays` says and pointing at the recipient's own row.
   */
  lemma MessagesExact(dir: Directory, lib: Library, pub: Publication, first: int, recipients: seq<int>, m: Message)
    requires IsDigest(lib.sha) && IsAudience(dir, pub.target, recipients)
    ensures var plan := PlanOf(dir, lib, pub, first, recipients);
            m in plan.candidates <==> exists u ::
              && u in recipients && Wanted(dir, pub, u, Email) && Reachable(dir, u)
              && MessageSays(dir, lib, pub, u, m) && LinkSays(plan.rows, u, m)
  {
    var plan := PlanOf(dir, lib, pub, first, recipients);
    CandidatesExact(dir, lib, pub, plan.rows, plan.byEmail, m);
    forall u ensures (u in plan.byEmail && Addressable(dir, u) && m == MessageFor(dir, lib, pub, plan.rows, u))
                <==> (&& u in recipients && Wanted(dir, pub, u, Email) && Reachable(dir, u)
                      && MessageSays(dir, lib, pub, u, m) && LinkSays(plan.rows, u, m)) {
      ChannelsExact(dir, lib, pub, first, recipients, u);
      if Reachable(dir, u) { OneMessage(dir, lib, pub, first, recipients, u, m); }
    }
  }

  lemma OneMessage(dir: Directory, lib: Library, pub: Publication, first: int, recipients: seq<int>, u: int, m: Message)
    requires IsDigest(lib.sha) && IsAudience(dir, pub.target, recipients) && u in dir.users
    ensures var rows := PlanOf(dir, lib, pub, first, recipients).rows;
            m == MessageFor(dir, lib, pub, rows, u) <==> MessageSays(dir, lib, pub, u, m) && LinkSays(rows, u, m)
  {
    var rows := PlanOf(dir, lib, pub, first, recipients).rows;
    var n := MessageFor(dir, lib, pub, rows, u);
    MessageForSays(dir, lib, pub, rows, u);
    LinkOf(rows, u);
    InAppExact(dir, lib, pub, first, recipients);
    if MessageSays(dir, lib, pub, u, m) { SameSayings(dir, lib, pub, u, m, n); }
    if LinkSays(rows, u, m) && m.notification.Some? {
      var i :| 0 <= i < |rows| && rows[i].user == u && m.notification == Some(rows[i].id);
      var j :| 0 <= j < |rows| && rows[j].user == u && n.notification == Some(rows[j].id);
      assert i == j;
    }
  }

  // ---- the outbound table -------------------------------------------------

  /** The rows that are inserted: of each unused key, the first candidate that has it. */
  ghost predicate FirstOfItsKey(messages: seq<Message>, rows: seq<Message>, i: nat)
    requires i < |rows|
  {
    && (forall k :: 0 <= k < |messages| ==> messages[k].dedupeKey != rows[i].dedupeKey)
    && (forall k :: 0 <= k < i ==> rows[k].dedupeKey != rows[i].dedupeKey)
  }

  lemma FirstOfItsKeyLater(messages: seq<Message>, rows: seq<Message>, i: nat)
    requires i < |rows| - 1
    ensures var more := if HasKey(messages, rows[0].dedupeKey) then messages else messages + [rows[0]];
            FirstOfItsKey(messages, rows, i + 1) <==> FirstOfItsKey(more, rows[1..], i)
  {
    var more := if HasKey(messages, rows[0].dedupeKey) then messages else messages + [rows[0]];
    var rest := rows[1..];
    assert rest[i] == rows[i + 1];
    if FirstOfItsKey(messages, rows, i + 1) {
      forall k | 0 <= k < i ensures rest[k].dedupeKey != rest[i].dedupeKey {
        assert rest[k] == rows[k + 1];
      }
    }
    if FirstOfItsKey(more, rest, i) {
      forall k | 0 <= k < |messages| ensures messages[k].dedupeKey != rest[i].dedupeKey {
        assert more[k] == messages[k];
      }
      forall k | 0 <= k < i + 1 ensures rows[k].dedupeKey != rest[i].dedupeKey {
        if k == 0 {
          if HasKey(messages, rows[0].dedupeKey) {
            var q :| 0 <= q < |messages| && messages[q].dedupeKey == rows[0].dedupeKey;
          } else {
            assert more[|messages|] == rows[0];
          }
        } else {
          assert rest[k - 1] == rows[k];
        }
      }
    }
  }

  lemma {:induction false} InsertedExact(messages: seq<Message>, rows: seq<Message>, m: Message)
    ensures m in InsertNew(messages, rows)
       <==> m in messages || exists i: nat :: i < |rows| && rows[i] == m && FirstOfItsKey(messages, rows, i)
    decreases |rows|
  {
    if rows != [] {
      var more := if HasKey(messages, rows[0].dedupeKey) then messages else messages + [rows[0]];
      var rest := rows[1..];
      InsertedExact(more, rest, m);
      forall i: nat | i < |rest| ensures FirstOfItsKey(messages, rows, i + 1) <==> FirstOfItsKey(more, rest, i) {
        FirstOfItsKeyLater(messages, rows, i);
      }
      HeadInserted(messages, rows);
      if i: nat :| i < |rows| && rows[i] == m && FirstOfItsKey(messages, rows, i) {
        if i > 0 { assert rest[i - 1] == m && FirstOfItsKey(messages, rows, (i - 1) + 1); }
      }
      if i: nat :| i < |rest| && rest[i] == m && FirstOfItsKey(more, rest, i) {
        assert rows[i + 1] == m && FirstOfItsKey(messages, rows, i + 1);
      }
    }
  }

  lemma HeadInserted(messages: seq<Message>, rows: seq<Message>)
    requires rows != []
    ensures FirstOfItsKey(messages, rows, 0) <==> !HasKey(messages, rows[0].dedupeKey)
  {
  }

  // ---- all or nothing -----------------------------------------------------

  /** The calls this publish makes, and none of them fails. */
  ghost predicate NoneFails(pub: Publication, recipients: seq<int>, plan: Plan, failing: set<CrmCall>) {
    && (pub.target.CommunityTarget? ==> FindMembers !in failing)
    && (pub.target.CommunityTarget? && pub.target.excludeAuthId.Some? && pub.target.excludeAuthId.value != "" ==> ResolveUser !in failing)
    && (pub.category == Informational ==> CrmCall.FindPreferences !in failing)
    && OpenSavepoint !in failing && ReleaseSavepoint !in failing
    && (plan.inApp != [] ==> InsertNotifications !in failing)
    && (plan.byEmail != [] ==> FindContacts !in failing)
    && (plan.candidates != [] ==> InsertOutbound !in failing)
  }

  /**
   * Every row, every message and the hint, or none of them and a count of zero; and all of them
   * exactly when there is somebody to tell and none of the calls that need to be made fails.
   */
  lemma AllOrNothing(dir: Directory, lib: Library, s: State, pub: Publication, recipients: seq<int>, failing: set<CrmCall>)
    requires IsDigest(lib.sha) && !s.aborted
    ensures var plan := PlanOf(dir, lib, pub, s.next, recipients);
            var (t, count) := Published(dir, lib, s, pub, recipients, failing);
            && t.committed == s.committed && t.emitted == s.emitted && t.outbox.audit == s.outbox.audit
            && if (plan.inApp != [] || plan.byEmail != []) && NoneFails(pub, recipients, plan, failing)
               then && t.outbox.notifications == s.outbox.notifications + plan.rows
                    && t.outbox.messages == InsertNew(s.outbox.messages, plan.candidates)
                    && t.pending == s.pending + (if plan.inApp == [] then [] else [Hint(plan.inApp, CommunityOf(pub.target))])
                    && count == |plan.inApp| && !t.aborted
               else t.outbox == s.outbox && t.pending == s.pending && count == 0
  {
    var plan := PlanOf(dir, lib, pub, s.next, recipients);
    if plan.inApp != [] || plan.byEmail != [] {
      assert recipients != [];
      LandsIff(s, pub, recipients, plan, failing);
    }
    assert s.pending + [] == s.pending;
  }

  lemma LandsIff(s: State, pub: Publication, recipients: seq<int>, plan: Plan, failing: set<CrmCall>)
    requires !s.aborted && recipients != [] && !Empty(plan)
    ensures Lands(s, pub, recipients, plan, failing) <==> NoneFails(pub, recipients, plan, failing)
  {
    var calls := CallsOutside(pub, recipients, plan) + CallsInside(plan);
    if NoneFails(pub, recipients, plan, failing) {
      forall call ensures call !in failing * calls {}
    }
    if failing * calls == {} {
      forall call | call in calls ensures call !in failing {
        assert call !in failing * calls;
      }
    }
  }
}
