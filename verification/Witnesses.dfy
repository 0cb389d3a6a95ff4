/** One concrete input for each promise that the code does not keep; the exact conditions are proved elsewhere. */
module Witnesses {
  import opened Prelude
  import opened CanonicalJson
  import opened Decimal
  import opened DedupeKey
  import opened GatewayAuth
  import opened Text
  import opened LocalTables
  import opened NewsBoard
  import opened BoardInvariant
  import opened Ballots
  import opened CrmTables
  import opened Delivery
  import opened DeliveryExact
  import opened DeliveryRuns

  // ---- the board ----------------------------------------------------------

  const POLL := CreateRequest(SingleChoice, "When?", Some([OptionInput("May", None), OptionInput("June", None)]), Some(10),
                              Some(AdminAggregate), Some(MemberAggregate), Some(BeforeVote))

  const LATER := UpdateRequest(None, None, Some(20), None, None, None)

  const REWORDED := UpdateRequest(Some("When, then?"), None, None, None, None, None)

  function At(now: int, user: string): Context { Context(Some(7), Some(user), Some(Manager), now, map[]) }

  /** The empty board after one poll that closes at 10. */
  function Opened(): Db { Step(EMPTY, Event(At(0, "ann"), Create(POLL), NoFault)).0 }

  /** The poll of `Opened`, however far its deadline has been moved and whatever votes it has. */
  predicate HoldsPoll(t: Tables, deadline: int) {
    && 1 in t.posts && t.posts[1].community == 7 && t.posts[1].kind == SingleChoice && t.posts[1].expiresAt == Some(deadline)
    && t.options.Keys == {1, 2} && t.options[1].post == 1 && t.options[2].post == 1
  }

  lemma OpenedInOrder()
    ensures Inv(Opened())
  {
    StepKeeps(EMPTY, Event(At(0, "ann"), Create(POLL), NoFault));
  }

  lemma OpenedHoldsPoll()
    ensures HoldsPoll(Opened().tables, 10)
  {
    var options := Opened().tables.options;
    forall o ensures o in options.Keys <==> o in {1, 2} {
      assert o in options <==> 1 <= o < 3;
    }
  }

  lemma VoteInTime(db: Db, deadline: int, now: int, option: int)
    requires Inv(db) && HoldsPoll(db.tables, deadline) && option in {1, 2}
    ensures var (after, response) := CastVote(db, At(now, "bob"), 1, [option]);
            if now < deadline
            then response == Done && Inv(after) && HoldsPoll(after.tables, deadline) && Ballot(after.tables, 1, "bob") == {option}
            else response == Failed(PollExpired)
  {
    var ctx := At(now, "bob");
    if now < deadline {
      assert OpenPoll(db.tables, ctx, 1) == Success(db.tables.posts[1]);
      assert Dedupe([option]) == [option];
      assert option in OptionsOf(db.tables, 1);
      CastKeeps(db, ctx, 1, [option]);
      CastBallots(db, ctx, 1, [option]);
      assert Elements([option]) == {option};
    }
  }

  /** At its deadline the poll turns a voter away; moved on, it takes another vote at the same instant. */
  lemma ReopenedPollChangesVotes()
    ensures var voted := CastVote(Opened(), At(5, "bob"), 1, [1]).0;
            var reopened := Step(voted, Event(At(10, "ann"), Update(1, LATER), NoFault)).0;
            && CastVote(voted, At(10, "bob"), 1, [2]).1 == Failed(PollExpired)
            && CastVote(reopened, At(10, "bob"), 1, [2]).1 == Done
            && Ballot(reopened.tables, 1, "bob") == {1}
            && Ballot(CastVote(reopened, At(10, "bob"), 1, [2]).0.tables, 1, "bob") == {2}
  {
    OpenedInOrder();
    OpenedHoldsPoll();
    VoteInTime(Opened(), 10, 5, 1);
    var voted := CastVote(Opened(), At(5, "bob"), 1, [1]).0;
    VoteInTime(voted, 10, 10, 2);
    var event := Event(At(10, "ann"), Update(1, LATER), NoFault);
    var reopened := Step(voted, event).0;
    StepKeeps(voted, event);
    assert reopened.tables.votes == voted.tables.votes && HoldsPoll(reopened.tables, 20);
    assert Ballot(reopened.tables, 1, "bob") == Ballot(voted.tables, 1, "bob");
    VoteInTime(reopened, 20, 10, 2);
  }

  /** The read-back is lost: the editor is told of a failure, and the new text is committed. */
  lemma FailedUpdateMovesRows()
    ensures var (after, response) := Step(Opened(), Event(At(1, "ann"), Update(1, REWORDED), AfterCommit));
            response == Failed(Unavailable) && 1 in after.tables.posts && after.tables.posts[1].body == "When, then?"
            && 1 in Opened().tables.posts && Opened().tables.posts[1].body == "When?"
  {
    OpenedHoldsPoll();
    assert Opened().tables.posts[1].body == "When?";
  }

  // ---- the outbox ---------------------------------------------------------

  const NOBODY := Directory(map[], map[], map[])

  const NOTHING := Outbox([], [], [])

  /** A community lookup fails, and the audit entry the caller had staged cannot be committed any more. */
  lemma FailedLookupLosesAudit(lib: Library)
    requires IsDigest(lib.sha)
    ensures var s := State(NOTHING, NOTHING.(audit := ["entry"]), 1, false, [], []);
            var pub := Publication("news_post.published", CommunityTarget(7, None, None), Informational, [InApp], None, None);
            && IsAudience(NOBODY, pub.target, [])
            && Committed(Published(NOBODY, lib, s, pub, [], {}).0, true).committed.audit == ["entry"]
            && Committed(Published(NOBODY, lib, s, pub, [], {FindMembers}).0, true).committed.audit == []
  {
    var s := State(NOTHING, NOTHING.(audit := ["entry"]), 1, false, [], []);
    var pub := Publication("news_post.published", CommunityTarget(7, None, None), Informational, [InApp], None, None);
    assert Reached(NOBODY, 7, None, None) == {};
    assert FindMembers in {FindMembers} * CallsOutside(pub, [], PlanOf(NOBODY, lib, pub, 1, []));
  }

  const TWO := Directory(map[1 := AppUser("a", "a@x", None, None, None), 2 := AppUser("b", "b@x", None, None, None)], map[], map[])

  function Mail(key: Option<string>): Publication {
    Publication("bill.due", UsersTarget([1, 2], None), Transactional, [Email], None, key)
  }

  lemma BothMailed(key: Option<string>)
    ensures Through(TWO, Mail(key), [1, 2], Email) == [1, 2]
  {
    var pub := Mail(key);
    assert Email in Effective(TWO, pub, 1) && Email in Effective(TWO, pub, 2);
    assert Through(TWO, pub, [2], Email) == [2] by { assert [2][1..] == []; }
    assert [1, 2][1..] == [2];
    assert Through(TWO, pub, [1, 2], Email) == [1] + Through(TWO, pub, [2], Email);
  }

  lemma BothAddressable()
    ensures Addressable(TWO, 1) && Addressable(TWO, 2)
  {
  }

  lemma CandidatesOfTwo(dir: Directory, lib: Library, pub: Publication, rows: seq<Notification>, u: int, v: int)
    requires IsDigest(lib.sha) && Addressable(dir, u) && Addressable(dir, v)
    ensures |Candidates(dir, lib, pub, rows, [u, v])| == 2
  {
    assert [u, v][1..] == [v] && [v][1..] == [];
    assert Candidates(dir, lib, pub, rows, [v]) == [MessageFor(dir, lib, pub, rows, v)];
  }

  lemma TwoCandidates(lib: Library, key: Option<string>)
    requires IsDigest(lib.sha)
    ensures IsAudience(TWO, Mail(key).target, [1, 2]) && |PlanOf(TWO, lib, Mail(key), 1, [1, 2]).candidates| == 2
  {
    BothMailed(key);
    BothAddressable();
    CandidatesOfTwo(TWO, lib, Mail(key), PlanOf(TWO, lib, Mail(key), 1, [1, 2]).rows, 1, 2);
    assert Dedupe([1, 2]) == [1, 2];
  }

  /** Two people are to be told, under a key their caller chose: one message is queued. */
  lemma OverrideDropsRecipient(lib: Library)
    requires IsDigest(lib.sha)
    ensures var s := State(NOTHING, NOTHING, 1, false, [], []);
            && |PlanOf(TWO, lib, Mail(Some("k")), 1, [1, 2]).candidates| == 2
            && |Published(TWO, lib, s, Mail(Some("k")), [1, 2], {}).0.outbox.messages| == 1
            && |Published(TWO, lib, s, Mail(None), [1, 2], {}).0.outbox.messages| == 2
  {
    var s := State(NOTHING, NOTHING, 1, false, [], []);
    TwoCandidates(lib, Some("k"));
    TwoCandidates(lib, None);
    FaultlessLands(lib, Some("k"));
    FaultlessLands(lib, None);
    OverriddenPublishQueuesOne(TWO, lib, s, Mail(Some("k")), [1, 2], {});
    PublishQueuesAllIff(TWO, lib, s, Mail(None), [1, 2], {});
  }

  lemma FaultlessLands(lib: Library, key: Option<string>)
    requires IsDigest(lib.sha)
    ensures var s := State(NOTHING, NOTHING, 1, false, [], []);
            Lands(s, Mail(key), [1, 2], PlanOf(TWO, lib, Mail(key), 1, [1, 2]), {})
  {
    BothMailed(key);
    assert PlanOf(TWO, lib, Mail(key), 1, [1, 2]).byEmail[0] == 1;
  }

  const NUDGE := Publication("bill.due", UserTarget(1, None), Transactional, [InApp], None, None)

  lemma NudgeReaches(lib: Library)
    requires IsDigest(lib.sha)
    ensures PlanOf(NOBODY, lib, NUDGE, 1, [1]).inApp == [1]
  {
    assert InApp in Effective(NOBODY, NUDGE, 1);
    assert [1][1..] == [];
    assert Through(NOBODY, NUDGE, [1], InApp) == [1];
  }

  /** The commit is lost and the hint goes out all the same. */
  lemma HintWithoutRow(lib: Library)
    requires IsDigest(lib.sha)
    ensures var s := State(NOTHING, NOTHING, 1, false, [], []);
            var end := RunActs(NOBODY, lib, s, Announce(NUDGE, [1], {}, false));
            end.committed == NOTHING && end.emitted == [Hint([1], None)]
  {
    var s := State(NOTHING, NOTHING, 1, false, [], []);
    NudgeReaches(lib);
    var published := Published(NOBODY, lib, s, NUDGE, [1], {}).0;
    AllOrNothing(NOBODY, lib, s, NUDGE, [1], {});
    RunOne(NOBODY, lib, s, Announce(NUDGE, [1], {}, false));
    RunOne(NOBODY, lib, published, [Commit(false), Flush]);
    RunOne(NOBODY, lib, Committed(published, false), [Flush]);
    assert Announce(NUDGE, [1], {}, false)[1..] == [Commit(false), Flush] && [Commit(false), Flush][1..] == [Flush];
  }

  /** The longest type gives an address key six characters more than its documented bound. */
  lemma AddressKeyIsLonger(lib: Library)
    requires IsDigest(lib.sha)
    ensures var kind := seq(128, _ => 'x');
            |BuildDedupeKey(lib.sha, lib.lower, ChannelCode(Email), kind, Obj([]), None, Some("a@x"), None)| == 181
  {
    var kind := seq(128, _ => 'x');
    DerivedKeyLength(lib.sha, lib.lower, ChannelCode(Email), kind, Obj([]), None, Some("a@x"));
  }

  // ---- texts --------------------------------------------------------------

  const BOSS := Org("1", "/", ["ADMIN"], true)

  lemma HeaderIsPrinted()
    ensures PrintOrgs([BOSS]) == "[orgId:1 orgPath:/ roles:[ADMIN]]"
  {
    PrintExact([BOSS]);
    assert RolesText(BOSS) == "ADMIN";
    assert "roles:[" + ("ADMIN" + ("]" + ("]" + ""))) == "roles:[ADMIN]]";
    assert "orgPath:" + ("/" + (" " + "roles:[ADMIN]]")) == "orgPath:/ roles:[ADMIN]]";
    assert "[" + ("orgId:" + ("1" + (" " + "orgPath:/ roles:[ADMIN]]"))) == "[orgId:1 orgPath:/ roles:[ADMIN]]";
  }

  /** One header, read. */
  lemma HeaderIsRead()
    ensures ParsedOrgs("[orgId:1 orgPath:/ roles:[ADMIN]]") == [OrgToken("1", "/", Admin)]
  {
    HeaderIsPrinted();
    assert OrgOk(BOSS);
    ParseOfPrint([BOSS]);
    HighestRoleExact(["ADMIN"]);
    assert [BOSS][1..] == [];
  }

  /** A line break is escaped and an accented letter is not. */
  lemma StringText()
    ensures Canonical(Str("\U{00e9}\n")) == "\"\U{00e9}\\n\""
  {
    var text := "\U{00e9}\n";
    assert text[1..] == "\n" && "\n"[1..] == "";
    assert Escape("", "") == "\"";
    assert Escape("\n", "") == "\\n\"";
    assert Escape(text, "") == "\U{00e9}\\n\"";
  }
}
