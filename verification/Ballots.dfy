/** The vote table as a plain map from (post, voter) to the set of chosen options. */
module Ballots {
  import opened Prelude
  import opened LocalTables
  import opened NewsBoard
  import opened BoardInvariant
  import opened BoardHistory

  type BallotBox = map<(int, string), set<int>>

  function Ballot(t: Tables, post: int, voter: string): set<int> {
    set v | v in t.votes && t.votes[v].post == post && t.votes[v].voter == voter :: t.votes[v].option
  }

  function Voted(t: Tables): set<(int, string)> {
    set v | v in t.votes :: (t.votes[v].post, t.votes[v].voter)
  }

  function BoxOf(t: Tables): BallotBox {
    map k | k in Voted(t) :: Ballot(t, k.0, k.1)
  }

  /** What a request does to the map, told from the request and its answer alone. */
  function BoxStep(box: BallotBox, ctx: Context, req: Request, response: Response): BallotBox {
    if !response.Done? || ctx.user.None? then box
    else match req
      case Cast(id, optionIds) =>
        var chosen := Elements(optionIds);
        if chosen == {} then box - {(id, ctx.user.value)} else box[(id, ctx.user.value) := chosen]
      case Retract(id) => box - {(id, ctx.user.value)}
      case _ => box
  }

  /** Deleting a post forgets its ballots and no others. */
  function Forget(box: BallotBox, id: int): BallotBox {
    map k | k in box && k.0 != id :: box[k]
  }

  function BoxAfter(box: BallotBox, ctx: Context, req: Request, response: Response): BallotBox {
    if req.Delete? && response.Done? then Forget(box, req.id) else BoxStep(box, ctx, req, response)
  }

  /** Two tables have the same ballots as soon as each key has the same ballot. */
  lemma BoxEqual(t: Tables, box: BallotBox)
    requires forall k :: k in box <==> Ballot(t, k.0, k.1) != {}
    requires forall k :: k in box ==> box[k] == Ballot(t, k.0, k.1)
    ensures BoxOf(t) == box
  {
    forall k: (int, string) ensures k in Voted(t) <==> Ballot(t, k.0, k.1) != {} {
      VotedIffBallot(t, k.0, k.1);
    }
    assert forall k :: k in BoxOf(t) <==> k in box;
  }

  lemma VotedIffBallot(t: Tables, post: int, voter: string)
    ensures (post, voter) in Voted(t) <==> Ballot(t, post, voter) != {}
  {
    if (post, voter) in Voted(t) {
      var v :| v in t.votes && (t.votes[v].post, t.votes[v].voter) == (post, voter);
      assert t.votes[v].option in Ballot(t, post, voter);
    }
    if Ballot(t, post, voter) != {} {
      var o := Inhabitant(Ballot(t, post, voter));
      var v :| v in t.votes && t.votes[v].post == post && t.votes[v].voter == voter && t.votes[v].option == o;
      assert (t.votes[v].post, t.votes[v].voter) == (post, voter);
    }
  }

  lemma BoxAt(t: Tables, post: int, voter: string)
    ensures (post, voter) in BoxOf(t) <==> Ballot(t, post, voter) != {}
    ensures (post, voter) in BoxOf(t) ==> BoxOf(t)[(post, voter)] == Ballot(t, post, voter)
  {
    VotedIffBallot(t, post, voter);
  }

  lemma SameVotesSameBox(t: Tables, u: Tables)
    requires t.votes == u.votes
    ensures BoxOf(t) == BoxOf(u)
  {
    forall post: int, voter: string ensures Ballot(t, post, voter) == Ballot(u, post, voter) {}
  }

  /** Dropping a voter's rows in scope empties exactly that voter's ballot on the post. */
  lemma DroppedBallots(db: Db, scope: Option<int>, id: int, voter: string)
    requires Inv(db) && FindPost(db.tables, scope, id).Some?
    ensures var u := DropVotes(db.tables, VoterVotes(db.tables, scope, id, voter));
            && Ballot(u, id, voter) == {}
            && forall q, w :: (q, w) != (id, voter) ==> Ballot(u, q, w) == Ballot(db.tables, q, w)
  {
    ScopedCountIsTrueCount(db.tables, scope, id);
    var t := db.tables;
    var gone := VoterVotes(t, scope, id, voter);
    forall v | v in t.votes ensures v in gone <==> t.votes[v].post == id && t.votes[v].voter == voter {
      if t.votes[v].post == id { assert v in PostVotes(t, id); }
    }
    var u := DropVotes(t, gone);
    forall q, w | (q, w) != (id, voter) ensures Ballot(u, q, w) == Ballot(t, q, w) {
      forall o | o in Ballot(t, q, w) ensures o in Ballot(u, q, w) {
        var v :| v in t.votes && t.votes[v].post == q && t.votes[v].voter == w && t.votes[v].option == o;
        assert v in u.votes;
      }
    }
  }

  lemma InsertedBallots(t: Tables, first: nat, selected: seq<int>, id: int, community: int, voter: string)
    requires forall v :: v in t.votes ==> v < first
    requires Ballot(t, id, voter) == {}
    ensures var u := AddVotes(t, first, NewVotes(selected, id, community, voter));
            && Ballot(u, id, voter) == Elements(selected)
            && forall q, w :: (q, w) != (id, voter) ==> Ballot(u, q, w) == Ballot(t, q, w)
  {
    AddedVotes(t, first, selected, id, community, voter);
    VotedIffBallot(t, id, voter);
    assert forall v :: v in t.votes ==> (t.votes[v].post, t.votes[v].voter) in Voted(t);
    var u := AddVotes(t, first, NewVotes(selected, id, community, voter));
    forall o | o in Elements(selected) ensures o in Ballot(u, id, voter) {
      var i :| 0 <= i < |selected| && selected[i] == o;
      assert u.votes[first + i].option == o;
    }
    forall o | o in Ballot(u, id, voter) ensures o in Elements(selected) {
      var v :| v in u.votes && u.votes[v].post == id && u.votes[v].voter == voter && u.votes[v].option == o;
    }
    forall q, w | (q, w) != (id, voter) ensures Ballot(u, q, w) == Ballot(t, q, w) {
      forall o | o in Ballot(t, q, w) ensures o in Ballot(u, q, w) {
        var v :| v in t.votes && t.votes[v].post == q && t.votes[v].voter == w && t.votes[v].option == o;
        assert v in u.votes;
      }
    }
  }

  /** An accepted cast makes the voter's ballot exactly the deduplicated selection. */
  lemma CastBallots(db: Db, ctx: Context, id: int, optionIds: seq<int>)
    requires Inv(db) && CastVote(db, ctx, id, optionIds).1.Done?
    ensures var u := CastVote(db, ctx, id, optionIds).0.tables;
            && Ballot(u, id, ctx.user.value) == Elements(optionIds)
            && forall q, w :: (q, w) != (id, ctx.user.value) ==> Ballot(u, q, w) == Ballot(db.tables, q, w)
  {
    var p := OpenPoll(db.tables, ctx, id).value;
    var selected := ValidateSelection(optionIds, p.kind, OptionsOf(db.tables, id)).value;
    DroppedBallots(db, ctx.scope, id, ctx.user.value);
    var t := DropVotes(db.tables, VoterVotes(db.tables, ctx.scope, id, ctx.user.value));
    InsertedBallots(t, db.next.vote, selected, id, p.community, ctx.user.value);
    assert Elements(selected) == Elements(optionIds);
  }

  lemma DeletedBallots(db: Db, id: int)
    requires Inv(db)
    ensures var u := DropPost(db.tables, id);
            forall q, w :: Ballot(u, q, w) == if q == id then {} else Ballot(db.tables, q, w)
  {
    var t, u := db.tables, DropPost(db.tables, id);
    forall v | v in t.votes ensures v in u.votes <==> t.votes[v].post != id {
      assert t.options[t.votes[v].option].post == t.votes[v].post;
    }
    forall q, w ensures Ballot(u, q, w) == if q == id then {} else Ballot(t, q, w) {
      if q != id {
        forall o | o in Ballot(t, q, w) ensures o in Ballot(u, q, w) {
          var v :| v in t.votes && t.votes[v].post == q && t.votes[v].voter == w && t.votes[v].option == o;
          assert v in u.votes;
        }
      }
    }
  }

  lemma BoxFromBallots(t: Tables, u: Tables, id: int, voter: string, chosen: set<int>)
    requires Ballot(u, id, voter) == chosen
    requires forall q, w :: (q, w) != (id, voter) ==> Ballot(u, q, w) == Ballot(t, q, w)
    ensures BoxOf(u) == if chosen == {} then BoxOf(t) - {(id, voter)} else BoxOf(t)[(id, voter) := chosen]
  {
    var box := if chosen == {} then BoxOf(t) - {(id, voter)} else BoxOf(t)[(id, voter) := chosen];
    forall k: (int, string) ensures k in box <==> Ballot(u, k.0, k.1) != {}
                            ensures k in box ==> box[k] == Ballot(u, k.0, k.1) {
      BoxAt(t, k.0, k.1);
      assert k == (k.0, k.1);
    }
    BoxEqual(u, box);
  }

  /**
   * Refinement: under any request, caller and fault, the vote table moves exactly as the map
   * does, and the map needs nothing but the request and whether it was accepted.
   */
  lemma VoteTableRefinesBox(db: Db, e: Event)
    requires Inv(db)
    ensures BoxOf(Step(db, e).0.tables) == BoxAfter(BoxOf(db.tables), e.ctx, e.request, Step(db, e).1)
  {
    var t, u, response := db.tables, Step(db, e).0.tables, Step(db, e).1;
    match e.request
    case Update(id, update) => UpdateSparesVotes(db, e.ctx, id, update); SameVotesSameBox(t, u);
    case Delete(id) =>
      if response.Done? {
        DeletedBallots(db, id);
        forall k: (int, string) ensures k in Forget(BoxOf(t), id) <==> Ballot(u, k.0, k.1) != {}
                                ensures k in Forget(BoxOf(t), id) ==> Forget(BoxOf(t), id)[k] == Ballot(u, k.0, k.1) {
          BoxAt(t, k.0, k.1);
          assert k == (k.0, k.1);
        }
        BoxEqual(u, Forget(BoxOf(t), id));
      }
    case Cast(id, optionIds) =>
      if response.Done? {
        CastBallots(db, e.ctx, id, optionIds);
        BoxFromBallots(t, u, id, e.ctx.user.value, Elements(optionIds));
      }
    case Retract(id) =>
      if response.Done? {
        DroppedBallots(db, e.ctx.scope, id, e.ctx.user.value);
        BoxFromBallots(t, u, id, e.ctx.user.value, {});
      }
    case _ => SameVotesSameBox(t, u);
  }

  function BoxRun(box: BallotBox, events: seq<Event>, answers: seq<Response>): BallotBox
    requires |answers| == |events|
    decreases |events|
  {
    if events == [] then box
    else BoxRun(BoxAfter(box, events[0].ctx, events[0].request, answers[0]), events[1..], answers[1..])
  }

  /** From the empty board on, replaying the answered requests on the map gives the vote table. */
  lemma {:induction false} RunRefinesBox(db: Db, events: seq<Event>)
    requires Inv(db)
    ensures |Answers(db, events)| == |events|
    ensures BoxOf(Run(db, events).tables) == BoxRun(BoxOf(db.tables), events, Answers(db, events))
    decreases |events|
  {
    if events != [] {
      VoteTableRefinesBox(db, events[0]);
      StepKeeps(db, events[0]);
      RunRefinesBox(Step(db, events[0]).0, events[1..]);
      assert Answers(db, events)[1..] == Answers(Step(db, events[0]).0, events[1..]);
    }
  }

  // ---- the three has_voted computations -----------------------------------

  /** List, detail and results agree with the map, on every poll the caller can see. */
  lemma HasVotedAgrees(db: Db, ctx: Context, id: int, rows: seq<int>)
    requires Inv(db) && FindPost(db.tables, ctx.scope, id).Some? && db.tables.posts[id].kind.IsPoll()
    requires id in rows && forall i :: 0 <= i < |rows| ==> rows[i] in db.tables.posts
    ensures var voted := ctx.user.Some? && (id, ctx.user.value) in BoxOf(db.tables);
            && GetPost(db.tables, ctx, id).view.hasVoted == voted
            && HasVotedInResults(db.tables, ctx, id) == voted
            && (id in VotedPosts(db.tables, ctx, rows)) == voted
    ensures GetPost(db.tables, ctx, id).mine == if ctx.user.Some? then Ballot(db.tables, id, ctx.user.value) else {}
  {
    var t := db.tables;
    ScopedCountIsTrueCount(t, ctx.scope, id);
    if ctx.user.Some? {
      var user := ctx.user.value;
      VotedIffBallot(t, id, user);
      MineIsBallot(db, ctx, id);
      ResultsHasVoted(db, ctx, id);
      ListHasVoted(db, ctx, id, rows);
    }
  }

  lemma MineIsBallot(db: Db, ctx: Context, id: int)
    requires Inv(db) && FindPost(db.tables, ctx.scope, id).Some? && db.tables.posts[id].kind.IsPoll() && ctx.user.Some?
    ensures MySelection(db.tables, ctx, id, db.tables.posts[id].kind) == Ballot(db.tables, id, ctx.user.value)
  {
    var t, user := db.tables, ctx.user.value;
    ScopedCountIsTrueCount(t, ctx.scope, id);
    forall v | v in t.votes && t.votes[v].post == id && t.votes[v].voter == user
      ensures v in VoterVotes(t, ctx.scope, id, user) && user != ""
    {
      assert v in PostVotes(t, id);
    }
    forall o | o in Ballot(t, id, user) ensures o in MySelection(t, ctx, id, t.posts[id].kind) {
      var v :| v in t.votes && t.votes[v].post == id && t.votes[v].voter == user && t.votes[v].option == o;
      assert v in VoterVotes(t, ctx.scope, id, user);
    }
  }

  lemma ResultsHasVoted(db: Db, ctx: Context, id: int)
    requires Inv(db) && FindPost(db.tables, ctx.scope, id).Some? && ctx.user.Some?
    ensures HasVotedInResults(db.tables, ctx, id) <==> (id, ctx.user.value) in Voted(db.tables)
  {
    var t := db.tables;
    ScopedCountIsTrueCount(t, ctx.scope, id);
    if (id, ctx.user.value) in Voted(t) {
      var v :| v in t.votes && (t.votes[v].post, t.votes[v].voter) == (id, ctx.user.value);
      assert v in PostVotes(t, id);
    }
  }

  lemma ListHasVoted(db: Db, ctx: Context, id: int, rows: seq<int>)
    requires Inv(db) && FindPost(db.tables, ctx.scope, id).Some? && db.tables.posts[id].kind.IsPoll() && ctx.user.Some?
    requires id in rows && forall i :: 0 <= i < |rows| ==> rows[i] in db.tables.posts
    ensures id in VotedPosts(db.tables, ctx, rows) <==> (id, ctx.user.value) in Voted(db.tables)
  {
    var t := db.tables;
    ScopedCountIsTrueCount(t, ctx.scope, id);
    if (id, ctx.user.value) in Voted(t) {
      var v :| v in t.votes && (t.votes[v].post, t.votes[v].voter) == (id, ctx.user.value);
      assert v in PostVotes(t, id);
    }
  }
}
