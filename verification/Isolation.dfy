/** Communities do not interfere: two databases that agree on one cannot be told apart by it. */
module Isolation {
  import opened Prelude
  import opened LocalTables
  import opened NewsBoard
  import opened BoardInvariant

  /** The rows of one community. */
  function Slice(t: Tables, c: int): Tables {
    Tables(map p | p in t.posts && t.posts[p].community == c :: t.posts[p],
           map o | o in t.options && t.options[o].community == c :: t.options[o],
           map v | v in t.votes && t.votes[v].community == c :: t.votes[v])
  }

  /** Community agreement: all that isolation needs of the invariant. */
  ghost predicate Agree(t: Tables) { OptionsAgree(t) && VotesAgree(t) }

  // ---- queries see only the slice -----------------------------------------

  lemma QueriesOnSlice(t: Tables, c: int, id: int)
    requires Agree(t)
    ensures FindPost(Slice(t, c), Some(c), id) == FindPost(t, Some(c), id)
    ensures ScopedVotes(Slice(t, c), Some(c), id) == ScopedVotes(t, Some(c), id)
    ensures forall voter :: VoterVotes(Slice(t, c), Some(c), id, voter) == VoterVotes(t, Some(c), id, voter)
    ensures FindPost(t, Some(c), id).Some? ==> OptionsOf(Slice(t, c), id) == OptionsOf(t, id)
    ensures ScopedPosts(Slice(t, c), Some(c)) == ScopedPosts(t, Some(c))
  {
    var s := Slice(t, c);
    forall v ensures v in ScopedVotes(s, Some(c), id) <==> v in ScopedVotes(t, Some(c), id) {}
    forall p ensures p in ScopedPosts(s, Some(c)) <==> p in ScopedPosts(t, Some(c)) {}
    forall voter ensures VoterVotes(s, Some(c), id, voter) == VoterVotes(t, Some(c), id, voter) {
      forall v ensures v in VoterVotes(s, Some(c), id, voter) <==> v in VoterVotes(t, Some(c), id, voter) {}
    }
    if FindPost(t, Some(c), id).Some? {
      forall o ensures o in OptionsOf(s, id) <==> o in OptionsOf(t, id) {}
    }
  }

  lemma GetOnSlice(t: Tables, ctx: Context, c: int, id: int)
    requires Agree(t) && ctx.scope == Some(c)
    ensures GetPost(Slice(t, c), ctx, id) == GetPost(t, ctx, id)
  {
    QueriesOnSlice(t, c, id);
    if FindPost(t, ctx.scope, id).Some? {
      assert OptionViews(Slice(t, c), id) == OptionViews(t, id);
      assert MySelection(Slice(t, c), ctx, id, t.posts[id].kind) == MySelection(t, ctx, id, t.posts[id].kind);
    }
  }

  lemma TalliesOnSlice(t: Tables, ctx: Context, c: int, id: int, mode: ResultsMode)
    requires Agree(t) && ctx.scope == Some(c) && FindPost(t, ctx.scope, id).Some?
    ensures Tallies(Slice(t, c), ctx, id, mode) == Tallies(t, ctx, id, mode)
  {
    var s := Slice(t, c);
    QueriesOnSlice(t, c, id);
    forall o | o in OptionsOf(t, id) ensures TallyOf(s, ctx, id, mode, o) == TallyOf(t, ctx, id, mode, o) {
      assert VotesFor(s, ctx.scope, id, o) == VotesFor(t, ctx.scope, id, o);
      assert (set v | v in VotesFor(s, ctx.scope, id, o) :: VoterIdentity(s.votes[v].voter, EmailOf(ctx, s.votes[v].voter)))
          == (set v | v in VotesFor(t, ctx.scope, id, o) :: VoterIdentity(t.votes[v].voter, EmailOf(ctx, t.votes[v].voter)));
    }
  }

  lemma ResultsOnSlice(t: Tables, ctx: Context, c: int, id: int)
    requires Agree(t) && ctx.scope == Some(c)
    ensures GetResults(Slice(t, c), ctx, id) == GetResults(t, ctx, id)
  {
    QueriesOnSlice(t, c, id);
    if FindPost(t, ctx.scope, id).Some? {
      assert HasVotedInResults(Slice(t, c), ctx, id) == HasVotedInResults(t, ctx, id);
      assert DistinctVoters(Slice(t, c), ctx.scope, id) == DistinctVoters(t, ctx.scope, id);
      TalliesOnSlice(t, ctx, c, id, Aggregate);
      TalliesOnSlice(t, ctx, c, id, Full);
    }
  }

  lemma {:induction false} OrderOnSlice(t: Tables, c: int, ids: set<int>)
    requires forall x :: x in ids ==> x in t.posts && t.posts[x].community == c
    ensures NewestFirst(Slice(t, c), ids) == NewestFirst(t, ids)
  {
    if ids != {} {
      var s := Slice(t, c);
      var a, b := NewestFirst(s, ids)[0], NewestFirst(t, ids)[0];
      assert Newer(t, b, a) && Newer(s, a, b);
      assert a == b;
      OrderOnSlice(t, c, ids - {a});
    }
  }

  lemma ItemsOnSlice(t: Tables, ctx: Context, c: int, rows: seq<int>)
    requires Agree(t) && ctx.scope == Some(c)
    requires forall i :: 0 <= i < |rows| ==> FindPost(t, ctx.scope, rows[i]).Some?
    ensures forall i :: 0 <= i < |rows| ==> rows[i] in Slice(t, c).posts
    ensures Items(Slice(t, c), ctx, rows, VotedPosts(Slice(t, c), ctx, rows)) == Items(t, ctx, rows, VotedPosts(t, ctx, rows))
  {
    var s := Slice(t, c);
    forall p ensures p in VotedPosts(s, ctx, rows) <==> p in VotedPosts(t, ctx, rows) {
      if p in VotedPosts(t, ctx, rows) {
        var v :| v in t.votes && InScope(ctx.scope, t.votes[v].community) && t.votes[v].voter == ctx.user.value
              && t.votes[v].post == p && p in rows && t.posts[p].kind.IsPoll();
        assert v in s.votes && s.posts[p] == t.posts[p];
      }
      if p in VotedPosts(s, ctx, rows) {
        var v :| v in s.votes && InScope(ctx.scope, s.votes[v].community) && s.votes[v].voter == ctx.user.value
              && s.votes[v].post == p && p in rows && s.posts[p].kind.IsPoll();
        assert v in t.votes && s.posts[p] == t.posts[p];
      }
    }
    var voted := VotedPosts(t, ctx, rows);
    assert VotedPosts(s, ctx, rows) == voted;
    forall i | 0 <= i < |rows| ensures Items(s, ctx, rows, voted)[i] == Items(t, ctx, rows, voted)[i] {
      QueriesOnSlice(t, c, rows[i]);
    }
  }

  lemma ListOnSlice(t: Tables, ctx: Context, c: int, page: int, size: int)
    requires Agree(t) && ctx.scope == Some(c)
    ensures ListPosts(Slice(t, c), ctx, page, size) == ListPosts(t, ctx, page, size)
  {
    var offset := (page - 1) * size;
    QueriesOnSlice(t, c, 0);
    if offset >= 0 && size >= 0 {
      OrderOnSlice(t, c, ScopedPosts(t, ctx.scope));
      RowsInScope(t, ctx.scope, offset, size);
      ItemsOnSlice(t, ctx, c, PageRows(t, ctx.scope, offset, size));
    }
  }

  lemma RowsInScope(t: Tables, scope: Option<int>, offset: nat, limit: nat)
    ensures forall i :: 0 <= i < |PageRows(t, scope, offset, limit)| ==>
              FindPost(t, scope, PageRows(t, scope, offset, limit)[i]).Some?
  {
    var all := ScopedPosts(t, scope);
    NewestFirstElements(t, all);
    var ordered, rows := NewestFirst(t, all), PageRows(t, scope, offset, limit);
    forall i | 0 <= i < |rows| ensures rows[i] in all {
      assert rows[i] == ordered[offset + i];
    }
  }

  // ---- writes act on the slice --------------------------------------------

  lemma CreateOnSlice(db: Db, ctx: Context, c: int, author: string, req: CreateRequest)
    requires Inv(db) && ctx.scope == Some(c)
    ensures var (after, response) := CreatePost(db, ctx, c, author, req);
            CreatePost(Db(Slice(db.tables, c), db.next), ctx, c, author, req)
            == (Db(Slice(after.tables, c), after.next), response)
  {
    var (after, response) := CreatePost(db, ctx, c, author, req);
    var (sliced, _) := CreatePost(Db(Slice(db.tables, c), db.next), ctx, c, author, req);
    if response.Created? {
      SameRows(sliced.tables.posts, Slice(after.tables, c).posts);
      SameRows(sliced.tables.options, Slice(after.tables, c).options);
    }
  }

  lemma ReplaceOnSlice(t: Tables, next: Counters, c: int, id: int, inputs: seq<OptionInput>)
    requires Agree(t) && FindPost(t, Some(c), id).Some?
    requires forall o :: o in t.options ==> o < next.option
    ensures ReplaceOptions(Slice(t, c), next, id, c, inputs) == Slice(ReplaceOptions(t, next, id, c, inputs), c)
  {
    QueriesOnSlice(t, c, id);
    var u, s := ReplaceOptions(t, next, id, c, inputs), ReplaceOptions(Slice(t, c), next, id, c, inputs);
    SameRows(s.posts, Slice(u, c).posts);
    SameRows(s.options, Slice(u, c).options);
    SameRows(s.votes, Slice(u, c).votes);
  }

  lemma EditOnSlice(t: Tables, c: int, id: int, req: UpdateRequest)
    requires FindPost(t, Some(c), id).Some?
    ensures EditPost(Slice(t, c), id, req) == Slice(EditPost(t, id, req), c)
  {
    SameRows(EditPost(Slice(t, c), id, req).posts, Slice(EditPost(t, id, req), c).posts);
  }

  lemma UpdateOnSlice(db: Db, ctx: Context, c: int, id: int, req: UpdateRequest)
    requires Inv(db) && ctx.scope == Some(c)
    ensures var (after, response) := UpdatePost(db, ctx, id, req);
            UpdatePost(Db(Slice(db.tables, c), db.next), ctx, id, req)
            == (Db(Slice(after.tables, c), after.next), response)
  {
    QueriesOnSlice(db.tables, c, id);
    if FindPost(db.tables, ctx.scope, id).Some? {
      EditKeeps(db, id, req);
      EditOnSlice(db.tables, c, id, req);
      FinishOnSlice(db, Db(EditPost(db.tables, id, req), db.next), ctx, c, id, req);
    }
  }

  lemma ReplaceAndReadOnSlice(db: Db, ctx: Context, c: int, id: int, inputs: seq<OptionInput>)
    requires Inv(db) && ctx.scope == Some(c) && FindPost(db.tables, ctx.scope, id).Some? && db.tables.posts[id].kind.IsPoll()
    requires |inputs| >= 2 && ScopedVotes(db.tables, ctx.scope, id) == {}
    ensures var u := ReplaceOptions(db.tables, db.next, id, c, inputs);
            && ReplaceOptions(Slice(db.tables, c), db.next, id, c, inputs) == Slice(u, c)
            && GetPost(Slice(u, c), ctx, id) == GetPost(u, ctx, id)
  {
    ReplaceOnSlice(db.tables, db.next, c, id, inputs);
    ReplaceKeeps(db, ctx.scope, id, inputs);
    GetOnSlice(ReplaceOptions(db.tables, db.next, id, c, inputs), ctx, c, id);
  }

  lemma FinishOnSlice(db: Db, edited: Db, ctx: Context, c: int, id: int, req: UpdateRequest)
    requires Inv(edited) && ctx.scope == Some(c) && FindPost(edited.tables, ctx.scope, id).Some?
    requires db.next == edited.next
    ensures var (after, response) := FinishUpdate(db, edited.tables, ctx, id, req);
            FinishUpdate(Db(Slice(db.tables, c), db.next), Slice(edited.tables, c), ctx, id, req)
            == (Db(Slice(after.tables, c), after.next), response)
  {
    QueriesOnSlice(edited.tables, c, id);
    if edited.tables.posts[id].kind.IsPoll() && req.options.Some? {
      if |req.options.value| >= 2 && ScopedVotes(edited.tables, ctx.scope, id) == {} {
        ReplaceAndReadOnSlice(edited, ctx, c, id, req.options.value);
      }
    } else {
      GetOnSlice(edited.tables, ctx, c, id);
    }
  }

  lemma DeleteOnSlice(t: Tables, c: int, id: int)
    requires Agree(t) && FindPost(t, Some(c), id).Some?
    ensures DropPost(Slice(t, c), id) == Slice(DropPost(t, id), c)
  {
    QueriesOnSlice(t, c, id);
    var u, s := DropPost(t, id), DropPost(Slice(t, c), id);
    SameRows(s.posts, Slice(u, c).posts);
    SameRows(s.options, Slice(u, c).options);
    SameRows(s.votes, Slice(u, c).votes);
  }

  lemma DropVotesOnSlice(t: Tables, c: int, ids: set<int>)
    ensures DropVotes(Slice(t, c), ids) == Slice(DropVotes(t, ids), c)
  {
    assert DropVotes(Slice(t, c), ids).votes == Slice(DropVotes(t, ids), c).votes;
  }

  lemma AddVotesOnSlice(t: Tables, first: nat, selected: seq<int>, id: int, c: int, voter: string)
    requires forall v :: v in t.votes ==> v < first
    ensures AddVotes(Slice(t, c), first, NewVotes(selected, id, c, voter))
         == Slice(AddVotes(t, first, NewVotes(selected, id, c, voter)), c)
  {
    AddedVotes(t, first, selected, id, c, voter);
    AddedVotes(Slice(t, c), first, selected, id, c, voter);
    assert AddVotes(Slice(t, c), first, NewVotes(selected, id, c, voter)).votes
        == Slice(AddVotes(t, first, NewVotes(selected, id, c, voter)), c).votes;
  }

  lemma CastOnSlice(db: Db, ctx: Context, c: int, id: int, optionIds: seq<int>)
    requires Inv(db) && ctx.scope == Some(c)
    ensures var (after, response) := CastVote(db, ctx, id, optionIds);
            CastVote(Db(Slice(db.tables, c), db.next), ctx, id, optionIds)
            == (Db(Slice(after.tables, c), after.next), response)
  {
    var t := db.tables;
    QueriesOnSlice(t, c, id);
    var checked := OpenPoll(t, ctx, id);
    if checked.Success? {
      var selection := ValidateSelection(optionIds, checked.value.kind, OptionsOf(t, id));
      if selection.Success? {
        var mine := VoterVotes(t, ctx.scope, id, ctx.user.value);
        DropVotesOnSlice(t, c, mine);
        AddVotesOnSlice(DropVotes(t, mine), db.next.vote, selection.value, id, c, ctx.user.value);
      }
    }
  }

  lemma RetractOnSlice(db: Db, ctx: Context, c: int, id: int)
    requires Inv(db) && ctx.scope == Some(c)
    ensures var (after, response) := RetractVote(db, ctx, id);
            RetractVote(Db(Slice(db.tables, c), db.next), ctx, id) == (Db(Slice(after.tables, c), after.next), response)
  {
    QueriesOnSlice(db.tables, c, id);
    if ctx.user.Some? { DropVotesOnSlice(db.tables, c, VoterVotes(db.tables, Some(c), id, ctx.user.value)); }
  }

  lemma DeletePostOnSlice(db: Db, ctx: Context, c: int, id: int)
    requires Inv(db) && ctx.scope == Some(c)
    ensures var (after, response) := DeletePost(db, ctx, id);
            DeletePost(Db(Slice(db.tables, c), db.next), ctx, id) == (Db(Slice(after.tables, c), after.next), response)
  {
    QueriesOnSlice(db.tables, c, id);
    if FindPost(db.tables, Some(c), id).Some? { DeleteOnSlice(db.tables, c, id); }
  }

  lemma ServeOnSlice(db: Db, ctx: Context, req: Request, c: int)
    requires Inv(db) && ctx.scope == Some(c)
    ensures var (after, response) := Serve(db, ctx, req);
            Serve(Db(Slice(db.tables, c), db.next), ctx, req) == (Db(Slice(after.tables, c), after.next), response)
  {
    match req
    case Create(create) => if ctx.user.Some? { CreateOnSlice(db, ctx, c, ctx.user.value, create); }
    case Update(id, update) => UpdateOnSlice(db, ctx, c, id, update);
    case Delete(id) => DeletePostOnSlice(db, ctx, c, id);
    case Cast(id, optionIds) => CastOnSlice(db, ctx, c, id, optionIds);
    case Retract(id) => RetractOnSlice(db, ctx, c, id);
    case Get(id) => GetOnSlice(db.tables, ctx, c, id);
    case Listing(page, size) => ListOnSlice(db.tables, ctx, c, page, size);
    case Results(id) => ResultsOnSlice(db.tables, ctx, c, id);
  }

  /** Serving a community's request and forgetting every other community commute. */
  lemma StepOnSlice(db: Db, e: Event, c: int)
    requires Inv(db) && e.ctx.scope == Some(c)
    ensures Step(Db(Slice(db.tables, c), db.next), e)
         == (Db(Slice(Step(db, e).0.tables, c), Step(db, e).0.next), Step(db, e).1)
  {
    ServeOnSlice(db, e.ctx, e.request, c);
  }

  // ---- the theorems -------------------------------------------------------

  ghost predicate AllFrom(events: seq<Event>, c: int) {
    forall i :: 0 <= i < |events| ==> events[i].ctx.scope == Some(c)
  }

  /**
   * Two databases that agree on one community's rows and on the id counters answer any sequence
   * of that community's requests alike, and still agree afterwards.
   */
  lemma {:induction false} CommunityCannotTellApart(a: Db, b: Db, events: seq<Event>, c: int)
    requires Inv(a) && Inv(b) && AllFrom(events, c)
    requires Slice(a.tables, c) == Slice(b.tables, c) && a.next == b.next
    ensures Answers(a, events) == Answers(b, events)
    ensures Slice(Run(a, events).tables, c) == Slice(Run(b, events).tables, c)
    ensures Run(a, events).next == Run(b, events).next
    decreases |events|
  {
    if events != [] {
      StepOnSlice(a, events[0], c);
      StepOnSlice(b, events[0], c);
      StepKeeps(a, events[0]);
      StepKeeps(b, events[0]);
      CommunityCannotTellApart(Step(a, events[0]).0, Step(b, events[0]).0, events[1..], c);
    }
  }

  lemma AddedOptionsElsewhere(t: Tables, first: nat, rows: seq<PollOption>, c: int, d: int)
    requires c != d && (forall o :: o in t.options ==> o < first)
    requires forall i :: 0 <= i < |rows| ==> rows[i].community == c
    ensures Slice(AddOptions(t, first, rows), d) == Slice(t, d)
  {
    SameSlices(t, AddOptions(t, first, rows), d);
  }

  lemma ReplaceSparesOthers(db: Db, scope: Option<int>, id: int, inputs: seq<OptionInput>, d: int)
    requires Inv(db) && scope != Some(d) && FindPost(db.tables, scope, id).Some? && db.tables.posts[id].kind.IsPoll()
    requires |inputs| >= 2 && ScopedVotes(db.tables, scope, id) == {}
    ensures Slice(ReplaceOptions(db.tables, db.next, id, db.tables.posts[id].community, inputs), d) == Slice(db.tables, d)
  {
    var t, c := db.tables, db.tables.posts[id].community;
    var bare := DropOptions(t, OptionsOf(t, id));
    DropOptionsKeeps(db, scope, id);
    assert forall o :: o in OptionsOf(t, id) ==> t.options[o].community == c;
    SameSlices(t, bare, d);
    AddedOptionsElsewhere(bare, db.next.option, BuildOptions(inputs, id, c), c, d);
  }

  lemma UpdateSparesOthers(db: Db, ctx: Context, id: int, req: UpdateRequest, d: int)
    requires Inv(db) && ctx.scope != Some(d)
    ensures Slice(UpdatePost(db, ctx, id, req).0.tables, d) == Slice(db.tables, d)
  {
    if FindPost(db.tables, ctx.scope, id).Some? {
      var edited := EditPost(db.tables, id, req);
      SameSlices(db.tables, edited, d);
      EditKeeps(db, id, req);
      if edited.posts[id].kind.IsPoll() && req.options.Some? && |req.options.value| >= 2 && ScopedVotes(edited, ctx.scope, id) == {} {
        ReplaceSparesOthers(Db(edited, db.next), ctx.scope, id, req.options.value, d);
      }
    }
  }

  lemma DeleteSparesOthers(db: Db, scope: Option<int>, id: int, d: int)
    requires Inv(db) && scope != Some(d) && FindPost(db.tables, scope, id).Some?
    ensures Slice(DropPost(db.tables, id), d) == Slice(db.tables, d)
  {
    SameSlices(db.tables, DropPost(db.tables, id), d);
  }

  lemma CreateSparesOthers(db: Db, ctx: Context, c: int, author: string, req: CreateRequest, d: int)
    requires Inv(db) && c != d
    ensures Slice(CreatePost(db, ctx, c, author, req).0.tables, d) == Slice(db.tables, d)
  {
    SameSlices(db.tables, CreatePost(db, ctx, c, author, req).0.tables, d);
  }

  lemma RetractSparesOthers(t: Tables, mine: set<int>, scope: Option<int>, d: int)
    requires scope != Some(d) && forall v :: v in mine ==> v in t.votes && InScope(scope, t.votes[v].community)
    ensures Slice(DropVotes(t, mine), d) == Slice(t, d)
  {
    SameSlices(t, DropVotes(t, mine), d);
  }

  /** One request leaves every other community's rows alone, cascades included. */
  lemma StepSparesOthers(db: Db, e: Event, d: int)
    requires Inv(db) && e.ctx.scope != Some(d)
    ensures Slice(Step(db, e).0.tables, d) == Slice(db.tables, d)
  {
    match e.request
    case Create(create) =>
      if e.ctx.scope.Some? && e.ctx.user.Some? { CreateSparesOthers(db, e.ctx, e.ctx.scope.value, e.ctx.user.value, create, d); }
    case Update(id, update) => UpdateSparesOthers(db, e.ctx, id, update, d);
    case Delete(id) => if FindPost(db.tables, e.ctx.scope, id).Some? { DeleteSparesOthers(db, e.ctx.scope, id, d); }
    case Cast(id, optionIds) => CastSparesOthers(db, e.ctx, id, optionIds, d);
    case Retract(id) =>
      if e.ctx.user.Some? { RetractSparesOthers(db.tables, VoterVotes(db.tables, e.ctx.scope, id, e.ctx.user.value), e.ctx.scope, d); }
    case _ =>
  }

  lemma SameSlices(t: Tables, u: Tables, d: int)
    requires forall p :: (p in t.posts && t.posts[p].community == d) <==> (p in u.posts && u.posts[p].community == d)
    requires forall p :: p in t.posts && t.posts[p].community == d ==> t.posts[p] == u.posts[p]
    requires forall o :: (o in t.options && t.options[o].community == d) <==> (o in u.options && u.options[o].community == d)
    requires forall o :: o in t.options && t.options[o].community == d ==> t.options[o] == u.options[o]
    requires forall v :: (v in t.votes && t.votes[v].community == d) <==> (v in u.votes && u.votes[v].community == d)
    requires forall v :: v in t.votes && t.votes[v].community == d ==> t.votes[v] == u.votes[v]
    ensures Slice(t, d) == Slice(u, d)
  {
    SameRows(Slice(t, d).posts, Slice(u, d).posts);
    SameRows(Slice(t, d).options, Slice(u, d).options);
    SameRows(Slice(t, d).votes, Slice(u, d).votes);
  }

  lemma SameRows<R>(a: map<int, R>, b: map<int, R>)
    requires forall k :: k in a <==> k in b
    requires forall k :: k in a ==> a[k] == b[k]
    ensures a == b
  {
    forall k ensures k in a <==> k in b {}
    forall k ensures k in a ==> a[k] == b[k] {}
  }

  lemma CastSparesOthers(db: Db, ctx: Context, id: int, optionIds: seq<int>, d: int)
    requires Inv(db) && ctx.scope != Some(d)
    ensures Slice(CastVote(db, ctx, id, optionIds).0.tables, d) == Slice(db.tables, d)
  {
    var t := db.tables;
    var checked := OpenPoll(t, ctx, id);
    if checked.Success? {
      var selection := ValidateSelection(optionIds, checked.value.kind, OptionsOf(t, id));
      if selection.Success? {
        var dropped := DropVotes(t, VoterVotes(t, ctx.scope, id, ctx.user.value));
        AddedVotes(dropped, db.next.vote, selection.value, id, checked.value.community, ctx.user.value);
        SameSlices(t, CastVote(db, ctx, id, optionIds).0.tables, d);
      }
    }
  }

  /** No run of requests from elsewhere, faults and cascades included, touches a community's rows. */
  lemma {:induction false} OthersAreUntouched(db: Db, events: seq<Event>, d: int)
    requires Inv(db) && forall i :: 0 <= i < |events| ==> events[i].ctx.scope != Some(d)
    ensures Slice(Run(db, events).tables, d) == Slice(db.tables, d)
    decreases |events|
  {
    if events != [] {
      StepSparesOthers(db, events[0], d);
      StepKeeps(db, events[0]);
      OthersAreUntouched(Step(db, events[0]).0, events[1..], d);
    }
  }
}
