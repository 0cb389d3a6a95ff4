/** The relations between rows that no single statement enforces, kept by every request. */
module BoardInvariant {
  import opened Prelude
  import opened LocalTables
  import opened NewsBoard

  /** Every id in use was drawn from its counter. */
  ghost predicate IdsDrawn(db: Db) {
    && (forall p :: p in db.tables.posts ==> p < db.next.post)
    && (forall o :: o in db.tables.options ==> o < db.next.option)
    && (forall v :: v in db.tables.votes ==> v < db.next.vote)
  }

  /** An option hangs off a poll of its own community. */
  ghost predicate OptionsAgree(t: Tables) {
    forall o :: o in t.options ==>
      && t.options[o].post in t.posts
      && t.posts[t.options[o].post].kind.IsPoll()
      && t.options[o].community == t.posts[t.options[o].post].community
  }

  /** A vote names an option of its own post, and vote, option and post share a community. */
  ghost predicate VotesAgree(t: Tables) {
    forall v :: v in t.votes ==>
      && t.votes[v].option in t.options
      && t.options[t.votes[v].option].post == t.votes[v].post
      && t.options[t.votes[v].option].community == t.votes[v].community
      && t.votes[v].voter != ""
  }

  ghost predicate OneRowPerSingleChoiceVoter(t: Tables) {
    forall v, w | v in t.votes && w in t.votes && t.votes[v].post == t.votes[w].post
               && t.votes[v].voter == t.votes[w].voter
               && t.votes[v].post in t.posts && t.posts[t.votes[v].post].kind == SingleChoice :: v == w
  }

  /** A poll has an expiry and a full matrix; a plain post has neither. */
  predicate FieldsFit(p: Post) {
    if p.kind.IsPoll()
    then p.expiresAt.Some? && p.adminVisibility.Some? && p.memberVisibility.Some? && p.memberDisplay.Some?
    else p.expiresAt.None? && p.adminVisibility.None? && p.memberVisibility.None? && p.memberDisplay.None?
  }

  ghost predicate PostsFit(t: Tables) {
    forall p :: p in t.posts ==> FieldsFit(t.posts[p]) && (t.posts[p].kind.IsPoll() ==> |OptionsOf(t, p)| >= 2)
  }

  ghost predicate Inv(db: Db) {
    && IdsDrawn(db) && OptionsAgree(db.tables) && VotesAgree(db.tables)
    && UniqueBallots(db.tables) && OneRowPerSingleChoiceVoter(db.tables) && PostsFit(db.tables)
  }

  // ---- what community agreement buys --------------------------------------

  ghost function PostVotes(t: Tables, post: int): set<int> {
    set v | v in t.votes && t.votes[v].post == post
  }

  /**
   * The frozen-options guard counts only votes in the caller's community, and the swap deletes
   * only those. For a post the caller can see, that is every vote on the post.
   */
  lemma ScopedCountIsTrueCount(t: Tables, scope: Option<int>, id: int)
    requires OptionsAgree(t) && VotesAgree(t) && FindPost(t, scope, id).Some?
    ensures ScopedVotes(t, scope, id) == PostVotes(t, id)
  {
    forall v | v in PostVotes(t, id) ensures v in ScopedVotes(t, scope, id) {
      assert t.options[t.votes[v].option].post == id;
    }
  }

  /** The invariant covers every constraint the schema declares. */
  lemma InvImpliesConstraints(db: Db)
    requires Inv(db)
    ensures Constraints(db.tables)
  {
  }

  // ---- each write keeps it ------------------------------------------------

  lemma {:induction false} IntervalCardinality(first: int, n: nat, s: set<int>)
    requires forall k :: k in s <==> first <= k < first + n
    ensures |s| == n
  {
    if n == 0 {
      if s != {} { var k := Inhabitant(s); }
    } else {
      IntervalCardinality(first, n - 1, s - {first + n - 1});
    }
  }

  /** Options added to one poll leave every other poll's options alone. */
  lemma AddOptionsKeeps(db: Db, id: int, inputs: seq<OptionInput>)
    requires IdsDrawn(db) && OptionsAgree(db.tables) && VotesAgree(db.tables)
    requires id in db.tables.posts && db.tables.posts[id].kind.IsPoll()
    requires OptionsOf(db.tables, id) == {}
    ensures var u := AddOptions(db.tables, db.next.option, BuildOptions(inputs, id, db.tables.posts[id].community));
            && u.posts == db.tables.posts && u.votes == db.tables.votes
            && IdsDrawn(Db(u, db.next.(option := db.next.option + |inputs|)))
            && OptionsAgree(u) && VotesAgree(u)
            && |OptionsOf(u, id)| == |inputs|
            && forall q :: q != id ==> OptionsOf(u, q) == OptionsOf(db.tables, q)
  {
    var t := db.tables;
    var rows := BuildOptions(inputs, id, t.posts[id].community);
    var u := AddOptions(t, db.next.option, rows);
    assert forall o :: o in t.options ==> u.options[o] == t.options[o];
    assert forall o :: o in u.options && o !in t.options ==> u.options[o] == rows[o - db.next.option];
    forall o | o in t.options ensures t.options[o].post != id {
      assert o !in OptionsOf(t, id);
    }
    forall q | q != id ensures OptionsOf(u, q) == OptionsOf(t, q) {}
    IntervalCardinality(db.next.option, |inputs|, OptionsOf(u, id));
  }

  lemma AddPostKeeps(db: Db, post: Post)
    requires Inv(db)
    ensures var id := db.next.post;
            var u := db.tables.(posts := db.tables.posts[id := post]);
            && IdsDrawn(Db(u, db.next.(post := id + 1)))
            && OptionsAgree(u) && VotesAgree(u) && UniqueBallots(u) && OneRowPerSingleChoiceVoter(u)
            && OptionsOf(u, id) == {}
            && forall q :: q in db.tables.posts ==> OptionsOf(u, q) == OptionsOf(db.tables, q)
  {
    var id := db.next.post;
    var u := db.tables.(posts := db.tables.posts[id := post]);
    forall o | o in u.options ensures u.options[o].post != id && u.options[o].post in db.tables.posts {}
    forall v | v in u.votes ensures u.votes[v].post != id && u.votes[v].post in db.tables.posts {
      assert u.options[u.votes[v].option].post == u.votes[v].post;
    }
    assert OptionsOf(u, id) == {};
  }

  lemma AddPollKeeps(db: Db, post: Post, inputs: seq<OptionInput>)
    requires Inv(db) && FieldsFit(post) && post.kind.IsPoll() && |inputs| >= 2
    ensures var id := db.next.post;
            var t := db.tables.(posts := db.tables.posts[id := post]);
            Inv(Db(AddOptions(t, db.next.option, BuildOptions(inputs, id, post.community)),
                   db.next.(post := id + 1, option := db.next.option + |inputs|)))
  {
    var id := db.next.post;
    AddPostKeeps(db, post);
    AddOptionsKeeps(Db(db.tables.(posts := db.tables.posts[id := post]), db.next.(post := id + 1)), id, inputs);
  }

  lemma CreateKeeps(db: Db, ctx: Context, community: int, author: string, req: CreateRequest)
    requires Inv(db)
    ensures Inv(CreatePost(db, ctx, community, author, req).0)
  {
    var (after, response) := CreatePost(db, ctx, community, author, req);
    if response.Created? {
      var id := db.next.post;
      var post := after.tables.posts[id];
      if req.kind.IsPoll() {
        AddPollKeeps(db, post, req.options.value);
      } else {
        AddPostKeeps(db, post);
        var withPost := db.tables.(posts := db.tables.posts[id := post]);
        assert AddOptions(withPost, db.next.option, []) == withPost;
      }
    }
  }

  lemma EditKeeps(db: Db, id: int, req: UpdateRequest)
    requires Inv(db) && id in db.tables.posts
    ensures Inv(Db(EditPost(db.tables, id, req), db.next))
    ensures forall scope :: ScopedVotes(EditPost(db.tables, id, req), scope, id) == ScopedVotes(db.tables, scope, id)
  {
    var t := EditPost(db.tables, id, req);
    forall q ensures OptionsOf(t, q) == OptionsOf(db.tables, q) {}
  }

  lemma UpdateKeeps(db: Db, ctx: Context, id: int, req: UpdateRequest)
    requires Inv(db)
    ensures Inv(UpdatePost(db, ctx, id, req).0)
  {
    if FindPost(db.tables, ctx.scope, id).Some? {
      var p, t := db.tables.posts[id], EditPost(db.tables, id, req);
      EditKeeps(db, id, req);
      if p.kind.IsPoll() && req.options.Some? && |req.options.value| >= 2 && |ScopedVotes(t, ctx.scope, id)| == 0 {
        ReplaceKeeps(Db(t, db.next), ctx.scope, id, req.options.value);
      }
    }
  }

  /** With no vote on the post, the cascade from its old options removes nothing. */
  lemma DropOptionsKeeps(db: Db, scope: Option<int>, id: int)
    requires Inv(db) && FindPost(db.tables, scope, id).Some? && ScopedVotes(db.tables, scope, id) == {}
    ensures var u := DropOptions(db.tables, OptionsOf(db.tables, id));
            && u.votes == db.tables.votes && VotesAgree(u) && OptionsAgree(u)
            && OptionsOf(u, id) == {}
            && forall q :: q != id ==> OptionsOf(u, q) == OptionsOf(db.tables, q)
  {
    var t := db.tables;
    ScopedCountIsTrueCount(t, scope, id);
    forall v | v in t.votes ensures t.votes[v].option !in OptionsOf(t, id) {
      assert v !in PostVotes(t, id);
      assert t.options[t.votes[v].option].post == t.votes[v].post;
    }
    var u := DropOptions(t, OptionsOf(t, id));
    assert u.votes == t.votes;
    forall q | q != id ensures OptionsOf(u, q) == OptionsOf(t, q) {}
  }

  lemma ReplaceKeeps(db: Db, scope: Option<int>, id: int, inputs: seq<OptionInput>)
    requires Inv(db) && FindPost(db.tables, scope, id).Some? && db.tables.posts[id].kind.IsPoll()
    requires |inputs| >= 2 && ScopedVotes(db.tables, scope, id) == {}
    ensures var u := ReplaceOptions(db.tables, db.next, id, db.tables.posts[id].community, inputs);
            && u.votes == db.tables.votes
            && Inv(Db(u, db.next.(option := db.next.option + |inputs|)))
  {
    DropOptionsKeeps(db, scope, id);
    AddOptionsKeeps(Db(DropOptions(db.tables, OptionsOf(db.tables, id)), db.next), id, inputs);
  }

  lemma DeleteKeeps(db: Db, ctx: Context, id: int)
    requires Inv(db)
    ensures Inv(DeletePost(db, ctx, id).0)
  {
    var t, u := db.tables, DropPost(db.tables, id);
    forall q | q != id ensures OptionsOf(u, q) == OptionsOf(t, q) {}
  }

  lemma DropVotesKeeps(db: Db, ids: set<int>)
    requires Inv(db)
    ensures Inv(Db(DropVotes(db.tables, ids), db.next))
  {
    var t, u := db.tables, DropVotes(db.tables, ids);
    forall q ensures OptionsOf(u, q) == OptionsOf(t, q) {}
  }

  /** A valid selection of a voter who has no row left on the post. */
  ghost predicate CanInsert(db: Db, id: int, selected: seq<int>, voter: string) {
    && id in db.tables.posts && voter != ""
    && (forall v :: v in db.tables.votes ==> !(db.tables.votes[v].post == id && db.tables.votes[v].voter == voter))
    && NoDuplicates(selected)
    && (forall i :: 0 <= i < |selected| ==> selected[i] in db.tables.options && db.tables.options[selected[i]].post == id)
    && (db.tables.posts[id].kind == SingleChoice ==> |selected| == 1)
  }

  lemma AddVotesAgree(db: Db, id: int, selected: seq<int>, voter: string)
    requires Inv(db) && CanInsert(db, id, selected, voter)
    ensures VotesAgree(AddVotes(db.tables, db.next.vote, NewVotes(selected, id, db.tables.posts[id].community, voter)))
  {
    var community := db.tables.posts[id].community;
    AddedVotes(db.tables, db.next.vote, selected, id, community, voter);
    var u := AddVotes(db.tables, db.next.vote, NewVotes(selected, id, community, voter));
    forall v | v in u.votes
      ensures u.votes[v].option in u.options && u.options[u.votes[v].option].post == u.votes[v].post
      ensures u.options[u.votes[v].option].community == u.votes[v].community
    {
      if v !in db.tables.votes { assert selected[v - db.next.vote] in db.tables.options; }
    }
  }

  /** Inserting a validated selection violates neither the constraint nor the single-choice rule. */
  lemma AddVotesUnique(db: Db, id: int, selected: seq<int>, voter: string)
    requires Inv(db) && CanInsert(db, id, selected, voter)
    ensures var u := AddVotes(db.tables, db.next.vote, NewVotes(selected, id, db.tables.posts[id].community, voter));
            UniqueBallots(u) && OneRowPerSingleChoiceVoter(u)
  {
    var community := db.tables.posts[id].community;
    AddedVotes(db.tables, db.next.vote, selected, id, community, voter);
    AddVotesAgree(db, id, selected, voter);
    var u := AddVotes(db.tables, db.next.vote, NewVotes(selected, id, community, voter));
    forall v, w | v in u.votes && w in u.votes && u.votes[v].option == u.votes[w].option && u.votes[v].voter == u.votes[w].voter
      ensures v == w
    {
      assert u.votes[v].post == u.options[u.votes[v].option].post == u.votes[w].post;
    }
  }

  lemma AddVotesKeeps(db: Db, id: int, selected: seq<int>, voter: string)
    requires Inv(db) && CanInsert(db, id, selected, voter)
    ensures var rows := NewVotes(selected, id, db.tables.posts[id].community, voter);
            Inv(Db(AddVotes(db.tables, db.next.vote, rows), db.next.(vote := db.next.vote + |selected|)))
  {
    var t, first := db.tables, db.next.vote;
    var u := AddVotes(t, first, NewVotes(selected, id, t.posts[id].community, voter));
    AddVotesAgree(db, id, selected, voter);
    AddVotesUnique(db, id, selected, voter);
    forall q ensures OptionsOf(u, q) == OptionsOf(t, q) {}
  }

  lemma AddedVotes(t: Tables, first: nat, selected: seq<int>, id: int, community: int, voter: string)
    requires forall v :: v in t.votes ==> v < first
    ensures var u := AddVotes(t, first, NewVotes(selected, id, community, voter));
            && (forall v :: v in u.votes <==> v in t.votes || first <= v < first + |selected|)
            && (forall v :: v in t.votes ==> u.votes[v] == t.votes[v])
            && (forall v :: v in u.votes && v !in t.votes ==> u.votes[v] == Vote(community, id, selected[v - first], voter))
  {
  }

  lemma CastKeeps(db: Db, ctx: Context, id: int, optionIds: seq<int>)
    requires Inv(db)
    ensures Inv(CastVote(db, ctx, id, optionIds).0)
  {
    var checked := OpenPoll(db.tables, ctx, id);
    if checked.Success? {
      var voter := ctx.user.value;
      var selection := ValidateSelection(optionIds, checked.value.kind, OptionsOf(db.tables, id));
      if selection.Success? {
        var dropped := Db(DropVotes(db.tables, VoterVotes(db.tables, ctx.scope, id, voter)), db.next);
        DropVotesKeeps(db, VoterVotes(db.tables, ctx.scope, id, voter));
        ScopedCountIsTrueCount(db.tables, ctx.scope, id);
        forall v | v in dropped.tables.votes
          ensures !(dropped.tables.votes[v].post == id && dropped.tables.votes[v].voter == voter)
        {
          if dropped.tables.votes[v].post == id { assert v in PostVotes(db.tables, id); }
        }
        assert OptionsOf(dropped.tables, id) == OptionsOf(db.tables, id);
        AddVotesKeeps(dropped, id, selection.value, voter);
      }
    }
  }

  lemma StepKeeps(db: Db, e: Event)
    requires Inv(db)
    ensures Inv(Step(db, e).0)
  {
    match e.request
    case Create(create) =>
      if e.ctx.scope.Some? && e.ctx.user.Some? { CreateKeeps(db, e.ctx, e.ctx.scope.value, e.ctx.user.value, create); }
    case Update(id, update) => UpdateKeeps(db, e.ctx, id, update);
    case Delete(id) => DeleteKeeps(db, e.ctx, id);
    case Cast(id, optionIds) => CastKeeps(db, e.ctx, id, optionIds);
    case Retract(id) => if e.ctx.user.Some? { DropVotesKeeps(db, VoterVotes(db.tables, e.ctx.scope, id, e.ctx.user.value)); }
    case _ =>
  }

  /** Safety over whole runs: any requests, any callers, any faults. */
  lemma {:induction false} RunKeeps(db: Db, events: seq<Event>)
    requires Inv(db)
    ensures Inv(Run(db, events))
    decreases |events|
  {
    if events != [] {
      StepKeeps(db, events[0]);
      RunKeeps(Step(db, events[0]).0, events[1..]);
    }
  }

  lemma ReachableInv(events: seq<Event>)
    ensures Inv(Run(EMPTY, events))
  {
    RunKeeps(EMPTY, events);
  }
}
