/** What each answer of the board says, spelled out on the tables it was given from. */
module Answers {
  import opened Prelude
  import opened LocalTables
  import opened NewsBoard
  import opened BoardInvariant
  import opened BoardHistory
  import opened Ballots

  /** The post is there, in the caller's own community. */
  ghost predicate Sees(t: Tables, ctx: Context, id: int) {
    id in t.posts && ctx.scope == Some(t.posts[id].community)
  }

  ghost predicate SeesPoll(t: Tables, ctx: Context, id: int) {
    Sees(t, ctx, id) && t.posts[id].kind != PlainPost
  }

  ghost predicate Open(p: Post, now: int) { p.expiresAt.None? || now < p.expiresAt.value }

  ghost predicate Known(ctx: Context) { ctx.user.Some? && ctx.user.value != "" }

  // ---- voting -------------------------------------------------------------

  /** Every chosen id names an option of this post, and a single-choice poll gets exactly one. */
  ghost predicate ValidChoice(t: Tables, id: int, optionIds: seq<int>)
    requires id in t.posts
  {
    && (forall o :: o in optionIds ==> o in t.options && t.options[o].post == id)
    && (t.posts[id].kind == SingleChoice ==> |Elements(optionIds)| == 1)
  }

  lemma SelectionExact(t: Tables, id: int, optionIds: seq<int>)
    requires id in t.posts
    ensures var selection := ValidateSelection(optionIds, t.posts[id].kind, OptionsOf(t, id));
            && (selection.Success? <==> ValidChoice(t, id, optionIds))
            && (selection.Failure? ==> selection.error == InvalidVote)
  {
    var selected := Dedupe(optionIds);
    NoDuplicatesCardinality(selected);
    assert Elements(selected) == Elements(optionIds);
    forall o ensures o in OptionsOf(t, id) <==> o in t.options && t.options[o].post == id {}
    if forall o :: o in optionIds ==> o in t.options && t.options[o].post == id {
      forall i | 0 <= i < |selected| ensures selected[i] in OptionsOf(t, id) {
        assert selected[i] in optionIds;
      }
    } else {
      var o :| o in optionIds && !(o in t.options && t.options[o].post == id);
      assert o in selected;
      var i :| 0 <= i < |selected| && selected[i] == o;
      assert selected[i] !in OptionsOf(t, id);
    }
  }

  /** When a cast is accepted, and what each refusal means, each of them exactly. */
  lemma CastAnswered(db: Db, ctx: Context, id: int, optionIds: seq<int>)
    ensures var t, answer := db.tables, CastVote(db, ctx, id, optionIds).1;
            && (answer == Failed(PostNotFound) <==> !Sees(t, ctx, id))
            && (answer == Failed(NotAPoll) <==> Sees(t, ctx, id) && t.posts[id].kind == PlainPost)
            && (answer == Failed(PollExpired) <==> SeesPoll(t, ctx, id) && !Open(t.posts[id], ctx.now))
            && (answer == Failed(Unauthorized) <==> SeesPoll(t, ctx, id) && Open(t.posts[id], ctx.now) && !Known(ctx))
            && var asked := SeesPoll(t, ctx, id) && Open(t.posts[id], ctx.now) && Known(ctx);
               && (answer == Failed(InvalidVote) <==> asked && !ValidChoice(t, id, optionIds))
               && (answer == Done <==> asked && ValidChoice(t, id, optionIds))
  {
    if id in db.tables.posts { SelectionExact(db.tables, id, optionIds); }
  }

  /** The same for a retraction, which has no selection to refuse. */
  lemma RetractAnswered(db: Db, ctx: Context, id: int)
    ensures var t, answer := db.tables, RetractVote(db, ctx, id).1;
            && (answer == Failed(PostNotFound) <==> !Sees(t, ctx, id))
            && (answer == Failed(NotAPoll) <==> Sees(t, ctx, id) && t.posts[id].kind == PlainPost)
            && (answer == Failed(PollExpired) <==> SeesPoll(t, ctx, id) && !Open(t.posts[id], ctx.now))
            && (answer == Failed(Unauthorized) <==> SeesPoll(t, ctx, id) && Open(t.posts[id], ctx.now) && !Known(ctx))
            && (answer == Done <==> SeesPoll(t, ctx, id) && Open(t.posts[id], ctx.now) && Known(ctx))
  {
  }

  // ---- creating, editing, deleting ----------------------------------------

  /** What a poll must come with. */
  ghost predicate CompletePoll(req: CreateRequest, now: int) {
    && req.options.Some? && |req.options.value| >= 2
    && req.adminVisibility.Some? && req.memberVisibility.Some? && req.memberDisplay.Some?
    && req.expiresAt.Some? && now < req.expiresAt.value
  }

  /** A create is accepted for a known caller in a community, unless it is a poll that is incomplete or already over. */
  lemma CreateAnswered(db: Db, ctx: Context, req: CreateRequest)
    ensures var answer := Serve(db, ctx, Create(req)).1;
            && (answer == Failed(Unauthorized) <==> ctx.scope == None || !Known(ctx))
            && (answer == Failed(InvalidPoll) <==> ctx.scope.Some? && Known(ctx) && req.kind != PlainPost && !CompletePoll(req, ctx.now))
            && (answer == Created(db.next.post)
                <==> ctx.scope.Some? && Known(ctx) && (req.kind != PlainPost ==> CompletePoll(req, ctx.now)))
  {
  }

  /** Frozen options are those of a poll on which anyone at all has a vote. */
  lemma UpdateAnswered(db: Db, ctx: Context, id: int, req: UpdateRequest)
    requires Inv(db)
    ensures var t, answer := db.tables, UpdatePost(db, ctx, id, req).1;
            var replacing := SeesPoll(t, ctx, id) && req.options.Some?;
            && (answer == Failed(PostNotFound) <==> !Sees(t, ctx, id))
            && (answer == Failed(InvalidPoll) <==> replacing && |req.options.value| < 2)
            && (answer == Failed(OptionsFrozen) <==> replacing && |req.options.value| >= 2 && PostVotes(t, id) != {})
            && (answer.Detail? <==> Sees(t, ctx, id) && (replacing ==> |req.options.value| >= 2 && PostVotes(t, id) == {}))
  {
    UpdateRefusedIff(db.tables, db.next, ctx, id, req);
    if Sees(db.tables, ctx, id) {
      EditKeeps(db, id, req);
      ScopedCountIsTrueCount(db.tables, ctx.scope, id);
      assert ScopedVotes(EditPost(db.tables, id, req), ctx.scope, id) == PostVotes(db.tables, id);
    }
  }

  lemma DeleteAnswered(db: Db, ctx: Context, id: int)
    ensures var (after, answer) := DeletePost(db, ctx, id);
            && answer == (if Sees(db.tables, ctx, id) then Done else Failed(PostNotFound))
            && (answer == Done ==> id !in after.tables.posts)
  {
  }

  // ---- what is left alone -------------------------------------------------

  /** A post, its options and its votes, row for row. */
  ghost predicate SamePost(t: Tables, u: Tables, q: int) {
    && (q in t.posts <==> q in u.posts) && (q in t.posts ==> t.posts[q] == u.posts[q])
    && (forall o :: (o in t.options && t.options[o].post == q) <==> (o in u.options && u.options[o].post == q))
    && (forall o :: o in t.options && t.options[o].post == q ==> u.options[o] == t.options[o])
    && SameVotesOn(t, u, q)
  }

  lemma CastSparesPosts(db: Db, ctx: Context, id: int, optionIds: seq<int>, q: int)
    requires Inv(db) && q != id
    ensures var u := CastVote(db, ctx, id, optionIds).0.tables;
            u.posts == db.tables.posts && u.options == db.tables.options && SameVotesOn(db.tables, u, q)
  {
    var checked := OpenPoll(db.tables, ctx, id);
    if checked.Success? {
      var selection := ValidateSelection(optionIds, checked.value.kind, OptionsOf(db.tables, id));
      if selection.Success? {
        var voter := ctx.user.value;
        var t := DropVotes(db.tables, VoterVotes(db.tables, ctx.scope, id, voter));
        AddedVotes(t, db.next.vote, selection.value, id, checked.value.community, voter);
      }
    }
  }

  lemma UpdateSparesPosts(db: Db, ctx: Context, id: int, req: UpdateRequest, q: int)
    requires Inv(db) && q != id
    ensures SamePost(db.tables, UpdatePost(db, ctx, id, req).0.tables, q)
  {
    UpdateSparesVotes(db, ctx, id, req);
    if FindPost(db.tables, ctx.scope, id).Some? { EditKeeps(db, id, req); }
  }

  lemma DeleteSparesPosts(db: Db, id: int, q: int)
    requires Inv(db) && q != id
    ensures SamePost(db.tables, DropPost(db.tables, id), q)
  {
    OtherDeleteSpares(db, q, id);
  }

  lemma CreateSparesPosts(db: Db, ctx: Context, req: CreateRequest, q: int)
    requires Inv(db) && q < db.next.post
    ensures SamePost(db.tables, Serve(db, ctx, Create(req)).0.tables, q)
  {
  }

  lemma RetractSparesPosts(db: Db, ctx: Context, id: int, q: int)
    requires q != id
    ensures SamePost(db.tables, RetractVote(db, ctx, id).0.tables, q)
  {
  }

  /** A request touches the post it names or creates and no other: not its row, its options or its votes. */
  lemma OnlyItsPost(db: Db, e: Event, q: int)
    requires Inv(db) && q < db.next.post
    requires match e.request
             case Update(id, _) => q != id
             case Delete(id) => q != id
             case Cast(id, _) => q != id
             case Retract(id) => q != id
             case _ => true
    ensures SamePost(db.tables, Step(db, e).0.tables, q)
  {
    match e.request
    case Create(create) => CreateSparesPosts(db, e.ctx, create, q);
    case Retract(id) => RetractSparesPosts(db, e.ctx, id, q);
    case Update(id, update) => UpdateSparesPosts(db, e.ctx, id, update, q);
    case Delete(id) => DeleteSparesPosts(db, id, q);
    case Cast(id, optionIds) => CastSparesPosts(db, e.ctx, id, optionIds, q);
    case _ =>
  }

  /** Voting changes votes only, and reading changes nothing. */
  lemma VotingSparesBoard(db: Db, e: Event)
    requires Inv(db) && (e.request.Cast? || e.request.Retract?)
    ensures Step(db, e).0.tables.posts == db.tables.posts && Step(db, e).0.tables.options == db.tables.options
  {
    if e.request.Cast? { CastSparesPosts(db, e.ctx, e.request.id, e.request.optionIds, e.request.id + 1); }
  }

  lemma ReadingSparesBoard(db: Db, e: Event)
    requires e.request.Get? || e.request.Listing? || e.request.Results?
    ensures Step(db, e).0.tables == db.tables
  {
  }

  // ---- the birth of a poll ------------------------------------------------

  /** The `k`-th request created the post; a poll was then still to close. */
  ghost predicate BornAt(db: Db, events: seq<Event>, k: nat, id: int, born: Post) {
    && k < |events| && id !in Run(db, events[..k]).tables.posts
    && id in Run(db, events[..k + 1]).tables.posts && Run(db, events[..k + 1]).tables.posts[id] == born
    && born.createdAt == events[k].ctx.now
    && (born.kind != PlainPost ==> born.expiresAt.Some? && born.createdAt < born.expiresAt.value)
  }

  /** What no request changes about a post. */
  ghost predicate SameBirth(p: Post, q: Post) {
    (p.community, p.author, p.authorEmail, p.kind, p.createdAt) == (q.community, q.author, q.authorEmail, q.kind, q.createdAt)
  }

  lemma StepKeepsBirth(db: Db, e: Event, id: int)
    requires Inv(db) && id in db.tables.posts && id in Step(db, e).0.tables.posts
    ensures SameBirth(db.tables.posts[id], Step(db, e).0.tables.posts[id])
  {
  }

  lemma {:induction false} RunKeepsBirth(db: Db, events: seq<Event>, id: int)
    requires Inv(db) && id in db.tables.posts && id in Run(db, events).tables.posts
    ensures SameBirth(db.tables.posts[id], Run(db, events).tables.posts[id])
    decreases |events|
  {
    if events != [] {
      var mid := Step(db, events[0]).0;
      StepKeeps(db, events[0]);
      StepBringsNoOldPost(db, events[0], id);
      if id !in mid.tables.posts { PostsStayGone(mid, events[1..], id); }
      StepKeepsBirth(db, events[0], id);
      RunKeepsBirth(mid, events[1..], id);
    }
  }

  lemma StepBirth(db: Db, e: Event, id: int)
    requires id !in db.tables.posts && id in Step(db, e).0.tables.posts
    ensures var p := Step(db, e).0.tables.posts[id];
            p.createdAt == e.ctx.now && (p.kind != PlainPost ==> p.expiresAt.Some? && p.createdAt < p.expiresAt.value)
  {
  }

  lemma {:induction false} BirthIn(db: Db, events: seq<Event>, id: int) returns (k: nat, born: Post)
    requires Inv(db) && id !in db.tables.posts && id in Run(db, events).tables.posts
    ensures BornAt(db, events, k, id, born) && SameBirth(born, Run(db, events).tables.posts[id])
    decreases |events|
  {
    var mid, rest := Step(db, events[0]).0, events[1..];
    StepKeeps(db, events[0]);
    if id in mid.tables.posts {
      k, born := 0, mid.tables.posts[id];
      StepBirth(db, events[0], id);
      RunKeepsBirth(mid, rest, id);
      assert events[..0] == [] && events[..1] == [events[0]] && [events[0]][1..] == [];
    } else {
      var j;
      j, born := BirthIn(mid, rest, id);
      k := j + 1;
      assert events[..k][1..] == rest[..j] && events[..k][0] == events[0];
      assert events[..k + 1][1..] == rest[..j + 1] && events[..k + 1][0] == events[0];
    }
  }

  /** Every post of a reachable board was created by one of its requests, and every poll was open then. */
  lemma EveryPollWasOpen(events: seq<Event>, id: int)
    requires id in Run(EMPTY, events).tables.posts
    ensures exists k: nat, born :: BornAt(EMPTY, events, k, id, born) && SameBirth(born, Run(EMPTY, events).tables.posts[id])
  {
    var k, born := BirthIn(EMPTY, events, id);
  }
}
