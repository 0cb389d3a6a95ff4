/** What stays true of votes across whole runs: their meaning, and the deadline. */
module BoardHistory {
  import opened Prelude
  import opened LocalTables
  import opened NewsBoard
  import opened BoardInvariant

  // ---- ids are never reused -----------------------------------------------

  lemma StepDrawsFreshIds(db: Db, e: Event)
    requires Inv(db)
    ensures var after := Step(db, e).0;
            && db.next.vote <= after.next.vote
            && forall v :: v in after.tables.votes ==> v in db.tables.votes || db.next.vote <= v
  {
  }

  lemma {:induction false} GoneVotesStayGone(db: Db, events: seq<Event>, v: int)
    requires Inv(db) && v < db.next.vote && v !in db.tables.votes
    ensures v !in Run(db, events).tables.votes
    decreases |events|
  {
    if events != [] {
      StepKeeps(db, events[0]);
      StepDrawsFreshIds(db, events[0]);
      GoneVotesStayGone(Step(db, events[0]).0, events[1..], v);
    }
  }

  lemma StepBringsNoOldPost(db: Db, e: Event, id: int)
    requires id < db.next.post
    ensures id < Step(db, e).0.next.post
    ensures id !in db.tables.posts ==> id !in Step(db, e).0.tables.posts
  {
  }

  lemma {:induction false} PostsStayGone(db: Db, events: seq<Event>, id: int)
    requires id < db.next.post && id !in db.tables.posts
    ensures id !in Run(db, events).tables.posts
    decreases |events|
  {
    if events != [] {
      StepBringsNoOldPost(db, events[0], id);
      PostsStayGone(Step(db, events[0]).0, events[1..], id);
    }
  }

  // ---- votes keep their meaning -------------------------------------------

  /** Replacing options is only ever reached when no vote, of any community, is on the post. */
  lemma UpdateSparesVotes(db: Db, ctx: Context, id: int, req: UpdateRequest)
    requires Inv(db)
    ensures var after := UpdatePost(db, ctx, id, req).0;
            && after.tables.votes == db.tables.votes
            && forall o :: o in db.tables.options && (o !in after.tables.options || after.tables.options[o] != db.tables.options[o]) ==>
                 db.tables.options[o].post == id && PostVotes(db.tables, id) == {}
  {
    if FindPost(db.tables, ctx.scope, id).Some? {
      var p, t := db.tables.posts[id], EditPost(db.tables, id, req);
      EditKeeps(db, id, req);
      if p.kind.IsPoll() && req.options.Some? && |req.options.value| >= 2 && |ScopedVotes(t, ctx.scope, id)| == 0 {
        ReplaceKeeps(Db(t, db.next), ctx.scope, id, req.options.value);
        ScopedCountIsTrueCount(t, ctx.scope, id);
        assert PostVotes(db.tables, id) == PostVotes(t, id);
      }
    }
  }

  /** An option disappears only with its post, or while its poll has no vote at all. */
  lemma OptionsVanishSafely(db: Db, e: Event, o: int)
    requires Inv(db) && o in db.tables.options
    requires var t := Step(db, e).0.tables; o !in t.options || t.options[o] != db.tables.options[o]
    ensures var post := db.tables.options[o].post;
            post !in Step(db, e).0.tables.posts || PostVotes(db.tables, post) == {}
  {
    if e.request.Update? { UpdateSparesVotes(db, e.ctx, e.request.id, e.request.update); }
  }

  lemma StepKeepsMeaning(db: Db, e: Event, v: int)
    requires Inv(db) && v in db.tables.votes && v in Step(db, e).0.tables.votes
    ensures var t, u := db.tables, Step(db, e).0.tables;
            && u.votes[v] == t.votes[v]
            && t.votes[v].option in t.options && t.votes[v].option in u.options
            && u.options[t.votes[v].option] == t.options[t.votes[v].option]
  {
    var t, o := db.tables, db.tables.votes[v].option;
    StepKeeps(db, e);
    match e.request
    case Update(id, update) =>
      UpdateSparesVotes(db, e.ctx, id, update);
      assert v in PostVotes(t, t.votes[v].post);
    case _ =>
  }

  /**
   * However the run continues, a vote that is still there names the option it named when it was
   * cast, and that option still has the post, the text and the place it had.
   */
  lemma {:induction false} VotesKeepTheirMeaning(db: Db, events: seq<Event>, v: int)
    requires Inv(db) && v in db.tables.votes && v in Run(db, events).tables.votes
    ensures var t, u := db.tables, Run(db, events).tables;
            && u.votes[v] == t.votes[v]
            && t.votes[v].option in t.options && t.votes[v].option in u.options
            && u.options[t.votes[v].option] == t.options[t.votes[v].option]
    decreases |events|
  {
    if events != [] {
      var mid := Step(db, events[0]).0;
      StepKeeps(db, events[0]);
      StepDrawsFreshIds(db, events[0]);
      if v !in mid.tables.votes { GoneVotesStayGone(mid, events[1..], v); }
      StepKeepsMeaning(db, events[0], v);
      VotesKeepTheirMeaning(mid, events[1..], v);
    }
  }

  // ---- the deadline -------------------------------------------------------

  ghost predicate SameVotesOn(t: Tables, u: Tables, id: int) {
    && PostVotes(t, id) == PostVotes(u, id)
    && forall v :: v in PostVotes(t, id) ==> t.votes[v] == u.votes[v]
  }

  ghost predicate ClosedPoll(t: Tables, id: int, deadline: int) {
    id in t.posts && t.posts[id].kind.IsPoll() && t.posts[id].expiresAt == Some(deadline)
  }

  /** A delete of the post that its own community asks for and that reaches its commit. */
  predicate Deletes(t: Tables, e: Event, id: int)
    requires id in t.posts
  {
    e.request == Delete(id) && InScope(e.ctx.scope, t.posts[id].community) && !e.fault.BeforeCommit?
  }

  /** Whether an update is refused, as can be told before it is made. */
  predicate UpdateRefused(t: Tables, ctx: Context, id: int, req: UpdateRequest) {
    || FindPost(t, ctx.scope, id).None?
    || (t.posts[id].kind.IsPoll() && req.options.Some? && (|req.options.value| < 2 || ScopedVotes(t, ctx.scope, id) != {}))
  }

  lemma UpdateRefusedIff(t: Tables, next: Counters, ctx: Context, id: int, req: UpdateRequest)
    requires Inv(Db(t, next))
    ensures UpdatePost(Db(t, next), ctx, id, req).1.Failed? <==> UpdateRefused(t, ctx, id, req)
  {
    if FindPost(t, ctx.scope, id).Some? {
      EditKeeps(Db(t, next), id, req);
      assert ScopedVotes(EditPost(t, id, req), ctx.scope, id) == ScopedVotes(t, ctx.scope, id);
    }
  }

  /** An accepted update that puts the deadline somewhere else. */
  predicate MovesDeadline(t: Tables, e: Event, id: int, deadline: int) {
    && e.request.Update? && e.request.id == id && !e.fault.BeforeCommit?
    && e.request.update.expiresAt.Some? && e.request.update.expiresAt != Some(deadline)
    && !UpdateRefused(t, e.ctx, id, e.request.update)
  }

  lemma LateCast(db: Db, e: Event, id: int, deadline: int)
    requires Inv(db) && ClosedPoll(db.tables, id, deadline) && deadline <= e.ctx.now && e.request.Cast?
    ensures SameVotesOn(db.tables, CastVote(db, e.ctx, e.request.id, e.request.optionIds).0.tables, id)
  {
    if e.request.id != id && OpenPoll(db.tables, e.ctx, e.request.id).Success? {
      var p := OpenPoll(db.tables, e.ctx, e.request.id).value;
      var selection := ValidateSelection(e.request.optionIds, p.kind, OptionsOf(db.tables, e.request.id));
      if selection.Success? {
        var voter := e.ctx.user.value;
        var t := DropVotes(db.tables, VoterVotes(db.tables, e.ctx.scope, e.request.id, voter));
        AddedVotes(t, db.next.vote, selection.value, e.request.id, p.community, voter);
      }
    }
  }

  lemma OtherDeleteSpares(db: Db, id: int, other: int)
    requires Inv(db) && other != id
    ensures SameVotesOn(db.tables, DropPost(db.tables, other), id)
  {
    forall v | v in PostVotes(db.tables, id) ensures v in PostVotes(DropPost(db.tables, other), id) {
      assert db.tables.options[db.tables.votes[v].option].post == id;
    }
  }

  lemma OwnDeleteEmpties(t: Tables, id: int)
    ensures PostVotes(DropPost(t, id), id) == {}
  {
  }

  /**
   * What can still change the votes of a poll after its deadline, exactly: a delete of the post
   * by its own community, if there is a vote to lose.
   */
  lemma LateVotesChangeIff(db: Db, e: Event, id: int, deadline: int)
    requires Inv(db) && ClosedPoll(db.tables, id, deadline) && deadline <= e.ctx.now
    ensures !SameVotesOn(db.tables, Step(db, e).0.tables, id)
       <==> Deletes(db.tables, e, id) && PostVotes(db.tables, id) != {}
  {
    match e.request
    case Create(_) =>
    case Update(other, update) => UpdateSparesVotes(db, e.ctx, other, update);
    case Delete(other) =>
      if other == id { OwnDeleteEmpties(db.tables, id); } else { OtherDeleteSpares(db, id, other); }
    case Cast(_, _) => LateCast(db, e, id, deadline);
    case Retract(other) =>
      if other != id && e.ctx.user.Some? {
        assert forall v :: v in PostVotes(db.tables, id) ==> v !in VoterVotes(db.tables, e.ctx.scope, other, e.ctx.user.value);
      }
    case _ =>
  }

  /** What can make the poll stop being closed at its deadline, exactly. */
  lemma DeadlineHoldsIff(db: Db, e: Event, id: int, deadline: int)
    requires Inv(db) && ClosedPoll(db.tables, id, deadline)
    ensures ClosedPoll(Step(db, e).0.tables, id, deadline)
       <==> !Deletes(db.tables, e, id) && !MovesDeadline(db.tables, e, id, deadline)
  {
    if e.request.Update? { UpdateRefusedIff(db.tables, db.next, e.ctx, e.request.id, e.request.update); }
  }

  /** Late requests, none of which moves the deadline when it comes to it. */
  ghost predicate DeadlineKept(db: Db, events: seq<Event>, id: int, deadline: int)
    decreases |events|
  {
    events == [] ||
    (&& deadline <= events[0].ctx.now && !MovesDeadline(db.tables, events[0], id, deadline)
     && DeadlineKept(Step(db, events[0]).0, events[1..], id, deadline))
  }

  /**
   * Once the deadline has passed the vote set is final, whatever is asked of the board: over any
   * run that does not move the deadline, it changes exactly if there were votes and the post
   * itself is gone. Foreign and refused deletes and deadline edits are among the requests.
   */
  lemma {:induction false} VotesFinalAfterDeadline(db: Db, events: seq<Event>, id: int, deadline: int)
    requires Inv(db) && ClosedPoll(db.tables, id, deadline) && DeadlineKept(db, events, id, deadline)
    ensures var u := Run(db, events).tables;
            && (id in u.posts ==> ClosedPoll(u, id, deadline))
            && (!SameVotesOn(db.tables, u, id) <==> id !in u.posts && PostVotes(db.tables, id) != {})
    decreases |events|
  {
    if events != [] {
      var mid := Step(db, events[0]).0;
      LateVotesChangeIff(db, events[0], id, deadline);
      DeadlineHoldsIff(db, events[0], id, deadline);
      StepKeeps(db, events[0]);
      if Deletes(db.tables, events[0], id) {
        StepBringsNoOldPost(db, events[0], id);
        PostsStayGone(mid, events[1..], id);
        RunKeeps(mid, events[1..]);
        GonePostHasNoVotes(Run(mid, events[1..]), id);
      } else {
        VotesFinalAfterDeadline(mid, events[1..], id, deadline);
      }
    }
  }

  lemma GonePostHasNoVotes(db: Db, id: int)
    requires Inv(db) && id !in db.tables.posts
    ensures PostVotes(db.tables, id) == {}
  {
    forall v | v in db.tables.votes ensures db.tables.votes[v].post != id {
      assert db.tables.options[db.tables.votes[v].option].post == db.tables.votes[v].post;
    }
  }

  /**
   * The deadline itself is no promise, since an update may move it either way. After any update,
   * by anyone, a voter is turned away as too late exactly when the post is a poll the voter can
   * see and the deadline the update leaves behind has passed.
   */
  lemma LateAfterUpdateIff(db: Db, editor: Context, id: int, req: UpdateRequest, voter: Context, optionIds: seq<int>)
    requires Inv(db)
    ensures CastVote(UpdatePost(db, editor, id, req).0, voter, id, optionIds).1 == Failed(PollExpired)
       <==> && FindPost(db.tables, voter.scope, id).Some? && db.tables.posts[id].kind.IsPoll()
            && (if req.expiresAt.Some? && !UpdateRefused(db.tables, editor, id, req)
                then req.expiresAt.value <= voter.now else PollEnded(db.tables.posts[id], voter.now))
  {
    UpdateRefusedIff(db.tables, db.next, editor, id, req);
    var t := UpdatePost(db, editor, id, req).0.tables;
    if !UpdateRefused(db.tables, editor, id, req) {
      assert id in t.posts && t.posts[id] == EditFields(db.tables.posts[id], req);
    } else {
      assert t == db.tables;
    }
  }

  // ---- failed requests ----------------------------------------------------

  lemma EditMovesRowsIff(t: Tables, id: int, req: UpdateRequest)
    requires id in t.posts
    ensures EditPost(t, id, req) != t <==> EditFields(t.posts[id], req) != t.posts[id]
  {
    if EditFields(t.posts[id], req) == t.posts[id] {
      assert t.posts[id := t.posts[id]] == t.posts;
    } else {
      assert EditPost(t, id, req).posts[id] != t.posts[id];
    }
  }

  lemma NewOptionsMoveRows(db: Db, t: Tables, id: int, community: int, inputs: seq<OptionInput>)
    requires inputs != [] && forall o :: o in db.tables.options ==> o < db.next.option
    ensures ReplaceOptions(t, db.next, id, community, inputs).options != db.tables.options
  {
    assert db.next.option in ReplaceOptions(t, db.next, id, community, inputs).options;
    assert db.next.option !in db.tables.options;
  }

  /** An accepted update changes a row exactly when it changes a field or replaces a poll's options. */
  lemma AcceptedUpdateMovesIff(db: Db, ctx: Context, id: int, req: UpdateRequest)
    requires Inv(db) && !UpdateRefused(db.tables, ctx, id, req)
    ensures UpdatePost(db, ctx, id, req).0.tables != db.tables
       <==> EditFields(db.tables.posts[id], req) != db.tables.posts[id] || (db.tables.posts[id].kind.IsPoll() && req.options.Some?)
  {
    EditKeeps(db, id, req);
    EditMovesRowsIff(db.tables, id, req);
    assert ScopedVotes(EditPost(db.tables, id, req), ctx.scope, id) == ScopedVotes(db.tables, ctx.scope, id);
    if db.tables.posts[id].kind.IsPoll() && req.options.Some? {
      NewOptionsMoveRows(db, EditPost(db.tables, id, req), id, db.tables.posts[id].community, req.options.value);
    }
  }

  /**
   * A request that is answered with a failure has changed a committed row exactly when it is an
   * update that would have been accepted, has something to change, and lost its read-back.
   */
  lemma FailedMovesIff(db: Db, e: Event)
    requires Inv(db)
    ensures Step(db, e).1.Failed? && Step(db, e).0.tables != db.tables
       <==> && e.fault == AfterCommit && e.request.Update?
            && !UpdateRefused(db.tables, e.ctx, e.request.id, e.request.update)
            && var p := db.tables.posts[e.request.id];
               EditFields(p, e.request.update) != p || (p.kind.IsPoll() && e.request.update.options.Some?)
  {
    if e.request.Update? {
      UpdateRefusedIff(db.tables, db.next, e.ctx, e.request.id, e.request.update);
      if !UpdateRefused(db.tables, e.ctx, e.request.id, e.request.update) {
        AcceptedUpdateMovesIff(db, e.ctx, e.request.id, e.request.update);
      }
    }
  }
}
