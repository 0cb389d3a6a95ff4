/** Write, then read: what a later reader of the community is told about an accepted request. */
module ReadBack {
  import opened Prelude
  import opened LocalTables
  import opened NewsBoard
  import opened BoardInvariant
  import opened BoardHistory
  import opened Ballots

  /** The options a reader expects from the inputs: fresh ids in order, position as default order. */
  function ExpectedViews(first: int, inputs: seq<OptionInput>): set<OptionView> {
    set i | 0 <= i < |inputs| ::
      OptionView(first + i, inputs[i].value, if inputs[i].displayOrder.Some? then inputs[i].displayOrder.value else i)
  }

  lemma AddedViews(t: Tables, first: int, inputs: seq<OptionInput>, id: int, community: int)
    requires OptionsOf(t, id) == {} && forall o :: o in t.options ==> o < first
    ensures OptionViews(AddOptions(t, first, BuildOptions(inputs, id, community)), id) == ExpectedViews(first, inputs)
  {
    var u := AddOptions(t, first, BuildOptions(inputs, id, community));
    forall o | o in t.options ensures t.options[o].post != id {
      assert o !in OptionsOf(t, id);
    }
    forall o | o in OptionsOf(u, id) ensures first <= o < first + |inputs| {}
    forall w | w in OptionViews(u, id) ensures w in ExpectedViews(first, inputs) {
      var o :| o in OptionsOf(u, id) && w == OptionView(o, u.options[o].value, u.options[o].displayOrder);
      var i := o - first;
      assert 0 <= i < |inputs| && o == first + i;
    }
    forall w | w in ExpectedViews(first, inputs) ensures w in OptionViews(u, id) {
      var i :| 0 <= i < |inputs|
        && w == OptionView(first + i, inputs[i].value, if inputs[i].displayOrder.Some? then inputs[i].displayOrder.value else i);
      assert first + i in OptionsOf(u, id);
    }
  }

  /** Nobody has a ballot on a post that did not exist. */
  lemma NewPostHasNoVotes(db: Db, post: Post, reader: Context, rows: seq<PollOption>)
    requires Inv(db)
    ensures var id := db.next.post;
            var t := AddOptions(db.tables.(posts := db.tables.posts[id := post]), db.next.option, rows);
            MySelection(t, reader, id, post.kind) == {}
  {
    forall v | v in db.tables.votes ensures db.tables.votes[v].post != db.next.post {
      assert db.tables.options[db.tables.votes[v].option].post == db.tables.votes[v].post;
    }
    assert reader.user.Some? ==> VoterVotes(db.tables, reader.scope, db.next.post, reader.user.value) == {};
  }

  /** A created post reads back with what its request asked for, the author's snapshot, and no vote. */
  lemma CreateReadsBack(db: Db, ctx: Context, community: int, author: string, req: CreateRequest, reader: Context)
    requires Inv(db) && CreatePost(db, ctx, community, author, req).1.Created? && reader.scope == Some(community)
    ensures var (after, created) := CreatePost(db, ctx, community, author, req);
            var answer := GetPost(after.tables, reader, created.id);
            && created.id !in db.tables.posts
            && answer.Detail? && answer.mine == {} && !answer.view.hasVoted
            && var p := answer.view.post;
               && p.kind == req.kind && p.body == req.body && p.author == author
               && p.authorEmail == EmailOf(ctx, author) && p.createdAt == ctx.now
               && (if req.kind.IsPoll()
                   then p.expiresAt == req.expiresAt && p.adminVisibility == req.adminVisibility
                     && p.memberVisibility == req.memberVisibility && p.memberDisplay == req.memberDisplay
                     && req.options.Some? && answer.options == ExpectedViews(db.next.option, req.options.value)
                   else FieldsFit(p) && answer.options == {})
  {
    var id, post := db.next.post, CreatePost(db, ctx, community, author, req).0.tables.posts[db.next.post];
    AddPostKeeps(db, post);
    var t := db.tables.(posts := db.tables.posts[id := post]);
    var rows := if req.kind.IsPoll() then BuildOptions(req.options.value, id, community) else [];
    NewPostHasNoVotes(db, post, reader, rows);
    if req.kind.IsPoll() {
      AddedViews(t, db.next.option, req.options.value, id, community);
    } else {
      assert AddOptions(t, db.next.option, []) == t;
    }
  }

  /** Each field an update carries takes effect, and each it does not carry stays. */
  ghost predicate Overlaid(was: Post, now: Post, req: UpdateRequest) {
    && now.body == (if req.body.Some? then req.body.value else was.body)
    && (now.community, now.author, now.authorEmail, now.kind, now.createdAt)
       == (was.community, was.author, was.authorEmail, was.kind, was.createdAt)
    && var poll := was.kind.IsPoll();
       && now.expiresAt == (if poll && req.expiresAt.Some? then req.expiresAt else was.expiresAt)
       && now.adminVisibility == (if poll && req.adminVisibility.Some? then req.adminVisibility else was.adminVisibility)
       && now.memberVisibility == (if poll && req.memberVisibility.Some? then req.memberVisibility else was.memberVisibility)
       && now.memberDisplay == (if poll && req.memberDisplay.Some? then req.memberDisplay else was.memberDisplay)
  }

  lemma EditsOverlay(p: Post, req: UpdateRequest)
    ensures Overlaid(p, EditFields(p, req), req)
  {
  }

  lemma ReplacedViews(db: Db, scope: Option<int>, id: int, inputs: seq<OptionInput>)
    requires Inv(db) && FindPost(db.tables, scope, id).Some? && ScopedVotes(db.tables, scope, id) == {}
    ensures var u := ReplaceOptions(db.tables, db.next, id, db.tables.posts[id].community, inputs);
            && u.posts == db.tables.posts && u.votes == db.tables.votes
            && OptionViews(u, id) == ExpectedViews(db.next.option, inputs)
  {
    DropOptionsKeeps(db, scope, id);
    AddedViews(DropOptions(db.tables, OptionsOf(db.tables, id)), db.next.option, inputs, id, db.tables.posts[id].community);
  }

  /**
   * An accepted update shows the editor the requested fields over the old ones. Requested options
   * of a poll replace the old ones whole, under ids never used before; otherwise the options stay.
   */
  lemma UpdateReadsBack(db: Db, ctx: Context, id: int, req: UpdateRequest)
    requires Inv(db) && !UpdatePost(db, ctx, id, req).1.Failed?
    ensures var answer := UpdatePost(db, ctx, id, req).1;
            && id in db.tables.posts && answer.Detail?
            && Overlaid(db.tables.posts[id], answer.view.post, req)
            && answer.options == (if db.tables.posts[id].kind.IsPoll() && req.options.Some?
                                  then ExpectedViews(db.next.option, req.options.value) else OptionViews(db.tables, id))
            && answer.mine == MySelection(db.tables, ctx, id, db.tables.posts[id].kind)
  {
    var p, t := db.tables.posts[id], EditPost(db.tables, id, req);
    EditKeeps(db, id, req);
    EditsOverlay(p, req);
    if p.kind.IsPoll() && req.options.Some? {
      ReplacedViews(Db(t, db.next), ctx.scope, id, req.options.value);
    } else {
      assert OptionViews(t, id) == OptionViews(db.tables, id);
    }
  }

  /** After an accepted cast the voter reads back exactly the selection, and counts as having voted unless it is empty. */
  lemma CastReadsBack(db: Db, ctx: Context, id: int, optionIds: seq<int>)
    requires Inv(db) && CastVote(db, ctx, id, optionIds).1.Done?
    ensures var answer := GetPost(CastVote(db, ctx, id, optionIds).0.tables, ctx, id);
            answer.Detail? && answer.mine == Elements(optionIds) && (answer.view.hasVoted <==> optionIds != [])
  {
    var after := CastVote(db, ctx, id, optionIds).0;
    CastKeeps(db, ctx, id, optionIds);
    CastBallots(db, ctx, id, optionIds);
    MineIsBallot(after, ctx, id);
    if optionIds != [] {
      assert optionIds[0] in Elements(optionIds);
    }
  }

  /** A post that is gone stays gone, whatever is asked of the board afterwards. */
  lemma GonePostsStayGone(db: Db, events: seq<Event>, id: int, reader: Context)
    requires id < db.next.post && id !in db.tables.posts
    ensures GetPost(Run(db, events).tables, reader, id) == Failed(PostNotFound)
  {
    PostsStayGone(db, events, id);
  }

  /** A deleted post can never be read again. */
  lemma DeletedForGood(db: Db, ctx: Context, id: int, events: seq<Event>, reader: Context)
    requires Inv(db) && DeletePost(db, ctx, id).1.Done?
    ensures GetPost(Run(DeletePost(db, ctx, id).0, events).tables, reader, id) == Failed(PostNotFound)
  {
    GonePostsStayGone(DeletePost(db, ctx, id).0, events, id, reader);
  }
}
