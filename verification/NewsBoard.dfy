/** What each request of the news board does to the local database, and what it answers. */
module NewsBoard {
  import opened Prelude
  import opened LocalTables

  /** Request-scoped context: resolved community, caller, role, clock, CRM address book. */
  datatype Context = Context(
    scope: Option<int>, user: Option<string>, role: Option<Role>, now: int, emails: map<string, string>)

  datatype OptionInput = OptionInput(value: string, displayOrder: Option<int>)

  datatype CreateRequest = CreateRequest(
    kind: PostType, body: string, options: Option<seq<OptionInput>>, expiresAt: Option<int>,
    adminVisibility: Option<AdminVisibility>, memberVisibility: Option<MemberVisibility>,
    memberDisplay: Option<MemberDisplay>)

  datatype UpdateRequest = UpdateRequest(
    body: Option<string>, options: Option<seq<OptionInput>>, expiresAt: Option<int>,
    adminVisibility: Option<AdminVisibility>, memberVisibility: Option<MemberVisibility>,
    memberDisplay: Option<MemberDisplay>)

  datatype Request =
    | Create(create: CreateRequest)
    | Update(id: int, update: UpdateRequest)
    | Delete(id: int)
    | Cast(id: int, optionIds: seq<int>)
    | Retract(id: int)
    | Get(id: int)
    | Listing(page: int, size: int)
    | Results(id: int)

  datatype Error =
    | PostNotFound | NotAPoll | PollExpired | Unauthorized | InvalidVote | InvalidPoll | OptionsFrozen
    | Unavailable // a database call failed

  datatype OptionView = OptionView(id: int, value: string, displayOrder: int)

  datatype PostView = PostView(id: int, post: Post, pollEnded: bool, hasVoted: bool)

  datatype ListItem = ListItem(view: PostView, optionCount: nat)

  datatype ResultsMode = Aggregate | Full

  datatype VoterIdentity = VoterIdentity(voter: string, email: Option<string>)

  datatype Tally = Tally(option: int, value: string, count: nat, voters: Option<set<VoterIdentity>>)

  datatype PollResults =
    | Withheld(post: int, pollEnded: bool)
    | Shown(post: int, pollEnded: bool, mode: ResultsMode, totalVoters: nat, tallies: set<Tally>)

  /** Answers list options and voters as sets: their order is a matter of presentation. */
  datatype Response =
    | Done
    | Created(id: int)
    | Detail(view: PostView, options: set<OptionView>, mine: set<int>)
    | Page(items: seq<ListItem>, total: nat, totalPages: int)
    | Tallied(results: PollResults)
    | Failed(error: Error)

  // ---- rules of one request -----------------------------------------------

  predicate PollEnded(p: Post, now: int) { p.expiresAt.Some? && p.expiresAt.value <= now }

  predicate Anonymous(ctx: Context) { ctx.user.None? || ctx.user.value == "" }

  predicate Privileged(ctx: Context) { ctx.role.Some? && Rank(ctx.role.value) >= Rank(Manager) }

  function EmailOf(ctx: Context, user: string): Option<string> {
    if user != "" && user in ctx.emails then Some(ctx.emails[user]) else None
  }

  function ValidatePollPayload(req: CreateRequest, now: int): Result<int, Error> {
    if req.options.None? || |req.options.value| < 2 then Failure(InvalidPoll)
    else if req.adminVisibility.None? || req.memberVisibility.None? || req.memberDisplay.None? then Failure(InvalidPoll)
    else if req.expiresAt.None? then Failure(InvalidPoll)
    else if req.expiresAt.value <= now then Failure(InvalidPoll)
    else Success(req.expiresAt.value)
  }

  function BuildOptions(inputs: seq<OptionInput>, post: int, community: int): (rows: seq<PollOption>)
    ensures |rows| == |inputs|
  {
    seq(|inputs|, i requires 0 <= i < |inputs| =>
      PollOption(community, post, inputs[i].value,
                 match inputs[i].displayOrder case Some(d) => d case None => i))
  }

  function ValidateSelection(optionIds: seq<int>, kind: PostType, valid: set<int>): Result<seq<int>, Error> {
    var selected := Dedupe(optionIds);
    if exists i :: 0 <= i < |selected| && selected[i] !in valid then Failure(InvalidVote)
    else if kind == SingleChoice && |selected| != 1 then Failure(InvalidVote)
    else Success(selected)
  }

  function NewVotes(selected: seq<int>, post: int, community: int, voter: string): (rows: seq<Vote>)
    ensures |rows| == |selected|
  {
    seq(|selected|, i requires 0 <= i < |selected| => Vote(community, post, selected[i], voter))
  }

  /** The results matrix: whether anything is shown, and with identities or only counts. */
  function Visibility(p: Post, privileged: bool, hasVoted: bool, ended: bool): Option<ResultsMode> {
    if privileged then
      Some(if p.adminVisibility == Some(AdminFull) then Full else Aggregate)
    else if p.memberVisibility.None? || p.memberVisibility.value == MemberNone then None
    else
      var display := match p.memberDisplay case Some(d) => d case None => Never;
      if display == BeforeVote || (display == AfterVote && hasVoted) || (display == WhenPollEnds && ended)
      then Some(if p.memberVisibility.value == MemberFull then Full else Aggregate)
      else None
  }

  // ---- writes -------------------------------------------------------------

  function NewPost(req: CreateRequest, community: int, author: string, expires: Option<int>, ctx: Context): Post {
    var poll := req.kind.IsPoll();
    Post(community, author, EmailOf(ctx, author), req.kind, req.body, expires,
         if poll then req.adminVisibility else None, if poll then req.memberVisibility else None,
         if poll then req.memberDisplay else None, ctx.now)
  }

  function CreatePost(db: Db, ctx: Context, community: int, author: string, req: CreateRequest): (Db, Response) {
    var expires := if req.kind.IsPoll() then ValidatePollPayload(req, ctx.now) else Failure(InvalidPoll);
    if req.kind.IsPoll() && expires.Failure? then (db, Failed(expires.error))
    else
      var id := db.next.post;
      var post := NewPost(req, community, author, if expires.Success? then Some(expires.value) else None, ctx);
      var t := db.tables.(posts := db.tables.posts[id := post]);
      var rows := if req.kind.IsPoll() && req.options.Some? then BuildOptions(req.options.value, id, community) else [];
      (Db(AddOptions(t, db.next.option, rows),
          db.next.(post := id + 1, option := db.next.option + |rows|)),
       Created(id))
  }

  /** Only what the request carries changes, and poll fields only on a poll. */
  function EditFields(p: Post, req: UpdateRequest): Post {
    var q := if req.body.Some? then p.(body := req.body.value) else p;
    if !p.kind.IsPoll() then q
    else q.(
      expiresAt := if req.expiresAt.Some? then req.expiresAt else p.expiresAt,
      adminVisibility := if req.adminVisibility.Some? then req.adminVisibility else p.adminVisibility,
      memberVisibility := if req.memberVisibility.Some? then req.memberVisibility else p.memberVisibility,
      memberDisplay := if req.memberDisplay.Some? then req.memberDisplay else p.memberDisplay)
  }

  function EditPost(t: Tables, id: int, req: UpdateRequest): Tables
    requires id in t.posts
  {
    t.(posts := t.posts[id := EditFields(t.posts[id], req)])
  }

  function ReplaceOptions(t: Tables, next: Counters, id: int, community: int, inputs: seq<OptionInput>): Tables {
    AddOptions(DropOptions(t, OptionsOf(t, id)), next.option, BuildOptions(inputs, id, community))
  }

  /** After the field edits `t`: replace the options if asked and allowed, then read the post back. */
  function FinishUpdate(db: Db, t: Tables, ctx: Context, id: int, req: UpdateRequest): (Db, Response)
    requires id in t.posts
  {
    if t.posts[id].kind.IsPoll() && req.options.Some? then
      var inputs := req.options.value;
      if |inputs| < 2 then (db, Failed(InvalidPoll))
      else if |ScopedVotes(t, ctx.scope, id)| > 0 then (db, Failed(OptionsFrozen))
      else
        var after := Db(ReplaceOptions(t, db.next, id, t.posts[id].community, inputs),
                        db.next.(option := db.next.option + |inputs|));
        (after, GetPost(after.tables, ctx, id))
    else
      (Db(t, db.next), GetPost(t, ctx, id))
  }

  function UpdatePost(db: Db, ctx: Context, id: int, req: UpdateRequest): (Db, Response) {
    match FindPost(db.tables, ctx.scope, id)
    case None => (db, Failed(PostNotFound))
    case Some(_) => FinishUpdate(db, EditPost(db.tables, id, req), ctx, id, req)
  }

  function DeletePost(db: Db, ctx: Context, id: int): (Db, Response) {
    match FindPost(db.tables, ctx.scope, id)
    case None => (db, Failed(PostNotFound))
    case Some(_) => (Db(DropPost(db.tables, id), db.next), Done)
  }

  /** The checks shared by casting and retracting, in their order. */
  function OpenPoll(t: Tables, ctx: Context, id: int): Result<Post, Error> {
    match FindPost(t, ctx.scope, id)
    case None => Failure(PostNotFound)
    case Some(p) =>
      if !p.kind.IsPoll() then Failure(NotAPoll)
      else if PollEnded(p, ctx.now) then Failure(PollExpired)
      else if Anonymous(ctx) then Failure(Unauthorized)
      else Success(p)
  }

  function CastVote(db: Db, ctx: Context, id: int, optionIds: seq<int>): (Db, Response) {
    match OpenPoll(db.tables, ctx, id)
    case Failure(e) => (db, Failed(e))
    case Success(p) =>
      match ValidateSelection(optionIds, p.kind, OptionsOf(db.tables, id))
      case Failure(e) => (db, Failed(e))
      case Success(selected) =>
        var voter := ctx.user.value;
        var t := DropVotes(db.tables, VoterVotes(db.tables, ctx.scope, id, voter));
        (Db(AddVotes(t, db.next.vote, NewVotes(selected, id, p.community, voter)),
            db.next.(vote := db.next.vote + |selected|)),
         Done)
  }

  function RetractVote(db: Db, ctx: Context, id: int): (Db, Response) {
    match OpenPoll(db.tables, ctx, id)
    case Failure(e) => (db, Failed(e))
    case Success(_) =>
      (Db(DropVotes(db.tables, VoterVotes(db.tables, ctx.scope, id, ctx.user.value)), db.next), Done)
  }

  // ---- reads --------------------------------------------------------------

  function OptionViews(t: Tables, id: int): set<OptionView> {
    set o | o in OptionsOf(t, id) :: OptionView(o, t.options[o].value, t.options[o].displayOrder)
  }

  /** The requester's selection, as the detail view computes it. */
  function MySelection(t: Tables, ctx: Context, id: int, kind: PostType): set<int> {
    if !kind.IsPoll() || Anonymous(ctx) then {}
    else set v | v in VoterVotes(t, ctx.scope, id, ctx.user.value) :: t.votes[v].option
  }

  function GetPost(t: Tables, ctx: Context, id: int): Response {
    match FindPost(t, ctx.scope, id)
    case None => Failed(PostNotFound)
    case Some(p) =>
      var mine := MySelection(t, ctx, id, p.kind);
      Detail(PostView(id, p, PollEnded(p, ctx.now), mine != {}), OptionViews(t, id), mine)
  }

  /** Newest first; the id settles ties, so the order is total. */
  predicate Newer(t: Tables, a: int, b: int)
    requires a in t.posts && b in t.posts
  {
    t.posts[a].createdAt > t.posts[b].createdAt || (t.posts[a].createdAt == t.posts[b].createdAt && a >= b)
  }

  lemma {:induction false} NewestExists(t: Tables, ids: set<int>)
    requires ids != {}
    requires forall x :: x in ids ==> x in t.posts
    ensures exists a :: a in ids && forall b :: b in ids ==> Newer(t, a, b)
  {
    var x := Inhabitant(ids);
    var rest := ids - {x};
    if rest == {} {
      forall b | b in ids ensures b == x {
        assert b !in rest;
      }
    } else {
      NewestExists(t, rest);
      var y :| y in rest && forall b :: b in rest ==> Newer(t, y, b);
      var a := if Newer(t, x, y) then x else y;
      forall b | b in ids ensures Newer(t, a, b) {
        assert b == x || b in rest;
      }
    }
  }

  function NewestFirst(t: Tables, ids: set<int>): seq<int>
    requires forall x :: x in ids ==> x in t.posts
  {
    if ids == {} then []
    else
      NewestExists(t, ids);
      var a :| a in ids && forall b :: b in ids ==> Newer(t, a, b);
      [a] + NewestFirst(t, ids - {a})
  }

  function Window<T>(s: seq<T>, offset: nat, limit: nat): (w: seq<T>)
    ensures forall i :: 0 <= i < |w| ==> offset + i < |s| && w[i] == s[offset + i] && w[i] in s
  {
    if |s| <= offset then [] else if |s| <= offset + limit then s[offset..] else s[offset..offset + limit]
  }

  /** Which posts of the page the requester has voted on, as the list view computes it. */
  function VotedPosts(t: Tables, ctx: Context, rows: seq<int>): set<int>
    requires forall i :: 0 <= i < |rows| ==> rows[i] in t.posts
  {
    if Anonymous(ctx) then {}
    else
      set v | v in t.votes && InScope(ctx.scope, t.votes[v].community) && t.votes[v].voter == ctx.user.value
              && t.votes[v].post in rows && t.posts[t.votes[v].post].kind.IsPoll() :: t.votes[v].post
  }

  function Items(t: Tables, ctx: Context, rows: seq<int>, voted: set<int>): (items: seq<ListItem>)
    requires forall i :: 0 <= i < |rows| ==> rows[i] in t.posts
    ensures |items| == |rows|
  {
    seq(|rows|, i requires 0 <= i < |rows| =>
      var p := rows[i];
      ListItem(PostView(p, t.posts[p], PollEnded(t.posts[p], ctx.now), p in voted), |OptionsOf(t, p)|))
  }

  lemma {:induction false} NewestFirstElements(t: Tables, ids: set<int>)
    requires forall x :: x in ids ==> x in t.posts
    ensures forall x :: x in NewestFirst(t, ids) <==> x in ids
    ensures forall i :: 0 <= i < |NewestFirst(t, ids)| ==> NewestFirst(t, ids)[i] in ids
    ensures |NewestFirst(t, ids)| == |ids|
  {
    if ids != {} {
      var a := NewestFirst(t, ids)[0];
      NewestFirstElements(t, ids - {a});
    }
  }

  /** One page of the community's posts, newest first. */
  function PageRows(t: Tables, scope: Option<int>, offset: nat, limit: nat): (rows: seq<int>)
    ensures forall i :: 0 <= i < |rows| ==> rows[i] in t.posts
  {
    var all := ScopedPosts(t, scope);
    NewestFirstElements(t, all);
    var ordered := NewestFirst(t, all);
    var rows := Window(ordered, offset, limit);
    assert forall i :: 0 <= i < |rows| ==> rows[i] == ordered[offset + i];
    rows
  }

  function ListPosts(t: Tables, ctx: Context, page: int, size: int): Response {
    var offset := (page - 1) * size;
    if offset < 0 || size < 0 then Failed(Unavailable) // PostgreSQL refuses a negative OFFSET or LIMIT
    else
      var rows := PageRows(t, ctx.scope, offset, size);
      var total := |ScopedPosts(t, ctx.scope)|;
      Page(Items(t, ctx, rows, VotedPosts(t, ctx, rows)), total,
           if size == 0 then 0 else (total + size - 1) / size)
  }

  /** Whether the requester has voted, as the results view computes it. */
  predicate HasVotedInResults(t: Tables, ctx: Context, id: int) {
    ctx.user.Some? && exists v :: v in ScopedVotes(t, ctx.scope, id) && t.votes[v].voter == ctx.user.value
  }

  function VotesFor(t: Tables, scope: Option<int>, id: int, option: int): set<int> {
    set v | v in ScopedVotes(t, scope, id) && t.votes[v].option == option
  }

  function DistinctVoters(t: Tables, scope: Option<int>, id: int): set<string> {
    set v | v in ScopedVotes(t, scope, id) :: t.votes[v].voter
  }

  function TallyOf(t: Tables, ctx: Context, id: int, mode: ResultsMode, o: int): Tally
    requires o in t.options
  {
    var votes := VotesFor(t, ctx.scope, id, o);
    Tally(o, t.options[o].value, |votes|,
          if mode == Full
          then Some(set v | v in votes :: VoterIdentity(t.votes[v].voter, EmailOf(ctx, t.votes[v].voter)))
          else None)
  }

  function Tallies(t: Tables, ctx: Context, id: int, mode: ResultsMode): set<Tally> {
    set o | o in OptionsOf(t, id) :: TallyOf(t, ctx, id, mode, o)
  }

  function GetResults(t: Tables, ctx: Context, id: int): Response {
    match FindPost(t, ctx.scope, id)
    case None => Failed(PostNotFound)
    case Some(p) =>
      if !p.kind.IsPoll() then Failed(NotAPoll)
      else
        var ended := PollEnded(p, ctx.now);
        match Visibility(p, Privileged(ctx), HasVotedInResults(t, ctx, id), ended)
        case None => Tallied(Withheld(id, ended))
        case Some(mode) =>
          Tallied(Shown(id, ended, mode, |DistinctVoters(t, ctx.scope, id)|,
                        Tallies(t, ctx, id, mode)))
  }

  // ---- requests, faults and runs ------------------------------------------

  /** A request on a database that answers. */
  function Serve(db: Db, ctx: Context, req: Request): (Db, Response) {
    match req
    case Create(create) =>
      if ctx.scope.None? || Anonymous(ctx) then (db, Failed(Unauthorized))
      else CreatePost(db, ctx, ctx.scope.value, ctx.user.value, create)
    case Update(id, update) => UpdatePost(db, ctx, id, update)
    case Delete(id) => DeletePost(db, ctx, id)
    case Cast(id, optionIds) => CastVote(db, ctx, id, optionIds)
    case Retract(id) => RetractVote(db, ctx, id)
    case Get(id) => (db, GetPost(db.tables, ctx, id))
    case Listing(page, size) => (db, ListPosts(db.tables, ctx, page, size))
    case Results(id) => (db, GetResults(db.tables, ctx, id))
  }

  /**
   * Where a database call fails: nowhere, before the commit (ids already drawn stay drawn),
   * or on the read an update makes after its commit.
   */
  datatype Fault = NoFault | BeforeCommit(burnt: Counters) | AfterCommit

  datatype Event = Event(ctx: Context, request: Request, fault: Fault)

  function Burn(next: Counters, burnt: Counters): Counters {
    Counters(next.post + burnt.post, next.option + burnt.option, next.vote + burnt.vote)
  }

  function Step(db: Db, e: Event): (Db, Response) {
    var served := Serve(db, e.ctx, e.request);
    match e.fault
    case NoFault => served
    case BeforeCommit(burnt) => (Db(db.tables, Burn(db.next, burnt)), Failed(Unavailable))
    case AfterCommit =>
      if e.request.Update? && !served.1.Failed? then (served.0, Failed(Unavailable)) else served
  }

  /** One request after another. */
  function Run(db: Db, events: seq<Event>): Db
    decreases |events|
  {
    if events == [] then db else Run(Step(db, events[0]).0, events[1..])
  }

  function Answers(db: Db, events: seq<Event>): seq<Response>
    decreases |events|
  {
    if events == [] then [] else [Step(db, events[0]).1] + Answers(Step(db, events[0]).0, events[1..])
  }
}
