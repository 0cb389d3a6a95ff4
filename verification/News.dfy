/** The news service, statement by statement, proved to do what the board's steps say. */
module News {
  import opened Prelude
  import opened CanonicalJson
  import opened DedupeKey
  import opened LocalTables
  import opened NewsBoard
  import opened BoardInvariant
  import opened LocalSessions
  import opened CrmTables
  import opened Delivery
  import opened DeliveryExact
  import opened DeliveryRuns
  import opened CrmSessions
  import opened Notifications
  import opened Tallying
  import Paging

  // ---- faults -------------------------------------------------------------

  function Behind(a: nat, b: nat): nat { if a <= b then b - a else 0 }

  /** A call was lost before the commit; ids drawn so far stay drawn. */
  function Lost(before: Counters, after: Counters): Fault {
    BeforeCommit(Counters(Behind(before.post, after.post), Behind(before.option, after.option), Behind(before.vote, after.vote)))
  }

  predicate Grew(before: Counters, after: Counters) {
    before.post <= after.post && before.option <= after.option && before.vote <= after.vote
  }

  // ---- what a request does to the CRM database ----------------------------

  const POST_CREATED := "news.post.created"
  const POST_UPDATED := "news.post.updated"
  const POST_DELETED := "news.post.deleted"
  const VOTE_CAST := "news.vote.cast"
  const VOTE_RETRACTED := "news.vote.retracted"

  /** An audit entry and the commit that tries to keep it. */
  predicate RecordedAs(acts: seq<Act>, entry: string) {
    |acts| == 2 && acts[0].Audit? && acts[0].entry == entry && acts[1].Commit?
  }

  /** The announcement of a new post: in the app only, to the community without its author. */
  function PostPublication(id: int, isPoll: bool, community: int, author: string): Publication {
    Publication(if isPoll then "news_poll.published" else "news_post.published",
                CommunityTarget(community, None, Some(author)), Informational, [InApp],
                Some(Obj([CanonicalJson.Member("post_id", Num(id))])), None)
  }

  /** A member who is not the author and whose preference rows do not switch this kind of news off. */
  ghost predicate ToBeTold(dir: Directory, u: int, isPoll: bool, community: int, author: string) {
    && CrmTables.MemberKey(community, u) in dir.members
    && !(u in dir.users && dir.users[u].authId == author)
    && !SwitchedOff(dir, u, if isPoll then "news_poll" else "news_post", InApp)
  }

  /** One row for each of `users`, naming the post and nothing else. */
  function PostNotifications(first: int, users: seq<int>, id: int, isPoll: bool, community: int): (rows: seq<Notification>)
    ensures |rows| == |users|
  {
    seq(|users|, i requires 0 <= i < |users| =>
      Notification(first + i, Some(community), users[i], if isPoll then "news_poll.published" else "news_post.published",
                   Obj([CanonicalJson.Member("post_id", Num(id))])))
  }

  lemma PostPrefix(id: int, isPoll: bool, community: int, author: string)
    ensures TypePrefixOf(PostPublication(id, isPoll, community, author).kind) == if isPoll then "news_poll" else "news_post"
  {
    if isPoll {
      PrefixOfType("news_poll", "published");
      assert "news_poll" + ['.'] + "published" == "news_poll.published";
    } else {
      PrefixOfType("news_post", "published");
      assert "news_post" + ['.'] + "published" == "news_post.published";
    }
  }

  lemma AnnouncedRows(dir: Directory, lib: Library, id: int, isPoll: bool, community: int, author: string, first: int, recipients: seq<int>)
    requires IsDigest(lib.sha)
    ensures var plan := PlanOf(dir, lib, PostPublication(id, isPoll, community, author), first, recipients);
            plan.rows == PostNotifications(first, plan.inApp, id, isPoll, community)
  {
    var pub := PostPublication(id, isPoll, community, author);
    var plan := PlanOf(dir, lib, pub, first, recipients);
    forall i: nat | i < |plan.rows| ensures plan.rows[i] == PostNotifications(first, plan.inApp, id, isPoll, community)[i] {
      RowExact(dir, lib, pub, first, recipients, i);
    }
  }

  /**
   * A new post is announced in the app to exactly the members of its community who are not its
   * author and have not switched such news off, once each; nobody gets an email.
   */
  lemma AnnouncementExact(dir: Directory, lib: Library, id: int, isPoll: bool, community: int, author: string, first: int, recipients: seq<int>)
    requires IsDigest(lib.sha) && author != ""
    requires IsAudience(dir, CommunityTarget(community, None, Some(author)), recipients)
    ensures var pub := PostPublication(id, isPoll, community, author);
            var plan := PlanOf(dir, lib, pub, first, recipients);
            && plan.byEmail == [] && plan.candidates == []
            && NoDuplicates(plan.inApp) && plan.rows == PostNotifications(first, plan.inApp, id, isPoll, community)
            && forall u :: u in plan.inApp <==> ToBeTold(dir, u, isPoll, community, author)
  {
    var pub := PostPublication(id, isPoll, community, author);
    var plan := PlanOf(dir, lib, pub, first, recipients);
    PostPrefix(id, isPoll, community, author);
    AnnouncedRows(dir, lib, id, isPoll, community, author, first, recipients);
    InAppExact(dir, lib, pub, first, recipients);
    ThroughElements(dir, pub, recipients, Email);
    if plan.byEmail != [] { HeadIsElement(plan.byEmail); }
    forall u ensures u in plan.inApp <==> ToBeTold(dir, u, isPoll, community, author) {
      AudienceExact(dir, pub.target, recipients, u);
      ChannelsExact(dir, lib, pub, first, recipients, u);
    }
  }

  ghost predicate AnnouncedAs(dir: Directory, acts: seq<Act>, pub: Publication) {
    && |acts| == 3 && acts[0].Publish? && acts[1].Commit? && acts[2].Flush?
    && acts[0].pub == pub && IsAudience(dir, pub.target, acts[0].recipients)
  }

  lemma {:induction false} RunAppend(dir: Directory, lib: Library, s: State, a: seq<Act>, b: seq<Act>)
    requires IsDigest(lib.sha)
    ensures RunActs(dir, lib, s, a + b) == RunActs(dir, lib, RunActs(dir, lib, s, a), b)
    decreases |a|
  {
    if a == [] {
      assert a + b == b;
    } else {
      assert (a + b)[1..] == a[1..] + b;
      RunAppend(dir, lib, Perform(dir, lib, s, a[0]), a[1..], b);
    }
  }

  lemma RunTwo(dir: Directory, lib: Library, s: State, first: Act, second: Act)
    requires IsDigest(lib.sha)
    ensures RunActs(dir, lib, s, [first, second]) == Perform(dir, lib, Perform(dir, lib, s, first), second)
  {
    RunOne(dir, lib, s, [first, second]);
    RunOne(dir, lib, Perform(dir, lib, s, first), [second]);
    assert [first, second][1..] == [second];
  }

  ghost predicate CreatedAs(dir: Directory, acts: seq<Act>, pub: Publication) {
    |acts| == 6 && acts[0] == Read(true) && RecordedAs(acts[1..3], "news.post.created") && AnnouncedAs(dir, acts[3..], pub)
  }

  /** What each kind of request does to the CRM database. */
  ghost predicate ActsFit(dir: Directory, before: Db, ctx: Context, req: Request, response: Response, fault: Fault, acts: seq<Act>) {
    match req
    case Create(create) =>
      if response.Created?
      then && ctx.scope.Some? && ctx.user.Some? && ctx.user.value != ""
           && CreatedAs(dir, acts, PostPublication(response.id, create.kind.IsPoll(), ctx.scope.value, ctx.user.value))
      else |acts| <= 1 && forall act :: act in acts ==> act.Read?
    case Update(_, _) =>
      if response.Failed? && fault != AfterCommit then acts == [] else RecordedAs(acts, "news.post.updated")
    case Delete(_) => if response.Done? then RecordedAs(acts, "news.post.deleted") else acts == []
    case Cast(_, _) => if response.Done? then RecordedAs(acts, "news.vote.cast") else acts == []
    case Retract(id) =>
      if response.Done? && ctx.user.Some? && VoterVotes(before.tables, ctx.scope, id, ctx.user.value) != {}
      then RecordedAs(acts, "news.vote.retracted") else acts == []
    case Results(_) => acts == [] || acts == [Read(true)] || acts == [Read(false)]
    case _ => acts == []
  }

  /** No call of any act was lost. */
  ghost predicate AllAnswered(acts: seq<Act>) {
    forall i :: 0 <= i < |acts| ==>
      match acts[i]
      case Publish(_, _, failing) => failing == {}
      case Audit(_, _, failing) => failing == {}
      case Commit(answered) => answered
      case Read(answered) => answered
      case Flush => true
  }

  /** The whole effect of announcing a post to `users`: an audit entry, a row each, and one hint. */
  ghost predicate AnnouncedTo(dir: Directory, was: Outbox, now: Outbox, first: nat, sent: seq<Hint>,
                              id: int, isPoll: bool, community: int, author: string, users: seq<int>) {
    && NoDuplicates(users)
    && (forall u :: u in users <==> ToBeTold(dir, u, isPoll, community, author))
    && now == was.(audit := was.audit + ["news.post.created"],
                   notifications := was.notifications + PostNotifications(first, users, id, isPoll, community))
    && sent == if users == [] then [] else [Hint(users, Some(community))]
  }

  lemma RunSix(dir: Directory, lib: Library, s: State, acts: seq<Act>)
    requires IsDigest(lib.sha) && |acts| == 6
    ensures RunActs(dir, lib, s, acts)
         == Perform(dir, lib, Perform(dir, lib, Perform(dir, lib,
              Perform(dir, lib, Perform(dir, lib, Perform(dir, lib, s, acts[0]), acts[1]), acts[2]), acts[3]), acts[4]), acts[5])
  {
    var s1 := Perform(dir, lib, s, acts[0]);
    RunAppend(dir, lib, s, acts[..2], acts[2..]);
    RunAppend(dir, lib, RunActs(dir, lib, s, acts[..2]), acts[2..4], acts[4..]);
    RunTwo(dir, lib, s, acts[0], acts[1]);
    RunTwo(dir, lib, RunActs(dir, lib, s, acts[..2]), acts[2], acts[3]);
    RunTwo(dir, lib, RunActs(dir, lib, RunActs(dir, lib, s, acts[..2]), acts[2..4]), acts[4], acts[5]);
    assert acts == acts[..2] + acts[2..] && acts[2..] == acts[2..4] + acts[4..];
    assert acts[..2] == [acts[0], acts[1]] && acts[2..4] == [acts[2], acts[3]] && acts[4..] == [acts[4], acts[5]];
  }

  /** A publish that meets no fault lands, unless it reaches nobody. */
  lemma FaultlessPublish(dir: Directory, lib: Library, s: State, id: int, isPoll: bool, community: int, author: string, recipients: seq<int>)
    requires IsDigest(lib.sha) && author != "" && !s.aborted && s.pending == []
    requires IsAudience(dir, CommunityTarget(community, None, Some(author)), recipients)
    ensures var pub := PostPublication(id, isPoll, community, author);
            var users := Through(dir, pub, recipients, InApp);
            var t := Published(dir, lib, s, pub, recipients, {}).0;
            && t.outbox == s.outbox.(notifications := s.outbox.notifications
                                                      + PostNotifications(s.next, users, id, isPoll, community))
            && t.pending == (if users == [] then [] else [Hint(users, Some(community))])
            && !t.aborted && t.committed == s.committed && t.emitted == s.emitted
  {
    var pub := PostPublication(id, isPoll, community, author);
    AnnouncementExact(dir, lib, id, isPoll, community, author, s.next, recipients);
    var plan := PlanOf(dir, lib, pub, s.next, recipients);
    assert CallsOutside(pub, recipients, plan) * {} == {};
    if plan.inApp == [] {
      assert plan.rows == [] && s.outbox.notifications + [] == s.outbox.notifications;
    } else {
      assert Lands(s, pub, recipients, plan, {});
      assert InsertNew(s.outbox.messages, []) == s.outbox.messages;
    }
  }

  /**
   * From end to end: when no call is lost, an accepted create leaves one audit entry and exactly
   * one notification for every member to be told, and sends one hint to all of them.
   */
  lemma AcceptedCreateReaches(dir: Directory, lib: Library, s: State, acts: seq<Act>, id: int, isPoll: bool, community: int, author: string)
    requires IsDigest(lib.sha) && author != ""
    requires !s.aborted && s.outbox == s.committed && s.pending == [] && s.emitted == []
    requires CreatedAs(dir, acts, PostPublication(id, isPoll, community, author)) && AllAnswered(acts)
    ensures var pub := PostPublication(id, isPoll, community, author);
            var end := RunActs(dir, lib, s, acts);
            AnnouncedTo(dir, s.committed, end.committed, s.next, end.emitted, id, isPoll, community, author,
                        Through(dir, pub, acts[3].recipients, InApp))
  {
    var pub, recipients := PostPublication(id, isPoll, community, author), acts[3].recipients;
    RunSix(dir, lib, s, acts);
    assert acts[1..3][0] == acts[1] && acts[1..3][1] == acts[2];
    assert acts[3..][0] == acts[3] && acts[3..][1] == acts[4] && acts[3..][2] == acts[5];
    var audited := Perform(dir, lib, s, acts[1]);
    assert audited == s.(outbox := s.outbox.(audit := s.outbox.audit + [POST_CREATED]));
    var kept := audited.(committed := audited.outbox);
    FaultlessPublish(dir, lib, kept, id, isPoll, community, author, recipients);
    AnnouncementExact(dir, lib, id, isPoll, community, author, s.next, recipients);
  }

  /** What accepting a create writes. */
  lemma CreatedRows(db: Db, ctx: Context, community: int, author: string, req: CreateRequest, expires: Option<int>)
    requires if req.kind.IsPoll() then expires.Some? && ValidatePollPayload(req, ctx.now) == Success(expires.value) else expires == None
    ensures var id := db.next.post;
            var t := db.tables.(posts := db.tables.posts[id := NewPost(req, community, author, expires, ctx)]);
            var rows := if req.kind.IsPoll() && req.options.Some? then BuildOptions(req.options.value, id, community) else [];
            NewsBoard.CreatePost(db, ctx, community, author, req)
            == (Db(AddOptions(t, db.next.option, rows), db.next.(post := id + 1, option := db.next.option + |rows|)), Created(id))
  {
  }

  // ---- reading back -------------------------------------------------------

  lemma ListedViews(t: Tables, id: int, ordered: seq<int>, views: seq<OptionView>)
    requires Enumerates(ordered, OptionsOf(t, id)) && InDisplayOrder(t, ordered) && |views| == |ordered|
    requires forall i :: 0 <= i < |ordered| ==>
               views[i] == OptionView(ordered[i], t.options[ordered[i]].value, t.options[ordered[i]].displayOrder)
    ensures Elements(views) == OptionViews(t, id)
    ensures forall i, j :: 0 <= i < j < |views| ==> views[i].displayOrder <= views[j].displayOrder
  {
    forall w ensures w in Elements(views) <==> w in OptionViews(t, id) {
      if w in views {
        var i :| 0 <= i < |views| && views[i] == w;
        assert ordered[i] in OptionsOf(t, id);
      }
      if w in OptionViews(t, id) {
        var o :| o in OptionsOf(t, id) && w == OptionView(o, t.options[o].value, t.options[o].displayOrder);
        var i :| 0 <= i < |ordered| && ordered[i] == o;
        assert views[i] == w;
      }
    }
  }

  lemma VotedOnPage(t: Tables, ctx: Context, rows: seq<int>, polls: set<int>)
    requires !Anonymous(ctx) && forall i :: 0 <= i < |rows| ==> rows[i] in t.posts
    requires polls == set p | p in rows && p in t.posts && t.posts[p].kind.IsPoll()
    ensures VotedAmong(t, ctx.scope, ctx.user.value, polls) == VotedPosts(t, ctx, rows)
  {
    forall p ensures p in VotedAmong(t, ctx.scope, ctx.user.value, polls) <==> p in VotedPosts(t, ctx, rows) {}
  }

  lemma SelectedOptions(t: Tables, rows: set<int>, votes: seq<int>, chosen: seq<int>)
    requires Enumerates(votes, rows) && |chosen| == |votes| && forall v :: v in rows ==> v in t.votes
    requires forall i :: 0 <= i < |votes| ==> votes[i] in t.votes && chosen[i] == t.votes[votes[i]].option
    ensures Elements(chosen) == set v | v in rows :: t.votes[v].option
  {
    var options := set v | v in rows :: t.votes[v].option;
    forall o | o in chosen ensures o in options {
      var i :| 0 <= i < |votes| && chosen[i] == o;
      var v := votes[i];
      assert v in rows && v in t.votes && t.votes[v].option == o;
    }
    forall o | o in options ensures o in chosen {
      var v :| v in rows && t.votes[v].option == o;
      var i :| 0 <= i < |votes| && votes[i] == v;
      assert chosen[i] == o;
    }
    forall o ensures o in Elements(chosen) <==> o in options {}
  }

  // ---- voting -------------------------------------------------------------

  /** Once a poll is open to the caller, the selection alone decides whether a cast is accepted. */
  lemma SelectionDecides(db: Db, ctx: Context, id: int, post: Post, optionIds: seq<int>)
    requires OpenPoll(db.tables, ctx, id) == Success(post)
    ensures ctx.user.Some? && post == db.tables.posts[id]
    ensures match ValidateSelection(optionIds, post.kind, OptionsOf(db.tables, id))
            case Failure(e) => NewsBoard.CastVote(db, ctx, id, optionIds) == (db, Failed(e))
            case Success(selected) => NewsBoard.CastVote(db, ctx, id, optionIds).1 == Done && selected == Dedupe(optionIds)
  {
  }

  /** Deleting the voter's rows, flushing, then inserting never meets UNIQUE (id_post_poll, voter_id). */
  lemma SwapNeverCollides(db: Db, ctx: Context, id: int, optionIds: seq<int>)
    requires Inv(db) && NewsBoard.CastVote(db, ctx, id, optionIds).1.Done?
    ensures Constraints(NewsBoard.CastVote(db, ctx, id, optionIds).0.tables)
  {
    CastKeeps(db, ctx, id, optionIds);
    InvImpliesConstraints(NewsBoard.CastVote(db, ctx, id, optionIds).0);
  }

  // ---- the service --------------------------------------------------------

  class NewsService {
    const ctx: Context
    const local: LocalSession
    const crm: CrmSession
    const repository: NewsRepository
    const crmRepository: CrmRepository
    const auditLog: AuditLogService
    const notifier: NotificationService

    constructor (ctx: Context, local: LocalSession, crm: CrmSession, lib: Library)
      requires IsDigest(lib.sha) && AuthIdsUnique(crm.directory) && BookOf(crm.directory, ctx.emails)
      ensures this.ctx == ctx && this.local == local && this.crm == crm && fresh(notifier)
      ensures Valid() && Crm() == crm.Staged() && notifier.lib == lib
    {
      this.ctx, this.local, this.crm := ctx, local, crm;
      repository := new NewsRepository(local, ctx.scope);
      crmRepository := new CrmRepository(crm);
      auditLog := new AuditLogService(crm);
      var notifications := new NotificationRepository(crm);
      notifier := new NotificationService(crm, notifications, lib);
    }

    ghost predicate Valid()
      reads notifier
    {
      && repository.session == local && repository.scope == ctx.scope
      && crmRepository.session == crm && auditLog.session == crm && notifier.session == crm
      && notifier.Valid() && BookOf(crm.directory, ctx.emails)
    }

    ghost function Crm(): State
      requires Valid()
      reads notifier, crm
    {
      notifier.StateOf()
    }

    /** The CRM state after some acts from `before`. */
    ghost function CrmAfter(before: State, acts: seq<Act>): State
      requires Valid()
      reads notifier
    {
      RunActs(crm.directory, notifier.lib, before, acts)
    }

    /** How a request finds its sessions: nothing uncommitted, and a board any earlier requests may have left. */
    ghost predicate Ready()
      reads local, notifier
    {
      Valid() && local.Clean() && Inv(local.Stored())
    }

    /** The local database moved, and the caller was answered, as one step of the board. */
    ghost predicate Stepped(before: Db, req: Request, fault: Fault, response: Response)
      reads local
    {
      && (local.Stored(), response) == Step(before, Event(ctx, req, fault))
      && (fault != NoFault ==> local.dropped)
    }

    // ---- side effects in the CRM database ---------------------------------

    method RecordAudit(entry: string) returns (ghost acts: seq<Act>)
      requires Valid()
      modifies crm
      ensures Valid() && RecordedAs(acts, entry) && Crm() == CrmAfter(old(Crm()), acts)
    {
      crm.Renew();
      auditLog.Log(entry, ctx.user);
      ghost var logged := Audit(entry, ctx.user.Some? && ctx.user.value != "", crm.failing);
      assert Crm() == Perform(crm.directory, notifier.lib, old(Crm()), logged);
      var answered: bool := *;
      crm.Commit(answered);
      acts := [logged, Act.Commit(answered)];
      RunTwo(crm.directory, notifier.lib, old(Crm()), logged, Act.Commit(answered));
    }

    method NotifyPostCreated(id: int, isPoll: bool, community: int, author: string) returns (ghost acts: seq<Act>)
      requires Valid()
      modifies crm, notifier
      ensures Valid() && AnnouncedAs(crm.directory, acts, PostPublication(id, isPoll, community, author))
      ensures Crm() == CrmAfter(old(Crm()), acts) && notifier.pending == []
    {
      crm.Renew();
      ghost var lib := notifier.lib;
      ghost var pub := PostPublication(id, isPoll, community, author);
      var _, recipients := notifier.Publish(PostPublication(id, isPoll, community, author));
      ghost var published := Act.Publish(pub, recipients, crm.failing);
      assert Crm() == Perform(crm.directory, lib, old(Crm()), published);
      var answered: bool := *;
      crm.Commit(answered);
      notifier.FlushRealtime();
      RunTwo(crm.directory, lib, old(Crm()), published, Act.Commit(answered));
      acts := [published, Act.Commit(answered)] + [Flush];
      RunAppend(crm.directory, lib, old(Crm()), [published, Act.Commit(answered)], [Flush]);
    }

    // ---- posts ------------------------------------------------------------

    /** Nothing that happens after the local commit can change the answer. */
    method CreatePost(req: CreateRequest, community: int, author: string)
      returns (response: Response, ghost fault: Fault, ghost acts: seq<Act>)
      requires Ready() && ctx.scope == Some(community) && ctx.user == Some(author) && author != ""
      modifies local, crm, notifier
      ensures Valid() && (local.Stored(), response) == Step(old(local.Stored()), Event(ctx, Create(req), fault))
      ensures fault != NoFault ==> local.dropped || acts == [Read(false)]
      ensures Crm() == CrmAfter(old(Crm()), acts)
      ensures response.Created? ==> CreatedAs(crm.directory, acts, PostPublication(response.id, req.kind.IsPoll(), community, author))
      ensures !response.Created? ==> |acts| <= 1 && forall act :: act in acts ==> act.Read?
    {
      ghost var before, crmBefore := local.Stored(), Crm();
      response, fault, acts := Failed(Unavailable), NoFault, [];
      var isPoll := req.kind.IsPoll();
      var expires: Option<int> := None;
      if isPoll {
        var validated := ValidatePollPayload(req, ctx.now);
        if validated.Failure? { response := Failed(validated.error); return; }
        expires := Some(validated.value);
      }
      var ok, emails := ReadEmails([author]);
      acts := [Read(ok)];
      if !ok {
        fault := Lost(before.next, local.next);
        return;
      }
      assert author in [author];
      var id;
      ok, id := SavePost(req, community, author, Lookup(emails, author), expires);
      if !ok {
        fault := Lost(before.next, local.next);
        return;
      }
      response := Created(id);
      ghost var recorded := RecordAudit(POST_CREATED);
      RunAppend(crm.directory, notifier.lib, crmBefore, acts, recorded);
      ghost var announced := NotifyPostCreated(id, isPoll, community, author);
      RunAppend(crm.directory, notifier.lib, crmBefore, acts + recorded, announced);
      acts := acts + recorded + announced;
    }

    /** The local half of creating a post: the row, its options, and the commit. */
    method SavePost(req: CreateRequest, community: int, author: string, email: Option<string>, expires: Option<int>)
      returns (ok: bool, id: int)
      requires Ready() && email == EmailOf(ctx, author)
      requires if req.kind.IsPoll() then expires.Some? && ValidatePollPayload(req, ctx.now) == Success(expires.value) else expires == None
      modifies local
      ensures local.dropped == !ok
      ensures ok ==> (local.Stored(), Created(id)) == NewsBoard.CreatePost(old(local.Stored()), ctx, community, author, req)
      ensures !ok ==> local.Stored() == Db(old(local.committed), local.next) && Grew(old(local.next), local.next)
    {
      var isPoll := req.kind.IsPoll();
      var post := Post(community, author, email, req.kind, req.body, expires,
                       if isPoll then req.adminVisibility else None, if isPoll then req.memberVisibility else None,
                       if isPoll then req.memberDisplay else None, ctx.now);
      CreatedRows(local.Stored(), ctx, community, author, req, expires);
      ok, id := repository.CreatePost(post);
      if !ok { return; }
      if isPoll && req.options.Some? {
        ok := repository.AddOptions(BuildOptions(req.options.value, id, community));
        if !ok { return; }
      } else {
        assert AddOptions(local.working, local.next.option, []) == local.working;
      }
      ok := local.Commit();
    }

    method ReadEmails(authIds: seq<string>) returns (ok: bool, emails: map<string, string>)
      requires Valid()
      modifies crm
      ensures Valid() && Crm() == CrmAfter(old(Crm()), [Read(ok)])
      ensures ok ==> forall a :: a in authIds ==> Lookup(emails, a) == EmailOf(ctx, a)
    {
      crm.Renew();
      ok, emails := crmRepository.GetEmailsByAuthIds(authIds, ctx.emails);
      RunOne(crm.directory, notifier.lib, old(Crm()), [Read(ok)]);
    }

    method DeletePost(id: int) returns (response: Response, ghost fault: Fault, ghost acts: seq<Act>)
      requires Ready()
      modifies local, crm, notifier
      ensures Valid() && Stepped(old(local.Stored()), Delete(id), fault, response)
      ensures Crm() == CrmAfter(old(Crm()), acts)
      ensures if response.Done? then RecordedAs(acts, POST_DELETED) else acts == []
    {
      ghost var before := local.Stored();
      response, fault, acts := Failed(Unavailable), NoFault, [];
      var ok, found := repository.GetPost(id);
      if !ok {
        fault := Lost(before.next, local.next);
        return;
      }
      if found.None? { response := Failed(PostNotFound); return; }
      ok := repository.DeletePost(id);
      if !ok {
        fault := Lost(before.next, local.next);
        return;
      }
      ok := local.Commit();
      if !ok {
        fault := Lost(before.next, local.next);
        return;
      }
      acts := RecordAudit(POST_DELETED);
      response := Done;
    }

    /** The caller's own ballot on this post; nobody's, for an anonymous caller or a plain post. */
    method VoterSelection(id: int, post: Post) returns (ok: bool, mine: seq<int>)
      requires Valid()
      modifies local`dropped
      ensures local.dropped == (old(local.dropped) || !ok)
      ensures ok ==> Elements(mine) == MySelection(local.working, ctx, id, post.kind)
    {
      ok, mine := true, [];
      if !post.kind.IsPoll() || Anonymous(ctx) { return; }
      var votes;
      ok, votes := repository.GetVoterVotes(id, ctx.user.value);
      if !ok { return; }
      var t := local.working;
      ghost var rows := VoterVotes(t, ctx.scope, id, ctx.user.value);
      assert forall i :: 0 <= i < |votes| ==> votes[i] in rows;
      mine := seq(|votes|, i requires 0 <= i < |votes| && votes[i] in t.votes => t.votes[votes[i]].option);
      SelectedOptions(t, rows, votes, mine);
    }

    method GetPost(id: int) returns (response: Response, ghost fault: Fault, options: seq<OptionView>)
      requires Valid() && local.Clean()
      modifies local`dropped
      ensures Stepped(old(local.Stored()), Get(id), fault, response) && !fault.AfterCommit?
      ensures response.Detail? ==> Elements(options) == response.options
      ensures forall i, j :: 0 <= i < j < |options| ==> options[i].displayOrder <= options[j].displayOrder
    {
      response, fault, options := Failed(Unavailable), Lost(local.next, local.next), [];
      var ok, found, ordered := repository.GetPostWithOptions(id);
      if !ok { return; }
      if found.None? { response, fault := Failed(PostNotFound), NoFault; return; }
      var post, mine := found.value, [];
      ok, mine := VoterSelection(id, post);
      if !ok { return; }
      var t := local.working;
      options := seq(|ordered|, i requires 0 <= i < |ordered| && ordered[i] in t.options =>
        OptionView(ordered[i], t.options[ordered[i]].value, t.options[ordered[i]].displayOrder));
      ListedViews(t, id, ordered, options);
      fault := NoFault;
      response := Detail(PostView(id, post, PollEnded(post, ctx.now), mine != []), Elements(options), Elements(mine));
      if mine != [] { assert mine[0] in Elements(mine); }
    }

    /** Field by field, only what the request carries, and poll fields only on a poll. */
    method EditFields(id: int, req: UpdateRequest)
      requires id in local.working.posts
      modifies local`working
      ensures local.working == EditPost(old(local.working), id, req)
    {
      var post := local.working.posts[id];
      if req.body.Some? { post := post.(body := req.body.value); }
      if post.kind.IsPoll() {
        if req.expiresAt.Some? { post := post.(expiresAt := req.expiresAt); }
        if req.adminVisibility.Some? { post := post.(adminVisibility := req.adminVisibility); }
        if req.memberVisibility.Some? { post := post.(memberVisibility := req.memberVisibility); }
        if req.memberDisplay.Some? { post := post.(memberDisplay := req.memberDisplay); }
      }
      local.Assign(id, post);
    }

    /** Replaces a poll's options, but only while the caller's community has no vote on it. */
    method ReplaceOptions(id: int, post: Post, inputs: seq<OptionInput>) returns (refused: Option<Error>)
      requires Valid() && !local.dropped
      modifies local`working, local`next, local`dropped
      ensures local.dropped == (refused == Some(Unavailable))
      ensures refused.Some? ==> refused.value in {InvalidPoll, OptionsFrozen, Unavailable}
      ensures refused == Some(InvalidPoll) <==> |inputs| < 2
      ensures refused == Some(OptionsFrozen) ==> |ScopedVotes(old(local.working), ctx.scope, id)| > 0
      ensures refused == None ==> |ScopedVotes(old(local.working), ctx.scope, id)| == 0
      ensures refused == None ==> local.working == NewsBoard.ReplaceOptions(old(local.working), old(local.next), id, post.community, inputs)
      ensures local.next == if refused == None then old(local.next).(option := old(local.next).option + |inputs|) else old(local.next)
    {
      if |inputs| < 2 { return Some(InvalidPoll); }
      var ok, count := repository.CountVotesForPost(id);
      if !ok { return Some(Unavailable); }
      if count > 0 { return Some(OptionsFrozen); }
      local.Orphan(OptionsOf(local.working, id));
      ok := repository.AddOptions(BuildOptions(inputs, id, post.community));
      refused := if ok then None else Some(Unavailable);
    }

    /** The local half of an update: the edits, the options, and the commit. */
    method SaveUpdate(id: int, req: UpdateRequest) returns (refused: Option<Error>)
      requires Ready() && FindPost(local.working, ctx.scope, id).Some?
      modifies local
      ensures local.dropped == (refused == Some(Unavailable))
      ensures refused == None ==> local.Stored() == NewsBoard.UpdatePost(old(local.Stored()), ctx, id, req).0 && local.Clean()
      ensures refused == None ==> NewsBoard.UpdatePost(old(local.Stored()), ctx, id, req).1 == NewsBoard.GetPost(local.committed, ctx, id)
      ensures refused == None ==> FindPost(local.committed, ctx.scope, id).Some?
      ensures refused.Some? && !local.dropped ==>
                (local.Stored(), Failed(refused.value)) == NewsBoard.UpdatePost(old(local.Stored()), ctx, id, req)
      ensures local.dropped ==> local.Stored() == Db(old(local.committed), local.next) && Grew(old(local.next), local.next)
    {
      refused := None;
      EditFields(id, req);
      var post := local.working.posts[id];
      if post.kind.IsPoll() && req.options.Some? {
        refused := ReplaceOptions(id, post, req.options.value);
        if refused.Some? { return; }
      }
      var ok := local.Commit();
      if !ok { refused := Some(Unavailable); }
    }

    /** A refused update leaves no trace, even when fields were edited before the refusal. */
    method UpdatePost(id: int, req: UpdateRequest) returns (response: Response, ghost fault: Fault, ghost acts: seq<Act>)
      requires Ready()
      modifies local, crm, notifier
      ensures Valid() && Stepped(old(local.Stored()), Update(id, req), fault, response)
      ensures Crm() == CrmAfter(old(Crm()), acts)
      ensures acts == [] <==> response.Failed? && fault != AfterCommit
      ensures acts == [] || RecordedAs(acts, POST_UPDATED)
    {
      ghost var before := local.Stored();
      response, fault, acts := Failed(Unavailable), NoFault, [];
      var ok, found, options := repository.GetPostWithOptions(id);
      if !ok {
        fault := Lost(before.next, local.next);
        return;
      }
      if found.None? { response := Failed(PostNotFound); return; }
      var refused := SaveUpdate(id, req);
      if refused.Some? {
        response := Failed(refused.value);
        if refused == Some(Unavailable) { fault := Lost(before.next, local.next); }
        return;
      }
      acts := RecordAudit(POST_UPDATED);
      ghost var read;
      var views;
      response, read, views := GetPost(id);
      if read != NoFault { fault := AfterCommit; }
    }

    method ListPosts(page: int, size: int) returns (response: Response, ghost fault: Fault)
      requires Valid() && local.Clean()
      modifies local`dropped
      ensures Stepped(old(local.Stored()), Listing(page, size), fault, response)
    {
      response, fault := Failed(Unavailable), Lost(local.next, local.next);
      var ok, rows, total := repository.ListPosts(page, size);
      if !ok {
        if (page - 1) * size < 0 || size < 0 { fault := NoFault; }
        return;
      }
      var t := local.working;
      var voted := {};
      if !Anonymous(ctx) {
        var polls := set p | p in rows && p in t.posts && t.posts[p].kind.IsPoll();
        ok, voted := repository.GetVotedPostIds(ctx.user.value, polls);
        if !ok { return; }
        VotedOnPage(t, ctx, rows, polls);
      }
      fault := NoFault;
      var pages := if size == 0 then 0 else Paging.CeilingOf(total, size);
      if size != 0 { Paging.CeilingTwoWays(total, size); }
      response := Page(Items(t, ctx, rows, voted), total, pages);
    }

    // ---- voting -----------------------------------------------------------

    /** The checks before any vote changes: the post is there, is a poll, is open, and the caller is known. */
    method RefuseVoting(id: int, found: Option<Post>) returns (refused: Option<Error>)
      requires found == FindPost(local.working, ctx.scope, id)
      ensures refused.Some? ==> OpenPoll(local.working, ctx, id) == Failure(refused.value)
      ensures refused.None? ==> found.Some? && OpenPoll(local.working, ctx, id) == Success(found.value)
    {
      if found.None? { return Some(PostNotFound); }
      if !found.value.kind.IsPoll() { return Some(NotAPoll); }
      if PollEnded(found.value, ctx.now) { return Some(PollExpired); }
      if Anonymous(ctx) { return Some(Unauthorized); }
      refused := None;
    }

    /** Exchanges one ballot for another in a single transaction. */
    method SwapVotes(id: int, community: int, voter: string, selected: seq<int>, ghost optionIds: seq<int>) returns (ok: bool)
      requires Ready() && ctx.user == Some(voter) && NewsBoard.CastVote(local.Stored(), ctx, id, optionIds).1.Done?
      requires selected == Dedupe(optionIds) && community == local.working.posts[id].community
      modifies local
      ensures local.dropped == !ok
      ensures ok ==> local.Stored() == NewsBoard.CastVote(old(local.Stored()), ctx, id, optionIds).0
      ensures !ok ==> local.Stored() == Db(old(local.committed), local.next) && Grew(old(local.next), local.next)
    {
      ghost var before := local.Stored();
      var existing;
      ok, existing := repository.GetVoterVotes(id, voter);
      if !ok { return; }
      assert Elements(existing) == VoterVotes(before.tables, ctx.scope, id, voter);
      ok := repository.DeleteVotes(existing);
      if !ok { return; }
      SwapNeverCollides(before, ctx, id, optionIds);
      ok := repository.AddVotes(NewVotes(selected, id, community, voter));
      if !ok { return; }
      ok := local.Commit();
    }

    /** The local half of a cast: the checks, the swap, and the commit. */
    method PlaceVotes(id: int, optionIds: seq<int>) returns (response: Response)
      requires Ready()
      modifies local
      ensures !local.dropped ==> (local.Stored(), response) == NewsBoard.CastVote(old(local.Stored()), ctx, id, optionIds)
      ensures local.dropped ==> response == Failed(Unavailable)
      ensures local.dropped ==> local.Stored() == Db(old(local.committed), local.next) && Grew(old(local.next), local.next)
    {
      ghost var before := local.Stored();
      response := Failed(Unavailable);
      var ok, found, options := repository.GetPostWithOptions(id);
      if !ok { return; }
      var refused := RefuseVoting(id, found);
      if refused.Some? { return Failed(refused.value); }
      var post := found.value;
      assert Elements(options) == OptionsOf(local.working, id);
      var selection := ValidateSelection(optionIds, post.kind, Elements(options));
      SelectionDecides(before, ctx, id, post, optionIds);
      if selection.Failure? { return Failed(selection.error); }
      ok := SwapVotes(id, post.community, ctx.user.value, selection.value, optionIds);
      if ok { response := Done; }
    }

    method CastVote(id: int, optionIds: seq<int>) returns (response: Response, ghost fault: Fault, ghost acts: seq<Act>)
      requires Ready()
      modifies local, crm, notifier
      ensures Valid() && Stepped(old(local.Stored()), Cast(id, optionIds), fault, response)
      ensures Crm() == CrmAfter(old(Crm()), acts)
      ensures if response.Done? then RecordedAs(acts, VOTE_CAST) else acts == []
    {
      ghost var before := local.Stored();
      response := PlaceVotes(id, optionIds);
      fault := if local.dropped then Lost(before.next, local.next) else NoFault;
      acts := [];
      if response.Done? { acts := RecordAudit(VOTE_CAST); }
    }

    method RetractVote(id: int) returns (response: Response, ghost fault: Fault, ghost acts: seq<Act>)
      requires Ready()
      modifies local, crm, notifier
      ensures Valid() && Stepped(old(local.Stored()), Retract(id), fault, response)
      ensures Crm() == CrmAfter(old(Crm()), acts)
      ensures acts == [] || RecordedAs(acts, VOTE_RETRACTED)
      ensures acts == [] <==> !response.Done? || VoterVotes(old(local.committed), ctx.scope, id, ctx.user.value) == {}
    {
      ghost var before := local.Stored();
      response, fault, acts := Failed(Unavailable), NoFault, [];
      var ok, found := repository.GetPost(id);
      if !ok {
        fault := Lost(before.next, local.next);
        return;
      }
      var refused := RefuseVoting(id, found);
      if refused.Some? { response := Failed(refused.value); return; }
      var voter := ctx.user.value;
      var existing;
      ok, existing := repository.GetVoterVotes(id, voter);
      if !ok {
        fault := Lost(before.next, local.next);
        return;
      }
      ghost var mine := VoterVotes(before.tables, ctx.scope, id, voter);
      assert Elements(existing) == mine;
      if existing == [] {
        assert mine == {};
        assert before.tables.votes - mine == before.tables.votes;
        response := Done;
        return;
      }
      assert existing[0] in mine;
      ok := repository.DeleteVotes(existing);
      if !ok {
        fault := Lost(before.next, local.next);
        return;
      }
      ok := local.Commit();
      if !ok {
        fault := Lost(before.next, local.next);
        return;
      }
      acts := RecordAudit(VOTE_RETRACTED);
      response := Done;
    }

    // ---- results ----------------------------------------------------------

    method TallyOptions(t: Tables, id: int, mode: ResultsMode, options: seq<int>, groups: map<int, seq<string>>,
                        emails: map<string, string>) returns (tallies: seq<Tally>)
      requires Enumerates(options, OptionsOf(t, id))
      requires forall o :: GroupOf(t, ctx.scope, id, o, VotersIn(groups, o))
      requires mode == Full ==> forall w :: w in DistinctVoters(t, ctx.scope, id) ==> Lookup(emails, w) == EmailOf(ctx, w)
      ensures |tallies| == |options|
      ensures forall i :: 0 <= i < |options| ==> options[i] in t.options && tallies[i] == TallyOf(t, ctx, id, mode, options[i])
    {
      tallies := [];
      for i := 0 to |options|
        invariant |tallies| == i
        invariant forall k :: 0 <= k < i ==> options[k] in t.options && tallies[k] == TallyOf(t, ctx, id, mode, options[k])
      {
        var o := options[i];
        assert o in OptionsOf(t, id);
        var voters := VotersIn(groups, o);
        var payload := if mode == Full then Some(set w | w in voters :: VoterIdentity(w, Lookup(emails, w))) else None;
        if mode == Full { IdentitiesMatch(t, ctx, id, o, voters, emails); }
        tallies := tallies + [Tally(o, t.options[o].value, |voters|, payload)];
      }
    }

    /** The visible answer: the votes grouped by option, with emails under full visibility. */
    method ShowResults(id: int, mode: ResultsMode, options: seq<int>, votes: seq<(int, string)>, ghost ids: seq<int>)
      returns (ok: bool, total: nat, tallies: seq<Tally>, ghost acts: seq<Act>)
      requires Valid()
      requires Enumerates(options, OptionsOf(local.working, id)) && InDisplayOrder(local.working, options)
      requires Enumerates(ids, ScopedVotes(local.working, ctx.scope, id)) && |votes| == |ids|
      requires forall i :: 0 <= i < |ids| ==> VoteOf(local.working, ids[i]) == Some(votes[i])
      modifies crm
      ensures Valid() && Crm() == CrmAfter(old(Crm()), acts)
      ensures acts == if mode == Full then [Read(ok)] else []
      ensures mode == Aggregate ==> ok
      ensures ok ==> total == |DistinctVoters(local.working, ctx.scope, id)|
      ensures ok ==> Elements(tallies) == Tallies(local.working, ctx, id, mode) && TalliesInOrder(local.working, id, tallies)
    {
      ok, acts, tallies, total := true, [], [], 0;
      var t := local.working;
      var groups := GroupByOption(votes);
      GroupsMatch(t, ctx.scope, id, ids, votes);
      VotersRead(t, ctx.scope, id, ids, votes);
      var distinct := set i | 0 <= i < |votes| :: votes[i].1;
      var emails := map[];
      if mode == Full {
        var asked := Enumerate(distinct);
        ok, emails := ReadEmails(asked);
        acts := [Read(ok)];
        if !ok { return; }
      }
      total := |distinct|;
      tallies := TallyOptions(t, id, mode, options, groups, emails);
      AllTallied(t, ctx, id, mode, options, tallies);
    }

    /** The poll's votes, and whether one of them is the caller's. */
    method ReadVotes(id: int) returns (ok: bool, votes: seq<(int, string)>, hasVoted: bool, ghost ids: seq<int>)
      requires Valid()
      modifies local`dropped
      ensures local.dropped == (old(local.dropped) || !ok)
      ensures Enumerates(ids, ScopedVotes(local.working, ctx.scope, id)) && |votes| == |ids|
      ensures forall i :: 0 <= i < |ids| ==> VoteOf(local.working, ids[i]) == Some(votes[i])
      ensures hasVoted == HasVotedInResults(local.working, ctx, id)
    {
      ok, votes, ids := repository.GetVotesForPost(id);
      hasVoted := ctx.user.Some? && exists i :: 0 <= i < |votes| && votes[i].1 == ctx.user.value;
      VotersRead(local.working, ctx.scope, id, ids, votes);
      assert hasVoted <==> ctx.user.Some? && ctx.user.value in DistinctVoters(local.working, ctx.scope, id);
    }

    /** What the poll's matrix lets this caller see, with one tally per option, in display order. */
    method GetResults(id: int) returns (response: Response, ghost fault: Fault, ghost acts: seq<Act>, tallies: seq<Tally>)
      requires Valid() && local.Clean()
      modifies local`dropped, crm
      ensures Valid() && (local.Stored(), response) == Step(old(local.Stored()), Event(ctx, Results(id), fault))
      ensures fault != NoFault ==> local.dropped || acts == [Read(false)]
      ensures Crm() == CrmAfter(old(Crm()), acts)
      ensures acts == [] || acts == [Read(true)] || acts == [Read(false)]
      ensures response.Tallied? && response.results.Shown? ==>
                Elements(tallies) == response.results.tallies && TalliesInOrder(local.committed, id, tallies)
    {
      response, fault, acts, tallies := Failed(Unavailable), Lost(local.next, local.next), [], [];
      var ok, found, options := repository.GetPostWithOptions(id);
      if !ok { return; }
      if found.None? { response, fault := Failed(PostNotFound), NoFault; return; }
      var post := found.value;
      if !post.kind.IsPoll() { response, fault := Failed(NotAPoll), NoFault; return; }
      var ended := PollEnded(post, ctx.now);
      var votes, hasVoted;
      ghost var ids;
      ok, votes, hasVoted, ids := ReadVotes(id);
      if !ok { return; }
      var shown := Visibility(post, Privileged(ctx), hasVoted, ended);
      if shown.None? { response, fault := Tallied(Withheld(id, ended)), NoFault; return; }
      var mode := shown.value;
      var total;
      ok, total, tallies, acts := ShowResults(id, mode, options, votes, ids);
      if !ok { return; }
      fault := NoFault;
      response := Tallied(Shown(id, ended, mode, total, Elements(tallies)));
    }
  }
}
