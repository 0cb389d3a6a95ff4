/** One request from arrival to answer: sessions opened, service called, sessions closed. */
module NewsRoutes {
  import opened Prelude
  import opened DedupeKey
  import opened LocalTables
  import opened NewsBoard
  import opened BoardInvariant
  import opened BoardHistory
  import opened LocalSessions
  import opened CrmTables
  import opened Delivery
  import opened DeliveryRuns
  import opened CrmSessions
  import opened News

  /** The route that the request names; creating needs a known community and a known caller. */
  method Dispatch(service: NewsService, req: Request)
    returns (response: Response, ghost fault: Fault, ghost acts: seq<Act>)
    requires service.Ready()
    modifies service.local, service.crm, service.notifier
    ensures service.Valid()
    ensures (service.local.Stored(), response) == Step(old(service.local.Stored()), Event(service.ctx, req, fault))
    ensures fault != NoFault ==> service.local.dropped || acts == [Read(false)]
    ensures service.Crm() == service.CrmAfter(old(service.Crm()), acts)
    ensures ActsFit(service.crm.directory, old(service.local.Stored()), service.ctx, req, response, fault, acts)
  {
    fault, acts := NoFault, [];
    match req {
      case Create(create) =>
        if service.ctx.scope.None? || Anonymous(service.ctx) {
          response := Failed(Unauthorized);
        } else {
          response, fault, acts := service.CreatePost(create, service.ctx.scope.value, service.ctx.user.value);
        }
      case Update(id, update) => response, fault, acts := service.UpdatePost(id, update);
      case Delete(id) => response, fault, acts := service.DeletePost(id);
      case Cast(id, optionIds) => response, fault, acts := service.CastVote(id, optionIds);
      case Retract(id) => response, fault, acts := service.RetractVote(id);
      case Get(id) =>
        var options;
        response, fault, options := service.GetPost(id);
      case Listing(page, size) => response, fault := service.ListPosts(page, size);
      case Results(id) =>
        var tallies;
        response, fault, acts, tallies := service.GetResults(id);
    }
  }

  /** What any request leaves behind: a board in order, and its old rows unless the request was accepted. */
  lemma StepSettles(db: Db, e: Event)
    requires Inv(db)
    ensures var (after, response) := Step(db, e);
            && Inv(after)
            && (response.Failed? && after.tables != db.tables ==> e.fault == AfterCommit && e.request.Update?)
  {
    StepKeeps(db, e);
    FailedMovesIff(db, e);
  }

  /** Closes both sessions; what was not committed is gone. */
  method Close(local: LocalSession, crm: CrmSession)
    modifies local`working, crm`working, crm`aborted
    ensures local.working == local.committed && crm.working == crm.committed && !crm.aborted
  {
    local.Close();
    crm.Close();
  }

  /**
   * Every request is one step of the board: the committed rows move and the caller is answered as
   * `Step` says. A fault is only ever a lost local call or a lost email lookup, so a database that
   * answers is served exactly; in particular no constraint is ever violated. What the CRM
   * database and the realtime hub see is the run of `acts`, which the request and its answer fix.
   */
  method Handle(ctx: Context, local: LocalSession, crm: CrmSession, lib: Library, req: Request)
    returns (response: Response, ghost fault: Fault, ghost acts: seq<Act>, sent: seq<Hint>)
    requires IsDigest(lib.sha) && AuthIdsUnique(crm.directory) && BookOf(crm.directory, ctx.emails)
    requires local.Clean() && Inv(local.Stored()) && crm.working == crm.committed && !crm.aborted
    modifies local, crm
    ensures (local.Stored(), response) == Step(old(local.Stored()), Event(ctx, req, fault))
    ensures fault != NoFault ==> local.dropped || acts == [Read(false)]
    ensures Inv(local.Stored()) && local.working == local.committed
    ensures response.Failed? && local.committed != old(local.committed) ==> fault == AfterCommit && req.Update?
    ensures ActsFit(crm.directory, old(local.Stored()), ctx, req, response, fault, acts)
    ensures var end := RunActs(crm.directory, lib, old(crm.Staged()), acts);
            crm.committed == end.committed && crm.next == end.next && sent == end.emitted
    ensures crm.working == crm.committed && !crm.aborted
  {
    ghost var before := local.Stored();
    var service := new NewsService(ctx, local, crm, lib);
    response, fault, acts := Dispatch(service, req);
    StepSettles(before, Event(ctx, req, fault));
    sent := service.notifier.emitted;
    Close(local, crm);
  }

  /** A create that is accepted while no call is lost reaches exactly the members to be told. */
  method HandleCreate(ctx: Context, local: LocalSession, crm: CrmSession, lib: Library, create: CreateRequest)
    returns (response: Response, ghost acts: seq<Act>, sent: seq<Hint>)
    requires IsDigest(lib.sha) && AuthIdsUnique(crm.directory) && BookOf(crm.directory, ctx.emails)
    requires local.Clean() && Inv(local.Stored()) && crm.working == crm.committed && !crm.aborted
    modifies local, crm
    ensures response.Created? && AllAnswered(acts) ==>
              && ctx.scope.Some? && ctx.user.Some? && |acts| == 6 && acts[3].Publish?
              && var pub := PostPublication(response.id, create.kind.IsPoll(), ctx.scope.value, ctx.user.value);
                 AnnouncedTo(crm.directory, old(crm.committed), crm.committed, old(crm.next), sent, response.id,
                             create.kind.IsPoll(), ctx.scope.value, ctx.user.value, Through(crm.directory, pub, acts[3].recipients, InApp))
  {
    ghost var staged := crm.Staged();
    ghost var fault;
    response, fault, acts, sent := Handle(ctx, local, crm, lib, Create(create));
    if response.Created? && AllAnswered(acts) {
      AcceptedCreateReaches(crm.directory, lib, staged, acts, response.id, create.kind.IsPoll(), ctx.scope.value, ctx.user.value);
    }
  }
}
