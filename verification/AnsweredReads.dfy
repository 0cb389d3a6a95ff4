/** What the detail, list and results answers say, spelled out on the tables they were given from. */
module AnsweredReads {
  import opened Prelude
  import opened LocalTables
  import opened NewsBoard
  import opened BoardInvariant
  import opened Ballots
  import opened Results
  import opened Answers
  import opened Paging

  /** The caller has a ballot on this post. */
  ghost predicate HasBallot(t: Tables, ctx: Context, id: int) {
    ctx.user.Some? && (id, ctx.user.value) in BoxOf(t)
  }

  // ---- the detail ---------------------------------------------------------

  /** The post's own row, its options and nobody else's, the caller's own ballot, and whether it is over. */
  lemma DetailAnswered(db: Db, ctx: Context, id: int)
    requires Inv(db)
    ensures var t, answer := db.tables, GetPost(db.tables, ctx, id);
            if !Sees(t, ctx, id) then answer == Failed(PostNotFound)
            else
              && answer.Detail? && answer.view.id == id && answer.view.post == t.posts[id]
              && (answer.view.pollEnded <==> t.posts[id].expiresAt.Some? && t.posts[id].expiresAt.value <= ctx.now)
              && (answer.view.hasVoted <==> HasBallot(t, ctx, id))
              && answer.mine == (if ctx.user.Some? then Ballot(t, id, ctx.user.value) else {})
              && (forall w :: w in answer.options <==>
                    w.id in t.options && t.options[w.id].post == id
                    && w.value == t.options[w.id].value && w.displayOrder == t.options[w.id].displayOrder)
  {
    var t := db.tables;
    if Sees(t, ctx, id) {
      forall w ensures w in OptionViews(t, id) <==>
                 w.id in t.options && t.options[w.id].post == id
                 && w.value == t.options[w.id].value && w.displayOrder == t.options[w.id].displayOrder {
        if w.id in t.options && t.options[w.id].post == id { assert w.id in OptionsOf(t, id); }
      }
      if t.posts[id].kind.IsPoll() {
        HasVotedAgrees(db, ctx, id, [id]);
      } else {
        PlainPostHasNoBallot(db, id);
      }
    }
  }

  lemma PlainPostHasNoBallot(db: Db, id: int)
    requires Inv(db) && id in db.tables.posts && !db.tables.posts[id].kind.IsPoll()
    ensures forall voter :: Ballot(db.tables, id, voter) == {} && (id, voter) !in BoxOf(db.tables)
  {
    var t := db.tables;
    forall v | v in t.votes ensures t.votes[v].post != id {
      assert t.options[t.votes[v].option].post == t.votes[v].post;
    }
    forall voter ensures Ballot(t, id, voter) == {} && (id, voter) !in BoxOf(t) {
      VotedIffBallot(t, id, voter);
    }
  }

  // ---- the list -----------------------------------------------------------

  /** One line of the list, field by field. */
  ghost predicate ItemSays(t: Tables, ctx: Context, item: ListItem) {
    var id := item.view.id;
    && Sees(t, ctx, id) && item.view.post == t.posts[id]
    && (item.view.pollEnded <==> t.posts[id].expiresAt.Some? && t.posts[id].expiresAt.value <= ctx.now)
    && (item.view.hasVoted <==> HasBallot(t, ctx, id))
    && item.optionCount == |set o | o in t.options && t.options[o].post == id|
  }

  function ItemIds(items: seq<ListItem>): seq<int> {
    seq(|items|, i requires 0 <= i < |items| => items[i].view.id)
  }

  lemma ItemsSay(db: Db, ctx: Context, rows: seq<int>, i: nat)
    requires Inv(db) && i < |rows| && forall k :: 0 <= k < |rows| ==> FindPost(db.tables, ctx.scope, rows[k]).Some?
    ensures forall k :: 0 <= k < |rows| ==> rows[k] in db.tables.posts
    ensures var item := Items(db.tables, ctx, rows, VotedPosts(db.tables, ctx, rows))[i];
            item.view.id == rows[i] && ItemSays(db.tables, ctx, item)
  {
    var t, id := db.tables, rows[i];
    assert OptionsOf(t, id) == set o | o in t.options && t.options[o].post == id;
    if t.posts[id].kind.IsPoll() {
      HasVotedAgrees(db, ctx, id, rows);
    } else {
      PlainPostHasNoBallot(db, id);
      assert id !in VotedPosts(t, ctx, rows);
    }
  }

  /** A listing is refused only for a negative window; otherwise every line it shows is true. */
  lemma ListAnswered(db: Db, ctx: Context, page: int, size: int)
    requires Inv(db)
    ensures var answer := ListPosts(db.tables, ctx, page, size);
            if (page - 1) * size < 0 || size < 0 then answer == Failed(Unavailable)
            else
              && answer.Page? && |answer.items| <= size
              && answer.total == |set p | p in db.tables.posts && ctx.scope == Some(db.tables.posts[p].community)|
              && ItemIds(answer.items) == PageRows(db.tables, ctx.scope, (page - 1) * size, size)
              && forall i :: 0 <= i < |answer.items| ==> ItemSays(db.tables, ctx, answer.items[i])
  {
    var t, offset := db.tables, (page - 1) * size;
    if offset >= 0 && size >= 0 {
      var rows := PageRows(t, ctx.scope, offset, size);
      RowsVisible(t, ctx.scope, offset, size);
      var items := Items(t, ctx, rows, VotedPosts(t, ctx, rows));
      forall i | 0 <= i < |items| ensures items[i].view.id == rows[i] && ItemSays(t, ctx, items[i]) {
        ItemsSay(db, ctx, rows, i);
      }
      assert ItemIds(items) == rows;
      forall p ensures p in ScopedPosts(t, ctx.scope) <==> p in t.posts && ctx.scope == Some(t.posts[p].community) {}
      assert ScopedPosts(t, ctx.scope) == set p | p in t.posts && ctx.scope == Some(t.posts[p].community);
    }
  }

  lemma RowsVisible(t: Tables, scope: Option<int>, offset: nat, limit: nat)
    ensures var rows := PageRows(t, scope, offset, limit);
            |rows| <= limit && forall i :: 0 <= i < |rows| ==> FindPost(t, scope, rows[i]).Some?
  {
    var all := ScopedPosts(t, scope);
    NewestFirstElements(t, all);
    var ordered, rows := NewestFirst(t, all), PageRows(t, scope, offset, limit);
    forall i | 0 <= i < |rows| ensures rows[i] in all {
      assert rows[i] == ordered[offset + i];
    }
  }

  /** The ids shown on pages 1 to n, as answered. */
  function AnsweredIds(t: Tables, ctx: Context, size: nat, n: nat): seq<int> {
    if n == 0 then []
    else
      var answer := ListPosts(t, ctx, n, size);
      AnsweredIds(t, ctx, size, n - 1) + if answer.Page? then ItemIds(answer.items) else []
  }

  lemma {:induction false} AnsweredIdsAreRows(db: Db, ctx: Context, size: nat, n: nat)
    requires Inv(db)
    ensures AnsweredIds(db.tables, ctx, size, n) == FirstPages(db.tables, ctx.scope, size, n)
  {
    if n != 0 {
      AnsweredIdsAreRows(db, ctx, size, n - 1);
      assert (n - 1) * size >= 0;
      ListAnswered(db, ctx, n, size);
    }
  }

  /**
   * Reading the announced pages one after another shows every post of the caller's community
   * once and no other, by falling creation time and, at equal times, falling id.
   */
  lemma AnsweredPagesPartitionBoard(db: Db, ctx: Context, page: int, size: int)
    requires Inv(db) && size > 0 && page >= 1
    ensures var t, answer := db.tables, ListPosts(db.tables, ctx, page, size);
            && answer.Page? && answer.totalPages >= 0
            && var ids := AnsweredIds(t, ctx, size, answer.totalPages);
               && |ids| == answer.total && NoDuplicates(ids)
               && (forall p :: p in ids <==> Sees(t, ctx, p))
               && forall i, j :: 0 <= i < j < |ids| ==>
                    && ids[i] in t.posts && ids[j] in t.posts
                    && (|| t.posts[ids[i]].createdAt > t.posts[ids[j]].createdAt
                        || (t.posts[ids[i]].createdAt == t.posts[ids[j]].createdAt && ids[i] > ids[j]))
  {
    var t := db.tables;
    PagesPartitionBoard(t, ctx, page, size);
    var pages := ListPosts(t, ctx, page, size).totalPages;
    AnsweredIdsAreRows(db, ctx, size, pages);
    var ids := AnsweredIds(t, ctx, size, pages);
    forall p ensures p in ids <==> Sees(t, ctx, p) {
      assert p in ScopedPosts(t, ctx.scope) <==> Sees(t, ctx, p);
    }
    forall i, j | 0 <= i < j < |ids| ensures ids[i] != ids[j] {}
  }

  // ---- the results --------------------------------------------------------

  /** All votes for one option of the poll, whatever community they carry. */
  ghost function VotesNaming(t: Tables, id: int, option: int): set<int> {
    set v | v in t.votes && t.votes[v].post == id && t.votes[v].option == option
  }

  /** One tally, field by field. */
  ghost predicate TallySays(t: Tables, ctx: Context, id: int, mode: ResultsMode, tally: Tally) {
    && tally.option in t.options && t.options[tally.option].post == id
    && tally.value == t.options[tally.option].value
    && tally.count == |VotesNaming(t, id, tally.option)|
    && (tally.voters.Some? <==> mode == Full)
    && (mode == Full ==> forall who :: who in tally.voters.value <==>
          && (exists v :: v in VotesNaming(t, id, tally.option) && t.votes[v].voter == who.voter)
          && who.email == if who.voter in ctx.emails then Some(ctx.emails[who.voter]) else None)
  }

  lemma VotesForAreAll(db: Db, ctx: Context, id: int, option: int)
    requires Inv(db) && Sees(db.tables, ctx, id)
    ensures VotesFor(db.tables, ctx.scope, id, option) == VotesNaming(db.tables, id, option)
  {
    ScopedCountIsTrueCount(db.tables, ctx.scope, id);
    forall v ensures v in VotesFor(db.tables, ctx.scope, id, option) <==> v in VotesNaming(db.tables, id, option) {
      assert v in ScopedVotes(db.tables, ctx.scope, id) <==> v in PostVotes(db.tables, id);
    }
  }

  lemma TallyExact(db: Db, ctx: Context, id: int, mode: ResultsMode, o: int)
    requires Inv(db) && Sees(db.tables, ctx, id) && o in db.tables.options && db.tables.options[o].post == id
    ensures TallySays(db.tables, ctx, id, mode, TallyOf(db.tables, ctx, id, mode, o))
  {
    var t := db.tables;
    VotesForAreAll(db, ctx, id, o);
    var votes := VotesFor(t, ctx.scope, id, o);
    forall v | v in votes ensures t.votes[v].voter != "" {}
    if mode == Full {
      var named := TallyOf(t, ctx, id, mode, o).voters.value;
      forall who | who in named
        ensures exists v :: v in VotesNaming(t, id, o) && t.votes[v].voter == who.voter
        ensures who.email == if who.voter in ctx.emails then Some(ctx.emails[who.voter]) else None
      {
        var v :| v in votes && who == VoterIdentity(t.votes[v].voter, EmailOf(ctx, t.votes[v].voter));
        assert v in VotesNaming(t, id, o);
      }
      forall who: VoterIdentity | (exists v :: v in VotesNaming(t, id, o) && t.votes[v].voter == who.voter)
                && who.email == (if who.voter in ctx.emails then Some(ctx.emails[who.voter]) else None)
        ensures who in named
      {
        var v :| v in VotesNaming(t, id, o) && t.votes[v].voter == who.voter;
        assert v in votes && who == VoterIdentity(t.votes[v].voter, EmailOf(ctx, t.votes[v].voter));
      }
    }
  }

  ghost predicate IsManager(ctx: Context) { ctx.role == Some(Manager) || ctx.role == Some(Admin) }

  /** Whether the poll lets this caller see anything now. */
  ghost predicate MaySee(t: Tables, ctx: Context, id: int)
    requires id in t.posts
  {
    var p := t.posts[id];
    || IsManager(ctx)
    || (&& (p.memberVisibility == Some(MemberAggregate) || p.memberVisibility == Some(MemberFull))
        && (|| p.memberDisplay == Some(BeforeVote)
            || (p.memberDisplay == Some(AfterVote) && HasBallot(t, ctx, id))
            || (p.memberDisplay == Some(WhenPollEnds) && p.expiresAt.Some? && p.expiresAt.value <= ctx.now)))
  }

  /** Whether it lets this caller see who voted for what. */
  ghost predicate MaySeeVoters(p: Post, ctx: Context) {
    if IsManager(ctx) then p.adminVisibility == Some(AdminFull) else p.memberVisibility == Some(MemberFull)
  }

  lemma VisibilityExact(db: Db, ctx: Context, id: int)
    requires Inv(db) && SeesPoll(db.tables, ctx, id)
    ensures var p := db.tables.posts[id];
            var shown := Visibility(p, Privileged(ctx), HasVotedInResults(db.tables, ctx, id), PollEnded(p, ctx.now));
            && (shown.Some? <==> MaySee(db.tables, ctx, id))
            && (shown.Some? ==> (shown.value == Full <==> MaySeeVoters(p, ctx)))
  {
    HasVotedAgrees(db, ctx, id, [id]);
    assert FieldsFit(db.tables.posts[id]);
  }

  /**
   * The whole results answer: who is refused and why, who sees nothing yet, who sees counts and
   * who sees names; and every option of the poll once, with its text, its votes and its voters.
   */
  lemma ResultsAnswered(db: Db, ctx: Context, id: int)
    requires Inv(db)
    ensures var t, answer := db.tables, GetResults(db.tables, ctx, id);
            && (answer == Failed(PostNotFound) <==> !Sees(t, ctx, id))
            && (answer == Failed(NotAPoll) <==> Sees(t, ctx, id) && t.posts[id].kind == PlainPost)
            && (answer.Tallied? <==> SeesPoll(t, ctx, id))
            && (answer.Tallied? ==>
                  && var r := answer.results;
                  && r.post == id
                  && (r.pollEnded <==> t.posts[id].expiresAt.Some? && t.posts[id].expiresAt.value <= ctx.now)
                  && (r.Shown? <==> MaySee(t, ctx, id))
                  && (r.Shown? ==>
                        && (r.mode == Full <==> MaySeeVoters(t.posts[id], ctx))
                        && r.totalVoters == |set v | v in t.votes && t.votes[v].post == id :: t.votes[v].voter|
                        && (forall tally :: tally in r.tallies ==> TallySays(t, ctx, id, r.mode, tally))
                        && (forall o :: o in t.options && t.options[o].post == id ==> exists tally :: tally in r.tallies && tally.option == o)
                        && (forall a, b :: a in r.tallies && b in r.tallies && a.option == b.option ==> a == b)))
  {
    var t, answer := db.tables, GetResults(db.tables, ctx, id);
    if SeesPoll(t, ctx, id) {
      VisibilityExact(db, ctx, id);
      if answer.results.Shown? { ShownTallies(db, ctx, id, answer.results.mode); }
    }
  }

  lemma ShownTallies(db: Db, ctx: Context, id: int, mode: ResultsMode)
    requires Inv(db) && Sees(db.tables, ctx, id)
    ensures var t, tallies := db.tables, Tallies(db.tables, ctx, id, mode);
            && (forall tally :: tally in tallies ==> TallySays(t, ctx, id, mode, tally))
            && (forall o :: o in t.options && t.options[o].post == id ==> exists tally :: tally in tallies && tally.option == o)
            && (forall a, b :: a in tallies && b in tallies && a.option == b.option ==> a == b)
            && DistinctVoters(t, ctx.scope, id) == set v | v in t.votes && t.votes[v].post == id :: t.votes[v].voter
  {
    var t, tallies := db.tables, Tallies(db.tables, ctx, id, mode);
    forall tally | tally in tallies
      ensures TallySays(t, ctx, id, mode, tally) && tally == TallyOf(t, ctx, id, mode, tally.option)
    {
      var o :| o in OptionsOf(t, id) && tally == TallyOf(t, ctx, id, mode, o);
      TallyExact(db, ctx, id, mode, o);
    }
    forall o | o in t.options && t.options[o].post == id ensures exists tally :: tally in tallies && tally.option == o {
      assert o in OptionsOf(t, id);
      assert TallyOf(t, ctx, id, mode, o) in tallies;
    }
    ScopedCountIsTrueCount(t, ctx.scope, id);
    assert DistinctVoters(t, ctx.scope, id) == set v | v in PostVotes(t, id) :: t.votes[v].voter;
  }

  // ---- conservation -------------------------------------------------------

  function SumShown(tallies: seq<Tally>): nat {
    if tallies == [] then 0 else tallies[0].count + SumShown(tallies[1..])
  }

  function OptionsShown(tallies: seq<Tally>): seq<int> {
    seq(|tallies|, i requires 0 <= i < |tallies| => tallies[i].option)
  }

  lemma {:induction false} SumShownIsSum(db: Db, ctx: Context, id: int, mode: ResultsMode, tallies: seq<Tally>)
    requires Inv(db) && Sees(db.tables, ctx, id)
    requires forall i :: 0 <= i < |tallies| ==> TallySays(db.tables, ctx, id, mode, tallies[i])
    ensures SumShown(tallies) == SumOfCounts(db.tables, ctx.scope, id, OptionsShown(tallies))
  {
    if tallies != [] {
      SumShownIsSum(db, ctx, id, mode, tallies[1..]);
      VotesForAreAll(db, ctx, id, tallies[0].option);
      assert OptionsShown(tallies)[1..] == OptionsShown(tallies[1..]);
    }
  }

  /**
   * Conservation, on the answer: the counts shown add up to the poll's votes; the shown number of
   * voters bounds them from both sides, and on a single-choice poll they are equal.
   */
  lemma ShownCountsAddUp(db: Db, ctx: Context, id: int, tallies: seq<Tally>)
    requires Inv(db) && SeesPoll(db.tables, ctx, id)
    requires GetResults(db.tables, ctx, id).results.Shown? && Enumerates(tallies, GetResults(db.tables, ctx, id).results.tallies)
    ensures var t, r := db.tables, GetResults(db.tables, ctx, id).results;
            && SumShown(tallies) == |set v | v in t.votes && t.votes[v].post == id|
            && r.totalVoters <= SumShown(tallies) <= r.totalVoters * |tallies|
            && (t.posts[id].kind == SingleChoice ==> SumShown(tallies) == r.totalVoters)
  {
    var t, r := db.tables, GetResults(db.tables, ctx, id).results;
    ResultsAnswered(db, ctx, id);
    var options := OptionsShown(tallies);
    assert forall i :: 0 <= i < |tallies| ==> tallies[i] in r.tallies;
    SumShownIsSum(db, ctx, id, r.mode, tallies);
    forall o ensures o in options <==> o in OptionsOf(t, id) {
      if o in OptionsOf(t, id) {
        var tally :| tally in r.tallies && tally.option == o;
        var i :| 0 <= i < |tallies| && tallies[i] == tally;
        assert options[i] == o;
      }
    }
    forall i, j | 0 <= i < j < |options| ensures options[i] != options[j] {
      assert tallies[i] != tallies[j];
    }
    TalliesAddUp(db, ctx.scope, id, options);
    assert PostVotes(t, id) == set v | v in t.votes && t.votes[v].post == id;
  }
}
