/** The local transaction of one request, and the repository that queries it. */
module LocalSessions {
  import opened Prelude
  import opened LocalTables
  import NewsBoard

  /**
   * Committed rows, and the working copy a transaction flushes to. Any call may go unanswered;
   * `dropped` records that one did.
   */
  class LocalSession {
    var committed: Tables
    var working: Tables
    var next: Counters
    ghost var dropped: bool

    constructor (db: Db)
      ensures Stored() == db && Clean()
    {
      committed, working, next, dropped := db.tables, db.tables, db.next, false;
    }

    ghost function Stored(): Db
      reads this
    {
      Db(committed, next)
    }

    /** Nothing flushed that is not committed, and no call lost so far. */
    ghost predicate Clean()
      reads this
    {
      working == committed && !dropped
    }

    method Answers() returns (ok: bool)
      modifies this`dropped
      ensures dropped == (old(dropped) || !ok)
    {
      ok := *;
      dropped := dropped || !ok;
    }

    method Commit() returns (ok: bool)
      modifies this`committed, this`working, this`dropped
      ensures dropped == (old(dropped) || !ok)
      ensures committed == working == if ok then old(working) else old(committed)
    {
      ok := Answers();
      if ok { committed := working; } else { working := committed; }
    }

    /** Writes a loaded post back. */
    method Assign(id: int, post: Post)
      requires id in working.posts
      modifies this`working
      ensures working == old(working).(posts := old(working).posts[id := post])
    {
      working := working.(posts := working.posts[id := post]);
    }

    /** Options taken out of a post's collection are deleted at the next flush. */
    method Orphan(options: set<int>)
      modifies this`working
      ensures working == DropOptions(old(working), options)
    {
      working := DropOptions(working, options);
    }

    /** Leaving the session rolls back whatever was not committed. */
    method Close()
      modifies this`working
      ensures working == committed
    {
      working := committed;
    }
  }

  /** Option ids as the relationship's `order_by` lists them; ties fall as they may. */
  ghost predicate InDisplayOrder(t: Tables, options: seq<int>) {
    && (forall i :: 0 <= i < |options| ==> options[i] in t.options)
    && (forall i, j :: 0 <= i < j < |options| ==> t.options[options[i]].displayOrder <= t.options[options[j]].displayOrder)
  }

  lemma {:induction false} LowestExists(t: Tables, ids: set<int>)
    requires ids != {} && forall x :: x in ids ==> x in t.options
    ensures exists a :: a in ids && forall b :: b in ids ==> t.options[a].displayOrder <= t.options[b].displayOrder
  {
    var x := Inhabitant(ids);
    var rest := ids - {x};
    if rest == {} {
      forall b | b in ids ensures b == x {
        assert b !in rest;
      }
    } else {
      LowestExists(t, rest);
      var y :| y in rest && forall b :: b in rest ==> t.options[y].displayOrder <= t.options[b].displayOrder;
      var a := if t.options[x].displayOrder <= t.options[y].displayOrder then x else y;
      forall b | b in ids ensures t.options[a].displayOrder <= t.options[b].displayOrder {
        assert b == x || b in rest;
      }
    }
  }

  method OrderByDisplay(t: Tables, ids: set<int>) returns (options: seq<int>)
    requires forall x :: x in ids ==> x in t.options
    ensures Enumerates(options, ids) && InDisplayOrder(t, options)
  {
    options := [];
    var rest := ids;
    while rest != {}
      invariant rest <= ids && NoDuplicates(options) && InDisplayOrder(t, options)
      invariant forall x :: x in options <==> x in ids && x !in rest
      invariant forall i, x :: 0 <= i < |options| && x in rest ==>
                  t.options[options[i]].displayOrder <= t.options[x].displayOrder
    {
      LowestExists(t, rest);
      var o :| o in rest && forall b :: b in rest ==> t.options[o].displayOrder <= t.options[b].displayOrder;
      options := options + [o];
      rest := rest - {o};
    }
  }

  function VotedAmong(t: Tables, scope: Option<int>, voter: string, posts: set<int>): set<int> {
    set v | v in t.votes && InScope(scope, t.votes[v].community) && t.votes[v].voter == voter && t.votes[v].post in posts
      :: t.votes[v].post
  }

  /** The columns the results query selects. */
  function VoteOf(t: Tables, v: int): Option<(int, string)> {
    if v in t.votes then Some((t.votes[v].option, t.votes[v].voter)) else None
  }

  /** The queries and writes of the news board, filtered by the community in context. */
  class NewsRepository {
    const session: LocalSession
    const scope: Option<int>

    constructor (session: LocalSession, scope: Option<int>)
      ensures this.session == session && this.scope == scope
    {
      this.session, this.scope := session, scope;
    }

    // ---- posts and options ------------------------------------------------

    method CreatePost(post: Post) returns (ok: bool, id: int)
      modifies session`working, session`next, session`dropped
      ensures session.dropped == (old(session.dropped) || !ok)
      ensures id == old(session.next.post)
      ensures ok ==> session.working == old(session.working).(posts := old(session.working).posts[id := post])
      ensures session.next == if ok then old(session.next).(post := id + 1) else old(session.next)
    {
      id := session.next.post;
      ok := session.Answers();
      if ok {
        session.working := session.working.(posts := session.working.posts[id := post]);
        session.next := session.next.(post := id + 1);
      }
    }

    method GetPost(id: int) returns (ok: bool, post: Option<Post>)
      modifies session`dropped
      ensures session.dropped == (old(session.dropped) || !ok)
      ensures ok ==> post == FindPost(session.working, scope, id)
    {
      post := FindPost(session.working, scope, id);
      ok := session.Answers();
    }

    /** The post, and its options in display order. */
    method GetPostWithOptions(id: int) returns (ok: bool, post: Option<Post>, options: seq<int>)
      modifies session`dropped
      ensures session.dropped == (old(session.dropped) || !ok)
      ensures ok ==> post == FindPost(session.working, scope, id)
      ensures Enumerates(options, OptionsOf(session.working, id)) && InDisplayOrder(session.working, options)
    {
      post := FindPost(session.working, scope, id);
      options := OrderByDisplay(session.working, OptionsOf(session.working, id));
      ok := session.Answers();
    }

    /** One page, newest first, and how many there are in all; PostgreSQL refuses a negative offset or limit. */
    method ListPosts(page: int, size: int) returns (ok: bool, rows: seq<int>, total: nat)
      modifies session`dropped
      ensures ok ==> session.dropped == old(session.dropped)
      ensures !ok ==> session.dropped || (page - 1) * size < 0 || size < 0
      ensures ok ==> (page - 1) * size >= 0 && size >= 0
      ensures ok ==> rows == NewsBoard.PageRows(session.working, scope, (page - 1) * size, size)
      ensures ok ==> total == |ScopedPosts(session.working, scope)|
    {
      var offset := (page - 1) * size;
      rows, total := [], |ScopedPosts(session.working, scope)|;
      ok := session.Answers();
      if ok && offset >= 0 && size >= 0 {
        rows := NewsBoard.PageRows(session.working, scope, offset, size);
      } else {
        ok := false;
      }
    }

    method DeletePost(id: int) returns (ok: bool)
      modifies session`working, session`dropped
      ensures session.dropped == (old(session.dropped) || !ok)
      ensures ok ==> session.working == DropPost(old(session.working), id)
    {
      ok := session.Answers();
      if ok { session.working := DropPost(session.working, id); }
    }

    method AddOptions(rows: seq<PollOption>) returns (ok: bool)
      modifies session`working, session`next, session`dropped
      ensures session.dropped == (old(session.dropped) || !ok)
      ensures ok ==> session.working == LocalTables.AddOptions(old(session.working), old(session.next).option, rows)
      ensures session.next == if ok then old(session.next).(option := old(session.next).option + |rows|) else old(session.next)
    {
      ok := session.Answers();
      if ok {
        session.working := LocalTables.AddOptions(session.working, session.next.option, rows);
        session.next := session.next.(option := session.next.option + |rows|);
      }
    }

    // ---- votes ------------------------------------------------------------

    method CountVotesForPost(post: int) returns (ok: bool, count: nat)
      modifies session`dropped
      ensures session.dropped == (old(session.dropped) || !ok)
      ensures ok ==> count == |ScopedVotes(session.working, scope, post)|
    {
      count := |ScopedVotes(session.working, scope, post)|;
      ok := session.Answers();
    }

    method GetVoterVotes(post: int, voter: string) returns (ok: bool, votes: seq<int>)
      modifies session`dropped
      ensures session.dropped == (old(session.dropped) || !ok)
      ensures ok ==> Enumerates(votes, VoterVotes(session.working, scope, post, voter))
    {
      votes := Enumerate(VoterVotes(session.working, scope, post, voter));
      ok := session.Answers();
    }

    /** Fails on a lost call, or when a declared constraint would be violated. */
    method AddVotes(rows: seq<Vote>) returns (ok: bool)
      modifies session`working, session`next, session`dropped
      ensures ok ==> session.dropped == old(session.dropped)
      ensures !ok ==> session.dropped || !Constraints(LocalTables.AddVotes(old(session.working), old(session.next).vote, rows))
      ensures ok ==> session.working == LocalTables.AddVotes(old(session.working), old(session.next).vote, rows)
      ensures session.next == old(session.next).(vote := session.next.vote)
      ensures ok ==> session.next.vote == old(session.next).vote + |rows|
      ensures old(session.next).vote <= session.next.vote
    {
      ok := session.Answers();
      if !ok { return; }
      var after := LocalTables.AddVotes(session.working, session.next.vote, rows);
      session.next := session.next.(vote := session.next.vote + |rows|);
      ok := Constraints(after);
      if ok { session.working := after; }
    }

    method DeleteVotes(votes: seq<int>) returns (ok: bool)
      modifies session`working, session`dropped
      ensures session.dropped == (old(session.dropped) || !ok)
      ensures session.working == DropVotes(old(session.working), Elements(votes))
    {
      for i := 0 to |votes|
        invariant session.dropped == old(session.dropped)
        invariant session.working == DropVotes(old(session.working), Elements(votes[..i]))
      {
        assert Elements(votes[..i + 1]) == Elements(votes[..i]) + {votes[i]};
        session.working := DropVotes(session.working, {votes[i]});
      }
      assert votes[..|votes|] == votes;
      ok := session.Answers();
    }

    /** One (option, voter) pair for each of the poll's vote rows in scope, in any order. */
    method GetVotesForPost(post: int) returns (ok: bool, votes: seq<(int, string)>, ghost ids: seq<int>)
      modifies session`dropped
      ensures session.dropped == (old(session.dropped) || !ok)
      ensures Enumerates(ids, ScopedVotes(session.working, scope, post)) && |votes| == |ids|
      ensures forall i :: 0 <= i < |ids| ==> VoteOf(session.working, ids[i]) == Some(votes[i])
    {
      var t := session.working;
      var scoped := ScopedVotes(t, scope, post);
      var rows := Enumerate(scoped);
      ids := rows;
      assert forall i :: 0 <= i < |rows| ==> rows[i] in scoped;
      votes := seq(|rows|, i requires 0 <= i < |rows| && rows[i] in t.votes => (t.votes[rows[i]].option, t.votes[rows[i]].voter));
      ok := session.Answers();
    }

    method GetVotedPostIds(voter: string, posts: set<int>) returns (ok: bool, voted: set<int>)
      modifies session`dropped
      ensures session.dropped == (old(session.dropped) || !ok)
      ensures ok ==> voted == VotedAmong(session.working, scope, voter, posts)
    {
      ok := true;
      if posts == {} {
        voted := {};
        return;
      }
      voted := VotedAmong(session.working, scope, voter, posts);
      ok := session.Answers();
    }
  }
}
