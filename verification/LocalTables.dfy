/** The local database: posts, poll options, votes, and what each statement does to them. */
module LocalTables {
  import opened Prelude

  datatype PostType = PlainPost | SingleChoice | MultipleChoice {
    predicate IsPoll() { !PlainPost? }
  }

  datatype AdminVisibility = AdminAggregate | AdminFull
  datatype MemberVisibility = MemberNone | MemberAggregate | MemberFull
  datatype MemberDisplay = Never | BeforeVote | AfterVote | WhenPollEnds

  /** Rows are keyed by their identity column, so the id is not repeated inside the row. */
  datatype Post = Post(
    community: int, author: string, authorEmail: Option<string>, kind: PostType, body: string,
    expiresAt: Option<int>, adminVisibility: Option<AdminVisibility>,
    memberVisibility: Option<MemberVisibility>, memberDisplay: Option<MemberDisplay>, createdAt: int)

  datatype PollOption = PollOption(community: int, post: int, value: string, displayOrder: int)

  datatype Vote = Vote(community: int, post: int, option: int, voter: string)

  datatype Tables = Tables(posts: map<int, Post>, options: map<int, PollOption>, votes: map<int, Vote>)

  /** Identity counters: never rolled back, so an id is never handed out twice. */
  datatype Counters = Counters(post: nat, option: nat, vote: nat)

  datatype Db = Db(tables: Tables, next: Counters)

  const EMPTY := Db(Tables(map[], map[], map[]), Counters(1, 1, 1))

  // ---- queries ------------------------------------------------------------

  /** The filter on every scoped query; without an active community it lets nothing through. */
  predicate InScope(scope: Option<int>, community: int) { scope == Some(community) }

  function FindPost(t: Tables, scope: Option<int>, id: int): Option<Post> {
    if id in t.posts && InScope(scope, t.posts[id].community) then Some(t.posts[id]) else None
  }

  /** The `options` relationship follows the foreign key only; it is not community-scoped. */
  function OptionsOf(t: Tables, post: int): set<int> {
    set o | o in t.options && t.options[o].post == post
  }

  function ScopedVotes(t: Tables, scope: Option<int>, post: int): set<int> {
    set v | v in t.votes && InScope(scope, t.votes[v].community) && t.votes[v].post == post
  }

  function VoterVotes(t: Tables, scope: Option<int>, post: int, voter: string): set<int> {
    set v | v in t.votes && InScope(scope, t.votes[v].community) && t.votes[v].post == post && t.votes[v].voter == voter
  }

  function ScopedPosts(t: Tables, scope: Option<int>): set<int> {
    set p | p in t.posts && InScope(scope, t.posts[p].community)
  }

  // ---- writes -------------------------------------------------------------

  function Rows<T>(first: int, rows: seq<T>): (m: map<int, T>)
    ensures forall k :: k in m <==> first <= k < first + |rows|
    ensures forall k :: k in m ==> m[k] == rows[k - first]
  {
    if rows == [] then map[]
    else
      var n := |rows| - 1;
      Rows(first, rows[..n])[first + n := rows[n]]
  }

  function AddOptions(t: Tables, first: int, rows: seq<PollOption>): Tables {
    t.(options := t.options + Rows(first, rows))
  }

  function AddVotes(t: Tables, first: int, rows: seq<Vote>): Tables {
    t.(votes := t.votes + Rows(first, rows))
  }

  function DropVotes(t: Tables, ids: set<int>): Tables {
    t.(votes := t.votes - ids)
  }

  /** ON DELETE CASCADE from an option reaches every vote naming it, in any community. */
  function DropOptions(t: Tables, ids: set<int>): Tables {
    t.(options := t.options - ids,
       votes := map v | v in t.votes && t.votes[v].option !in ids :: t.votes[v])
  }

  /** ON DELETE CASCADE from a post reaches its options, its votes and its options' votes. */
  function DropPost(t: Tables, id: int): Tables {
    var u := DropOptions(t, OptionsOf(t, id));
    u.(posts := u.posts - {id}, votes := map v | v in u.votes && u.votes[v].post != id :: u.votes[v])
  }

  predicate UniqueBallots(t: Tables) {
    forall v, w | v in t.votes && w in t.votes && t.votes[v].option == t.votes[w].option
               && t.votes[v].voter == t.votes[w].voter :: v == w
  }

  /** What the schema declares: foreign keys and UNIQUE (id_post_poll, voter_id). */
  predicate Constraints(t: Tables) {
    && (forall o :: o in t.options ==> t.options[o].post in t.posts)
    && (forall v :: v in t.votes ==> t.votes[v].post in t.posts && t.votes[v].option in t.options)
    && UniqueBallots(t)
  }
}
