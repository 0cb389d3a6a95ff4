/** Votes grouped by option, and why the groups are the tallies. */
module Tallying {
  import opened Prelude
  import opened LocalTables
  import opened NewsBoard
  import opened LocalSessions
  import opened CrmSessions

  /** The voters behind one option, in the order the votes came. */
  function VotersOf(votes: seq<(int, string)>, option: int): seq<string> {
    if votes == [] then []
    else
      var init, last := VotersOf(votes[..|votes| - 1], option), votes[|votes| - 1];
      if last.0 == option then init + [last.1] else init
  }

  function VotersIn(groups: map<int, seq<string>>, option: int): seq<string> {
    if option in groups then groups[option] else []
  }

  method GroupByOption(votes: seq<(int, string)>) returns (groups: map<int, seq<string>>)
    ensures forall o :: VotersIn(groups, o) == VotersOf(votes, o)
  {
    groups := map[];
    for i := 0 to |votes|
      invariant forall o :: VotersIn(groups, o) == VotersOf(votes[..i], o)
    {
      var (option, voter) := votes[i];
      assert votes[..i + 1][..i] == votes[..i];
      groups := groups[option := VotersIn(groups, option) + [voter]];
    }
    assert votes[..|votes|] == votes;
  }

  /** The rows behind one option, among the first ones read. */
  function RowsFor(t: Tables, ids: seq<int>, option: int): set<int> {
    set v | v in ids && v in t.votes && t.votes[v].option == option
  }

  function VotersBehind(t: Tables, rows: set<int>): set<string> {
    set v | v in rows && v in t.votes :: t.votes[v].voter
  }

  lemma VotersOfOneMore(votes: seq<(int, string)>, vote: (int, string), option: int)
    ensures VotersOf(votes + [vote], option) == VotersOf(votes, option) + if vote.0 == option then [vote.1] else []
  {
    assert (votes + [vote])[..|votes|] == votes;
  }

  lemma RowsForOneMore(t: Tables, ids: seq<int>, last: int, option: int)
    requires last !in ids && last in t.votes
    ensures last !in RowsFor(t, ids, option)
    ensures RowsFor(t, ids + [last], option) == RowsFor(t, ids, option) + if t.votes[last].option == option then {last} else {}
  {
  }

  /** As many voters as rows, and the same ones. */
  ghost predicate Counted(t: Tables, ids: seq<int>, votes: seq<(int, string)>, option: int) {
    && |VotersOf(votes, option)| == |RowsFor(t, ids, option)|
    && Elements(VotersOf(votes, option)) == VotersBehind(t, RowsFor(t, ids, option))
  }

  lemma OneMoreCounted(t: Tables, ids: seq<int>, last: int, votes: seq<(int, string)>, vote: (int, string), option: int)
    requires Counted(t, ids, votes, option) && last !in ids && VoteOf(t, last) == Some(vote)
    ensures Counted(t, ids + [last], votes + [vote], option)
  {
    VotersOfOneMore(votes, vote, option);
    RowsForOneMore(t, ids, last, option);
    if vote.0 == option {
      var voters := VotersOf(votes, option);
      assert Elements(voters + [vote.1]) == Elements(voters) + {vote.1};
    }
  }

  /** Grouping counts every row once. */
  lemma {:induction false} GroupingCounts(t: Tables, ids: seq<int>, votes: seq<(int, string)>, option: int)
    requires |votes| == |ids| && NoDuplicates(ids)
    requires forall i :: 0 <= i < |ids| ==> VoteOf(t, ids[i]) == Some(votes[i])
    ensures Counted(t, ids, votes, option)
    decreases |ids|
  {
    if ids != [] {
      var n := |ids| - 1;
      GroupingCounts(t, ids[..n], votes[..n], option);
      OneMoreCounted(t, ids[..n], ids[n], votes[..n], votes[n], option);
      assert ids == ids[..n] + [ids[n]] && votes == votes[..n] + [votes[n]];
    }
  }

  /** `voters` lists the voters of one option, once for each of its vote rows. */
  ghost predicate GroupOf(t: Tables, scope: Option<int>, id: int, option: int, voters: seq<string>) {
    var rows := VotesFor(t, scope, id, option);
    |voters| == |rows| && Elements(voters) == VotersBehind(t, rows)
  }

  lemma GroupsMatch(t: Tables, scope: Option<int>, id: int, ids: seq<int>, votes: seq<(int, string)>)
    requires Enumerates(ids, ScopedVotes(t, scope, id)) && |votes| == |ids|
    requires forall i :: 0 <= i < |ids| ==> VoteOf(t, ids[i]) == Some(votes[i])
    ensures forall o :: GroupOf(t, scope, id, o, VotersOf(votes, o))
  {
    forall o ensures GroupOf(t, scope, id, o, VotersOf(votes, o)) {
      GroupingCounts(t, ids, votes, o);
      forall v ensures v in RowsFor(t, ids, o) <==> v in VotesFor(t, scope, id, o) {}
      assert RowsFor(t, ids, o) == VotesFor(t, scope, id, o);
    }
  }

  lemma VotersRead(t: Tables, scope: Option<int>, id: int, ids: seq<int>, votes: seq<(int, string)>)
    requires Enumerates(ids, ScopedVotes(t, scope, id)) && |votes| == |ids|
    requires forall i :: 0 <= i < |ids| ==> VoteOf(t, ids[i]) == Some(votes[i])
    ensures forall w :: w in DistinctVoters(t, scope, id) <==> exists i :: 0 <= i < |votes| && votes[i].1 == w
    ensures (set i | 0 <= i < |votes| :: votes[i].1) == DistinctVoters(t, scope, id)
  {
    var scoped := ScopedVotes(t, scope, id);
    forall w | w in DistinctVoters(t, scope, id) ensures exists i :: 0 <= i < |votes| && votes[i].1 == w {
      var v :| v in scoped && t.votes[v].voter == w;
      var i :| 0 <= i < |ids| && ids[i] == v;
      assert votes[i].1 == w;
    }
    forall i | 0 <= i < |votes| ensures votes[i].1 in DistinctVoters(t, scope, id) {
      var v := ids[i];
      assert v in scoped && t.votes[v].voter == votes[i].1;
    }
  }

  lemma IdentitiesMatch(t: Tables, ctx: Context, id: int, o: int, voters: seq<string>, emails: map<string, string>)
    requires GroupOf(t, ctx.scope, id, o, voters)
    requires forall w :: w in DistinctVoters(t, ctx.scope, id) ==> Lookup(emails, w) == EmailOf(ctx, w)
    ensures (set w | w in voters :: VoterIdentity(w, Lookup(emails, w)))
         == (set v | v in VotesFor(t, ctx.scope, id, o) :: VoterIdentity(t.votes[v].voter, EmailOf(ctx, t.votes[v].voter)))
  {
    var rows := VotesFor(t, ctx.scope, id, o);
    forall v | v in rows ensures t.votes[v].voter in DistinctVoters(t, ctx.scope, id) && t.votes[v].voter in voters {
      assert v in ScopedVotes(t, ctx.scope, id);
      assert t.votes[v].voter in VotersBehind(t, rows);
      assert t.votes[v].voter in Elements(voters);
    }
    forall w | w in voters ensures exists v :: v in rows && t.votes[v].voter == w {
      assert w in Elements(voters);
    }
  }

  lemma AllTallied(t: Tables, ctx: Context, id: int, mode: ResultsMode, options: seq<int>, tallies: seq<Tally>)
    requires Enumerates(options, OptionsOf(t, id)) && InDisplayOrder(t, options) && |tallies| == |options|
    requires forall i :: 0 <= i < |options| ==> tallies[i] == TallyOf(t, ctx, id, mode, options[i])
    ensures Elements(tallies) == Tallies(t, ctx, id, mode)
    ensures TalliesInOrder(t, id, tallies)
  {
    forall tally | tally in tallies ensures tally in Tallies(t, ctx, id, mode) {
      var i :| 0 <= i < |tallies| && tallies[i] == tally;
      assert options[i] in OptionsOf(t, id);
    }
    forall tally | tally in Tallies(t, ctx, id, mode) ensures tally in tallies {
      var o :| o in OptionsOf(t, id) && tally == TallyOf(t, ctx, id, mode, o);
      var i :| 0 <= i < |options| && options[i] == o;
      assert tallies[i] == tally;
    }
    var listed := seq(|tallies|, i requires 0 <= i < |tallies| => tallies[i].option);
    assert listed == options;
  }

  /** One tally per option of the poll, listed in display order. */
  ghost predicate TalliesInOrder(t: Tables, id: int, tallies: seq<Tally>) {
    var listed := seq(|tallies|, i requires 0 <= i < |tallies| => tallies[i].option);
    Enumerates(listed, OptionsOf(t, id)) && InDisplayOrder(t, listed)
  }
}
