/** Realtime channel names: one family per user, one per community tier. */
module Channels {
  import opened Prelude
  import opened Decimal

  const PREFIX := "notify:v1:"

  datatype Tier = MemberTier | ManagerTier

  function TierName(tier: Tier): string {
    match tier case MemberTier => "MEMBER" case ManagerTier => "MANAGER"
  }

  function UserChannel(user: int): string { PREFIX + (['u', ':'] + IntText(user)) }

  function CommunityChannel(community: int, tier: Tier): string {
    PREFIX + (['c', ':'] + (IntText(community) + ([':'] + TierName(tier))))
  }

  /** `UsersAudience.channels`: duplicates collapsed, order kept. */
  function UsersChannels(users: seq<int>): (channels: seq<string>)
    ensures |channels| == |Dedupe(users)|
    ensures forall i :: 0 <= i < |channels| ==> channels[i] == UserChannel(Dedupe(users)[i])
  {
    var distinct := Dedupe(users);
    seq(|distinct|, i requires 0 <= i < |distinct| => UserChannel(distinct[i]))
  }

  /** The names, letter for letter. */
  lemma ChannelTexts(id: int, tier: Tier)
    ensures UserChannel(id) == "notify:v1:u:" + IntText(id)
    ensures CommunityChannel(id, tier) == "notify:v1:c:" + IntText(id) + if tier == MemberTier then ":MEMBER" else ":MANAGER"
  {
    var n := IntText(id);
    assert PREFIX + (['u', ':'] + n) == "notify:v1:u:" + n;
    assert PREFIX + (['c', ':'] + (n + ([':'] + "MEMBER"))) == "notify:v1:c:" + n + ":MEMBER";
    assert PREFIX + (['c', ':'] + (n + ([':'] + "MANAGER"))) == "notify:v1:c:" + n + ":MANAGER";
  }

  lemma UserChannelInjective(u: int, v: int)
    requires UserChannel(u) == UserChannel(v)
    ensures u == v
  {
    var n := |PREFIX| + 2;
    assert UserChannel(u)[n..] == IntText(u);
    assert UserChannel(v)[n..] == IntText(v);
    IntTextInjective(u, v);
  }

  lemma FamiliesDisjoint(u: int, community: int, tier: Tier)
    ensures UserChannel(u) != CommunityChannel(community, tier)
  {
    var n := |PREFIX|;
    assert UserChannel(u)[n] == 'u' && CommunityChannel(community, tier)[n] == 'c';
  }

  /** The part before a marker that does not occur in it is determined by the whole. */
  lemma SplitAtMarker(a: string, b: string, x: string, y: string)
    requires ':' !in a && ':' !in b && a + ([':'] + x) == b + ([':'] + y)
    ensures a == b && x == y
  {
    var s, t := a + ([':'] + x), b + ([':'] + y);
    assert s[|a|] == ':' && t[|b|] == ':';
    assert forall i :: 0 <= i < |a| ==> s[i] == a[i] && a[i] in a;
    assert forall i :: 0 <= i < |b| ==> t[i] == b[i] && b[i] in b;
    assert |a| == |b|;
    assert s[..|a|] == a && t[..|b|] == b;
    assert s[|a| + 1..] == x && t[|b| + 1..] == y;
  }

  lemma CommunityChannelInjective(c: int, t: Tier, d: int, u: Tier)
    requires CommunityChannel(c, t) == CommunityChannel(d, u)
    ensures c == d && t == u
  {
    var n := |PREFIX| + 2;
    assert CommunityChannel(c, t)[n..] == IntText(c) + ([':'] + TierName(t));
    assert CommunityChannel(d, u)[n..] == IntText(d) + ([':'] + TierName(u));
    assert ':' !in IntText(c) && ':' !in IntText(d) by { assert !IsNumberChar(':'); }
    SplitAtMarker(IntText(c), IntText(d), TierName(t), TierName(u));
    IntTextInjective(c, d);
    TierNamesDiffer(t, u);
  }

  lemma TierNamesDiffer(t: Tier, u: Tier)
    requires TierName(t) == TierName(u)
    ensures t == u
  {
    assert TierName(t)[1] == TierName(u)[1];
  }

  /** A hint to a set of users goes out once per user, and never on a community channel. */
  lemma HintChannels(users: seq<int>)
    ensures NoDuplicates(UsersChannels(users))
    ensures forall u :: u in users <==> UserChannel(u) in UsersChannels(users)
    ensures forall c, tier :: CommunityChannel(c, tier) !in UsersChannels(users)
  {
    var channels, distinct := UsersChannels(users), Dedupe(users);
    forall i, j | 0 <= i < j < |channels| ensures channels[i] != channels[j] {
      if UserChannel(distinct[i]) == UserChannel(distinct[j]) { UserChannelInjective(distinct[i], distinct[j]); }
    }
    forall u ensures u in users <==> UserChannel(u) in channels {
      if u in users {
        var i :| 0 <= i < |distinct| && distinct[i] == u;
        assert channels[i] == UserChannel(u);
      }
      if UserChannel(u) in channels {
        var i :| 0 <= i < |channels| && channels[i] == UserChannel(u);
        UserChannelInjective(u, distinct[i]);
      }
    }
    forall c, tier ensures CommunityChannel(c, tier) !in channels {
      forall i | 0 <= i < |channels| ensures channels[i] != CommunityChannel(c, tier) {
        FamiliesDisjoint(distinct[i], c, tier);
      }
    }
  }
}
