/** The `x-user-orgs` header: the pattern as a scanner, role resolution, the active role. */
module GatewayAuth {
  import opened Prelude
  import opened Text

  const ORG_ID := "orgId:"
  const ORG_PATH := "orgPath:"
  const ROLES := "roles:["

  datatype OrgToken = OrgToken(orgId: string, orgPath: string, role: Role)

  /** The three groups of one match of the pattern, and the text after it. */
  datatype OrgMatch = OrgMatch(orgId: string, orgPath: string, roles: string, rest: string)

  predicate NotSpace(c: char) { !IsSpace(c) }
  predicate NotClose(c: char) { c != ']' }
  predicate IsSeparator(c: char) { c == ',' || IsSpace(c) }
  predicate NotSeparator(c: char) { !IsSeparator(c) }

  ghost predicate All(p: char -> bool, s: string) {
    forall i :: 0 <= i < |s| ==> p(s[i])
  }

  /** Length of the longest prefix whose characters all satisfy `p`. */
  function Span(p: char -> bool, s: string): (n: nat)
    ensures n <= |s| && All(p, s[..n])
    ensures n < |s| ==> !p(s[n])
  {
    if s != "" && p(s[0]) then
      var n := Span(p, s[1..]);
      assert s[..n + 1] == [s[0]] + s[1..][..n];
      n + 1
    else 0
  }

  lemma {:induction false} SpanOf(p: char -> bool, word: string, rest: string)
    requires All(p, word) && (rest == "" || !p(rest[0]))
    ensures Span(p, word + rest) == |word|
    ensures (word + rest)[..|word|] == word && (word + rest)[|word|..] == rest
  {
    if word != "" {
      assert (word + rest)[1..] == word[1..] + rest;
      SpanOf(p, word[1..], rest);
    } else {
      assert word + rest == rest;
    }
  }

  // ---- the scanner --------------------------------------------------------

  /** `\s+roles:\[([^\]]*)\]` here: the roles text and what follows the bracket. */
  function RolesHere(s: string): Option<(string, string)> {
    var n := Span(IsSpace, s);
    var t := s[n..];
    if n == 0 || !(ROLES <= t) then None
    else
      var u := t[|ROLES|..];
      var c := Span(NotClose, u);
      if c < |u| then Some((u[..c], u[c + 1..])) else None
  }

  /** `(.*?)` and then the roles: the path grows, never over a newline, until the roles match. */
  function PathHere(s: string): Option<(string, string, string)> {
    match RolesHere(s)
    case Some((roles, rest)) => Some(("", roles, rest))
    case None =>
      if s == "" || s[0] == '\n' then None
      else match PathHere(s[1..])
        case None => None
        case Some((path, roles, rest)) => Some(([s[0]] + path, roles, rest))
  }

  /** `orgId:(\S+)\s+orgPath:` here: the id, the gap and what follows. */
  function HeadHere(s: string): Option<(string, string, string)> {
    if !(ORG_ID <= s) then None
    else
      var t := s[|ORG_ID|..];
      var w := Span(NotSpace, t);
      var n := Span(IsSpace, t[w..]);
      var u := t[w..][n..];
      if w == 0 || n == 0 || !(ORG_PATH <= u) then None
      else Some((t[..w], t[w..][..n], u[|ORG_PATH|..]))
  }

  /** The whole pattern, anchored at the start of `s`. */
  function MatchHere(s: string): Option<OrgMatch> {
    match HeadHere(s)
    case None => None
    case Some((id, _, t)) =>
      match PathHere(t)
      case None => None
      case Some((path, roles, rest)) => Some(OrgMatch(id, path, roles, rest))
  }

  // ---- the scanner is the pattern -----------------------------------------

  ghost predicate RolesDerivation(s: string, space: string, roles: string, rest: string) {
    && s == space + (ROLES + (roles + ([']'] + rest)))
    && space != "" && All(IsSpace, space) && All(NotClose, roles)
  }

  /** One way to split `s` along the pattern, as the regular expression reads. */
  ghost predicate Derivation(s: string, id: string, gap: string, path: string, space: string, roles: string, rest: string) {
    && s == ORG_ID + (id + (gap + (ORG_PATH + (path + (space + (ROLES + (roles + ([']'] + rest))))))))
    && id != "" && All(NotSpace, id)
    && gap != "" && All(IsSpace, gap)
    && '\n' !in path
    && space != "" && All(IsSpace, space) && All(NotClose, roles)
  }

  lemma DropPrefix(p: string, s: string)
    ensures p <= p + s && (p + s)[|p|..] == s
  {
  }

  lemma RolesHereComplete(s: string, space: string, roles: string, rest: string)
    requires RolesDerivation(s, space, roles, rest)
    ensures RolesHere(s) == Some((roles, rest))
  {
    var t := ROLES + (roles + ([']'] + rest));
    assert t[0] == 'r';
    SpanOf(IsSpace, space, t);
    DropPrefix(ROLES, roles + ([']'] + rest));
    SpanOf(NotClose, roles, [']'] + rest);
    assert (roles + ([']'] + rest))[|roles| + 1..] == rest;
  }

  lemma RolesHereSound(s: string)
    requires RolesHere(s).Some?
    ensures RolesDerivation(s, s[..Span(IsSpace, s)], RolesHere(s).value.0, RolesHere(s).value.1)
  {
    var n := Span(IsSpace, s);
    var u := s[n..][|ROLES|..];
    var c := Span(NotClose, u);
    assert u == u[..c] + ([']'] + u[c + 1..]);
    assert s[n..] == ROLES + u;
    assert s == s[..n] + s[n..];
  }

  lemma {:induction false} PathHereSound(s: string) returns (tail: string)
    requires PathHere(s).Some?
    ensures var (path, roles, rest) := PathHere(s).value;
            && s == path + tail && '\n' !in path
            && RolesDerivation(tail, tail[..Span(IsSpace, tail)], roles, rest)
  {
    if RolesHere(s).Some? {
      RolesHereSound(s);
      tail := s;
      assert s == "" + tail;
    } else {
      tail := PathHereSound(s[1..]);
      PathGrows(s);
      var path := PathHere(s[1..]).value.0;
      assert s == [s[0]] + s[1..] == [s[0]] + (path + tail);
      Regroup([s[0]], path, tail);
    }
  }

  lemma PathGrows(s: string)
    requires RolesHere(s).None? && s != "" && s[0] != '\n' && PathHere(s[1..]).Some?
    ensures PathHere(s) == Some(([s[0]] + PathHere(s[1..]).value.0, PathHere(s[1..]).value.1, PathHere(s[1..]).value.2))
  {
  }

  /** The lazy group stops no later than any other split would. */
  lemma {:induction false} PathHereShortest(s: string, path: string, tail: string, space: string, roles: string, rest: string)
    requires s == path + tail && '\n' !in path && RolesDerivation(tail, space, roles, rest)
    ensures PathHere(s).Some? && |PathHere(s).value.0| <= |path|
    ensures |PathHere(s).value.0| == |path| ==> PathHere(s).value == (path, roles, rest)
  {
    if path == "" {
      assert s == tail;
      RolesHereComplete(s, space, roles, rest);
    } else if RolesHere(s).None? {
      var longer := path[1..];
      assert s[0] == path[0] && path == [path[0]] + longer;
      assert s[1..] == longer + tail;
      assert '\n' !in longer && s[0] in path;
      PathHereShortest(s[1..], longer, tail, space, roles, rest);
      PathGrows(s);
    }
  }

  lemma SplitAt(s: string, n: nat)
    requires n <= |s|
    ensures s == s[..n] + s[n..]
  {
  }

  lemma HeadHereSound(s: string)
    requires HeadHere(s).Some?
    ensures var (id, gap, t) := HeadHere(s).value;
            && s == ORG_ID + (id + (gap + (ORG_PATH + t)))
            && id != "" && All(NotSpace, id) && gap != "" && All(IsSpace, gap)
  {
    var t := s[|ORG_ID|..];
    var w := Span(NotSpace, t);
    var u := t[w..];
    var n := Span(IsSpace, u);
    var v := u[n..];
    assert v == ORG_PATH + v[|ORG_PATH|..] by { SplitAt(v, |ORG_PATH|); }
    assert u == u[..n] + v by { SplitAt(u, n); }
    assert t == t[..w] + u by { SplitAt(t, w); }
    assert s == ORG_ID + t by { SplitAt(s, |ORG_ID|); }
  }

  lemma HeadHereComplete(id: string, gap: string, t: string)
    requires id != "" && All(NotSpace, id) && gap != "" && All(IsSpace, gap)
    ensures HeadHere(ORG_ID + (id + (gap + (ORG_PATH + t)))) == Some((id, gap, t))
  {
    var u := ORG_PATH + t;
    DropPrefix(ORG_ID, id + (gap + u));
    assert u[0] == 'o' && (gap + u)[0] == gap[0];
    SpanOf(NotSpace, id, gap + u);
    SpanOf(IsSpace, gap, u);
    DropPrefix(ORG_PATH, t);
  }

  /** A match the scanner reports is a match of the pattern. */
  lemma MatchHereSound(s: string)
    requires MatchHere(s).Some?
    ensures var m := MatchHere(s).value;
            exists gap, space :: Derivation(s, m.orgId, gap, m.orgPath, space, m.roles, m.rest)
  {
    HeadHereSound(s);
    var (id, gap, t) := HeadHere(s).value;
    var tail := PathHereSound(t);
    var m := MatchHere(s).value;
    assert Derivation(s, m.orgId, gap, m.orgPath, tail[..Span(IsSpace, tail)], m.roles, m.rest);
  }

  /**
   * If the pattern matches at all, the scanner reports a match, with the only possible id
   * and the shortest possible path: the match a backtracking engine prefers.
   */
  lemma MatchHerePreferred(s: string, id: string, gap: string, path: string, space: string, roles: string, rest: string)
    requires Derivation(s, id, gap, path, space, roles, rest)
    ensures MatchHere(s).Some?
    ensures MatchHere(s).value.orgId == id && |MatchHere(s).value.orgPath| <= |path|
    ensures |MatchHere(s).value.orgPath| == |path| ==> MatchHere(s).value == OrgMatch(id, path, roles, rest)
  {
    var tail := space + (ROLES + (roles + ([']'] + rest)));
    HeadHereComplete(id, gap, path + tail);
    PathHereShortest(path + tail, path, tail, space, roles, rest);
  }

  // ---- finditer, split and the best role ----------------------------------

  lemma {:induction false} MatchShrinks(s: string)
    requires MatchHere(s).Some?
    ensures |MatchHere(s).value.rest| < |s|
  {
    MatchHereSound(s);
  }

  /** Leftmost match. */
  function FindNext(s: string): (m: Option<OrgMatch>)
    ensures m.Some? ==> |m.value.rest| < |s|
  {
    match MatchHere(s)
    case Some(m) => MatchShrinks(s); Some(m)
    case None => if s == "" then None else FindNext(s[1..])
  }

  /** Some split of `s` follows the pattern from its first character on. */
  ghost predicate Matches(s: string) {
    exists id, gap, path, space, roles, rest :: Derivation(s, id, gap, path, space, roles, rest)
  }

  lemma MatchesIff(s: string)
    ensures MatchHere(s).Some? <==> Matches(s)
  {
    if MatchHere(s).Some? { MatchHereSound(s); }
    if Matches(s) {
      var id, gap, path, space, roles, rest :| Derivation(s, id, gap, path, space, roles, rest);
      MatchHerePreferred(s, id, gap, path, space, roles, rest);
    }
  }

  /** The least position from which the pattern matches, and the match the scanner takes there. */
  ghost predicate FirstMatchAt(s: string, i: nat, m: OrgMatch) {
    && i <= |s| && Matches(s[i..]) && MatchHere(s[i..]) == Some(m)
    && forall k: nat :: k < i ==> !Matches(s[k..])
  }

  lemma {:induction false} NothingFound(s: string, k: nat)
    requires FindNext(s).None? && k <= |s|
    ensures !Matches(s[k..])
  {
    MatchesIff(s);
    if k == 0 {
      assert s[0..] == s;
    } else {
      NothingFound(s[1..], k - 1);
      assert s[1..][k - 1..] == s[k..];
    }
  }

  lemma {:induction false} FoundFirst(s: string) returns (i: nat)
    requires FindNext(s).Some?
    ensures FirstMatchAt(s, i, FindNext(s).value)
  {
    MatchesIff(s);
    assert s[0..] == s;
    if MatchHere(s).Some? {
      i := 0;
    } else {
      var j := FoundFirst(s[1..]);
      i := j + 1;
      assert s[1..][j..] == s[i..];
      forall k: nat | k < i ensures !Matches(s[k..]) {
        if k > 0 { assert s[1..][k - 1..] == s[k..]; }
      }
    }
  }

  /** The search finds exactly the leftmost match, and finds nothing exactly when there is none. */
  lemma FindNextLeftmost(s: string, m: OrgMatch)
    ensures FindNext(s) == Some(m) <==> exists i: nat :: FirstMatchAt(s, i, m)
    ensures FindNext(s).None? <==> forall i: nat :: i <= |s| ==> !Matches(s[i..])
  {
    if FindNext(s).Some? {
      var first := FoundFirst(s);
      if i: nat :| FirstMatchAt(s, i, m) {
        assert !(first < i) && !(i < first);
      }
    } else {
      forall i: nat | i <= |s| ensures !Matches(s[i..]) {
        NothingFound(s, i);
      }
    }
  }

  /** `finditer`: each search resumes where the last match ended. */
  function FindAll(s: string): seq<OrgMatch>
    decreases |s|
  {
    match FindNext(s)
    case Some(m) => [m] + FindAll(m.rest)
    case None => []
  }

  /** The non-empty pieces between runs of commas and white space. */
  function RoleList(s: string): seq<string>
    decreases |s|
  {
    if s == "" then []
    else if IsSeparator(s[0]) then RoleList(s[1..])
    else var n := Span(NotSeparator, s); [s[..n]] + RoleList(s[n..])
  }

  function RoleOfName(name: string): Option<Role> {
    if name == "MEMBER" then Some(Member)
    else if name == "MANAGER" then Some(Manager)
    else if name == "ADMIN" then Some(Admin)
    else None
  }

  /** The most privileged role named in the list. */
  function HighestRole(names: seq<string>): Option<Role> {
    if "ADMIN" in names then Some(Admin)
    else if "MANAGER" in names then Some(Manager)
    else if "MEMBER" in names then Some(Member)
    else None
  }

  method ResolveHighestRole(names: seq<string>) returns (best: Option<Role>)
    ensures best == HighestRole(names)
    ensures best.None? <==> forall name :: name in names ==> RoleOfName(name).None?
    ensures best.Some? ==> exists name :: name in names && RoleOfName(name) == best
    ensures forall name :: name in names && RoleOfName(name).Some? ==>
              best.Some? && Rank(RoleOfName(name).value) <= Rank(best.value)
  {
    best := None;
    var bestRank := -1;
    for i := 0 to |names|
      invariant best == HighestRole(names[..i])
      invariant bestRank == if best.None? then -1 else Rank(best.value)
    {
      assert names[..i + 1] == names[..i] + [names[i]];
      var role := RoleOfName(names[i]);
      if role.Some? && Rank(role.value) > bestRank {
        best, bestRank := role, Rank(role.value);
      }
    }
    assert names[..|names|] == names;
    if best.Some? {
      var name := match best.value case Admin => "ADMIN" case Manager => "MANAGER" case Member => "MEMBER";
      assert name in names && RoleOfName(name) == best;
    }
  }

  function TokenOf(m: OrgMatch): seq<OrgToken> {
    match HighestRole(RoleList(m.roles))
    case Some(role) => [OrgToken(m.orgId, m.orgPath, role)]
    case None => []
  }

  function TokensOf(ms: seq<OrgMatch>): seq<OrgToken> {
    if ms == [] then [] else TokenOf(ms[0]) + TokensOf(ms[1..])
  }

  /** The tokens of a header text. */
  function ParsedOrgs(s: string): seq<OrgToken> { TokensOf(FindAll(s)) }

  /** The tokens still to come when the search has found `found`. */
  function Remaining(found: Option<OrgMatch>): seq<OrgToken> {
    match found
    case Some(m) => TokenOf(m) + ParsedOrgs(m.rest)
    case None => []
  }

  lemma ParsedStep(s: string)
    ensures ParsedOrgs(s) == Remaining(FindNext(s))
  {
    if FindNext(s).Some? {
      var m := FindNext(s).value;
      assert ([m] + FindAll(m.rest))[1..] == FindAll(m.rest);
    }
  }

  lemma Regroup<T>(a: seq<T>, b: seq<T>, c: seq<T>)
    ensures a + (b + c) == (a + b) + c
  {
  }

  method ParseUserOrgs(userOrgs: string) returns (tokens: seq<OrgToken>)
    ensures tokens == ParsedOrgs(userOrgs)
  {
    tokens := [];
    ParsedStep(userOrgs);
    var found := FindNext(userOrgs);
    while found.Some?
      invariant ParsedOrgs(userOrgs) == tokens + Remaining(found)
      decreases if found.Some? then |found.value.rest| + 1 else 0
    {
      var m := found.value;
      var highest := ResolveHighestRole(RoleList(m.roles));
      Regroup(tokens, TokenOf(m), ParsedOrgs(m.rest));
      if highest.Some? {
        tokens := tokens + [OrgToken(m.orgId, m.orgPath, highest.value)];
      } else {
        assert tokens + [] == tokens;
      }
      ParsedStep(m.rest);
      found := FindNext(m.rest);
    }
  }

  // ---- the middleware -----------------------------------------------------

  function RoleIn(tokens: seq<OrgToken>, communityId: string): Option<Role> {
    if tokens == [] then None
    else if tokens[0].orgId == communityId then Some(tokens[0].role)
    else RoleIn(tokens[1..], communityId)
  }

  method ActiveRole(communityId: Option<string>, userOrgs: Option<string>) returns (role: Option<Role>)
    ensures role == if communityId.Some? && communityId.value != "" && userOrgs.Some? && userOrgs.value != ""
                    then RoleIn(ParsedOrgs(userOrgs.value), communityId.value) else None
  {
    role := None;
    if communityId.Some? && communityId.value != "" && userOrgs.Some? && userOrgs.value != "" {
      var tokens := ParseUserOrgs(userOrgs.value);
      var i := 0;
      while i < |tokens|
        invariant 0 <= i <= |tokens|
        invariant role == None
        invariant RoleIn(tokens, communityId.value) == RoleIn(tokens[i..], communityId.value)
      {
        if tokens[i].orgId == communityId.value {
          role := Some(tokens[i].role);
          break;
        }
        assert tokens[i..][1..] == tokens[i + 1..];
        i := i + 1;
      }
    }
  }

  // ---- printing, and the round trip ---------------------------------------

  /** One org as the gateway serialises it; `commas` tells the two role separators apart. */
  datatype Org = Org(id: string, path: string, roles: seq<string>, commas: bool)

  function JoinRoles(roles: seq<string>, separator: char): string {
    if roles == [] then ""
    else if |roles| == 1 then roles[0]
    else roles[0] + ([separator] + JoinRoles(roles[1..], separator))
  }

  function RolesText(o: Org): string { JoinRoles(o.roles, if o.commas then ',' else ' ') }

  /** `orgId:… orgPath:… roles:[…]` and what follows it. */
  function OrgBody(o: Org, rest: string): string {
    ORG_ID + (o.id + (" " + (ORG_PATH + (o.path + (" " + (ROLES + (RolesText(o) + ([']'] + rest))))))))
  }

  function PrintOrgs(orgs: seq<Org>): string {
    if orgs == [] then ""
    else ['['] + OrgBody(orgs[0], [']'] + (if |orgs| == 1 then "" else ",map" + PrintOrgs(orgs[1..])))
  }

  /** The printed form, letter for letter. */
  lemma PrintExact(orgs: seq<Org>)
    requires orgs != []
    ensures var o, more := orgs[0], if |orgs| == 1 then "" else ",map" + PrintOrgs(orgs[1..]);
            PrintOrgs(orgs)
            == "[" + ("orgId:" + (o.id + (" " + ("orgPath:" + (o.path + (" " + ("roles:[" + (RolesText(o) + ("]" + ("]" + more))))))))))
  {
  }

  /** Which role a list of names gives: the highest that is named, and none for unknown names. */
  lemma HighestRoleExact(names: seq<string>)
    ensures HighestRole(names) == Some(Admin) <==> "ADMIN" in names
    ensures HighestRole(names) == Some(Manager) <==> "MANAGER" in names && "ADMIN" !in names
    ensures HighestRole(names) == Some(Member) <==> "MEMBER" in names && "MANAGER" !in names && "ADMIN" !in names
    ensures HighestRole(names) == None <==> "MEMBER" !in names && "MANAGER" !in names && "ADMIN" !in names
  {
  }

  /** Role names with any run of commas and white space before each and at the end. */
  datatype Piece = Piece(gap: string, name: string)

  function Spaced(pieces: seq<Piece>, end: string): string {
    if pieces == [] then end else pieces[0].gap + (pieces[0].name + Spaced(pieces[1..], end))
  }

  /** Commas and white space, then a name with neither. */
  ghost predicate PieceOk(p: Piece) {
    && (forall i :: 0 <= i < |p.gap| ==> p.gap[i] == ',' || IsSpace(p.gap[i]))
    && p.name != "" && (forall i :: 0 <= i < |p.name| ==> p.name[i] != ',' && !IsSpace(p.name[i]))
  }

  function Names(pieces: seq<Piece>): seq<string> {
    if pieces == [] then [] else [pieces[0].name] + Names(pieces[1..])
  }

  lemma {:induction false} SeparatorsSkipped(gap: string, s: string)
    requires All(IsSeparator, gap)
    ensures RoleList(gap + s) == RoleList(s)
  {
    if gap == "" {
      assert gap + s == s;
    } else {
      assert (gap + s)[1..] == gap[1..] + s;
      SeparatorsSkipped(gap[1..], s);
    }
  }

  /** Splitting gives the names back whatever runs of commas and white space stand between and around them. */
  lemma {:induction false} RoleListOfSpaced(pieces: seq<Piece>, end: string)
    requires forall i :: 0 <= i < |end| ==> end[i] == ',' || IsSpace(end[i])
    requires forall i :: 0 <= i < |pieces| ==> PieceOk(pieces[i]) && (i > 0 ==> pieces[i].gap != "")
    ensures RoleList(Spaced(pieces, end)) == Names(pieces)
  {
    if pieces == [] {
      SeparatorsSkipped(end, "");
      assert end + "" == end;
    } else {
      var p, rest := pieces[0], Spaced(pieces[1..], end);
      assert forall i :: 0 <= i < |pieces[1..]| ==> pieces[1..][i] == pieces[i + 1];
      RoleListOfSpaced(pieces[1..], end);
      SeparatorsSkipped(p.gap, p.name + rest);
      SpacedStart(pieces[1..], end);
      SpanOf(NotSeparator, p.name, rest);
      assert (p.name + rest)[0] == p.name[0];
    }
  }

  lemma SpacedStart(pieces: seq<Piece>, end: string)
    requires All(IsSeparator, end)
    requires pieces != [] ==> pieces[0].gap != "" && All(IsSeparator, pieces[0].gap)
    ensures Spaced(pieces, end) == "" || IsSeparator(Spaced(pieces, end)[0])
  {
  }

  ghost predicate PathOk(path: string) {
    && '\n' !in path
    && (path != "" ==> !IsSpace(path[|path| - 1]))
    && forall i :: 0 <= i < |path| && IsSpace(path[i]) ==> !(ROLES <= path[i + 1..])
  }

  ghost predicate RoleNameOk(name: string) {
    name != "" && All(NotSeparator, name) && All(NotClose, name)
  }

  ghost predicate OrgOk(o: Org) {
    && o.id != "" && All(NotSpace, o.id)
    && PathOk(o.path)
    && forall i :: 0 <= i < |o.roles| ==> RoleNameOk(o.roles[i])
  }

  lemma {:induction false} JoinedRolesClosed(roles: seq<string>, separator: char)
    requires separator in {',', ' '}
    requires forall i :: 0 <= i < |roles| ==> RoleNameOk(roles[i])
    ensures All(NotClose, JoinRoles(roles, separator))
  {
    if |roles| > 1 {
      JoinedRolesClosed(roles[1..], separator);
    }
  }

  lemma {:induction false} RoleListOfJoin(roles: seq<string>, separator: char)
    requires separator in {',', ' '}
    requires forall i :: 0 <= i < |roles| ==> RoleNameOk(roles[i])
    ensures RoleList(JoinRoles(roles, separator)) == roles
  {
    if roles != [] {
      var s := JoinRoles(roles, separator);
      var tail := if |roles| == 1 then "" else [separator] + JoinRoles(roles[1..], separator);
      assert s == roles[0] + tail;
      assert s[0] == roles[0][0];
      SpanOf(NotSeparator, roles[0], tail);
      RoleListOfJoin(roles[1..], separator);
      assert tail != "" ==> tail[1..] == JoinRoles(roles[1..], separator);
      assert RoleList(tail) == roles[1..];
      assert roles == [roles[0]] + roles[1..];
    }
  }

  lemma SpaceRunInside(path: string, t: string)
    requires path != "" && !IsSpace(path[|path| - 1])
    ensures Span(IsSpace, path + t) < |path|
  {
    var s := path + t;
    var n := Span(IsSpace, s);
    assert s[|path| - 1] == path[|path| - 1];
    assert forall i :: 0 <= i < n ==> s[i] == s[..n][i];
  }

  lemma RolesNotPrefix(p: string, t: string)
    requires !(ROLES <= p)
    ensures !(ROLES <= p + (" " + t))
  {
    var s := p + (" " + t);
    assert forall i :: 0 <= i < |ROLES| ==> ROLES[i] != ' ';
    assert s[|p|] == ' ';
    assert |p| >= |ROLES| ==> s[..|ROLES|] == p[..|ROLES|];
  }

  /** No earlier split of a well-behaved path can see the roles. */
  lemma RolesNotInside(path: string, t: string)
    requires PathOk(path) && path != ""
    ensures RolesHere(path + (" " + t)).None?
  {
    var s := path + (" " + t);
    var n := Span(IsSpace, s);
    SpaceRunInside(path, " " + t);
    if n > 0 {
      assert s[..n][n - 1] == path[n - 1];
      assert path[n..] == path[(n - 1) + 1..];
      RolesNotPrefix(path[n..], t);
      assert s[n..] == path[n..] + (" " + t);
    }
  }

  lemma {:induction false} PathHereExact(path: string, t: string, roles: string, rest: string)
    requires PathOk(path) && RolesHere(" " + t) == Some((roles, rest))
    ensures PathHere(path + (" " + t)) == Some((path, roles, rest))
  {
    if path == "" {
      assert path + (" " + t) == " " + t;
    } else {
      PathOkTail(path);
      PathHereExact(path[1..], t, roles, rest);
      RolesNotInside(path, t);
      assert [path[0]] + path[1..] == path;
      PathHereStep(path[0], path[1..], " " + t);
    }
  }

  lemma PathHereStep(c: char, path: string, tail: string)
    requires c != '\n' && RolesHere(([c] + path) + tail).None? && PathHere(path + tail).Some?
    ensures var (found, roles, rest) := PathHere(path + tail).value;
            PathHere(([c] + path) + tail) == Some(([c] + found, roles, rest))
  {
    var s := ([c] + path) + tail;
    assert s[0] == c && s[1..] == path + tail;
  }

  lemma PathOkTail(path: string)
    requires PathOk(path) && path != ""
    ensures PathOk(path[1..]) && path[0] != '\n'
  {
    assert path[0] in path;
    forall i | 0 <= i < |path[1..]| && IsSpace(path[1..][i]) ensures !(ROLES <= path[1..][i + 1..]) {
      assert path[1..][i + 1..] == path[(i + 1) + 1..];
    }
  }

  lemma OrgBodyMatches(o: Org, rest: string)
    requires OrgOk(o)
    ensures MatchHere(OrgBody(o, rest)) == Some(OrgMatch(o.id, o.path, RolesText(o), rest))
  {
    var roles := RolesText(o);
    JoinedRolesClosed(o.roles, if o.commas then ',' else ' ');
    var t := ROLES + (roles + ([']'] + rest));
    RolesHereComplete(" " + t, " ", roles, rest);
    PathHereExact(o.path, t, roles, rest);
    HeadHereComplete(o.id, " ", o.path + (" " + t));
  }

  lemma FindNextHere(s: string)
    ensures MatchHere(s).Some? ==> FindNext(s) == MatchHere(s)
  {
  }

  lemma SkipOther(c: char, s: string)
    requires c != 'o'
    ensures ParsedOrgs([c] + s) == ParsedOrgs(s)
  {
    assert ORG_ID[0] == 'o';
    assert ([c] + s)[0] == c && ([c] + s)[1..] == s;
    assert FindNext([c] + s) == FindNext(s);
    ParsedStep([c] + s);
    ParsedStep(s);
  }

  lemma SkipMap(s: string)
    ensures ParsedOrgs(",map" + s) == ParsedOrgs(s)
  {
    assert ",map" + s == [','] + (['m'] + (['a'] + (['p'] + s)));
    SkipOther(',', ['m'] + (['a'] + (['p'] + s)));
    SkipOther('m', ['a'] + (['p'] + s));
    SkipOther('a', ['p'] + s);
    SkipOther('p', s);
  }

  /** The token of one org: none when no listed role is known. */
  function ExpectedToken(o: Org): seq<OrgToken> {
    match HighestRole(o.roles)
    case Some(role) => [OrgToken(o.id, o.path, role)]
    case None => []
  }

  /** What parsing must give back: every org with a known role, in order, at its highest. */
  function Expected(orgs: seq<Org>): seq<OrgToken> {
    if orgs == [] then [] else ExpectedToken(orgs[0]) + Expected(orgs[1..])
  }

  lemma ParseOneOrg(o: Org, more: string)
    requires OrgOk(o)
    ensures ParsedOrgs(['['] + OrgBody(o, [']'] + more)) == ExpectedToken(o) + ParsedOrgs(more)
  {
    var body := OrgBody(o, [']'] + more);
    SkipOther('[', body);
    OrgBodyMatches(o, [']'] + more);
    FindNextHere(body);
    ParsedStep(body);
    SkipOther(']', more);
    RoleListOfJoin(o.roles, if o.commas then ',' else ' ');
  }

  /** Parsing the printed form of any list of orgs gives back those orgs. */
  lemma {:induction false} ParseOfPrint(orgs: seq<Org>)
    requires forall i :: 0 <= i < |orgs| ==> OrgOk(orgs[i])
    ensures ParsedOrgs(PrintOrgs(orgs)) == Expected(orgs)
  {
    if orgs == [] {
      ParsedStep("");
    } else {
      ParseOfPrint(orgs[1..]);
      SkipMap(PrintOrgs(orgs[1..]));
      ParseOneOrg(orgs[0], if |orgs| == 1 then "" else ",map" + PrintOrgs(orgs[1..]));
    }
  }

  lemma {:induction false} RoleInExpected(orgs: seq<Org>, communityId: string, k: nat)
    requires k <= |orgs|
    requires forall i :: 0 <= i < k ==> orgs[i].id != communityId || HighestRole(orgs[i].roles).None?
    ensures k == |orgs| ==> RoleIn(Expected(orgs), communityId) == None
    ensures k < |orgs| && orgs[k].id == communityId && HighestRole(orgs[k].roles).Some? ==>
              RoleIn(Expected(orgs), communityId) == HighestRole(orgs[k].roles)
  {
    if orgs != [] {
      if k > 0 { RoleInExpected(orgs[1..], communityId, k - 1); }
      var head := ExpectedToken(orgs[0]);
      assert head != [] ==> (head + Expected(orgs[1..]))[1..] == Expected(orgs[1..]);
      assert head == [] ==> head + Expected(orgs[1..]) == Expected(orgs[1..]);
    }
  }

  /**
   * The request role is that of the first listed org with the active id and a known role;
   * no such org, no role.
   */
  lemma ActiveRoleOfPrint(orgs: seq<Org>, communityId: string, k: nat)
    requires forall i :: 0 <= i < |orgs| ==> OrgOk(orgs[i])
    requires k <= |orgs|
    requires k < |orgs| ==> orgs[k].id == communityId && HighestRole(orgs[k].roles).Some?
    requires forall i :: 0 <= i < k ==> orgs[i].id != communityId || HighestRole(orgs[i].roles).None?
    ensures RoleIn(ParsedOrgs(PrintOrgs(orgs)), communityId)
         == if k < |orgs| then HighestRole(orgs[k].roles) else None
  {
    ParseOfPrint(orgs);
    RoleInExpected(orgs, communityId, k);
  }
}
