/** The payload text that feeds the idempotency key. */
module CanonicalJson {
  import opened Decimal

  /** A JSON-primitive value as Python holds it: a dict keeps its insertion order. */
  datatype Json =
    | Null
    | Bool(b: bool)
    | Num(n: int)
    | Str(s: string)
    | Arr(items: seq<Json>)
    | Obj(members: seq<Member>)

  datatype Member = Member(key: string, value: Json)

  /** What a value means, with the order of object members forgotten. */
  datatype Value =
    | VNull
    | VBool(b: bool)
    | VNum(n: int)
    | VStr(s: string)
    | VArr(items: seq<Value>)
    | VObj(members: map<string, Value>)

  // ---- meaning ------------------------------------------------------------

  function Meaning(j: Json): Value
    decreases j, 1
  {
    match j
    case Null => VNull
    case Bool(b) => VBool(b)
    case Num(n) => VNum(n)
    case Str(s) => VStr(s)
    case Arr(items) => VArr(ItemsMeaning(items))
    case Obj(members) => VObj(MembersMeaning(members))
  }

  function ItemsMeaning(items: seq<Json>): (vs: seq<Value>)
    ensures |vs| == |items|
    decreases items, 0
  {
    if items == [] then [] else [Meaning(items[0])] + ItemsMeaning(items[1..])
  }

  function MembersMeaning(members: seq<Member>): (m: map<string, Value>)
    ensures m.Keys == Keys(members)
    decreases members, 0
  {
    if members == [] then map[]
    else MembersMeaning(members[1..])[members[0].key := Meaning(members[0].value)]
  }

  function Keys(members: seq<Member>): set<string> {
    if members == [] then {} else {members[0].key} + Keys(members[1..])
  }

  /** A Python dict never holds a key twice. */
  ghost predicate WellFormed(j: Json)
    decreases j, 1
  {
    match j
    case Arr(items) => ItemsWellFormed(items)
    case Obj(members) => MembersWellFormed(members)
    case _ => true
  }

  ghost predicate ItemsWellFormed(items: seq<Json>)
    decreases items, 0
  {
    items == [] || (WellFormed(items[0]) && ItemsWellFormed(items[1..]))
  }

  ghost predicate MembersWellFormed(members: seq<Member>)
    decreases members, 0
  {
    members == [] ||
    (&& WellFormed(members[0].value)
     && members[0].key !in Keys(members[1..])
     && MembersWellFormed(members[1..]))
  }

  // ---- sort_keys=True -----------------------------------------------------

  /** Python compares strings by code point, first difference first. */
  predicate Less(a: string, b: string) {
    if b == "" then false
    else if a == "" then true
    else if a[0] != b[0] then a[0] < b[0]
    else Less(a[1..], b[1..])
  }

  lemma LessTransitive(a: string, b: string, c: string)
    requires Less(a, b) && Less(b, c)
    ensures Less(a, c)
  {
  }

  lemma {:induction false} LessTotal(a: string, b: string)
    ensures Less(a, b) || a == b || Less(b, a)
    ensures !(Less(a, b) && Less(b, a))
    ensures !Less(a, a)
  {
    if a != "" && b != "" && a[0] == b[0] {
      LessTotal(a[1..], b[1..]);
      assert a == [a[0]] + a[1..] && b == [b[0]] + b[1..];
    }
    if a != "" { LessTotal(a[1..], a[1..]); }
  }

  function Insert(m: Member, members: seq<Member>): (r: seq<Member>)
    ensures Keys(r) == {m.key} + Keys(members)
  {
    if members == [] || Less(m.key, members[0].key) then
      assert ([m] + members)[1..] == members;
      [m] + members
    else
      var tail := Insert(m, members[1..]);
      assert ([members[0]] + tail)[1..] == tail;
      [members[0]] + tail
  }

  function Normalise(j: Json): Json
    decreases j, 1
  {
    match j
    case Arr(items) => Arr(NormaliseItems(items))
    case Obj(members) => Obj(NormaliseMembers(members))
    case _ => j
  }

  function NormaliseItems(items: seq<Json>): seq<Json>
    decreases items, 0
  {
    if items == [] then [] else [Normalise(items[0])] + NormaliseItems(items[1..])
  }

  function NormaliseMembers(members: seq<Member>): (r: seq<Member>)
    ensures Keys(r) == Keys(members)
    decreases members, 0
  {
    if members == [] then []
    else
      Insert(Member(members[0].key, Normalise(members[0].value)), NormaliseMembers(members[1..]))
  }

  // ---- text ---------------------------------------------------------------

  function HexDigit(d: int): char
    requires 0 <= d < 16
  {
    ['0', '1', '2', '3', '4', '5', '6', '7', '8', '9', 'a', 'b', 'c', 'd', 'e', 'f'][d]
  }

  /** One character of a string literal under ensure_ascii=False. */
  function EscapeChar(c: char): (s: string)
    ensures |s| > 0
  {
    if c == '"' then "\\\""
    else if c == '\\' then "\\\\"
    else if c == '\n' then "\\n"
    else if c == '\r' then "\\r"
    else if c == '\t' then "\\t"
    else if c as int == 8 then "\\b"
    else if c as int == 12 then "\\f"
    else if (c as int) < 32 then "\\u00" + [HexDigit(c as int / 16), HexDigit(c as int % 16)]
    else [c]
  }

  /** The characters of a string literal, its closing quote, then `rest`. */
  function Escape(s: string, rest: string): string {
    if s == "" then ['"'] + rest else EscapeChar(s[0]) + Escape(s[1..], rest)
  }

  function Quote(s: string, rest: string): string { ['"'] + Escape(s, rest) }

  /** The text of `j`, followed by `rest`. */
  function Render(j: Json, rest: string): string
    decreases j, 2
  {
    match j
    case Null => "null" + rest
    case Bool(b) => (if b then "true" else "false") + rest
    case Num(n) => IntText(n) + rest
    case Str(s) => Quote(s, rest)
    case Arr(items) =>
      ['['] + (if items == [] then [']'] + rest
               else Render(items[0], RenderItems(items[1..], rest)))
    case Obj(members) =>
      ['{'] + (if members == [] then ['}'] + rest
               else RenderMember(members[0], RenderMembers(members[1..], rest)))
  }

  /** The rest of an array after its first item. */
  function RenderItems(items: seq<Json>, rest: string): string
    decreases items, 0
  {
    if items == [] then [']'] + rest
    else [','] + Render(items[0], RenderItems(items[1..], rest))
  }

  function RenderMember(m: Member, rest: string): string
    decreases m, 1
  {
    Quote(m.key, [':'] + Render(m.value, rest))
  }

  function RenderMembers(members: seq<Member>, rest: string): string
    decreases members, 0
  {
    if members == [] then ['}'] + rest
    else [','] + RenderMember(members[0], RenderMembers(members[1..], rest))
  }

  function Canonical(j: Json): string { Render(Normalise(j), "") }

  // ---- the text determines the value --------------------------------------

  /** What may follow a value inside a larger text. */
  predicate Ends(r: string) { r == "" || r[0] in {',', ']', '}'} }

  lemma SameTail(p: string, u: string, q: string, v: string)
    requires |p| == |q| && p + u == q + v
    ensures p == q && u == v
  {
    assert (p + u)[..|p|] == p && (q + v)[..|q|] == q;
    assert (p + u)[|p|..] == u && (q + v)[|q|..] == v;
  }

  lemma EscapeCharPrefix(c: char, d: char, rc: string, rd: string)
    requires EscapeChar(c) + rc == EscapeChar(d) + rd
    ensures c == d && rc == rd
  {
    var p, q := EscapeChar(c), EscapeChar(d);
    assert (p + rc)[0] == p[0] && (q + rd)[0] == q[0];
    assert |p| > 1 ==> (p + rc)[1] == p[1];
    assert |q| > 1 ==> (q + rd)[1] == q[1];
    assert |p| == |q|;
    SameTail(p, rc, q, rd);
    EscapeCharInjective(c, d);
  }

  lemma EscapeCharInjective(c: char, d: char)
    requires EscapeChar(c) == EscapeChar(d)
    ensures c == d
  {
    var p, q := EscapeChar(c), EscapeChar(d);
    assert p[0] == q[0] && |p| == |q|;
    if |p| == 6 {
      assert p[4] == q[4] && p[5] == q[5];
      assert HexDigit(c as int / 16) == HexDigit(d as int / 16);
      assert HexDigit(c as int % 16) == HexDigit(d as int % 16);
    } else if |p| == 2 {
      assert p[1] == q[1];
    }
  }

  lemma {:induction false} EscapePrefix(s: string, t: string, rs: string, rt: string)
    requires Escape(s, rs) == Escape(t, rt)
    ensures s == t && rs == rt
  {
    assert Escape(s, rs)[0] == (if s == "" then '"' else EscapeChar(s[0])[0]);
    assert Escape(t, rt)[0] == (if t == "" then '"' else EscapeChar(t[0])[0]);
    if s == "" {
      SameTail(['"'], rs, ['"'], rt);
    } else {
      EscapeCharPrefix(s[0], t[0], Escape(s[1..], rs), Escape(t[1..], rt));
      EscapePrefix(s[1..], t[1..], rs, rt);
      assert s == [s[0]] + s[1..] && t == [t[0]] + t[1..];
    }
  }

  lemma QuotePrefix(s: string, t: string, rs: string, rt: string)
    requires Quote(s, rs) == Quote(t, rt)
    ensures s == t && rs == rt
  {
    SameTail(['"'], Escape(s, rs), ['"'], Escape(t, rt));
    EscapePrefix(s, t, rs, rt);
  }

  lemma NumberLength(a: string, b: string, ra: string, rb: string)
    requires forall i :: 0 <= i < |b| ==> IsNumberChar(b[i])
    requires Ends(ra) && a + ra == b + rb
    ensures |b| <= |a|
  {
    assert ra != "" ==> (a + ra)[|a|] == ra[0];
    assert forall i :: 0 <= i < |b| ==> (b + rb)[i] == b[i];
  }

  lemma NumberPrefix(a: int, b: int, ra: string, rb: string)
    requires Ends(ra) && Ends(rb) && IntText(a) + ra == IntText(b) + rb
    ensures a == b && ra == rb
  {
    NumberLength(IntText(a), IntText(b), ra, rb);
    NumberLength(IntText(b), IntText(a), rb, ra);
    SameTail(IntText(a), ra, IntText(b), rb);
    IntTextInjective(a, b);
  }

  /** The first character of a text tells which kind of value it is. */
  lemma RenderLead(j: Json, rest: string)
    ensures Render(j, rest) != ""
    ensures match j
            case Null => Render(j, rest)[0] == 'n'
            case Bool(b) => Render(j, rest)[0] == (if b then 't' else 'f')
            case Num(_) => IsNumberChar(Render(j, rest)[0])
            case Str(_) => Render(j, rest)[0] == '"'
            case Arr(_) => Render(j, rest)[0] == '['
            case Obj(_) => Render(j, rest)[0] == '{'
  {
  }

  lemma {:induction false} RenderPrefix(a: Json, b: Json, ra: string, rb: string)
    requires Ends(ra) && Ends(rb)
    requires Render(a, ra) == Render(b, rb)
    ensures a == b && ra == rb
    decreases a, 2
  {
    RenderLead(a, ra);
    RenderLead(b, rb);
    match a {
      case Null => SameTail("null", ra, "null", rb);
      case Bool(v) => SameTail(if v then "true" else "false", ra, if v then "true" else "false", rb);
      case Num(n) => NumberPrefix(n, b.n, ra, rb);
      case Str(s) => QuotePrefix(s, b.s, ra, rb);
      case Arr(items) => ArrayPrefix(items, b.items, ra, rb);
      case Obj(members) => ObjectPrefix(members, b.members, ra, rb);
    }
  }

  lemma {:induction false} ArrayPrefix(xs: seq<Json>, ys: seq<Json>, rx: string, ry: string)
    requires Ends(rx) && Ends(ry)
    requires Render(Arr(xs), rx) == Render(Arr(ys), ry)
    ensures xs == ys && rx == ry
    decreases xs, 1
  {
    var x := if xs == [] then [']'] + rx else Render(xs[0], RenderItems(xs[1..], rx));
    var y := if ys == [] then [']'] + ry else Render(ys[0], RenderItems(ys[1..], ry));
    SameTail(['['], x, ['['], y);
    if xs != [] { RenderLead(xs[0], RenderItems(xs[1..], rx)); }
    if ys != [] { RenderLead(ys[0], RenderItems(ys[1..], ry)); }
    if xs == [] {
      SameTail([']'], rx, [']'], ry);
    } else {
      RenderPrefix(xs[0], ys[0], RenderItems(xs[1..], rx), RenderItems(ys[1..], ry));
      ItemsPrefix(xs[1..], ys[1..], rx, ry);
      assert xs == [xs[0]] + xs[1..] && ys == [ys[0]] + ys[1..];
    }
  }

  lemma {:induction false} ItemsPrefix(xs: seq<Json>, ys: seq<Json>, rx: string, ry: string)
    requires Ends(rx) && Ends(ry)
    requires RenderItems(xs, rx) == RenderItems(ys, ry)
    ensures xs == ys && rx == ry
    decreases xs, 0
  {
    assert RenderItems(xs, rx)[0] == (if xs == [] then ']' else ',');
    assert RenderItems(ys, ry)[0] == (if ys == [] then ']' else ',');
    if xs == [] {
      SameTail([']'], rx, [']'], ry);
    } else {
      var u, v := RenderItems(xs[1..], rx), RenderItems(ys[1..], ry);
      SameTail([','], Render(xs[0], u), [','], Render(ys[0], v));
      RenderPrefix(xs[0], ys[0], u, v);
      ItemsPrefix(xs[1..], ys[1..], rx, ry);
      assert xs == [xs[0]] + xs[1..] && ys == [ys[0]] + ys[1..];
    }
  }

  lemma {:induction false} MemberPrefix(m: Member, n: Member, rm: string, rn: string)
    requires Ends(rm) && Ends(rn)
    requires RenderMember(m, rm) == RenderMember(n, rn)
    ensures m == n && rm == rn
    decreases m, 1
  {
    QuotePrefix(m.key, n.key, [':'] + Render(m.value, rm), [':'] + Render(n.value, rn));
    SameTail([':'], Render(m.value, rm), [':'], Render(n.value, rn));
    RenderPrefix(m.value, n.value, rm, rn);
  }

  lemma {:induction false} ObjectPrefix(xs: seq<Member>, ys: seq<Member>, rx: string, ry: string)
    requires Ends(rx) && Ends(ry)
    requires Render(Obj(xs), rx) == Render(Obj(ys), ry)
    ensures xs == ys && rx == ry
    decreases xs, 1
  {
    var x := if xs == [] then ['}'] + rx else RenderMember(xs[0], RenderMembers(xs[1..], rx));
    var y := if ys == [] then ['}'] + ry else RenderMember(ys[0], RenderMembers(ys[1..], ry));
    SameTail(['{'], x, ['{'], y);
    assert x[0] == (if xs == [] then '}' else '"');
    assert y[0] == (if ys == [] then '}' else '"');
    if xs == [] {
      SameTail(['}'], rx, ['}'], ry);
    } else {
      MemberPrefix(xs[0], ys[0], RenderMembers(xs[1..], rx), RenderMembers(ys[1..], ry));
      MembersPrefix(xs[1..], ys[1..], rx, ry);
      assert xs == [xs[0]] + xs[1..] && ys == [ys[0]] + ys[1..];
    }
  }

  lemma {:induction false} MembersPrefix(xs: seq<Member>, ys: seq<Member>, rx: string, ry: string)
    requires Ends(rx) && Ends(ry)
    requires RenderMembers(xs, rx) == RenderMembers(ys, ry)
    ensures xs == ys && rx == ry
    decreases xs, 0
  {
    assert RenderMembers(xs, rx)[0] == (if xs == [] then '}' else ',');
    assert RenderMembers(ys, ry)[0] == (if ys == [] then '}' else ',');
    if xs == [] {
      SameTail(['}'], rx, ['}'], ry);
    } else {
      var u, v := RenderMembers(xs[1..], rx), RenderMembers(ys[1..], ry);
      SameTail([','], RenderMember(xs[0], u), [','], RenderMember(ys[0], v));
      MemberPrefix(xs[0], ys[0], u, v);
      MembersPrefix(xs[1..], ys[1..], rx, ry);
      assert xs == [xs[0]] + xs[1..] && ys == [ys[0]] + ys[1..];
    }
  }

  // ---- sorting forgets member order and nothing else ----------------------

  /** Every object, at every depth, lists its keys in strictly increasing order. */
  ghost predicate Ordered(j: Json)
    decreases j, 1
  {
    match j
    case Arr(items) => ItemsOrdered(items)
    case Obj(members) => MembersOrdered(members)
    case _ => true
  }

  ghost predicate ItemsOrdered(items: seq<Json>)
    decreases items, 0
  {
    items == [] || (Ordered(items[0]) && ItemsOrdered(items[1..]))
  }

  ghost predicate MembersOrdered(members: seq<Member>)
    decreases members, 0
  {
    members == [] ||
    (&& Ordered(members[0].value)
     && (forall k :: k in Keys(members[1..]) ==> Less(members[0].key, k))
     && MembersOrdered(members[1..]))
  }

  lemma {:induction false} InsertOrdered(m: Member, members: seq<Member>)
    requires Ordered(m.value) && MembersOrdered(members) && m.key !in Keys(members)
    ensures MembersOrdered(Insert(m, members))
  {
    if members == [] || Less(m.key, members[0].key) {
      assert ([m] + members)[1..] == members;
      forall k | k in Keys(members) ensures Less(m.key, k) {
        if k != members[0].key { LessTransitive(m.key, members[0].key, k); }
      }
    } else {
      LessTotal(m.key, members[0].key);
      InsertOrdered(m, members[1..]);
      var tail := Insert(m, members[1..]);
      assert ([members[0]] + tail)[1..] == tail;
    }
  }

  lemma {:induction false} InsertMeaning(m: Member, members: seq<Member>)
    requires m.key !in Keys(members)
    ensures MembersMeaning(Insert(m, members)) == MembersMeaning(members)[m.key := Meaning(m.value)]
  {
    if members == [] || Less(m.key, members[0].key) {
      assert ([m] + members)[1..] == members;
    } else {
      var tail := Insert(m, members[1..]);
      InsertMeaning(m, members[1..]);
      assert ([members[0]] + tail)[1..] == tail;
      var rest := MembersMeaning(members[1..]);
      assert rest[m.key := Meaning(m.value)][members[0].key := Meaning(members[0].value)]
          == rest[members[0].key := Meaning(members[0].value)][m.key := Meaning(m.value)];
    }
  }

  lemma {:induction false} NormaliseKeeps(j: Json)
    requires WellFormed(j)
    ensures Ordered(Normalise(j)) && Meaning(Normalise(j)) == Meaning(j)
    decreases j, 1
  {
    match j
    case Arr(items) => NormaliseItemsKeeps(items);
    case Obj(members) => NormaliseMembersKeeps(members);
    case _ =>
  }

  lemma {:induction false} NormaliseItemsKeeps(items: seq<Json>)
    requires ItemsWellFormed(items)
    ensures ItemsOrdered(NormaliseItems(items))
    ensures ItemsMeaning(NormaliseItems(items)) == ItemsMeaning(items)
    decreases items, 0
  {
    if items != [] {
      NormaliseKeeps(items[0]);
      NormaliseItemsKeeps(items[1..]);
      assert NormaliseItems(items)[1..] == NormaliseItems(items[1..]);
    }
  }

  lemma {:induction false} NormaliseMembersKeeps(members: seq<Member>)
    requires MembersWellFormed(members)
    ensures MembersOrdered(NormaliseMembers(members))
    ensures MembersMeaning(NormaliseMembers(members)) == MembersMeaning(members)
    decreases members, 0
  {
    if members != [] {
      NormaliseKeeps(members[0].value);
      NormaliseMembersKeeps(members[1..]);
      var m := Member(members[0].key, Normalise(members[0].value));
      InsertOrdered(m, NormaliseMembers(members[1..]));
      InsertMeaning(m, NormaliseMembers(members[1..]));
    }
  }

  lemma {:induction false} OrderedMeaning(a: Json, b: Json)
    requires Ordered(a) && Ordered(b) && Meaning(a) == Meaning(b)
    ensures a == b
    decreases a, 1
  {
    match a
    case Arr(items) => OrderedItemsMeaning(items, b.items);
    case Obj(members) => OrderedMembersMeaning(members, b.members);
    case _ =>
  }

  lemma {:induction false} OrderedItemsMeaning(xs: seq<Json>, ys: seq<Json>)
    requires ItemsOrdered(xs) && ItemsOrdered(ys) && ItemsMeaning(xs) == ItemsMeaning(ys)
    ensures xs == ys
    decreases xs, 0
  {
    assert |xs| == |ItemsMeaning(xs)| == |ItemsMeaning(ys)| == |ys|;
    if xs != [] {
      assert ItemsMeaning(xs)[0] == Meaning(xs[0]) && ItemsMeaning(ys)[0] == Meaning(ys[0]);
      assert ItemsMeaning(xs)[1..] == ItemsMeaning(xs[1..]) && ItemsMeaning(ys)[1..] == ItemsMeaning(ys[1..]);
      OrderedMeaning(xs[0], ys[0]);
      OrderedItemsMeaning(xs[1..], ys[1..]);
      assert xs == [xs[0]] + xs[1..] && ys == [ys[0]] + ys[1..];
    }
  }

  lemma {:induction false} OrderedMembersMeaning(xs: seq<Member>, ys: seq<Member>)
    requires MembersOrdered(xs) && MembersOrdered(ys) && MembersMeaning(xs) == MembersMeaning(ys)
    ensures xs == ys
    decreases xs, 0
  {
    assert Keys(xs) == MembersMeaning(xs).Keys == Keys(ys);
    if xs != [] {
      var k, l := xs[0].key, ys[0].key;
      assert k in Keys(xs) && l in Keys(ys);
      LessTotal(k, l);
      OrderedMeaning(xs[0].value, ys[0].value);
      TailMeaning(xs);
      TailMeaning(ys);
      OrderedMembersMeaning(xs[1..], ys[1..]);
      assert xs == [xs[0]] + xs[1..] && ys == [ys[0]] + ys[1..];
    }
  }

  lemma TailMeaning(members: seq<Member>)
    requires members != [] && MembersOrdered(members)
    ensures MembersMeaning(members[1..]) == MembersMeaning(members) - {members[0].key}
  {
    LessTotal(members[0].key, members[0].key);
  }

  /**
   * The canonical text forgets the order of object members, at every depth, and nothing else:
   * two payloads have the same text exactly when they mean the same.
   */
  lemma CanonicalIffSameMeaning(a: Json, b: Json)
    requires WellFormed(a) && WellFormed(b)
    ensures Canonical(a) == Canonical(b) <==> Meaning(a) == Meaning(b)
  {
    NormaliseKeeps(a);
    NormaliseKeeps(b);
    if Canonical(a) == Canonical(b) {
      RenderPrefix(Normalise(a), Normalise(b), "", "");
    }
    if Meaning(a) == Meaning(b) {
      OrderedMeaning(Normalise(a), Normalise(b));
    }
  }
}
