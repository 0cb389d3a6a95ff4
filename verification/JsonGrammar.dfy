/**
 * The grammar of RFC 8259, without insignificant white space and with integer numbers only.
 * Each predicate relates a text to what remains of it after one phrase.
 */
module JsonGrammar {
  import opened Decimal
  import opened CanonicalJson

  // ---- strings (section 7) ------------------------------------------------

  predicate Unescaped(c: char) { c as int >= 0x20 && c != '"' && c != '\\' }

  predicate IsHexDigit(c: char) { IsDigit(c) || 'a' <= c <= 'f' || 'A' <= c <= 'F' }

  /** How many characters of `s` the next character of a literal takes up; 0 if there is none. */
  function CharLength(s: string): (n: nat)
    ensures n <= |s|
  {
    if s == "" then 0
    else if Unescaped(s[0]) then 1
    else if s[0] != '\\' || |s| < 2 then 0
    else if s[1] in {'"', '\\', '/', 'b', 'f', 'n', 'r', 't'} then 2
    else if |s| >= 6 && s[1] == 'u' && forall i :: 2 <= i < 6 ==> IsHexDigit(s[i]) then 6
    else 0
  }

  /** Characters of a literal, then its closing quote. */
  predicate CharsThen(s: string, rest: string)
    decreases |s|
  {
    || s == ['"'] + rest
    || (CharLength(s) > 0 && CharsThen(s[CharLength(s)..], rest))
  }

  predicate StringThen(s: string, rest: string) { s != "" && s[0] == '"' && CharsThen(s[1..], rest) }

  // ---- numbers (section 6), without fraction and exponent ------------------

  /** Digits with no leading zero, behind an optional minus. */
  predicate IsInteger(s: string) {
    var digits := if s != "" && s[0] == '-' then s[1..] else s;
    digits != "" && (forall i :: 0 <= i < |digits| ==> IsDigit(digits[i])) && (digits[0] == '0' ==> |digits| == 1)
  }

  // ---- values, arrays and objects (sections 3 to 5) ------------------------

  ghost predicate ValueThen(s: string, rest: string)
    decreases |s|, 1
  {
    || s == "null" + rest || s == "true" + rest || s == "false" + rest
    || (exists text :: IsInteger(text) && s == text + rest)
    || StringThen(s, rest)
    || (s != "" && s[0] == '[' && (s[1..] == [']'] + rest || exists mid ::
          |mid| < |s[1..]| && ValueThen(s[1..], mid) && ItemsThen(mid, rest)))
    || (s != "" && s[0] == '{' && (s[1..] == ['}'] + rest || exists mid ::
          |mid| < |s[1..]| && MemberThen(s[1..], mid) && MembersThen(mid, rest)))
  }

  ghost predicate ItemsThen(s: string, rest: string)
    decreases |s|, 0
  {
    s == [']'] + rest
    || (s != "" && s[0] == ',' && exists mid :: |mid| < |s[1..]| && ValueThen(s[1..], mid) && ItemsThen(mid, rest))
  }

  ghost predicate MemberThen(s: string, rest: string)
    decreases |s|, 2
  {
    exists mid :: |mid| < |s| && StringThen(s, [':'] + mid) && ValueThen(mid, rest)
  }

  ghost predicate MembersThen(s: string, rest: string)
    decreases |s|, 0
  {
    s == ['}'] + rest
    || (s != "" && s[0] == ',' && exists mid :: |mid| < |s[1..]| && MemberThen(s[1..], mid) && MembersThen(mid, rest))
  }

  /** A whole text: one value and nothing after it. */
  ghost predicate IsJson(s: string) { ValueThen(s, "") }

  // ---- what is rendered is in the grammar ---------------------------------

  lemma EscapedChar(c: char, tail: string)
    ensures CharLength(EscapeChar(c) + tail) == |EscapeChar(c)|
    ensures (EscapeChar(c) + tail)[|EscapeChar(c)|..] == tail
  {
    var e, s := EscapeChar(c), EscapeChar(c) + tail;
    assert forall i :: 0 <= i < |e| ==> s[i] == e[i];
    if |e| == 6 {
      assert s[2] == '0' && s[3] == '0';
      assert s[4] == HexDigit(c as int / 16) && s[5] == HexDigit(c as int % 16);
    }
  }

  lemma {:induction false} EscapeFits(s: string, rest: string)
    ensures CharsThen(Escape(s, rest), rest)
    ensures |Escape(s, rest)| > |rest|
  {
    if s != "" {
      EscapeFits(s[1..], rest);
      EscapedChar(s[0], Escape(s[1..], rest));
    }
  }

  lemma QuoteFits(s: string, rest: string)
    ensures StringThen(Quote(s, rest), rest)
    ensures |Quote(s, rest)| > |rest| + 1
  {
    EscapeFits(s, rest);
    assert Quote(s, rest)[1..] == Escape(s, rest);
  }

  lemma {:induction false} NoLeadingZero(n: nat)
    ensures NatText(n)[0] == '0' ==> |NatText(n)| == 1
    ensures n > 0 ==> NatText(n)[0] != '0'
  {
    if n >= 10 {
      NoLeadingZero(n / 10);
      assert NatText(n)[0] == NatText(n / 10)[0];
    }
  }

  lemma IntegerFits(n: int)
    ensures IsInteger(IntText(n))
  {
    var digits := NatText(if n < 0 then -n else n);
    NoLeadingZero(if n < 0 then -n else n);
    assert IsDigit(digits[0]);
    if n < 0 { assert IntText(n)[1..] == digits; }
  }

  lemma {:induction false} RenderFits(j: Json, rest: string)
    ensures ValueThen(Render(j, rest), rest) && |Render(j, rest)| > |rest|
    decreases j, 2
  {
    var s := Render(j, rest);
    match j
    case Null =>
    case Bool(_) =>
    case Num(n) =>
      IntegerFits(n);
      assert s == IntText(n) + rest;
    case Str(text) => QuoteFits(text, rest);
    case Arr(items) =>
      if items != [] {
        var mid := RenderItems(items[1..], rest);
        RenderItemsFits(items[1..], rest);
        RenderFits(items[0], mid);
        assert s[1..] == Render(items[0], mid);
      } else {
        assert s[1..] == [']'] + rest;
      }
    case Obj(members) =>
      if members != [] {
        var mid := RenderMembers(members[1..], rest);
        RenderMembersFits(members[1..], rest);
        RenderMemberFits(members[0], mid);
        assert s[1..] == RenderMember(members[0], mid);
      } else {
        assert s[1..] == ['}'] + rest;
      }
  }

  lemma {:induction false} RenderItemsFits(items: seq<Json>, rest: string)
    ensures ItemsThen(RenderItems(items, rest), rest) && |RenderItems(items, rest)| > |rest|
    decreases items, 0
  {
    if items != [] {
      var mid := RenderItems(items[1..], rest);
      RenderItemsFits(items[1..], rest);
      RenderFits(items[0], mid);
      assert RenderItems(items, rest)[1..] == Render(items[0], mid);
    }
  }

  lemma {:induction false} RenderMemberFits(m: CanonicalJson.Member, rest: string)
    ensures MemberThen(RenderMember(m, rest), rest) && |RenderMember(m, rest)| > |rest|
    decreases m, 1
  {
    var mid := Render(m.value, rest);
    RenderFits(m.value, rest);
    QuoteFits(m.key, [':'] + mid);
  }

  lemma {:induction false} RenderMembersFits(members: seq<CanonicalJson.Member>, rest: string)
    ensures MembersThen(RenderMembers(members, rest), rest) && |RenderMembers(members, rest)| > |rest|
    decreases members, 0
  {
    if members != [] {
      var mid := RenderMembers(members[1..], rest);
      RenderMembersFits(members[1..], rest);
      RenderMemberFits(members[0], mid);
      assert RenderMembers(members, rest)[1..] == RenderMember(members[0], mid);
    }
  }

  /** The canonical text of any payload is one JSON value, escapes and numbers included. */
  lemma CanonicalIsJson(j: Json)
    ensures IsJson(Canonical(j))
  {
    RenderFits(Normalise(j), "");
  }

  // ---- what a text says ---------------------------------------------------

  function HexValue(c: char): int {
    if '0' <= c <= '9' then c as int - '0' as int
    else if 'a' <= c <= 'f' then c as int - 'a' as int + 10
    else if 'A' <= c <= 'F' then c as int - 'A' as int + 10
    else 0
  }

  /** The code point the first character of a literal stands for, escaped or not (section 7). */
  function CharMeant(s: string): int
    requires CharLength(s) > 0
  {
    if CharLength(s) == 1 then s[0] as int
    else if CharLength(s) == 6 then 4096 * HexValue(s[2]) + 256 * HexValue(s[3]) + 16 * HexValue(s[4]) + HexValue(s[5])
    else match s[1]
      case 'b' => 0x08
      case 'f' => 0x0C
      case 'n' => 0x0A
      case 'r' => 0x0D
      case 't' => 0x09
      case c => c as int
  }

  /** `s` is the literal's characters for `text`, its closing quote, and `rest`. */
  predicate SpellsChars(s: string, text: string, rest: string)
    decreases |text|
  {
    if text == "" then s == ['"'] + rest
    else CharLength(s) > 0 && CharMeant(s) == text[0] as int && SpellsChars(s[CharLength(s)..], text[1..], rest)
  }

  predicate SpellsString(s: string, text: string, rest: string) { s != "" && s[0] == '"' && SpellsChars(s[1..], text, rest) }

  /** The number a run of digits with an optional minus stands for. */
  function IntegerMeant(s: string): int {
    if s != "" && s[0] == '-' then -NatValue(s[1..]) else NatValue(s)
  }

  /** `s` is a text for the value `j`, then `rest`. */
  ghost predicate Spells(s: string, j: Json, rest: string)
    decreases j, 1
  {
    match j
    case Null => s == "null" + rest
    case Bool(b) => s == (if b then "true" else "false") + rest
    case Num(n) => exists text :: IsInteger(text) && IntegerMeant(text) == n && s == text + rest
    case Str(text) => SpellsString(s, text, rest)
    case Arr(items) =>
      s != "" && s[0] == '['
      && if items == [] then s[1..] == [']'] + rest
         else exists mid :: Spells(s[1..], items[0], mid) && SpellsItems(mid, items[1..], rest)
    case Obj(members) =>
      s != "" && s[0] == '{'
      && if members == [] then s[1..] == ['}'] + rest
         else exists mid :: SpellsMember(s[1..], members[0], mid) && SpellsMembers(mid, members[1..], rest)
  }

  ghost predicate SpellsItems(s: string, items: seq<Json>, rest: string)
    decreases items, 0
  {
    if items == [] then s == [']'] + rest
    else s != "" && s[0] == ',' && exists mid :: Spells(s[1..], items[0], mid) && SpellsItems(mid, items[1..], rest)
  }

  ghost predicate SpellsMember(s: string, m: CanonicalJson.Member, rest: string)
    decreases m, 1
  {
    exists mid :: SpellsString(s, m.key, [':'] + mid) && Spells(mid, m.value, rest)
  }

  ghost predicate SpellsMembers(s: string, members: seq<CanonicalJson.Member>, rest: string)
    decreases members, 0
  {
    if members == [] then s == ['}'] + rest
    else s != "" && s[0] == ',' && exists mid :: SpellsMember(s[1..], members[0], mid) && SpellsMembers(mid, members[1..], rest)
  }

  lemma EscapedMeans(c: char, tail: string)
    ensures CharLength(EscapeChar(c) + tail) > 0 && CharMeant(EscapeChar(c) + tail) == c as int
  {
    EscapedChar(c, tail);
    var e, s := EscapeChar(c), EscapeChar(c) + tail;
    assert forall i :: 0 <= i < |e| ==> s[i] == e[i];
    if |e| == 6 {
      HexDigitMeans(c as int / 16);
      HexDigitMeans(c as int % 16);
      assert s[2] == '0' && s[3] == '0' && s[4] == HexDigit(c as int / 16) && s[5] == HexDigit(c as int % 16);
    }
  }

  lemma HexDigitMeans(d: int)
    requires 0 <= d < 16
    ensures HexValue(HexDigit(d)) == d
  {
  }

  lemma {:induction false} EscapeSpells(text: string, rest: string)
    ensures SpellsChars(Escape(text, rest), text, rest)
  {
    if text != "" {
      EscapeSpells(text[1..], rest);
      EscapedMeans(text[0], Escape(text[1..], rest));
      EscapedChar(text[0], Escape(text[1..], rest));
    }
  }

  lemma QuoteSpells(text: string, rest: string)
    ensures SpellsString(Quote(text, rest), text, rest)
  {
    EscapeSpells(text, rest);
    assert Quote(text, rest)[1..] == Escape(text, rest);
  }

  lemma IntegerMeans(n: int)
    ensures IsInteger(IntText(n)) && IntegerMeant(IntText(n)) == n
  {
    IntegerFits(n);
    NatTextRoundTrip(if n < 0 then -n else n);
    if n < 0 {
      assert IntText(n)[1..] == NatText(-n);
    } else {
      assert IsDigit(NatText(n)[0]);
    }
  }

  lemma {:induction false} RenderSpells(j: Json, rest: string)
    ensures Spells(Render(j, rest), j, rest)
    decreases j, 2
  {
    var s := Render(j, rest);
    match j
    case Null =>
    case Bool(_) =>
    case Num(n) =>
      IntegerMeans(n);
      assert s == IntText(n) + rest;
    case Str(text) => QuoteSpells(text, rest);
    case Arr(items) =>
      if items != [] {
        var mid := RenderItems(items[1..], rest);
        RenderItemsSpells(items[1..], rest);
        RenderSpells(items[0], mid);
        assert s[1..] == Render(items[0], mid);
      } else {
        assert s[1..] == [']'] + rest;
      }
    case Obj(members) =>
      if members != [] {
        var mid := RenderMembers(members[1..], rest);
        RenderMembersSpells(members[1..], rest);
        RenderMemberSpells(members[0], mid);
        assert s[1..] == RenderMember(members[0], mid);
      } else {
        assert s[1..] == ['}'] + rest;
      }
  }

  lemma {:induction false} RenderItemsSpells(items: seq<Json>, rest: string)
    ensures SpellsItems(RenderItems(items, rest), items, rest)
    decreases items, 0
  {
    if items != [] {
      var mid := RenderItems(items[1..], rest);
      RenderItemsSpells(items[1..], rest);
      RenderSpells(items[0], mid);
      assert RenderItems(items, rest)[1..] == Render(items[0], mid);
    }
  }

  lemma {:induction false} RenderMemberSpells(m: CanonicalJson.Member, rest: string)
    ensures SpellsMember(RenderMember(m, rest), m, rest)
    decreases m, 1
  {
    var mid := Render(m.value, rest);
    RenderSpells(m.value, rest);
    QuoteSpells(m.key, [':'] + mid);
  }

  lemma {:induction false} RenderMembersSpells(members: seq<CanonicalJson.Member>, rest: string)
    ensures SpellsMembers(RenderMembers(members, rest), members, rest)
    decreases members, 0
  {
    if members != [] {
      var mid := RenderMembers(members[1..], rest);
      RenderMembersSpells(members[1..], rest);
      RenderMemberSpells(members[0], mid);
      assert RenderMembers(members, rest)[1..] == RenderMember(members[0], mid);
    }
  }

  /** Read as JSON, the canonical text says what the payload means, every escape undone. */
  lemma CanonicalSpells(j: Json)
    requires WellFormed(j)
    ensures exists k :: Spells(Canonical(j), k, "") && Meaning(k) == Meaning(j) && Ordered(k)
  {
    NormaliseKeeps(j);
    RenderSpells(Normalise(j), "");
  }

  /** The order of the keys is that of their code points, a shorter key before its extensions. */
  lemma {:induction false} LessExact(a: string, b: string)
    ensures Less(a, b) <==> exists k :: 0 <= k <= |a| && k <= |b| && a[..k] == b[..k]
                                 && if k == |a| then k < |b| else k < |b| && a[k] < b[k]
  {
    if a != "" && b != "" && a[0] == b[0] {
      LessExact(a[1..], b[1..]);
      if k :| 0 <= k <= |a[1..]| && k <= |b[1..]| && a[1..][..k] == b[1..][..k]
              && if k == |a[1..]| then k < |b[1..]| else k < |b[1..]| && a[1..][k] < b[1..][k] {
        assert a[..k + 1] == [a[0]] + a[1..][..k] && b[..k + 1] == [b[0]] + b[1..][..k];
      }
      if k :| 0 <= k <= |a| && k <= |b| && a[..k] == b[..k] && if k == |a| then k < |b| else k < |b| && a[k] < b[k] {
        assert k > 0;
        assert a[1..][..k - 1] == a[..k][1..] && b[1..][..k - 1] == b[..k][1..];
      }
    } else if b != "" {
      assert a[..0] == b[..0];
      if a != "" && a[0] != b[0] {
        assert forall k :: 0 < k <= |a| && k <= |b| ==> a[..k][0] == a[0] && b[..k][0] == b[0];
      }
    }
  }
}
