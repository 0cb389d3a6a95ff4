/** Small shared vocabulary: optional values, results, duplicate-free sequences. */
module Prelude {

  datatype Option<+T> = None | Some(value: T)

  datatype Result<+T, +E> = Success(value: T) | Failure(error: E)

  /** The caller's role in the active community, lowest first. */
  datatype Role = Member | Manager | Admin

  function Rank(role: Role): int {
    match role
    case Member => 1
    case Manager => 2
    case Admin => 3
  }

  predicate NoDuplicates<T(==)>(s: seq<T>) {
    forall i, j :: 0 <= i < j < |s| ==> s[i] != s[j]
  }

  function Elements<T>(s: seq<T>): set<T> {
    set x | x in s
  }

  /** First occurrences, in order. */
  function Dedupe<T(==,!new)>(s: seq<T>): (d: seq<T>)
    ensures NoDuplicates(d)
    ensures forall x :: x in d <==> x in s
    ensures NoDuplicates(s) ==> d == s
  {
    if s == [] then []
    else
      var init := Dedupe(s[..|s| - 1]);
      var last := s[|s| - 1];
      assert s == s[..|s| - 1] + [last];
      if last in init then init else init + [last]
  }

  /** `s` lists exactly the elements of `xs`, each once: what a query with no ORDER BY may return. */
  ghost predicate Enumerates<T(!new)>(s: seq<T>, xs: set<T>) {
    NoDuplicates(s) && forall x :: x in s <==> x in xs
  }

  /** Any order a query without ORDER BY may return. */
  method Enumerate<T(==,!new)>(xs: set<T>) returns (s: seq<T>)
    ensures Enumerates(s, xs)
  {
    s := [];
    var rest := xs;
    while rest != {}
      invariant NoDuplicates(s)
      invariant rest <= xs
      invariant forall x :: x in s <==> x in xs && x !in rest
    {
      var x :| x in rest;
      s := s + [x];
      rest := rest - {x};
    }
  }

  lemma Inhabitant<T>(s: set<T>) returns (x: T)
    requires s != {}
    ensures x in s
  {
    x :| x in s;
  }

  lemma HeadIsElement<T>(s: seq<T>)
    requires s != []
    ensures s[0] in s
  {
  }

  lemma NoDuplicatesCardinality<T>(s: seq<T>)
    requires NoDuplicates(s)
    ensures |Elements(s)| == |s|
  {
    if s != [] {
      var init := s[..|s| - 1];
      NoDuplicatesCardinality(init);
      assert s == init + [s[|s| - 1]];
      assert Elements(s) == Elements(init) + {s[|s| - 1]};
    }
  }

  lemma SubsetCardinality<T>(a: set<T>, b: set<T>)
    requires a <= b
    ensures |a| <= |b|
  {
    if a != {} {
      var x :| x in a;
      SubsetCardinality(a - {x}, b - {x});
    }
  }
}
