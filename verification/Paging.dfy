/** The pages of a community's board, laid end to end. */
module Paging {
  import opened Prelude
  import opened LocalTables
  import opened NewsBoard

  // ---- how many pages -----------------------------------------------------

  lemma BigMultiple(d: int, k: int)
    requires d > 0 && k != 0
    ensures d * k >= d || d * k <= -d
  {
    if k >= 1 { assert d * (k - 1) >= 0; } else { assert d * (-k - 1) >= 0; }
  }

  lemma DivisionIsUnique(n: int, d: int, q: int, r: int)
    requires 0 <= r < d && n == d * q + r
    ensures n / d == q
  {
    var p, m := n / d, n % d;
    assert n == d * p + m;
    assert d * (p - q) == d * p - d * q == r - m;
    if p != q { BigMultiple(d, p - q); }
  }

  function CeilingOf(total: int, size: int): int
    requires size != 0
  {
    -((-total) / size)
  }

  /** Rounding up as the code does it, by flooring the negative, is rounding up. */
  lemma CeilingTwoWays(total: int, size: int)
    requires size > 0
    ensures CeilingOf(total, size) == (total + size - 1) / size
  {
    var q := (total + size - 1) / size;
    var r := size * q - total;
    assert size * (-q) == -(size * q);
    DivisionIsUnique(-total, size, -q, r);
  }

  // ---- what is on them ----------------------------------------------------

  /** The newest-first list the pages are cut from. */
  function Board(t: Tables, scope: Option<int>): seq<int> {
    NewestFirst(t, ScopedPosts(t, scope))
  }

  lemma {:induction false} NewestFirstDescends(t: Tables, ids: set<int>)
    requires forall x :: x in ids ==> x in t.posts
    ensures var s := NewestFirst(t, ids);
            forall i, j :: 0 <= i < j < |s| ==> s[i] in t.posts && s[j] in t.posts && Newer(t, s[i], s[j]) && s[i] != s[j]
  {
    if ids != {} {
      var s := NewestFirst(t, ids);
      var a := s[0];
      NewestFirstDescends(t, ids - {a});
      NewestFirstElements(t, ids - {a});
      var rest := NewestFirst(t, ids - {a});
      forall j | 0 <= j < |rest| ensures rest[j] in ids && rest[j] != a && Newer(t, a, rest[j]) {}
      forall i, j | 0 <= i < j < |s| ensures s[i] in t.posts && s[j] in t.posts && Newer(t, s[i], s[j]) && s[i] != s[j] {
        assert s[j] == rest[j - 1];
        if i > 0 { assert s[i] == rest[i - 1]; }
      }
    }
  }

  /** The rows of pages 1 to n. */
  function FirstPages(t: Tables, scope: Option<int>, size: nat, n: nat): seq<int> {
    if n == 0 then [] else FirstPages(t, scope, size, n - 1) + PageRows(t, scope, (n - 1) * size, size)
  }

  function UpTo<T>(s: seq<T>, n: nat): seq<T> { if n <= |s| then s[..n] else s }

  lemma UpToExtends<T>(s: seq<T>, offset: nat, limit: nat)
    ensures UpTo(s, offset) + Window(s, offset, limit) == UpTo(s, offset + limit)
  {
  }

  lemma {:induction false} FirstPagesArePrefix(t: Tables, scope: Option<int>, size: nat, n: nat)
    ensures FirstPages(t, scope, size, n) == UpTo(Board(t, scope), n * size)
  {
    if n != 0 {
      FirstPagesArePrefix(t, scope, size, n - 1);
      var offset := (n - 1) * size;
      UpToExtends(Board(t, scope), offset, size);
      assert n * size == offset + size;
    }
  }

  lemma CeilingBounds(total: int, size: int)
    requires total >= 0 && size > 0
    ensures var q := (total + size - 1) / size;
            q >= 0 && (q - 1) * size < total <= q * size
  {
    var n := total + size - 1;
    var q, r := n / size, n % size;
    assert n == size * q + r;
    assert (q - 1) * size == q * size - size;
  }

  /** Just enough pages: they hold every post, and one page fewer would not. */
  lemma PageCountCovers(t: Tables, ctx: Context, page: int, size: int)
    requires size > 0 && page >= 1
    ensures var answer := ListPosts(t, ctx, page, size);
            && answer.Page? && answer.total == |ScopedPosts(t, ctx.scope)|
            && answer.totalPages >= 0
            && (answer.totalPages - 1) * size < answer.total <= answer.totalPages * size
  {
    assert (page - 1) * size >= 0;
    CeilingBounds(|ScopedPosts(t, ctx.scope)|, size);
  }

  /**
   * The pages the listing announces partition the board: end to end they are exactly the posts
   * the caller's community can see, each once, strictly newest first.
   */
  lemma PagesPartitionBoard(t: Tables, ctx: Context, page: int, size: int)
    requires size > 0 && page >= 1
    ensures var answer := ListPosts(t, ctx, page, size);
            && answer.Page? && answer.totalPages >= 0
            && var rows := FirstPages(t, ctx.scope, size, answer.totalPages);
               && Enumerates(rows, ScopedPosts(t, ctx.scope))
               && |rows| == answer.total
               && forall i, j :: 0 <= i < j < |rows| ==> rows[i] in t.posts && rows[j] in t.posts && Newer(t, rows[i], rows[j])
  {
    PageCountCovers(t, ctx, page, size);
    FirstPagesArePrefix(t, ctx.scope, size, ListPosts(t, ctx, page, size).totalPages);
    NewestFirstElements(t, ScopedPosts(t, ctx.scope));
    NewestFirstDescends(t, ScopedPosts(t, ctx.scope));
  }
}
