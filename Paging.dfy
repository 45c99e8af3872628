/**
 * The paging convention shared by the user list (AccountManager.cs:50-59)
 * and the news list (NewsRepository.cs:29-37): `page` and `pageSize` are C#
 * `int`s; a page other than -1 skips `(page - 1) * pageSize` items, computed
 * in unchecked 32-bit arithmetic, and a page size other than -1 takes that
 * many items. -1 switches off each clause on its own.
 */
module Paging {
  import opened Linq

  /** A C# `int`. */
  newtype Int32 = x: int | -0x8000_0000 <= x < 0x8000_0000

  /** Unchecked C# `int` arithmetic: the result is reduced modulo 2^32 into the signed range. */
  function Wrap(x: int): (r: Int32)
    ensures (r as int - x) % 0x1_0000_0000 == 0
    ensures -0x8000_0000 <= x < 0x8000_0000 ==> r as int == x
  {
    (((x + 0x8000_0000) % 0x1_0000_0000) - 0x8000_0000) as Int32
  }

  /** `(page - 1) * pageSize` as the C# expression evaluates it. */
  function SkipCount(page: Int32, pageSize: Int32): Int32 {
    Wrap(Wrap(page as int - 1) as int * pageSize as int)
  }

  /** The query after its two optional clauses: `Skip` unless `page == -1`, then `Take` unless `pageSize == -1`. */
  function Page<T>(s: seq<T>, page: Int32, pageSize: Int32): seq<T> {
    var skipped := if page != -1 then Skip(s, SkipCount(page, pageSize) as int) else s;
    if pageSize != -1 then Take(skipped, pageSize as int) else skipped
  }

  /** `x` limited to `0..n`. */
  function Clamp(x: int, n: nat): (r: nat)
    ensures r <= n
  {
    if x <= 0 then 0 else if x >= n then n else x
  }

  /**
   * The window a page selects out of `n` items, computed directly from the
   * two parameters: where it starts and where it ends.
   */
  function Window(n: nat, page: Int32, pageSize: Int32): (w: (nat, nat))
    ensures w.0 <= w.1 <= n
  {
    var start := if page == -1 then 0 else Clamp(SkipCount(page, pageSize) as int, n);
    var end := if pageSize == -1 then n else Clamp(start + Clamp(pageSize as int, n), n);
    (start, if end < start then start else end)
  }

  /** A page is always the contiguous slice `Window` names: nothing is added or reordered. */
  lemma PageIsWindow<T>(s: seq<T>, page: Int32, pageSize: Int32)
    ensures var w := Window(|s|, page, pageSize);
      Page(s, page, pageSize) == s[w.0..w.1]
  {
    var w := Window(|s|, page, pageSize);
    var skipped := if page != -1 then Skip(s, SkipCount(page, pageSize) as int) else s;
    assert skipped == s[w.0..];
    if pageSize != -1 {
      assert Take(skipped, pageSize as int) == s[w.0..][..w.1 - w.0];
    }
  }

  /** Without a page number nothing is skipped: the result is a prefix. */
  lemma NoPageSkipsNothing<T>(s: seq<T>, pageSize: Int32)
    ensures var r := Page(s, -1, pageSize);
      |r| <= |s| && r == s[..|r|]
  {
    PageIsWindow(s, -1, pageSize);
  }

  /** With a page size other than -1 the page holds at most that many items; a negative one yields none. */
  lemma PageSizeBounds<T>(s: seq<T>, page: Int32, pageSize: Int32)
    requires pageSize != -1
    ensures |Page(s, page, pageSize)| <= if pageSize < 0 then 0 else pageSize as int
  {
    PageIsWindow(s, page, pageSize);
  }

  /** Both sentinels: the whole sequence. */
  lemma NoPagingIsIdentity<T>(s: seq<T>)
    ensures Page(s, -1, -1) == s
  {
    PageIsWindow(s, -1, -1);
  }

  /**
   * The ordinary case: page `p >= 1` of size `k >= 0`, with `(p - 1) * k`
   * inside the `int` range, is the slice from `(p - 1) * k` of length `k`,
   * cut off at the end.
   */
  lemma OrdinaryPage<T>(s: seq<T>, page: Int32, pageSize: Int32)
    requires page >= 1 && pageSize >= 0
    requires (page as int - 1) * pageSize as int < 0x8000_0000
    ensures var start := Clamp((page as int - 1) * pageSize as int, |s|);
      var end := Clamp(start + pageSize as int, |s|);
      Page(s, page, pageSize) == s[start..end]
  {
    var p, k := page as int - 1, pageSize as int;
    assert Wrap(p) as int == p;
    NonNegativeProduct(p, k);
    assert SkipCount(page, pageSize) as int == p * k;
    PageIsWindow(s, page, pageSize);
  }

  lemma NonNegativeProduct(a: int, b: int)
    requires a >= 0 && b >= 0
    ensures a * b >= 0
  {
  }

  /**
   * A page size of -1 does not switch off the skip: with `page >= 1` it
   * skips `-(page - 1) <= 0` items, that is nothing, but page 0 skips one.
   */
  lemma UnboundedPageSize<T>(s: seq<T>, page: Int32)
    requires page != -1
    ensures page >= 1 ==> Page(s, page, -1) == s
    ensures page == 0 ==> Page(s, page, -1) == Skip(s, 1)
  {
    PageIsWindow(s, page, -1);
  }

  /** The skip count wraps: page 65537 of size 65536 asks to skip 2^32 items and skips none. */
  lemma SkipCountWraps()
    ensures SkipCount(65537, 65536) == 0
  {
  }
}
