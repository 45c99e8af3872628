/**
 * The news listing query of NewsRepository.GetNewsAsync
 * (Weekday.Data/Repositories/NewsRepository.cs:19-40): order every news
 * item by creation date, newest first; keep one author's items when an
 * author id is given; then page with the -1 sentinels.
 */
module NewsRepository {
  import opened Wrappers
  import opened Linq
  import opened Paging

  /** A company news record; `createDate` is the DateTime as a tick count, `authorId` is null once the author is deleted. */
  datatype News = News(id: int, content: string, createDate: int, authorId: Option<string>)

  /** Newest first: creation dates never increase along the sequence. */
  predicate NewestFirst(s: seq<News>) {
    forall i, j :: 0 <= i < j < |s| ==> s[i].createDate >= s[j].createDate
  }

  /** Places `x` before the first item that is not newer than it, so that equal dates keep their input order. */
  function InsertByDate(x: News, s: seq<News>): (r: seq<News>)
    ensures multiset(r) == multiset(s) + multiset{x}
    decreases |s|
  {
    if s == [] || s[0].createDate <= x.createDate then [x] + s
    else
      assert s == [s[0]] + s[1..];
      [s[0]] + InsertByDate(x, s[1..])
  }

  lemma TailIsNewestFirst(s: seq<News>)
    requires s != [] && NewestFirst(s)
    ensures NewestFirst(s[1..])
  {
    var tail := s[1..];
    forall i, j | 0 <= i < j < |tail| ensures tail[i].createDate >= tail[j].createDate {
      assert tail[i] == s[i + 1] && tail[j] == s[j + 1];
    }
  }

  lemma ConsIsNewestFirst(h: News, rest: seq<News>)
    requires NewestFirst(rest)
    requires forall j :: 0 <= j < |rest| ==> h.createDate >= rest[j].createDate
    ensures NewestFirst([h] + rest)
  {
    var r := [h] + rest;
    forall i, j | 0 <= i < j < |r| ensures r[i].createDate >= r[j].createDate {
      assert r[j] == rest[j - 1];
      if i > 0 {
        assert r[i] == rest[i - 1];
      }
    }
  }

  /** Inserting into a newest-first sequence keeps it newest first. */
  lemma {:induction false} InsertKeepsNewestFirst(x: News, s: seq<News>)
    requires NewestFirst(s)
    ensures NewestFirst(InsertByDate(x, s))
    decreases |s|
  {
    if s == [] || s[0].createDate <= x.createDate {
      ConsIsNewestFirst(x, s);
    } else {
      var tail := s[1..];
      TailIsNewestFirst(s);
      InsertKeepsNewestFirst(x, tail);
      var rest := InsertByDate(x, tail);
      forall j | 0 <= j < |rest| ensures s[0].createDate >= rest[j].createDate {
        assert rest[j] in multiset(rest);
        if rest[j] != x {
          assert rest[j] in multiset(tail);
          var k :| 0 <= k < |tail| && tail[k] == rest[j];
          assert tail[k] == s[k + 1];
        }
      }
      ConsIsNewestFirst(s[0], rest);
    }
  }

  /** `OrderByDescending(x => x.CreateDate)`, a stable insertion sort: the same items, each as often. */
  function OrderByDateDescending(s: seq<News>): (r: seq<News>)
    ensures multiset(r) == multiset(s)
    decreases |s|
  {
    if s == [] then []
    else
      assert s == [s[0]] + s[1..];
      InsertByDate(s[0], OrderByDateDescending(s[1..]))
  }

  /** The ordered sequence is newest first. */
  lemma {:induction false} OrderedIsNewestFirst(s: seq<News>)
    ensures NewestFirst(OrderByDateDescending(s))
    decreases |s|
  {
    if s != [] {
      OrderedIsNewestFirst(s[1..]);
      InsertKeepsNewestFirst(s[0], OrderByDateDescending(s[1..]));
    }
  }

  /** `string.IsNullOrEmpty(authorId)`. */
  predicate IsNullOrEmpty(authorId: Option<string>) {
    authorId.None? || authorId.value == ""
  }

  /** `Where(x => x.AuthorId == authorId)`: exactly the author's items, each as often as stored. */
  function ByAuthor(s: seq<News>, authorId: string): (r: seq<News>)
    ensures forall n {:trigger multiset(r)[n]} :: multiset(r)[n] == if n.authorId == Some(authorId) then multiset(s)[n] else 0
    decreases |s|
  {
    if s == [] then []
    else
      assert s == [s[0]] + s[1..];
      var rest := ByAuthor(s[1..], authorId);
      if s[0].authorId == Some(authorId) then [s[0]] + rest else rest
  }

  /** Filtering keeps the order: a newest-first sequence stays newest first. */
  lemma {:induction false} ByAuthorKeepsNewestFirst(s: seq<News>, authorId: string)
    requires NewestFirst(s)
    ensures NewestFirst(ByAuthor(s, authorId))
    decreases |s|
  {
    if s != [] {
      var tail := s[1..];
      TailIsNewestFirst(s);
      ByAuthorKeepsNewestFirst(tail, authorId);
      var rest := ByAuthor(tail, authorId);
      if s[0].authorId == Some(authorId) {
        forall j | 0 <= j < |rest| ensures s[0].createDate >= rest[j].createDate {
          assert multiset(rest)[rest[j]] > 0;
          assert rest[j] in multiset(tail);
          var k :| 0 <= k < |tail| && tail[k] == rest[j];
          assert tail[k] == s[k + 1];
        }
        ConsIsNewestFirst(s[0], rest);
      }
    }
  }

  /** The filtered, ordered sequence the paging clauses are applied to. */
  function Matching(all: seq<News>, authorId: Option<string>): seq<News> {
    var ordered := OrderByDateDescending(all);
    if IsNullOrEmpty(authorId) then ordered else ByAuthor(ordered, authorId.value)
  }

  /** `GetNewsAsync(authorId, page, pageSize)` over the whole news table `all`. */
  function GetNews(all: seq<News>, authorId: Option<string>, page: Int32, pageSize: Int32): seq<News> {
    Page(Matching(all, authorId), page, pageSize)
  }

  /** The result is newest first. */
  lemma GetNewsIsNewestFirst(all: seq<News>, authorId: Option<string>, page: Int32, pageSize: Int32)
    ensures NewestFirst(GetNews(all, authorId, page, pageSize))
  {
    var m := Matching(all, authorId);
    OrderedIsNewestFirst(all);
    if !IsNullOrEmpty(authorId) {
      ByAuthorKeepsNewestFirst(OrderByDateDescending(all), authorId.value);
    }
    PageIsWindow(m, page, pageSize);
    var w := Window(|m|, page, pageSize);
    SliceIsNewestFirst(m, w.0, w.1);
  }

  lemma SliceIsNewestFirst(s: seq<News>, lo: nat, hi: nat)
    requires lo <= hi <= |s| && NewestFirst(s)
    ensures NewestFirst(s[lo..hi])
  {
    forall i, j | 0 <= i < j < hi - lo
      ensures s[lo..hi][i].createDate >= s[lo..hi][j].createDate
    {
      assert s[lo..hi][i] == s[lo + i] && s[lo..hi][j] == s[lo + j];
    }
  }

  /** With a non-empty author id every returned item is that author's; without one, the author is not looked at. */
  lemma GetNewsFiltersByAuthor(all: seq<News>, authorId: Option<string>, page: Int32, pageSize: Int32)
    ensures !IsNullOrEmpty(authorId) ==>
      forall n :: n in GetNews(all, authorId, page, pageSize) ==> n.authorId == authorId
    ensures IsNullOrEmpty(authorId) ==>
      GetNews(all, authorId, page, pageSize) == Page(OrderByDateDescending(all), page, pageSize)
  {
    var m := Matching(all, authorId);
    PageIsWindow(m, page, pageSize);
    var w := Window(|m|, page, pageSize);
    forall n | n in m[w.0..w.1] ensures n in m {
      var k :| 0 <= k < |m[w.0..w.1]| && m[w.0..w.1][k] == n;
      assert m[w.0 + k] == n;
    }
    if !IsNullOrEmpty(authorId) {
      forall n | n in m ensures n.authorId == authorId {
        assert multiset(m)[n] > 0;
      }
    }
  }

  /** The result is the slice of the filtered, ordered sequence that the page parameters select. */
  lemma GetNewsIsSlice(all: seq<News>, authorId: Option<string>, page: Int32, pageSize: Int32)
    ensures var m := Matching(all, authorId);
      var w := Window(|m|, page, pageSize);
      GetNews(all, authorId, page, pageSize) == m[w.0..w.1]
  {
    PageIsWindow(Matching(all, authorId), page, pageSize);
  }

  /** Without a page number nothing is skipped; with a page size other than -1 at most that many items come back. */
  lemma GetNewsBounds(all: seq<News>, authorId: Option<string>, page: Int32, pageSize: Int32)
    ensures page == -1 ==>
      var r := GetNews(all, authorId, page, pageSize);
      r == Matching(all, authorId)[..|r|]
    ensures pageSize != -1 ==>
      |GetNews(all, authorId, page, pageSize)| <= if pageSize < 0 then 0 else pageSize as int
  {
    var m := Matching(all, authorId);
    if page == -1 {
      NoPageSkipsNothing(m, pageSize);
    }
    if pageSize != -1 {
      PageSizeBounds(m, page, pageSize);
    }
  }

  /**
   * With both sentinels the result is every matching item, each as often as
   * it is stored, newest first.
   */
  lemma GetNewsUnpaged(all: seq<News>, authorId: Option<string>)
    ensures var r := GetNews(all, authorId, -1, -1);
      && NewestFirst(r)
      && forall n {:trigger multiset(r)[n]} ::
           multiset(r)[n] == if IsNullOrEmpty(authorId) || n.authorId == authorId then multiset(all)[n] else 0
  {
    var m := Matching(all, authorId);
    NoPagingIsIdentity(m);
    GetNewsIsNewestFirst(all, authorId, -1, -1);
  }
}
