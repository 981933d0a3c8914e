/** The page cursor of `usePaginated` in src/hooks.ts: an index into the
    data and a page number, moved a whole number of pages at a time, and the
    rows of the current page. */
module Paging {

  /** The number of pages of `len` rows, `pageLen` to a page: the quotient,
      plus one for a last partial page. */
  function PageCount(len: nat, pageLen: int): (pages: nat)
    requires pageLen > 0
    ensures len <= pages * pageLen < len + pageLen
  {
    if len % pageLen != 0 then len / pageLen + 1 else len / pageLen
  }

  /** The position of the cursor: the index of the first row shown and the
      page number, counted from 0. */
  datatype Cursor = Cursor(index: int, page: int)

  /** What every reachable cursor satisfies: the index is the page's first
      row, and it is a row of the data unless the data is empty. */
  predicate Aligned(c: Cursor, len: nat, pageLen: int) {
    0 <= c.index && c.index == c.page * pageLen && (c.index == 0 || c.index < len)
  }

  /** `move(n)`: the cursor goes `n` pages on when that lands on a row of
      the data, and stays put otherwise. */
  function Moved(c: Cursor, n: int, len: nat, pageLen: int): (r: Cursor)
    ensures r == c || (r.index == c.index + n * pageLen && r.page == c.page + n && 0 <= r.index < len)
  {
    var ix := c.index + n * pageLen;
    if ix < 0 || ix >= len then c else Cursor(ix, c.page + n)
  }

  /** The step `goto(p)` hands to `move`: towards page `p - 1`, one page
      further when the last page is partial and `p` is ahead of the cursor,
      and never back by more than the number of pages. */
  function GotoStep(c: Cursor, p: int, len: nat, pageLen: int): (n: int)
    requires pageLen > 0
    ensures n >= -(PageCount(len, pageLen) as int)
    ensures len % pageLen == 0 || p <= c.page ==> n == Max(p - 1 - c.page, -(PageCount(len, pageLen) as int))
    ensures len % pageLen != 0 && p > c.page ==> n == p - c.page
  {
    var q := if len % pageLen != 0 && p > c.page then p + 1 else p;
    Max(q - 1 - c.page, -(PageCount(len, pageLen) as int))
  }

  function Max(a: int, b: int): (m: int)
    ensures m >= a && m >= b && (m == a || m == b)
  {
    if a >= b then a else b
  }

  function Min(a: int, b: int): (m: int)
    ensures m <= a && m <= b && (m == a || m == b)
  {
    if a <= b then a else b
  }

  /** The rows of the page the cursor is on: from its index up to a page
      further on or to the end of the data. */
  function PageRows<T>(all: seq<T>, index: nat, pageLen: int): (rows: seq<T>)
    requires pageLen > 0 && (index == 0 || index < |all|)
    ensures |rows| == Min(index + pageLen, |all|) - index <= pageLen
    ensures |all| > 0 ==> 1 <= |rows|
    ensures forall i :: 0 <= i < |rows| ==> rows[i] == all[index + i]
  {
    all[index..Min(index + pageLen, |all|)]
  }

  /** `move` keeps the cursor aligned. */
  lemma MoveAligned(c: Cursor, n: int, len: nat, pageLen: int)
    requires Aligned(c, len, pageLen)
    ensures Aligned(Moved(c, n, len, pageLen), len, pageLen)
  {
    var r := Moved(c, n, len, pageLen);
    if r != c {
      assert r.index == (c.page + n) * pageLen;
    }
  }

  /** Multiplying by a positive page length keeps the order of page numbers. */
  lemma MulOrder(a: int, b: int, k: int)
    requires k > 0
    ensures a < b <==> a * k < b * k
  {
    assert b * k - a * k == (b - a) * k;
    if a < b {
      MulPositive(b - a, k);
    } else {
      MulPositive(a - b + 1, k);
      assert (a - b + 1) * k == a * k - b * k + k;
    }
  }

  lemma MulPositive(a: int, k: int)
    requires a > 0 && k > 0
    ensures a * k >= k
  {
    assert a * k == (a - 1) * k + k;
    if a > 1 {
      MulPositive(a - 1, k);
    }
  }

  /** Quotient and remainder are the only ones with a remainder in range. */
  lemma DivUnique(x: int, k: int, q: int, r: int)
    requires k > 0 && 0 <= r < k && x == q * k + r
    ensures x / k == q && x % k == r
  {
    var q', r' := x / k, x % k;
    assert q' * k + r' == q * k + r;
    MulOrder(q, q' + 1, k);
    MulOrder(q', q + 1, k);
    assert (q' + 1) * k == q' * k + k && (q + 1) * k == q * k + k;
  }

  /** With data, the page count is one more than the page of the last row;
      the quotient `|all| / pageLen` is that page itself when the last page is
      partial, and one more when it is full. */
  lemma LastPage(len: nat, pageLen: int)
    requires pageLen > 0 && len > 0
    ensures PageCount(len, pageLen) == (len - 1) / pageLen + 1
    ensures len % pageLen != 0 ==> len / pageLen == (len - 1) / pageLen
    ensures len % pageLen == 0 ==> len / pageLen == (len - 1) / pageLen + 1
  {
    var q, r := (len - 1) / pageLen, (len - 1) % pageLen;
    if r + 1 < pageLen {
      DivUnique(len, pageLen, q, r + 1);
    } else {
      assert len == (q + 1) * pageLen + 0;
      DivUnique(len, pageLen, q + 1, 0);
    }
  }

  /** An aligned cursor is on one of the pages: never before the first, and
      before the page count when there is data. */
  lemma AlignedPage(c: Cursor, len: nat, pageLen: int)
    requires pageLen > 0 && Aligned(c, len, pageLen)
    ensures 0 <= c.page
    ensures len > 0 ==> c.page < PageCount(len, pageLen)
    ensures len == 0 ==> c.page == 0
  {
    MulOrder(c.page, 0, pageLen);
    MulOrder(0, c.page, pageLen);
    MulOrder(c.page, PageCount(len, pageLen), pageLen);
  }

  /** A move that went somewhere is undone by the opposite move. */
  lemma MoveBack(c: Cursor, n: int, len: nat, pageLen: int)
    requires Aligned(c, len, pageLen) && len > 0
    requires Moved(c, n, len, pageLen) != c
    ensures Moved(Moved(c, n, len, pageLen), -n, len, pageLen) == c
  {
    assert (-n) * pageLen == -(n * pageLen);
  }

  /** `move(n)` goes exactly to page `page + n` when that page exists, and
      otherwise stays put. */
  lemma MoveTarget(c: Cursor, n: int, len: nat, pageLen: int)
    requires pageLen > 0 && Aligned(c, len, pageLen)
    ensures 0 <= c.page + n < PageCount(len, pageLen) ==>
      Moved(c, n, len, pageLen) == Cursor((c.page + n) * pageLen, c.page + n)
    ensures !(0 <= c.page + n < PageCount(len, pageLen)) ==> Moved(c, n, len, pageLen) == c
  {
    var pages := PageCount(len, pageLen);
    var to := c.page + n;
    assert c.index + n * pageLen == to * pageLen;
    MulOrder(to, 0, pageLen);
    MulOrder(pages - 1, to, pageLen);
    MulOrder(to, pages, pageLen);
    assert (pages - 1) * pageLen == pages * pageLen - pageLen;
  }

  /** The First button, `goto(1)`, shown on any page but the first, goes to
      the first page. */
  lemma GotoFirst(c: Cursor, len: nat, pageLen: int)
    requires pageLen > 0 && Aligned(c, len, pageLen) && c.page > 0
    ensures Moved(c, GotoStep(c, 1, len, pageLen), len, pageLen) == Cursor(0, 0)
  {
    AlignedPage(c, len, pageLen);
    MoveTarget(c, -c.page, len, pageLen);
  }

  /** Where `goto(p)` lands from an aligned cursor: on page `p` itself when
      the last page is partial and `p` is ahead of the cursor, on page
      `p - 1` otherwise, provided that page exists; when it does not, the
      cursor stays put. */
  lemma GotoLands(c: Cursor, p: int, len: nat, pageLen: int)
    requires pageLen > 0 && Aligned(c, len, pageLen)
    ensures var t := if len % pageLen != 0 && p > c.page then p else p - 1;
      (0 <= t < PageCount(len, pageLen) ==>
         Moved(c, GotoStep(c, p, len, pageLen), len, pageLen) == Cursor(t * pageLen, t)) &&
      (!(0 <= t < PageCount(len, pageLen)) ==>
         Moved(c, GotoStep(c, p, len, pageLen), len, pageLen) == c)
  {
    var n := GotoStep(c, p, len, pageLen);
    AlignedPage(c, len, pageLen);
    MoveTarget(c, n, len, pageLen);
  }

  /** The Last button, `goto(|all| / pageLen)` with the quotient its caller
      computes, enabled on any page before that quotient, goes to the last
      page: the one holding the last row (with a full last page the button
      is also enabled on the last page itself, and the cursor stays there). */
  lemma GotoLast(c: Cursor, len: nat, pageLen: int)
    requires pageLen > 0 && Aligned(c, len, pageLen) && len > 0
    requires c.page < len / pageLen
    ensures Moved(c, GotoStep(c, len / pageLen, len, pageLen), len, pageLen).page == (len - 1) / pageLen
  {
    LastPage(len, pageLen);
    GotoLands(c, len / pageLen, len, pageLen);
  }

  /** Where `goto(p)` lands depends on where the cursor is when the last
      page is partial: with 25 rows, 10 to a page, `goto(2)` from the first
      page lands on page 2, and from page 2 on page 1. */
  lemma GotoDependsOnCursor()
    ensures Moved(Cursor(0, 0), GotoStep(Cursor(0, 0), 2, 25, 10), 25, 10) == Cursor(20, 2)
    ensures Moved(Cursor(20, 2), GotoStep(Cursor(20, 2), 2, 25, 10), 25, 10) == Cursor(10, 1)
  {
    assert PageCount(25, 10) == 3;
  }

  /** The pager of one table: the data, the page length, and the cursor
      with the rows on show. */
  class Pager<T> {
    const all: seq<T>
    const pageLen: int
    const pages: nat
    var index: int
    var page: int
    var rows: seq<T>

    /** The cursor is aligned and the rows are those of its page. */
    ghost predicate Valid()
      reads this
    {
      pageLen > 0 && pages == PageCount(|all|, pageLen) &&
      Aligned(Cursor(index, page), |all|, pageLen) &&
      rows == PageRows(all, index, pageLen)
    }

    /** `usePaginated(all, pageLen)`: the page count, and the cursor on the
        first page showing its rows. */
    constructor (all: seq<T>, pageLen: int)
      requires pageLen > 0
      ensures Valid()
      ensures this.all == all && this.pageLen == pageLen
      ensures index == 0 && page == 0 && rows == all[..Min(pageLen, |all|)]
    {
      this.all := all;
      this.pageLen := pageLen;
      var pages := |all| / pageLen;
      if |all| % pageLen != 0 {
        pages := pages + 1;
      }
      this.pages := pages;
      index := 0;
      page := 0;
      rows := all[0..Min(pageLen, |all|)];
    }

    /** `move(n)`: the cursor goes `n` pages on when it lands on a row of
        the data, showing that page's rows; the page it is then on is
        returned. */
    method Move(n: int) returns (r: int)
      requires Valid()
      modifies this
      ensures Valid()
      ensures Cursor(index, page) == Moved(old(Cursor(index, page)), n, |all|, pageLen)
      ensures r == page
      ensures Cursor(index, page) == old(Cursor(index, page)) ==> rows == old(rows)
    {
      var ix := index + n * pageLen;
      if ix < 0 || ix >= |all| {
        return page;
      }
      MoveAligned(Cursor(index, page), n, |all|, pageLen);
      index := ix;
      page := page + n;
      rows := all[index..Min(index + pageLen, |all|)];
      return page;
    }

    /** `goto(p)`: one move, by the step `GotoStep` computes. */
    method Goto(p: int)
      requires Valid()
      modifies this
      ensures Valid()
      ensures Cursor(index, page) == Moved(old(Cursor(index, page)), GotoStep(old(Cursor(index, page)), p, |all|, pageLen), |all|, pageLen)
    {
      var q := p;
      if |all| % pageLen != 0 && q > page {
        q := q + 1;
      }
      var _ := Move(Max(q - 1 - page, -(pages as int)));
    }
  }
}
