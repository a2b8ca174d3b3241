/**
 * BookRepository: the book table, its two selection queries and its three bulk
 * updates. Rows are kept in table order; a query returns the positions of the rows it
 * selects, which stand for the managed entities the service then changes in place.
 */
module BookRepository {
  import opened Wrappers
  import opened Entities

  /** Spring Data's Pageable: every row, or one page of a fixed positive size. */
  type PageSize = n: int | n >= 1 witness 1
  datatype Pageable = Unpaged | PageRequest(number: nat, size: PageSize)

  function Min(a: int, b: int): int { if a <= b then a else b }

  /** The part of a query's result that a page covers (offset number * size, limit size). */
  function PageOf<T>(s: seq<T>, page: Pageable): (r: seq<T>)
    ensures page == Unpaged ==> r == s
    ensures page.PageRequest? ==> |r| <= page.size
    ensures page.PageRequest? && page.number == 0 ==> r == s[..Min(page.size, |s|)]
    ensures exists lo, hi | 0 <= lo <= hi <= |s| :: r == s[lo..hi]
    ensures page.PageRequest? ==>
      |r| == (if page.number * page.size >= |s| then 0 else Min(page.size, |s| - page.number * page.size))
    ensures page.PageRequest? ==> forall k | 0 <= k < |r| ::
      page.number * page.size + k < |s| && r[k] == s[page.number * page.size + k]
  {
    match page
    case Unpaged =>
      assert s == s[0..|s|];
      s
    case PageRequest(n, size) =>
      var lo := Min(n * size, |s|);
      var hi := Min(lo + size, |s|);
      assert s[lo..hi] == s[lo..hi];
      s[lo..hi]
  }

  predicate Increasing(s: seq<nat>) {
    forall i, j | 0 <= i < j < |s| :: s[i] < s[j]
  }

  /** A page keeps only members of the result, in the result's increasing order. */
  lemma PageIsSlice(s: seq<nat>, page: Pageable)
    requires Increasing(s)
    ensures Increasing(PageOf(s, page))
    ensures forall k | 0 <= k < |PageOf(s, page)| :: PageOf(s, page)[k] in s
  {
    var r := PageOf(s, page);
    var lo, hi :| 0 <= lo <= hi <= |s| && r == s[lo..hi];
    forall k | 0 <= k < |r| ensures r[k] in s {
      assert r[k] == s[lo + k];
    }
  }

  /** The positions of the rows that satisfy `keep`, in table order. */
  function PositionsWhere(rows: seq<Book>, keep: Book -> bool): (r: seq<nat>)
    ensures Increasing(r)
    ensures forall p | p in r :: p < |rows| && keep(rows[p])
    ensures forall p | 0 <= p < |rows| && keep(rows[p]) :: p in r
    decreases |rows|
  {
    if rows == [] then []
    else
      var r := PositionsWhere(rows[..|rows| - 1], keep);
      assert forall p | 0 <= p < |rows| - 1 :: rows[..|rows| - 1][p] == rows[p];
      assert forall k | 0 <= k < |r| :: r[k] in r;
      if keep(rows[|rows| - 1]) then r + [|rows| - 1] else r
  }

  /** The number of rows that satisfy `keep`. */
  function CountWhere(rows: seq<Book>, keep: Book -> bool): (n: nat)
    ensures n <= |rows|
  {
    if rows == [] then 0 else (if keep(rows[0]) then 1 else 0) + CountWhere(rows[1..], keep)
  }

  /** The condition of findAugmentationCandidates: no index, or an empty one. */
  predicate IsAugmentationCandidate(b: Book) {
    b.index == None || b.index == Some("")
  }

  /** findAugmentationCandidates: the books whose index is null or empty, one page of
      them. The default-image argument of the query does not take part in it. */
  function FindAugmentationCandidates(rows: seq<Book>, page: Pageable): (r: seq<nat>)
    ensures Increasing(r)
    ensures forall p | p in r :: p < |rows| && IsAugmentationCandidate(rows[p])
    ensures page == Unpaged ==> forall p | 0 <= p < |rows| && IsAugmentationCandidate(rows[p]) :: p in r
    ensures page.PageRequest? ==> r == PageOf(PositionsWhere(rows, IsAugmentationCandidate), page)
  {
    var all := PositionsWhere(rows, IsAugmentationCandidate);
    var r := PageOf(all, page);
    PageIsSlice(all, page);
    r
  }

  /** findByBookImageIsNotNull: the books that still hold an image. */
  function FindByImageIsNotNull(rows: seq<Book>): (r: seq<nat>)
    ensures Increasing(r)
    ensures forall p | p in r :: p < |rows| && rows[p].image.Some?
    ensures forall p | 0 <= p < |rows| && rows[p].image.Some? :: p in r
  {
    PositionsWhere(rows, (b: Book) => b.image.Some?)
  }

  /** The default regular price written over a zero one. */
  const DefaultRegularPrice := 10000

  /** The table after updateZeroRegularPricesToDefault. */
  function FixZeroRegularPrices(rows: seq<Book>): (r: seq<Book>)
    ensures |r| == |rows|
    ensures forall i | 0 <= i < |rows| :: r[i].regularPrice != 0
    ensures forall i | 0 <= i < |rows| :: rows[i].regularPrice == 0 ==> r[i].regularPrice == DefaultRegularPrice
    ensures forall i | 0 <= i < |rows| :: r[i] == rows[i].(regularPrice := r[i].regularPrice)
    ensures forall i | 0 <= i < |rows| :: rows[i].regularPrice != 0 ==> r[i] == rows[i]
  {
    seq(|rows|, i requires 0 <= i < |rows| =>
      if rows[i].regularPrice == 0 then rows[i].(regularPrice := DefaultRegularPrice) else rows[i])
  }

  /** The table after updateZeroSalePricesToRegularPrice. */
  function FixZeroSalePrices(rows: seq<Book>): (r: seq<Book>)
    ensures |r| == |rows|
    ensures forall i | 0 <= i < |rows| :: rows[i].salePrice == 0 ==> r[i].salePrice == rows[i].regularPrice
    ensures forall i | 0 <= i < |rows| :: r[i] == rows[i].(salePrice := r[i].salePrice)
    ensures forall i | 0 <= i < |rows| :: rows[i].salePrice != 0 ==> r[i] == rows[i]
  {
    seq(|rows|, i requires 0 <= i < |rows| =>
      if rows[i].salePrice == 0 then rows[i].(salePrice := rows[i].regularPrice) else rows[i])
  }

  /** The table after updateViewCount(bookId). */
  function IncrementViewCount(rows: seq<Book>, bookId: int): (r: seq<Book>)
    ensures |r| == |rows|
    ensures forall i | 0 <= i < |rows| && rows[i].id == Some(bookId) ::
      r[i] == rows[i].(viewCount := rows[i].viewCount + 1)
    ensures forall i | 0 <= i < |rows| && rows[i].id != Some(bookId) :: r[i] == rows[i]
  {
    seq(|rows|, i requires 0 <= i < |rows| =>
      if rows[i].id == Some(bookId) then rows[i].(viewCount := rows[i].viewCount + 1) else rows[i])
  }

  predicate ZeroRegular(b: Book) { b.regularPrice == 0 }
  predicate ZeroSale(b: Book) { b.salePrice == 0 }

  /** Stored rows carry distinct ids (the primary key). */
  predicate UniqueIds(rows: seq<Book>) {
    forall i, j | 0 <= i < j < |rows| && rows[i].id.Some? :: rows[i].id != rows[j].id
  }

  class BookTable {
    var rows: seq<Book>

    constructor(initial: seq<Book>)
      ensures rows == initial
    {
      rows := initial;
    }

    /** updateZeroRegularPricesToDefault: returns the number of rows it changed. */
    method UpdateZeroRegularPricesToDefault() returns (changed: nat)
      modifies this
      ensures rows == FixZeroRegularPrices(old(rows))
      ensures changed == CountWhere(old(rows), ZeroRegular)
    {
      changed := CountWhere(rows, ZeroRegular);
      rows := FixZeroRegularPrices(rows);
    }

    /** updateZeroSalePricesToRegularPrice: returns the number of rows it changed. */
    method UpdateZeroSalePricesToRegularPrice() returns (changed: nat)
      modifies this
      ensures rows == FixZeroSalePrices(old(rows))
      ensures changed == CountWhere(old(rows), ZeroSale)
    {
      changed := CountWhere(rows, ZeroSale);
      rows := FixZeroSalePrices(rows);
    }

    /** updateViewCount. */
    method UpdateViewCount(bookId: int)
      modifies this
      ensures rows == IncrementViewCount(old(rows), bookId)
    {
      rows := IncrementViewCount(rows, bookId);
    }
  }

  // ---------------------------------------------------------------------------
  // Properties of the queries and updates

  lemma {:induction false} CountWhereNone(rows: seq<Book>, keep: Book -> bool)
    requires forall i | 0 <= i < |rows| :: !keep(rows[i])
    ensures CountWhere(rows, keep) == 0
  {
    if rows != [] {
      assert !keep(rows[0]);
      CountWhereNone(rows[1..], keep);
    }
  }

  /** The count a bulk update returns is the number of rows it selects. */
  lemma {:induction false} CountWherePositions(rows: seq<Book>, keep: Book -> bool)
    ensures CountWhere(rows, keep) == |PositionsWhere(rows, keep)|
    decreases |rows|
  {
    if rows != [] {
      var init := rows[..|rows| - 1];
      CountWherePositions(init, keep);
      CountWhereSnoc(init, rows[|rows| - 1], keep);
      assert init + [rows[|rows| - 1]] == rows;
    }
  }

  lemma {:induction false} CountWhereSnoc(rows: seq<Book>, b: Book, keep: Book -> bool)
    ensures CountWhere(rows + [b], keep) == CountWhere(rows, keep) + (if keep(b) then 1 else 0)
    decreases |rows|
  {
    if rows == [] {
      assert [] + [b] == [b];
      assert [b][1..] == [];
    } else {
      assert (rows + [b])[1..] == rows[1..] + [b];
      CountWhereSnoc(rows[1..], b, keep);
    }
  }

  /** After the regular-price fix-up no zero regular price is left, so running it again
      changes nothing and reports 0. */
  lemma FixZeroRegularPricesIdempotent(rows: seq<Book>)
    ensures FixZeroRegularPrices(FixZeroRegularPrices(rows)) == FixZeroRegularPrices(rows)
    ensures CountWhere(FixZeroRegularPrices(rows), ZeroRegular) == 0
  {
    var r := FixZeroRegularPrices(rows);
    assert forall i | 0 <= i < |r| :: r[i].regularPrice != 0;
    CountWhereNone(r, ZeroRegular);
  }

  /** Fixing regular prices first and then sale prices leaves no zero sale price: every
      zero sale price is replaced by a regular price that is no longer zero. */
  lemma FixedPricesHaveNoZeroSale(rows: seq<Book>)
    ensures forall i | 0 <= i < |rows| ::
      FixZeroSalePrices(FixZeroRegularPrices(rows))[i].salePrice != 0
  {
  }

  /** Without the regular fix-up first, a row whose regular price is also 0 keeps a zero
      sale price: the sale fix-up rewrites it, and counts it again, on every run. */
  lemma FixZeroSaleRepeats(rows: seq<Book>)
    requires forall i | 0 <= i < |rows| :: rows[i].salePrice == 0 && rows[i].regularPrice == 0
    ensures FixZeroSalePrices(rows) == rows
    ensures CountWhere(FixZeroSalePrices(rows), ZeroSale) == |rows|
  {
    CountWherePositions(rows, ZeroSale);
    var ps := PositionsWhere(rows, ZeroSale);
    forall k | 0 <= k < |rows| ensures k in ps {
      assert ZeroSale(rows[k]);
    }
    assert forall j | 0 <= j < |ps| :: ps[j] in ps;
    PositionsCover(ps, |rows|);
  }

  /** A strictly increasing sequence of positions below n that covers every position
      below n has length n. */
  lemma {:induction false} PositionsCover(ps: seq<nat>, n: nat)
    requires Increasing(ps) && forall j | 0 <= j < |ps| :: ps[j] < n
    requires forall k | 0 <= k < n :: k in ps
    ensures |ps| == n
    decreases n
  {
    if n > 0 {
      assert n - 1 in ps;
      var last := |ps| - 1;
      assert ps[last] == n - 1 by {
        var j :| 0 <= j < |ps| && ps[j] == n - 1;
      }
      var init := ps[..last];
      forall k | 0 <= k < n - 1 ensures k in init {
        assert k in ps;
        var j :| 0 <= j < |ps| && ps[j] == k;
        assert j != last;
        assert init[j] == k;
      }
      forall j | 0 <= j < |init| ensures init[j] < n - 1 {
        assert ps[j] < ps[last];
      }
      PositionsCover(init, n - 1);
    }
  }

  /** With distinct ids, updateViewCount changes exactly one row when the id is
      stored, and none when it is not. */
  lemma ViewCountTouchesOneRow(rows: seq<Book>, bookId: int, i: nat)
    requires UniqueIds(rows) && i < |rows| && rows[i].id == Some(bookId)
    ensures IncrementViewCount(rows, bookId)[i].viewCount == rows[i].viewCount + 1
    ensures forall j | 0 <= j < |rows| && j != i :: IncrementViewCount(rows, bookId)[j] == rows[j]
  {
    forall j | 0 <= j < |rows| && j != i ensures rows[j].id != Some(bookId) {
      if j < i {
        assert rows[j].id != rows[i].id || rows[j].id.None?;
      }
    }
  }

  /** A book whose index has been set to something non-empty is never selected again. */
  lemma FilledIndexNotSelected(rows: seq<Book>, page: Pageable, p: nat, text: string)
    requires p < |rows| && text != ""
    ensures p !in FindAugmentationCandidates(rows[p := rows[p].(index := Some(text))], page)
  {
  }

  /** A book whose image has been cleared is never selected again for relocation. */
  lemma ClearedImageNotSelected(rows: seq<Book>, p: nat)
    requires p < |rows|
    ensures p !in FindByImageIsNotNull(rows[p := rows[p].(image := None)])
  {
  }

  /** Two consecutive pages of the same size cover one contiguous window of the result:
      page n + 1 starts where page n ends. */
  lemma PagesTile<T>(s: seq<T>, n: nat, size: PageSize)
    ensures PageOf(s, PageRequest(n, size)) + PageOf(s, PageRequest(n + 1, size))
      == s[Min(n * size, |s|)..Min((n + 2) * size, |s|)]
  {
    assert (n + 1) * size == n * size + size;
    assert (n + 2) * size == n * size + size + size;
    var lo := Min(n * size, |s|);
    var mid := Min(lo + size, |s|);
    var hi := Min(Min((n + 1) * size, |s|) + size, |s|);
    assert mid == Min((n + 1) * size, |s|);
    assert hi == Min((n + 2) * size, |s|);
    assert s[lo..mid] + s[mid..hi] == s[lo..hi];
  }

  /** Every element of the result is on a page: the i-th one is at offset i % size of
      page i / size. */
  lemma PageHolds<T>(s: seq<T>, size: PageSize, i: nat)
    requires i < |s|
    ensures i % size < |PageOf(s, PageRequest(i / size, size))|
    ensures PageOf(s, PageRequest(i / size, size))[i % size] == s[i]
  {
    var n := i / size;
    assert n * size + i % size == i;
  }

  /** Two increasing lists with the same members are equal. */
  lemma {:induction false} IncreasingSameMembers(a: seq<nat>, b: seq<nat>)
    requires Increasing(a) && Increasing(b)
    requires forall x :: x in a <==> x in b
    ensures a == b
    decreases |a| + |b|
  {
    assert a != [] ==> a[0] in b;
    assert b != [] ==> b[0] in a;
    if a != [] {
      assert a[0] in b && b[0] in a;
      assert a[0] == b[0];
      forall x ensures x in a[1..] <==> x in b[1..] {
        if x in a[1..] {
          assert x in a && x != a[0];
        }
        if x in b[1..] {
          assert x in b && x != b[0];
        }
      }
      IncreasingSameMembers(a[1..], b[1..]);
      assert a == [a[0]] + a[1..] && b == [b[0]] + b[1..];
    }
  }

  /** The positions of the selected rows, in table order, each once: any increasing list
      of exactly those positions is PositionsWhere. */
  lemma PositionsWhereUnique(rows: seq<Book>, keep: Book -> bool, s: seq<nat>)
    requires Increasing(s)
    requires forall p | p in s :: p < |rows| && keep(rows[p])
    requires forall p | 0 <= p < |rows| && keep(rows[p]) :: p in s
    ensures s == PositionsWhere(rows, keep)
  {
    IncreasingSameMembers(s, PositionsWhere(rows, keep));
  }

  /** Page n of findAugmentationCandidates is full while enough candidates remain past
      its offset n * size, holds the rest of them on the last page, and is empty after. */
  lemma CandidatePageSize(rows: seq<Book>, n: nat, size: PageSize)
    ensures |FindAugmentationCandidates(rows, PageRequest(n, size))|
      == (if n * size >= CountWhere(rows, IsAugmentationCandidate) then 0
          else Min(size, CountWhere(rows, IsAugmentationCandidate) - n * size))
  {
    CountWherePositions(rows, IsAugmentationCandidate);
  }

  /** The k-th book of page n is the candidate with exactly n * size + k candidates
      before it in table order. */
  lemma CandidatePageRank(rows: seq<Book>, n: nat, size: PageSize, k: nat)
    requires k < |FindAugmentationCandidates(rows, PageRequest(n, size))|
    ensures FindAugmentationCandidates(rows, PageRequest(n, size))[k] < |rows|
    ensures IsAugmentationCandidate(rows[FindAugmentationCandidates(rows, PageRequest(n, size))[k]])
    ensures CountWhere(rows[..FindAugmentationCandidates(rows, PageRequest(n, size))[k]], IsAugmentationCandidate)
      == n * size + k
  {
    var all := PositionsWhere(rows, IsAugmentationCandidate);
    var r := FindAugmentationCandidates(rows, PageRequest(n, size));
    assert r[k] == all[n * size + k];
    assert r[k] in r;
    PositionsRank(rows, IsAugmentationCandidate, n * size + k);
    CountWherePositions(rows[..r[k]], IsAugmentationCandidate);
  }

  /** The j-th selected position has exactly j selected rows before it. */
  lemma PositionsRank(rows: seq<Book>, keep: Book -> bool, j: nat)
    requires j < |PositionsWhere(rows, keep)|
    ensures PositionsWhere(rows, keep)[j] < |rows|
    ensures |PositionsWhere(rows[..PositionsWhere(rows, keep)[j]], keep)| == j
  {
    var all := PositionsWhere(rows, keep);
    var p := all[j];
    assert all[j] in all;
    var pre := rows[..p];
    assert forall q | 0 <= q < p :: pre[q] == rows[q];
    PositionsWhereUnique(pre, keep, all[..j]);
  }
}
