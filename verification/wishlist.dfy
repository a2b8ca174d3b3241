/**
 * WishlistServiceImpl: a member marks a book as wished for, or takes the mark back.
 * The wishlist table holds (member, book) rows under a unique constraint on the pair;
 * the ids of the stored members and books are parameters.
 */
module Wishlists {
  import opened Wrappers
  import opened JavaNumbers

  /** A wishlist row. */
  datatype Wish = Wish(id: int, memberId: int, bookId: int)

  predicate IsPair(w: Wish, memberId: int, bookId: int) {
    w.memberId == memberId && w.bookId == bookId
  }

  /** The (member, book) pairs the table holds. */
  function Pairs(rows: seq<Wish>): set<(int, int)> {
    set k | 0 <= k < |rows| :: (rows[k].memberId, rows[k].bookId)
  }

  /** The unique constraint on (member_id, book_id). */
  predicate AtMostOnePerPair(rows: seq<Wish>) {
    forall i, j | 0 <= i < j < |rows| :: !IsPair(rows[j], rows[i].memberId, rows[i].bookId)
  }

  /** findByMemberAndBook: the position of the pair's row. */
  function FindPair(rows: seq<Wish>, memberId: int, bookId: int): (r: Option<nat>)
    ensures r.Some? ==> r.value < |rows| && IsPair(rows[r.value], memberId, bookId)
    ensures r.Some? ==> forall j | 0 <= j < r.value :: !IsPair(rows[j], memberId, bookId)
    ensures r.None? <==> (memberId, bookId) !in Pairs(rows)
  {
    if rows == [] then None
    else if IsPair(rows[0], memberId, bookId) then Some(0)
    else
      var rest := FindPair(rows[1..], memberId, bookId);
      assert Pairs(rows) == {(rows[0].memberId, rows[0].bookId)} + Pairs(rows[1..]) by {
        forall p | p in Pairs(rows) ensures p in {(rows[0].memberId, rows[0].bookId)} + Pairs(rows[1..]) {
          var k :| 0 <= k < |rows| && p == (rows[k].memberId, rows[k].bookId);
          if k > 0 {
            assert rows[1..][k - 1] == rows[k];
          }
        }
      }
      if rest.None? then None else Some(rest.value + 1)
  }

  /** The message of the IllegalArgumentException for an unknown member. */
  function MemberNotFound(memberId: int): string {
    "회원 정보를 찾을 수 없습니다. ID: " + DecimalString(memberId)
  }

  /** The message of the IllegalArgumentException for an unknown book. */
  function BookNotFound(bookId: int): string {
    "도서 정보를 찾을 수 없습니다. ID: " + DecimalString(bookId)
  }

  /** toggleWishlist against a table holding `rows`, with `nextId` the id the next
      insert gets: the result, and the table and counter afterwards. */
  function Toggled(rows: seq<Wish>, nextId: int, members: set<int>, books: set<int>,
                   memberId: int, bookId: int): (r: (Result<bool, string>, seq<Wish>, int))
    ensures memberId !in members ==> r == (Err(MemberNotFound(memberId)), rows, nextId)
    ensures memberId in members && bookId !in books ==> r == (Err(BookNotFound(bookId)), rows, nextId)
    ensures memberId in members && bookId in books ==>
      && r.0 == Ok((memberId, bookId) !in Pairs(rows))
      && (AtMostOnePerPair(rows) ==> r.0 == Ok((memberId, bookId) in Pairs(r.1)))
  {
    if memberId !in members then (Err(MemberNotFound(memberId)), rows, nextId)
    else if bookId !in books then (Err(BookNotFound(bookId)), rows, nextId)
    else match FindPair(rows, memberId, bookId)
      case Some(i) =>
        var after := rows[..i] + rows[i + 1..];
        RemoveRow(rows, i);
        (Ok(false), after, nextId)
      case None =>
        var after := rows + [Wish(nextId, memberId, bookId)];
        AppendRow(rows, Wish(nextId, memberId, bookId));
        (Ok(true), after, nextId + 1)
  }

  /** The wishlist table. */
  class WishlistTable {
    var rows: seq<Wish>
    var nextId: int

    constructor(initial: seq<Wish>, firstId: int)
      ensures rows == initial && nextId == firstId
    {
      rows, nextId := initial, firstId;
    }

    /** toggleWishlist: true when the pair was added, false when it was removed. */
    method ToggleWishlist(members: set<int>, books: set<int>, memberId: int, bookId: int)
      returns (r: Result<bool, string>)
      modifies this
      ensures (r, rows, nextId) == Toggled(old(rows), old(nextId), members, books, memberId, bookId)
    {
      if memberId !in members {
        return Err(MemberNotFound(memberId));
      }
      if bookId !in books {
        return Err(BookNotFound(bookId));
      }
      var found := FindPair(rows, memberId, bookId);
      if found.Some? {
        rows := rows[..found.value] + rows[found.value + 1..];
        return Ok(false);
      }
      rows := rows + [Wish(nextId, memberId, bookId)];
      nextId := nextId + 1;
      return Ok(true);
    }
  }

  // ---------------------------------------------------------------------------
  // Properties

  lemma AppendRow(rows: seq<Wish>, w: Wish)
    ensures Pairs(rows + [w]) == Pairs(rows) + {(w.memberId, w.bookId)}
  {
    var s := rows + [w];
    forall p | p in Pairs(s) ensures p in Pairs(rows) + {(w.memberId, w.bookId)} {
      var k :| 0 <= k < |s| && p == (s[k].memberId, s[k].bookId);
      if k < |rows| {
        assert s[k] == rows[k];
      }
    }
    forall p | p in Pairs(rows) ensures p in Pairs(s) {
      var k :| 0 <= k < |rows| && p == (rows[k].memberId, rows[k].bookId);
      assert s[k] == rows[k];
    }
    assert s[|rows|] == w;
  }

  /** Deleting the first row of a pair: under the unique constraint the pair is gone and
      every other pair stays. */
  lemma RemoveRow(rows: seq<Wish>, i: nat)
    requires i < |rows|
    requires forall j | 0 <= j < i :: !IsPair(rows[j], rows[i].memberId, rows[i].bookId)
    ensures Pairs(rows[..i] + rows[i + 1..]) <= Pairs(rows)
    ensures Pairs(rows) - {(rows[i].memberId, rows[i].bookId)} <= Pairs(rows[..i] + rows[i + 1..])
    ensures AtMostOnePerPair(rows) ==>
      Pairs(rows[..i] + rows[i + 1..]) == Pairs(rows) - {(rows[i].memberId, rows[i].bookId)}
  {
    var s := rows[..i] + rows[i + 1..];
    forall p | p in Pairs(s) ensures p in Pairs(rows) {
      var k :| 0 <= k < |s| && p == (s[k].memberId, s[k].bookId);
      if k < i {
        assert s[k] == rows[k];
      } else {
        assert s[k] == rows[k + 1];
      }
    }
    forall p | p in Pairs(rows) && p != (rows[i].memberId, rows[i].bookId) ensures p in Pairs(s) {
      var k :| 0 <= k < |rows| && p == (rows[k].memberId, rows[k].bookId);
      if k < i {
        assert s[k] == rows[k];
      } else {
        assert s[k - 1] == rows[k];
      }
    }
    if AtMostOnePerPair(rows) {
      forall k | 0 <= k < |s| ensures (s[k].memberId, s[k].bookId) != (rows[i].memberId, rows[i].bookId) {
        if k < i {
          assert s[k] == rows[k];
        } else {
          assert s[k] == rows[k + 1];
        }
      }
    }
  }

  /** A toggle changes the membership of its own pair and of no other pair. */
  lemma ToggleTouchesOnePair(rows: seq<Wish>, nextId: int, members: set<int>, books: set<int>,
                             memberId: int, bookId: int)
    requires AtMostOnePerPair(rows)
    ensures var after := Toggled(rows, nextId, members, books, memberId, bookId).1;
      Pairs(after) - {(memberId, bookId)} == Pairs(rows) - {(memberId, bookId)}
  {
    if memberId in members && bookId in books {
      match FindPair(rows, memberId, bookId)
      case Some(i) => RemoveRow(rows, i);
      case None => AppendRow(rows, Wish(nextId, memberId, bookId));
    }
  }

  /** The unique constraint holds after every toggle. */
  lemma ToggleKeepsPairsUnique(rows: seq<Wish>, nextId: int, members: set<int>, books: set<int>,
                               memberId: int, bookId: int)
    requires AtMostOnePerPair(rows)
    ensures AtMostOnePerPair(Toggled(rows, nextId, members, books, memberId, bookId).1)
  {
    var after := Toggled(rows, nextId, members, books, memberId, bookId).1;
    if memberId in members && bookId in books {
      match FindPair(rows, memberId, bookId)
      case Some(i) =>
        forall a, b | 0 <= a < b < |after| ensures !IsPair(after[b], after[a].memberId, after[a].bookId) {
          var a0 := if a < i then a else a + 1;
          var b0 := if b < i then b else b + 1;
          assert after[a] == rows[a0] && after[b] == rows[b0];
        }
      case None =>
        forall a, b | 0 <= a < b < |after| ensures !IsPair(after[b], after[a].memberId, after[a].bookId) {
          if b == |rows| {
            assert (after[a].memberId, after[a].bookId) in Pairs(rows) by {
              assert after[a] == rows[a];
            }
          } else {
            assert after[a] == rows[a] && after[b] == rows[b];
          }
        }
    }
  }

  /** Toggling the same pair twice gives back the same pairs, and, when the pair was
      absent, the very same rows. */
  lemma ToggleTwiceRestores(rows: seq<Wish>, nextId: int, members: set<int>, books: set<int>,
                            memberId: int, bookId: int)
    requires AtMostOnePerPair(rows) && memberId in members && bookId in books
    ensures var once := Toggled(rows, nextId, members, books, memberId, bookId);
      var twice := Toggled(once.1, once.2, members, books, memberId, bookId);
      && Pairs(twice.1) == Pairs(rows)
      && twice.0 == Ok(!once.0.value)
      && ((memberId, bookId) !in Pairs(rows) ==> twice.1 == rows)
  {
    var p := (memberId, bookId);
    var once := Toggled(rows, nextId, members, books, memberId, bookId);
    var twice := Toggled(once.1, once.2, members, books, memberId, bookId);
    ToggleKeepsPairsUnique(rows, nextId, members, books, memberId, bookId);
    ToggleTouchesOnePair(rows, nextId, members, books, memberId, bookId);
    ToggleTouchesOnePair(once.1, once.2, members, books, memberId, bookId);
    assert (p in Pairs(twice.1)) == (p in Pairs(rows));
    assert Pairs(twice.1) == (Pairs(twice.1) - {p}) + (Pairs(twice.1) * {p});
    assert Pairs(rows) == (Pairs(rows) - {p}) + (Pairs(rows) * {p});
    if p !in Pairs(rows) {
      var after := once.1;
      assert after == rows + [Wish(nextId, memberId, bookId)];
      var i := |rows|;
      forall j | 0 <= j < i ensures !IsPair(after[j], memberId, bookId) {
        assert after[j] == rows[j];
        assert (rows[j].memberId, rows[j].bookId) in Pairs(rows);
      }
      FindPairAt(after, memberId, bookId, i);
      assert after[..i] + after[i + 1..] == rows;
    }
  }

  lemma FindPairAt(rows: seq<Wish>, memberId: int, bookId: int, i: nat)
    requires i < |rows| && IsPair(rows[i], memberId, bookId)
    requires forall j | 0 <= j < i :: !IsPair(rows[j], memberId, bookId)
    ensures FindPair(rows, memberId, bookId) == Some(i)
  {
    if i > 0 {
      FindPairAt(rows[1..], memberId, bookId, i - 1);
    }
  }
}
