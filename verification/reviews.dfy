/**
 * ReviewServiceImpl: writing and editing reviews, each followed by recomputing the
 * reviewed book's rating from that book's reviews. The ids of the stored members, the
 * clock and the ids the review table hands out are parameters. The rating is computed
 * on exact rationals: the double arithmetic of the average and of the rounding is
 * outside the model.
 */
module Reviews {
  import opened Wrappers
  import opened Entities
  import opened BookRepository

  const BookMissingMessage := "존재하지 않는 도서입니다."
  const MemberMissingMessage := "존재하지 않는 회원입니다."
  const ReviewMissingMessage := "존재하지 않는 리뷰입니다."
  const NotAuthorMessage := "AUTHORIZATION_FAILURE: 리뷰 수정 권한이 없습니다. (작성자 ID 불일치)"
  /** The message of updateBookAverageRating when the book is gone. */
  const RatedBookMissingMessage := "도서가 존재하지 않습니다."

  /** A review; `updatedAt` stays null until the first edit. */
  datatype Review = Review(reviewId: int, bookId: int, memberId: int, rate: int, contents: string,
                           createdAt: int, updatedAt: Option<int>)

  /** The book ids of the review table, row by row. */
  function BookIdsOf(reviews: seq<Review>): (r: seq<int>)
    ensures |r| == |reviews| && forall k | 0 <= k < |reviews| :: r[k] == reviews[k].bookId
  {
    seq(|reviews|, k requires 0 <= k < |reviews| => reviews[k].bookId)
  }

  /** The rates of the book's reviews, in table order. */
  function RatesOf(reviews: seq<Review>, bookId: int): (r: seq<int>)
    ensures |r| <= |reviews|
    ensures forall k | 0 <= k < |reviews| && reviews[k].bookId == bookId :: reviews[k].rate in r
  {
    if reviews == [] then []
    else
      var rest := RatesOf(reviews[1..], bookId);
      assert forall k | 1 <= k < |reviews| :: reviews[k] == reviews[1..][k - 1];
      (if reviews[0].bookId == bookId then [reviews[0].rate] else []) + rest
  }

  /** One rate per review of the book. */
  lemma {:induction false} RatesOfCount(reviews: seq<Review>, bookId: int)
    ensures |RatesOf(reviews, bookId)| == multiset(BookIdsOf(reviews))[bookId]
  {
    if reviews != [] {
      RatesOfCount(reviews[1..], bookId);
      assert BookIdsOf(reviews) == [reviews[0].bookId] + BookIdsOf(reviews[1..]);
    }
  }

  /** The review a rate is taken from. */
  lemma {:induction false} RatesOfSource(reviews: seq<Review>, bookId: int, j: nat) returns (k: nat)
    requires j < |RatesOf(reviews, bookId)|
    ensures k < |reviews| && reviews[k].bookId == bookId && reviews[k].rate == RatesOf(reviews, bookId)[j]
  {
    var head := if reviews[0].bookId == bookId then [reviews[0].rate] else [];
    var rest := RatesOf(reviews[1..], bookId);
    assert RatesOf(reviews, bookId) == head + rest;
    if j < |head| {
      k := 0;
    } else {
      var k' := RatesOfSource(reviews[1..], bookId, j - |head|);
      k := k' + 1;
      assert reviews[k] == reviews[1..][k'];
    }
  }

  /** Some review of the book has this rate. */
  predicate RateOfBook(reviews: seq<Review>, bookId: int, rate: int) {
    exists k | 0 <= k < |reviews| :: reviews[k].bookId == bookId && reviews[k].rate == rate
  }

  /** Every rate is taken from a review of the book. */
  lemma RatesOfProvenance(reviews: seq<Review>, bookId: int)
    ensures forall j | 0 <= j < |RatesOf(reviews, bookId)| :: RateOfBook(reviews, bookId, RatesOf(reviews, bookId)[j])
  {
    forall j | 0 <= j < |RatesOf(reviews, bookId)|
      ensures RateOfBook(reviews, bookId, RatesOf(reviews, bookId)[j])
    {
      var k := RatesOfSource(reviews, bookId, j);
    }
  }

  function Sum(s: seq<int>): int {
    if s == [] then 0 else s[0] + Sum(s[1..])
  }

  /** Math.round(x * 100.0) / 100.0: x rounded half up to two decimals. */
  function RoundToCents(x: real): real {
    ((x * 100.0 + 0.5).Floor as real) / 100.0
  }

  /** The rating updateBookAverageRating writes: the average of the book's rates,
      rounded, or 0.0 when the book has no review (the average query gives null). */
  function RatingOf(reviews: seq<Review>, bookId: int): (r: real)
    ensures RatesOf(reviews, bookId) == [] ==> r == 0.0
  {
    var rates := RatesOf(reviews, bookId);
    if rates == [] then 0.0 else RoundToCents(Sum(rates) as real / |rates| as real)
  }

  /** findById on the book table. */
  predicate HasBook(rows: seq<Book>, bookId: int) {
    exists k | 0 <= k < |rows| :: rows[k].id == Some(bookId)
  }

  /** The book table with the book's rating set. */
  function WithRating(rows: seq<Book>, bookId: int, rating: real): (r: seq<Book>)
    ensures |r| == |rows|
    ensures forall k | 0 <= k < |rows| && rows[k].id == Some(bookId) :: r[k] == rows[k].(reviewRate := rating)
    ensures forall k | 0 <= k < |rows| && rows[k].id != Some(bookId) :: r[k] == rows[k]
  {
    seq(|rows|, k requires 0 <= k < |rows| =>
      if rows[k].id == Some(bookId) then rows[k].(reviewRate := rating) else rows[k])
  }

  /** updateBookAverageRating: the book table afterwards, or the error for a missing
      book (the table then unchanged). */
  function Rerated(rows: seq<Book>, reviews: seq<Review>, bookId: int): (r: Result<seq<Book>, string>)
    ensures r.Err? <==> !HasBook(rows, bookId)
    ensures r.Err? ==> r.error == RatedBookMissingMessage
    ensures r.Ok? ==> r.value == WithRating(rows, bookId, RatingOf(reviews, bookId))
  {
    if HasBook(rows, bookId) then Ok(WithRating(rows, bookId, RatingOf(reviews, bookId)))
    else Err(RatedBookMissingMessage)
  }

  /** The state the review service works on: the review table, its next id, the books. */
  datatype Store = Store(reviews: seq<Review>, nextId: int, books: seq<Book>)

  /** createReview: the new review's id, or the error, and the store afterwards. The
      book is looked up before the member. */
  function Created(s: Store, members: set<int>, bookId: int, memberId: int, rate: int,
                   contents: string, now: int): (r: (Result<int, string>, Store))
    ensures !HasBook(s.books, bookId) ==> r == (Err(BookMissingMessage), s)
    ensures HasBook(s.books, bookId) && memberId !in members ==> r == (Err(MemberMissingMessage), s)
    ensures r.0.Ok? ==>
      && r.0.value == s.nextId
      && r.1.reviews == s.reviews + [Review(s.nextId, bookId, memberId, rate, contents, now, None)]
      && r.1.nextId == s.nextId + 1
      && r.1.books == WithRating(s.books, bookId, RatingOf(r.1.reviews, bookId))
  {
    if !HasBook(s.books, bookId) then (Err(BookMissingMessage), s)
    else if memberId !in members then (Err(MemberMissingMessage), s)
    else
      var reviews := s.reviews + [Review(s.nextId, bookId, memberId, rate, contents, now, None)];
      (Ok(s.nextId), Store(reviews, s.nextId + 1, WithRating(s.books, bookId, RatingOf(reviews, bookId))))
  }

  /** findById on the review table. */
  function FindReview(reviews: seq<Review>, reviewId: int): (r: Option<nat>)
    ensures r.Some? ==> r.value < |reviews| && reviews[r.value].reviewId == reviewId
    ensures r.None? ==> forall k | 0 <= k < |reviews| :: reviews[k].reviewId != reviewId
  {
    if reviews == [] then None
    else if reviews[0].reviewId == reviewId then Some(0)
    else
      var rest := FindReview(reviews[1..], reviewId);
      assert forall k | 1 <= k < |reviews| :: reviews[k] == reviews[1..][k - 1];
      if rest.None? then None else Some(rest.value + 1)
  }

  /** updateReview: the error, if any, and the store afterwards. Only the author may
      edit; a failure at any point leaves the store as it was (the transaction rolls
      back). */
  function Updated(s: Store, reviewId: int, rate: int, contents: string, memberId: int, now: int)
    : (r: (Result<(), string>, Store))
    ensures FindReview(s.reviews, reviewId).None? ==> r == (Err(ReviewMissingMessage), s)
    ensures (FindReview(s.reviews, reviewId).Some? &&
             s.reviews[FindReview(s.reviews, reviewId).value].memberId != memberId)
            ==> r == (Err(NotAuthorMessage), s)
    ensures r.0.Err? ==> r.1 == s
    ensures r.0.Ok? ==>
      var i := FindReview(s.reviews, reviewId).value;
      && s.reviews[i].memberId == memberId
      && r.1.reviews == s.reviews[i := s.reviews[i].(rate := rate, contents := contents, updatedAt := Some(now))]
      && r.1.nextId == s.nextId
      && r.1.books == WithRating(s.books, s.reviews[i].bookId, RatingOf(r.1.reviews, s.reviews[i].bookId))
  {
    match FindReview(s.reviews, reviewId)
    case None => (Err(ReviewMissingMessage), s)
    case Some(i) =>
      var review := s.reviews[i];
      if review.memberId != memberId then (Err(NotAuthorMessage), s)
      else
        var reviews := s.reviews[i := review.(rate := rate, contents := contents, updatedAt := Some(now))];
        match Rerated(s.books, reviews, review.bookId)
        case Err(e) => (Err(e), s)
        case Ok(books) => (Ok(()), Store(reviews, s.nextId, books))
  }

  /** The review table. */
  class ReviewTable {
    var reviews: seq<Review>
    var nextId: int

    constructor(initial: seq<Review>, firstId: int)
      ensures reviews == initial && nextId == firstId
    {
      reviews, nextId := initial, firstId;
    }

    /** updateBookAverageRating. */
    method UpdateBookAverageRating(books: BookTable, bookId: int) returns (r: Result<(), string>)
      modifies books
      ensures r.Ok? ==> Rerated(old(books.rows), reviews, bookId) == Ok(books.rows)
      ensures r.Err? ==> Rerated(old(books.rows), reviews, bookId) == Err(r.error) && books.rows == old(books.rows)
    {
      var rating := RatingOf(reviews, bookId);
      if !HasBook(books.rows, bookId) {
        return Err(RatedBookMissingMessage);
      }
      books.rows := WithRating(books.rows, bookId, rating);
      return Ok(());
    }

    /** createReview. */
    method CreateReview(books: BookTable, members: set<int>, bookId: int, memberId: int, rate: int,
                        contents: string, now: int) returns (r: Result<int, string>)
      modifies this, books
      ensures (r, Store(reviews, nextId, books.rows))
        == Created(old(Store(reviews, nextId, books.rows)), members, bookId, memberId, rate, contents, now)
    {
      if !HasBook(books.rows, bookId) {
        return Err(BookMissingMessage);
      }
      if memberId !in members {
        return Err(MemberMissingMessage);
      }
      var id := nextId;
      reviews := reviews + [Review(id, bookId, memberId, rate, contents, now, None)];
      nextId := nextId + 1;
      var rerated := UpdateBookAverageRating(books, bookId);
      return Ok(id);
    }

    /** updateReview. */
    method UpdateReview(books: BookTable, reviewId: int, rate: int, contents: string, memberId: int,
                        now: int) returns (r: Result<(), string>)
      modifies this, books
      ensures (r, Store(reviews, nextId, books.rows))
        == Updated(old(Store(reviews, nextId, books.rows)), reviewId, rate, contents, memberId, now)
    {
      ghost var s0 := Store(reviews, nextId, books.rows);
      var found := FindReview(reviews, reviewId);
      if found.None? {
        return Err(ReviewMissingMessage);
      }
      var i := found.value;
      var review := reviews[i];
      if review.memberId != memberId {
        return Err(NotAuthorMessage);
      }
      var before := reviews;
      var edited := reviews[i := review.(rate := rate, contents := contents, updatedAt := Some(now))];
      reviews := edited;
      var rerated := UpdateBookAverageRating(books, review.bookId);
      if rerated.Err? {
        reviews := before;
        r := Err(rerated.error);
        assert Updated(s0, reviewId, rate, contents, memberId, now) == (r, s0);
      } else {
        assert Rerated(s0.books, edited, review.bookId) == Ok(books.rows);
        r := Ok(());
        assert Updated(s0, reviewId, rate, contents, memberId, now) == (r, Store(edited, s0.nextId, books.rows));
      }
    }
  }

  // ---------------------------------------------------------------------------
  // Properties

  lemma {:induction false} SumBounds(s: seq<int>, lo: int, hi: int)
    requires forall k | 0 <= k < |s| :: lo <= s[k] <= hi
    ensures lo * |s| <= Sum(s) <= hi * |s|
  {
    if s != [] {
      assert forall k | 0 <= k < |s[1..]| :: s[1..][k] == s[k + 1];
      SumBounds(s[1..], lo, hi);
      assert lo * |s| == lo + lo * |s[1..]| && hi * |s| == hi + hi * |s[1..]|;
    }
  }

  /** Rounding to cents keeps a value between two whole numbers between them. */
  lemma RoundToCentsBetween(x: real, lo: int, hi: int)
    requires lo as real <= x <= hi as real
    ensures lo as real <= RoundToCents(x) <= hi as real
  {
    var f := (x * 100.0 + 0.5).Floor;
    assert f as real <= x * 100.0 + 0.5 < f as real + 1.0;
    assert lo * 100 <= f <= hi * 100;
  }

  /** The rating of a reviewed book lies between its lowest and its highest rate; an
      average that is a whole number is kept as it is. */
  lemma RatingWithinRates(reviews: seq<Review>, bookId: int, lo: int, hi: int)
    requires RatesOf(reviews, bookId) != []
    requires forall k | 0 <= k < |RatesOf(reviews, bookId)| :: lo <= RatesOf(reviews, bookId)[k] <= hi
    ensures lo as real <= RatingOf(reviews, bookId) <= hi as real
  {
    var rates := RatesOf(reviews, bookId);
    SumBounds(rates, lo, hi);
    AverageBetween(Sum(rates), |rates|, lo, hi);
    RoundToCentsBetween(Sum(rates) as real / |rates| as real, lo, hi);
  }

  lemma AverageBetween(sum: int, n: int, lo: int, hi: int)
    requires n > 0 && lo * n <= sum <= hi * n
    ensures lo as real <= sum as real / n as real <= hi as real
  {
    var avg := sum as real / n as real;
    assert avg * n as real == sum as real;
    assert (avg - lo as real) * n as real >= 0.0 by {
      assert (lo * n) as real == lo as real * n as real;
    }
    assert (hi as real - avg) * n as real >= 0.0 by {
      assert (hi * n) as real == hi as real * n as real;
    }
  }

  /** Math.round(4.555 * 100.0) / 100.0 on exact values is 4.56; a whole number stays. */
  lemma RoundToCentsSamples(k: int)
    ensures RoundToCents(4.555) == 4.56
    ensures RoundToCents(k as real) == k as real
  {
    assert (k as real * 100.0 + 0.5).Floor == k * 100;
  }

  /** A rejected edit changes nothing, whatever the edit asked for. */
  lemma NonAuthorCannotEdit(s: Store, reviewId: int, rate: int, contents: string, memberId: int, now: int)
    requires FindReview(s.reviews, reviewId).Some?
    requires s.reviews[FindReview(s.reviews, reviewId).value].memberId != memberId
    ensures Updated(s, reviewId, rate, contents, memberId, now) == (Err(NotAuthorMessage), s)
  {
  }

  /** An edit changes one review and the rating of that review's book: every other
      review, and every other book, stays as it was. */
  lemma EditIsLocal(s: Store, reviewId: int, rate: int, contents: string, memberId: int, now: int)
    requires Updated(s, reviewId, rate, contents, memberId, now).0.Ok?
    ensures var after := Updated(s, reviewId, rate, contents, memberId, now).1;
      var i := FindReview(s.reviews, reviewId).value;
      && |after.reviews| == |s.reviews|
      && (forall k | 0 <= k < |s.reviews| && k != i :: after.reviews[k] == s.reviews[k])
      && (forall k | 0 <= k < |s.books| && s.books[k].id != Some(s.reviews[i].bookId) :: after.books[k] == s.books[k])
  {
  }

  /** A new review counts toward its own book's rating and no other book's. */
  lemma NewReviewRatesItsBook(reviews: seq<Review>, r: Review, other: int)
    requires other != r.bookId
    ensures RatesOf(reviews + [r], r.bookId) == RatesOf(reviews, r.bookId) + [r.rate]
    ensures RatesOf(reviews + [r], other) == RatesOf(reviews, other)
  {
    RatesOfSnoc(reviews, r, r.bookId);
    RatesOfSnoc(reviews, r, other);
  }

  lemma {:induction false} RatesOfSnoc(reviews: seq<Review>, r: Review, bookId: int)
    ensures RatesOf(reviews + [r], bookId)
      == RatesOf(reviews, bookId) + (if r.bookId == bookId then [r.rate] else [])
  {
    if reviews != [] {
      assert (reviews + [r])[1..] == reviews[1..] + [r];
      RatesOfSnoc(reviews[1..], r, bookId);
    } else {
      assert [] + [r] == [r];
    }
  }
}
