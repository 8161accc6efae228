/**
 The review session of the feedback page: the product catalogue with its
 running rating totals, the list of stored reviews, and the "Submit
 Review" button that validates a submission and either rejects it or
 records it. The page's state lives in a per-browser session store; here
 it is an immutable `Session` value and each button press is a pure
 transition from one session to the next.
 */
module Feedback {
  import opened Chars
  import opened Options
  import opened EmailValidation
  import opened Sentiment

  /** A catalogue entry: running total of star ratings `ts`, number of
      ratings `c`, and the fixed description shown on the menu card. */
  datatype Product = Product(ts: int, c: int, kind: string, price: int, vnv: string, data: string)

  /** One stored review; `stamp` is the wall-clock time of submission. */
  datatype Review = Review(
    email: string, prod: string, rating: int, review: string,
    sentiment: string, color: string, stamp: real)

  datatype Session = Session(db: seq<Review>, products: map<string, Product>)

  /** What the session store already holds when the page starts: each of
      the two keys is either present with a value or absent. */
  datatype Stored = Stored(db: Option<seq<Review>>, products: Option<map<string, Product>>)

  /** The result of pressing "Submit Review". */
  datatype Outcome = InvalidEmail | AlreadyReviewed | EmptyReview | Accepted

  const MenuNames: set<string> := {"Pizza", "Burger", "French Fries", "Nuggets"}

  /** The catalogue a fresh session starts with. */
  const DefaultProducts: map<string, Product> := map[
    "Pizza" := Product(0, 0, "Breads", 549, "Veg/Non-Veg", "Cheese, Mushroom, Chicken"),
    "Burger" := Product(0, 0, "Breads", 349, "Veg/Non-Veg", "Cheese, Onion, Patty"),
    "French Fries" := Product(0, 0, "Snacks", 249, "Veg", "Salted, Roasted"),
    "Nuggets" := Product(0, 0, "Snacks", 199, "Veg/Non-Veg", "Crispy Chicken/Veg")
  ]

  /** Fills in whichever of the two session keys is missing and keeps the
      one already present. */
  function InitSession(st: Stored): (s: Session)
    ensures st.db.Some? ==> s.db == st.db.value
    ensures st.db.None? ==> s.db == []
    ensures st.products.Some? ==> s.products == st.products.value
    ensures st.products.None? ==> s.products.Keys == MenuNames
    ensures st.products.None? ==> forall p | p in s.products :: s.products[p].ts == 0 && s.products[p].c == 0
  {
    var db := if st.db.Some? then st.db.value else [];
    var products := if st.products.Some? then st.products.value else DefaultProducts;
    Session(db, products)
  }

  /** The menu card's fixed descriptions. */
  lemma DefaultCatalogue()
    ensures var ps := InitSession(Stored(None, None)).products;
      && ps["Pizza"] == Product(0, 0, "Breads", 549, "Veg/Non-Veg", "Cheese, Mushroom, Chicken")
      && ps["Burger"] == Product(0, 0, "Breads", 349, "Veg/Non-Veg", "Cheese, Onion, Patty")
      && ps["French Fries"] == Product(0, 0, "Snacks", 249, "Veg", "Salted, Roasted")
      && ps["Nuggets"] == Product(0, 0, "Snacks", 199, "Veg/Non-Veg", "Crispy Chicken/Veg")
  {
  }

  /** Starting the page again on a session that already has both keys
      changes nothing: a rerun does not reset the reviews or the totals. */
  lemma InitSessionKeepsState(s: Session)
    ensures InitSession(Stored(Some(s.db), Some(s.products))) == s
  {
  }

  /** Mean rating shown on a menu card; 0 when nobody has rated yet. */
  function CalculateAverage(ts: int, c: int): (r: real)
    ensures c == 0 ==> r == 0.0
    ensures c != 0 ==> r * (c as real) == ts as real
  {
    if c == 0 then 0.0 else ts as real / c as real
  }

  /** `any(...)` over the stored reviews, first to last: true exactly
      when some stored review already pairs `email` with `prod`. */
  function HasReviewed(db: seq<Review>, email: string, prod: string): (b: bool)
    ensures b <==> exists i | 0 <= i < |db| :: db[i].email == email && db[i].prod == prod
  {
    if db == [] then false
    else if db[0].email == email && db[0].prod == prod then true
    else
      assert forall i | 1 <= i < |db| :: db[i] == db[1..][i - 1];
      HasReviewed(db[1..], email, prod)
  }

  /** The record an accepted submission appends. */
  function NewReview(email: string, product: string, rating: int, review: string, stamp: real): (r: Review)
    ensures r.email == email && r.prod == product && r.rating == rating && r.review == review && r.stamp == stamp
    ensures (r.sentiment, r.color) == AnalyzeSentiment(review)
  {
    var verdict := AnalyzeSentiment(review);
    Review(email, product, rating, review, verdict.0, verdict.1, stamp)
  }

  /** Records an accepted review: the product's total grows by the
      rating, its count by one, its description is kept, every other
      product is untouched, and exactly one record is appended. */
  function Accept(s: Session, email: string, product: string, rating: int, review: string, stamp: real): (t: Session)
    requires product in s.products
    ensures t.products.Keys == s.products.Keys
    ensures var old_p := s.products[product];
      var new_p := t.products[product];
      && new_p.ts == old_p.ts + rating
      && new_p.c == old_p.c + 1
      && new_p.kind == old_p.kind && new_p.price == old_p.price
      && new_p.vnv == old_p.vnv && new_p.data == old_p.data
    ensures forall p | p in s.products && p != product :: t.products[p] == s.products[p]
    ensures |t.db| == |s.db| + 1 && t.db[..|s.db|] == s.db
    ensures t.db[|s.db|] == NewReview(email, product, rating, review, stamp)
  {
    var p := s.products[product];
    var p' := p.(ts := p.ts + rating, c := p.c + 1);
    Session(s.db + [NewReview(email, product, rating, review, stamp)], s.products[product := p'])
  }

  /** Pressing "Submit Review". The checks run in a fixed order: a
      malformed address, then an earlier review of the same product by the
      same address, then a review that is only whitespace; the first that
      fails decides the outcome and leaves the session as it was. Otherwise
      the review is recorded by `Accept`. */
  function Submit(s: Session, email: string, product: string, rating: int, review: string, stamp: real): (res: (Outcome, Session))
    requires product in s.products
    ensures res.0 == InvalidEmail <==> !ValidEmail(email)
    ensures res.0 == AlreadyReviewed <==> ValidEmail(email) && HasReviewed(s.db, email, product)
    ensures res.0 == EmptyReview <==> ValidEmail(email) && !HasReviewed(s.db, email, product) && IsBlank(review)
    ensures res.0 == Accepted <==> ValidEmail(email) && !HasReviewed(s.db, email, product) && !IsBlank(review)
    ensures res.0 != Accepted ==> res.1 == s
    ensures res.1.products.Keys == s.products.Keys
    ensures res.0 == Accepted ==> res.1 == Accept(s, email, product, rating, review, stamp)
  {
    StripEmptyIffBlank(review);
    if !ValidEmail(email) then (InvalidEmail, s)
    else if HasReviewed(s.db, email, product) then (AlreadyReviewed, s)
    else if Strip(review) == "" then (EmptyReview, s)
    else (Accepted, Accept(s, email, product, rating, review, stamp))
  }

  /** Sum of the ratings stored for `prod`. */
  function RatingSum(db: seq<Review>, prod: string): int
  {
    if db == [] then 0
    else
      var last := db[|db| - 1];
      RatingSum(db[..|db| - 1], prod) + (if last.prod == prod then last.rating else 0)
  }

  /** Number of reviews stored for `prod`. */
  function ReviewCount(db: seq<Review>, prod: string): nat
  {
    if db == [] then 0
    else
      var last := db[|db| - 1];
      ReviewCount(db[..|db| - 1], prod) + (if last.prod == prod then 1 else 0)
  }

  /** A stored review passed the checks that guard the button and
      carries its own sentiment verdict. */
  predicate WellFormedRecord(r: Review)
  {
    && ValidEmail(r.email)
    && !IsBlank(r.review)
    && (r.sentiment, r.color) == AnalyzeSentiment(r.review)
  }

  /** Every stored rating comes from the 1..5 slider. */
  predicate RatingsInRange(db: seq<Review>)
  {
    forall i | 0 <= i < |db| :: 1 <= db[i].rating <= 5
  }

  /** At most one stored review per (email, product) pair. */
  predicate UniquePairs(db: seq<Review>)
  {
    forall i, j | 0 <= i < j < |db| :: !(db[i].email == db[j].email && db[i].prod == db[j].prod)
  }

  /** Each product's running total and count are the sum and number of
      the stored reviews of that product. */
  predicate TotalsMatch(s: Session)
  {
    forall p | p in s.products ::
      s.products[p].ts == RatingSum(s.db, p) && s.products[p].c == ReviewCount(s.db, p)
  }

  /** Every stored review names a catalogue product. */
  predicate InCatalogue(db: seq<Review>, products: map<string, Product>)
  {
    forall i | 0 <= i < |db| :: db[i].prod in products
  }

  /** Every stored review is well formed. */
  predicate AllWellFormed(db: seq<Review>)
  {
    forall i | 0 <= i < |db| :: WellFormedRecord(db[i])
  }

  /** The session invariant: the running totals are the sums over the
      stored reviews, every review names a catalogue product and passed
      the checks, and no address reviewed a product twice. */
  predicate Consistent(s: Session)
  {
    && TotalsMatch(s)
    && InCatalogue(s.db, s.products)
    && AllWellFormed(s.db)
    && RatingsInRange(s.db)
    && UniquePairs(s.db)
  }

  /** A fresh session is consistent: no reviews and all totals zero. */
  lemma InitConsistent()
    ensures Consistent(InitSession(Stored(None, None)))
  {
  }

  lemma AppendSums(db: seq<Review>, r: Review, prod: string)
    ensures RatingSum(db + [r], prod) == RatingSum(db, prod) + (if r.prod == prod then r.rating else 0)
    ensures ReviewCount(db + [r], prod) == ReviewCount(db, prod) + (if r.prod == prod then 1 else 0)
  {
    assert (db + [r])[..|db|] == db;
  }

  lemma AcceptKeepsTotals(s: Session, email: string, product: string, rating: int, review: string, stamp: real)
    requires product in s.products && TotalsMatch(s)
    ensures TotalsMatch(Accept(s, email, product, rating, review, stamp))
  {
    var t := Accept(s, email, product, rating, review, stamp);
    var r := NewReview(email, product, rating, review, stamp);
    assert t.db == s.db + [r];
    forall p | p in t.products
      ensures t.products[p].ts == RatingSum(t.db, p) && t.products[p].c == ReviewCount(t.db, p)
    {
      AppendSums(s.db, r, p);
    }
  }

  lemma AppendWellFormed(db: seq<Review>, r: Review)
    requires AllWellFormed(db) && WellFormedRecord(r)
    ensures AllWellFormed(db + [r])
  {
    forall i | 0 <= i < |db| + 1 ensures WellFormedRecord((db + [r])[i]) {
      if i < |db| {
        assert (db + [r])[i] == db[i];
      }
    }
  }

  lemma AcceptKeepsWellFormed(s: Session, email: string, product: string, rating: int, review: string, stamp: real)
    requires product in s.products && AllWellFormed(s.db)
    requires WellFormedRecord(NewReview(email, product, rating, review, stamp))
    ensures AllWellFormed(Accept(s, email, product, rating, review, stamp).db)
  {
    var r := NewReview(email, product, rating, review, stamp);
    assert Accept(s, email, product, rating, review, stamp).db == s.db + [r];
    AppendWellFormed(s.db, r);
  }

  lemma AcceptKeepsCatalogueRefs(s: Session, email: string, product: string, rating: int, review: string, stamp: real)
    requires product in s.products && InCatalogue(s.db, s.products)
    ensures var t := Accept(s, email, product, rating, review, stamp);
      InCatalogue(t.db, t.products)
  {
    var t := Accept(s, email, product, rating, review, stamp);
    forall i | 0 <= i < |t.db| ensures t.db[i].prod in t.products {
      if i < |s.db| {
        assert t.db[i] == t.db[..|s.db|][i];
      }
    }
  }

  lemma AcceptKeepsRatings(s: Session, email: string, product: string, rating: int, review: string, stamp: real)
    requires product in s.products && RatingsInRange(s.db) && 1 <= rating <= 5
    ensures RatingsInRange(Accept(s, email, product, rating, review, stamp).db)
  {
    var t := Accept(s, email, product, rating, review, stamp);
    forall i | 0 <= i < |t.db| ensures 1 <= t.db[i].rating <= 5 {
      if i < |s.db| {
        assert t.db[i] == t.db[..|s.db|][i];
      }
    }
  }

  lemma AcceptKeepsUnique(s: Session, email: string, product: string, rating: int, review: string, stamp: real)
    requires product in s.products && UniquePairs(s.db) && !HasReviewed(s.db, email, product)
    ensures UniquePairs(Accept(s, email, product, rating, review, stamp).db)
  {
    var t := Accept(s, email, product, rating, review, stamp);
    forall i, j | 0 <= i < j < |t.db|
      ensures !(t.db[i].email == t.db[j].email && t.db[i].prod == t.db[j].prod)
    {
      assert t.db[i] == t.db[..|s.db|][i];
      if j < |s.db| {
        assert t.db[j] == t.db[..|s.db|][j];
      }
    }
  }

  /** A slider rating keeps the invariant through any button press. */
  lemma SubmitPreservesConsistency(s: Session, email: string, product: string, rating: int, review: string, stamp: real)
    requires Consistent(s) && product in s.products && 1 <= rating <= 5
    ensures Consistent(Submit(s, email, product, rating, review, stamp).1)
  {
    if Submit(s, email, product, rating, review, stamp).0 == Accepted {
      assert WellFormedRecord(NewReview(email, product, rating, review, stamp));
      AcceptKeepsTotals(s, email, product, rating, review, stamp);
      AcceptKeepsWellFormed(s, email, product, rating, review, stamp);
      AcceptKeepsCatalogueRefs(s, email, product, rating, review, stamp);
      AcceptKeepsRatings(s, email, product, rating, review, stamp);
      AcceptKeepsUnique(s, email, product, rating, review, stamp);
    }
  }

  /** With every rating between 1 and 5, a product's total lies between
      its count and five times its count. */
  lemma {:induction false} RatingBounds(db: seq<Review>, prod: string)
    requires RatingsInRange(db)
    ensures ReviewCount(db, prod) <= RatingSum(db, prod) <= 5 * ReviewCount(db, prod)
  {
    if db != [] {
      RatingBounds(db[..|db| - 1], prod);
    }
  }

  lemma QuotientAtLeast(a: real, b: real, c: real)
    requires c > 0.0 && a >= b * c
    ensures a / c >= b
  {
  }

  lemma QuotientAtMost(a: real, b: real, c: real)
    requires c > 0.0 && a <= b * c
    ensures a / c <= b
  {
  }

  /** A mean of ratings between 1 and 5 lies between 1 and 5. */
  lemma AverageBounds(ts: int, c: int)
    requires 0 < c && c <= ts <= 5 * c
    ensures 1.0 <= CalculateAverage(ts, c) <= 5.0
  {
    QuotientAtLeast(ts as real, 1.0, c as real);
    QuotientAtMost(ts as real, 5.0, c as real);
  }

  /** The card of a reviewed product shows a mean between 1 and 5 stars. */
  lemma AverageWithinStars(s: Session, prod: string)
    requires TotalsMatch(s) && RatingsInRange(s.db) && prod in s.products && s.products[prod].c > 0
    ensures 1.0 <= CalculateAverage(s.products[prod].ts, s.products[prod].c) <= 5.0
  {
    RatingBounds(s.db, prod);
    AverageBounds(s.products[prod].ts, s.products[prod].c);
  }

  /** One press of the button: the form's four fields plus the clock. */
  datatype Request = Request(email: string, product: string, rating: int, review: string, stamp: real)

  /** A sequence of button presses, the first one first. */
  function Run(s: Session, reqs: seq<Request>): (r: Session)
    requires forall i | 0 <= i < |reqs| :: reqs[i].product in s.products
    ensures r.products.Keys == s.products.Keys
    ensures |s.db| <= |r.db| <= |s.db| + |reqs|
    ensures r.db[..|s.db|] == s.db
    decreases |reqs|
  {
    if reqs == [] then s
    else
      var q := reqs[0];
      var s1 := Submit(s, q.email, q.product, q.rating, q.review, q.stamp).1;
      SubmitKeepsLog(s, q.email, q.product, q.rating, q.review, q.stamp);
      var r := Run(s1, reqs[1..]);
      PrefixOfPrefix(s.db, s1.db, r.db);
      r
  }

  /** A press keeps the stored records and appends at most one. */
  lemma SubmitKeepsLog(s: Session, email: string, product: string, rating: int, review: string, stamp: real)
    requires product in s.products
    ensures var t := Submit(s, email, product, rating, review, stamp).1;
      |s.db| <= |t.db| <= |s.db| + 1 && t.db[..|s.db|] == s.db
  {
  }

  lemma PrefixOfPrefix<T>(a: seq<T>, b: seq<T>, c: seq<T>)
    requires |a| <= |b| <= |c| && b[..|a|] == a && c[..|b|] == b
    ensures c[..|a|] == a
  {
    assert c[..|a|] == c[..|b|][..|a|];
  }

  /** Once an address has had a review of a product accepted, the pair is
      the newest record of the log and the next submission for it is
      turned away and changes nothing. `LaterDuplicateRejected` carries
      this through any further presses. */
  lemma ResubmissionRejected(
    s: Session, email: string, product: string, rating: int, review: string, stamp: real,
    rating2: int, review2: string, stamp2: real)
    requires product in s.products
    requires Submit(s, email, product, rating, review, stamp).0 == Accepted
    ensures var s' := Submit(s, email, product, rating, review, stamp).1;
      |s.db| < |s'.db| && s'.db[|s.db|].email == email && s'.db[|s.db|].prod == product
    ensures var s' := Submit(s, email, product, rating, review, stamp).1;
      Submit(s', email, product, rating2, review2, stamp2) == (AlreadyReviewed, s')
  {
    var s' := Submit(s, email, product, rating, review, stamp).1;
    assert s'.db[|s.db|].email == email && s'.db[|s.db|].prod == product;
  }

  /** A pair stored in the log stays there through any further presses, so
      every later submission of it is turned away and changes nothing. */
  lemma LaterDuplicateRejected(
    s: Session, i: nat, reqs: seq<Request>, email: string, product: string, rating: int, review: string, stamp: real)
    requires product in s.products && ValidEmail(email)
    requires i < |s.db| && s.db[i].email == email && s.db[i].prod == product
    requires forall k | 0 <= k < |reqs| :: reqs[k].product in s.products
    ensures var t := Run(s, reqs); Submit(t, email, product, rating, review, stamp) == (AlreadyReviewed, t)
  {
    var t := Run(s, reqs);
    StoredRecordKept(s.db, t.db, i);
    DuplicateRejected(t, i, email, product, rating, review, stamp);
  }

  /** A submission whose pair is already in the log is turned away. */
  lemma DuplicateRejected(t: Session, i: nat, email: string, product: string, rating: int, review: string, stamp: real)
    requires product in t.products && ValidEmail(email)
    requires i < |t.db| && t.db[i].email == email && t.db[i].prod == product
    ensures Submit(t, email, product, rating, review, stamp) == (AlreadyReviewed, t)
  {
  }

  /** A log that extends another holds each of its records in place. */
  lemma StoredRecordKept(a: seq<Review>, b: seq<Review>, i: nat)
    requires i < |a| <= |b| && b[..|a|] == a
    ensures b[i] == a[i]
  {
    assert b[..|a|][i] == b[i];
  }

  /** The invariant holds after any run of slider-rated presses. */
  lemma {:induction false} RunPreservesConsistency(s: Session, reqs: seq<Request>)
    requires Consistent(s)
    requires forall i | 0 <= i < |reqs| :: reqs[i].product in s.products && 1 <= reqs[i].rating <= 5
    ensures Consistent(Run(s, reqs))
    decreases |reqs|
  {
    if reqs != [] {
      var q := reqs[0];
      SubmitPreservesConsistency(s, q.email, q.product, q.rating, q.review, q.stamp);
      RunPreservesConsistency(Submit(s, q.email, q.product, q.rating, q.review, q.stamp).1, reqs[1..]);
    }
  }

  /** When the totals are the sums of slider ratings, each product's total
      lies between its count and five times its count. */
  lemma ConsistentTotalsBounded(s: Session)
    requires TotalsMatch(s) && RatingsInRange(s.db)
    ensures forall p | p in s.products :: s.products[p].c <= s.products[p].ts <= 5 * s.products[p].c
  {
    forall p | p in s.products
      ensures s.products[p].c <= s.products[p].ts <= 5 * s.products[p].c
    {
      RatingBounds(s.db, p);
    }
  }

  /** Every session the page can reach from a fresh start is consistent,
      so each product's total lies between its count and five times it. */
  lemma ReachableSessionsConsistent(reqs: seq<Request>)
    requires forall i | 0 <= i < |reqs| :: reqs[i].product in MenuNames && 1 <= reqs[i].rating <= 5
    ensures var s := Run(InitSession(Stored(None, None)), reqs);
      && Consistent(s)
      && forall p | p in s.products :: s.products[p].c <= s.products[p].ts <= 5 * s.products[p].c
  {
    InitConsistent();
    FreshRequestsValid(reqs);
    RunKeepsTotalsBounded(InitSession(Stored(None, None)), reqs);
  }

  lemma FreshRequestsValid(reqs: seq<Request>)
    requires forall i | 0 <= i < |reqs| :: reqs[i].product in MenuNames
    ensures forall i | 0 <= i < |reqs| :: reqs[i].product in InitSession(Stored(None, None)).products
  {
  }

  lemma RunKeepsTotalsBounded(s: Session, reqs: seq<Request>)
    requires Consistent(s)
    requires forall i | 0 <= i < |reqs| :: reqs[i].product in s.products && 1 <= reqs[i].rating <= 5
    ensures var t := Run(s, reqs);
      && Consistent(t)
      && forall p | p in t.products :: t.products[p].c <= t.products[p].ts <= 5 * t.products[p].c
  {
    RunPreservesConsistency(s, reqs);
    ConsistentTotalsBounded(Run(s, reqs));
  }
}
