/** The top-rated report: every masjid is joined with the reviews that point
    at it, those with at least two reviews are projected onto photo, name,
    reviews, slug and the mean rating, sorted by that mean, highest first,
    and cut to the first ten. */
module TopRated {
  import opened Query

  datatype Option<T> = None | Some(value: T)

  /** The store's document identifier. */
  type EntryId = nat

  /** The fields of a masjid entry that the report reads. */
  datatype Entry = Entry(id: EntryId, name: string, slug: string, photo: Option<string>)

  /** A review document: the masjid it refers to and its rating. */
  datatype Review = Review(masjid: EntryId, rating: real)

  /** `$lookup` output: an entry together with its joined reviews. */
  datatype Joined = Joined(entry: Entry, reviews: seq<Review>)

  /** One row of the report: the entry's `_id`, which `$project` keeps
      unless told otherwise, and the five projected fields. */
  datatype TopMasjid = TopMasjid(
    id: EntryId,
    photo: Option<string>,
    name: string,
    reviews: seq<Review>,
    slug: string,
    averageRating: real)

  /** The number of rows the report is cut to (`$limit`). */
  const Limit: nat := 10

  /** The join on `_id` = `masjid`: the reviews of masjid `id`, in store order. */
  function ReviewsOf(id: EntryId, reviews: seq<Review>): (r: seq<Review>)
    ensures forall v :: multiset(r)[v] == if v.masjid == id then multiset(reviews)[v] else 0
    ensures forall i :: 0 <= i < |r| ==> r[i].masjid == id
  {
    Filter(reviews, (v: Review) => v.masjid == id)
  }

  /** `$lookup`: every entry with its reviews attached. */
  function Lookup(entries: seq<Entry>, reviews: seq<Review>): (r: seq<Joined>)
    ensures |r| == |entries|
    ensures forall i :: 0 <= i < |r| ==>
      r[i].entry == entries[i] &&
      forall v :: multiset(r[i].reviews)[v] == if v.masjid == entries[i].id then multiset(reviews)[v] else 0
  {
    seq(|entries|, i requires 0 <= i < |entries| => Joined(entries[i], ReviewsOf(entries[i].id, reviews)))
  }

  /** `$match` on `reviews.1` existing: a second review is present. */
  predicate HasTwoReviews(j: Joined) { |j.reviews| >= 2 }

  function SumRatings(rs: seq<Review>): real
  {
    if rs == [] then 0.0 else rs[0].rating + SumRatings(rs[1..])
  }

  /** `$avg` of the ratings, computed exactly: the value that, taken once
      per rating, adds up to the same total. */
  function Average(rs: seq<Review>): (m: real)
    requires |rs| > 0
    ensures m * (|rs| as real) == SumRatings(rs)
  {
    SumRatings(rs) / (|rs| as real)
  }

  /** `$project` of one joined entry. */
  function Project(j: Joined): (t: TopMasjid)
    requires HasTwoReviews(j)
    ensures |t.reviews| >= 2
    ensures t.averageRating * (|t.reviews| as real) == SumRatings(t.reviews)
  {
    TopMasjid(j.entry.id, j.entry.photo, j.entry.name, j.reviews, j.entry.slug, Average(j.reviews))
  }

  /** `$project` of every kept entry, field by field, in order. */
  function ProjectAll(js: seq<Joined>): (r: seq<TopMasjid>)
    requires forall i :: 0 <= i < |js| ==> HasTwoReviews(js[i])
    ensures |r| == |js|
    ensures forall i :: 0 <= i < |r| ==>
      r[i].id == js[i].entry.id && r[i].photo == js[i].entry.photo &&
      r[i].name == js[i].entry.name && r[i].slug == js[i].entry.slug &&
      r[i].reviews == js[i].reviews && |r[i].reviews| >= 2 &&
      r[i].averageRating == SumRatings(r[i].reviews) / (|r[i].reviews| as real)
  {
    seq(|js|, i requires 0 <= i < |js| => Project(js[i]))
  }

  /** The rows before `$sort` and `$limit`: lookup, match, project. */
  function Candidates(entries: seq<Entry>, reviews: seq<Review>): (r: seq<TopMasjid>)
    ensures |r| <= |entries|
    ensures forall i :: 0 <= i < |r| ==> |r[i].reviews| >= 2
  {
    ProjectAll(Filter(Lookup(entries, reviews), HasTwoReviews))
  }

  /** The sort key of `$sort: { averageRating: -1 }`. */
  function AverageKey(t: TopMasjid): real { t.averageRating }

  /** The report as the pipeline returns it. */
  function TopMasajid(entries: seq<Entry>, reviews: seq<Review>): (r: seq<TopMasjid>)
    ensures |r| <= Limit
    ensures forall i, j :: 0 <= i < j < |r| ==> r[i].averageRating >= r[j].averageRating
  {
    Take(SortDesc(Candidates(entries, reviews), AverageKey), Limit)
  }

  /** Positions of the entries that have at least two reviews. */
  ghost function QualifyingPositions(entries: seq<Entry>, reviews: seq<Review>): set<int>
  {
    set i | 0 <= i < |entries| && |ReviewsOf(entries[i].id, reviews)| >= 2
  }

  /** What a row says about the entry `e` it was built from: its own id,
      photo, name and slug, exactly the reviews that refer to it, at least
      two of them, and their mean rating. */
  ghost predicate DescribesEntry(t: TopMasjid, e: Entry, reviews: seq<Review>)
  {
    t.id == e.id && t.photo == e.photo && t.name == e.name && t.slug == e.slug &&
    t.reviews == ReviewsOf(e.id, reviews) &&
    |t.reviews| >= 2 &&
    t.averageRating == SumRatings(t.reviews) / (|t.reviews| as real)
  }

  /** The row built for entry `e`, when it has at least two reviews. */
  function RowFor(e: Entry, reviews: seq<Review>): TopMasjid
    requires |ReviewsOf(e.id, reviews)| >= 2
  {
    Project(Joined(e, ReviewsOf(e.id, reviews)))
  }

  /** Projecting an entry joined with its reviews describes that entry. */
  lemma ProjectDescribes(e: Entry, reviews: seq<Review>)
    requires |ReviewsOf(e.id, reviews)| >= 2
    ensures DescribesEntry(RowFor(e, reviews), e, reviews)
  {
  }

  /** `$match` loses no entry: each entry with at least two reviews has its
      row among the candidates. */
  lemma QualifyingHasRow(entries: seq<Entry>, reviews: seq<Review>, i: nat)
    requires i < |entries| && |ReviewsOf(entries[i].id, reviews)| >= 2
    ensures RowFor(entries[i], reviews) in Candidates(entries, reviews)
  {
    var joined := Lookup(entries, reviews);
    var kept := Filter(joined, HasTwoReviews);
    assert HasTwoReviews(joined[i]);
    assert joined[i] in multiset(joined);
    assert joined[i] in multiset(kept);
    var p :| 0 <= p < |kept| && kept[p] == joined[i];
    assert Candidates(entries, reviews)[p] == RowFor(entries[i], reviews);
  }

  /** One row per entry with at least two reviews. */
  lemma CandidatesCount(entries: seq<Entry>, reviews: seq<Review>)
    ensures |Candidates(entries, reviews)| == |QualifyingPositions(entries, reviews)|
  {
    var joined := Lookup(entries, reviews);
    FilterCount(joined, HasTwoReviews);
    assert Positions(joined, HasTwoReviews) == QualifyingPositions(entries, reviews);
  }

  /** Each row before sorting describes an entry of the store. */
  lemma CandidatesDescribeEntries(entries: seq<Entry>, reviews: seq<Review>)
    ensures var c := Candidates(entries, reviews);
      forall i :: 0 <= i < |c| ==> exists e :: e in entries && DescribesEntry(c[i], e, reviews)
  {
    var joined := Lookup(entries, reviews);
    var kept := Filter(joined, HasTwoReviews);
    var c := Candidates(entries, reviews);
    forall i | 0 <= i < |c| ensures exists e :: e in entries && DescribesEntry(c[i], e, reviews) {
      assert kept[i] in multiset(joined) by {
        assert kept[i] in multiset(kept);
      }
      var q :| 0 <= q < |joined| && joined[q] == kept[i];
      ProjectDescribes(entries[q], reviews);
      assert c[i] == RowFor(entries[q], reviews);
    }
  }

  /** The report has min(10, N) rows for N entries with at least two reviews. */
  lemma TopMasajidLength(entries: seq<Entry>, reviews: seq<Review>)
    ensures var n := |QualifyingPositions(entries, reviews)|;
      |TopMasajid(entries, reviews)| == if n < Limit then n else Limit
  {
    CandidatesCount(entries, reviews);
  }

  /** Every row of the report describes an entry with at least two reviews. */
  lemma TopMasajidRows(entries: seq<Entry>, reviews: seq<Review>)
    ensures var r := TopMasajid(entries, reviews);
      forall i :: 0 <= i < |r| ==> exists e :: e in entries && DescribesEntry(r[i], e, reviews)
  {
    var c := Candidates(entries, reviews);
    var sorted := SortDesc(c, AverageKey);
    var r := TopMasajid(entries, reviews);
    CandidatesDescribeEntries(entries, reviews);
    PermutationMembers(c, sorted);
    forall i | 0 <= i < |r| ensures exists e :: e in entries && DescribesEntry(r[i], e, reviews) {
      assert r[i] == sorted[i];
      var p :| 0 <= p < |c| && c[p] == r[i];
    }
  }

  /** The report is ordered by average rating, highest first, and keeps the
      best rows: no row left out rates above a row kept. */
  lemma TopMasajidBest(entries: seq<Entry>, reviews: seq<Review>)
    ensures var r, c := TopMasajid(entries, reviews), Candidates(entries, reviews);
      (forall i, j :: 0 <= i < j < |r| ==> r[i].averageRating >= r[j].averageRating) &&
      multiset(r) <= multiset(c) &&
      (forall x, i :: x in multiset(c) - multiset(r) && 0 <= i < |r| ==> x.averageRating <= r[i].averageRating)
  {
    var c := Candidates(entries, reviews);
    var r := TopMasajid(entries, reviews);
    TakeSorted(SortDesc(c, AverageKey), AverageKey, Limit);
    forall i, j | 0 <= i < j < |r| ensures r[i].averageRating >= r[j].averageRating {
      assert AverageKey(r[i]) >= AverageKey(r[j]);
    }
    forall x, i | x in multiset(c) - multiset(r) && 0 <= i < |r|
      ensures x.averageRating <= r[i].averageRating
    {
      assert AverageKey(x) <= AverageKey(r[i]);
    }
  }

  /** No entry with at least two reviews is left out of the report while
      rating above a row that is in it. */
  lemma TopMasajidBestOfEntries(entries: seq<Entry>, reviews: seq<Review>)
    ensures var r := TopMasajid(entries, reviews);
      forall q, k ::
        (0 <= q < |entries| && |ReviewsOf(entries[q].id, reviews)| >= 2 &&
         RowFor(entries[q], reviews) !in r && 0 <= k < |r|) ==>
        Average(ReviewsOf(entries[q].id, reviews)) <= r[k].averageRating
  {
    var r, c := TopMasajid(entries, reviews), Candidates(entries, reviews);
    TopMasajidBest(entries, reviews);
    forall q, k | 0 <= q < |entries| && |ReviewsOf(entries[q].id, reviews)| >= 2 &&
        RowFor(entries[q], reviews) !in r && 0 <= k < |r|
      ensures Average(ReviewsOf(entries[q].id, reviews)) <= r[k].averageRating
    {
      var x := RowFor(entries[q], reviews);
      QualifyingHasRow(entries, reviews, q);
      assert x in multiset(c) && x !in multiset(r);
      assert x in multiset(c) - multiset(r);
    }
  }

  /** With at most ten entries having two reviews or more, every one of them
      is in the report. */
  lemma TopMasajidAllWhenFew(entries: seq<Entry>, reviews: seq<Review>, q: nat)
    requires |QualifyingPositions(entries, reviews)| <= Limit
    requires q < |entries| && |ReviewsOf(entries[q].id, reviews)| >= 2
    ensures RowFor(entries[q], reviews) in TopMasajid(entries, reviews)
  {
    var c := Candidates(entries, reviews);
    var sorted := SortDesc(c, AverageKey);
    CandidatesCount(entries, reviews);
    QualifyingHasRow(entries, reviews, q);
    PermutationMembers(c, sorted);
    assert TopMasajid(entries, reviews) == sorted;
  }

  /** The report holds min(10, N) rows for the N entries with at least two
      reviews, each row describing such an entry and drawn from the rows
      before sorting without repetition beyond them, ordered by average
      rating from highest to lowest, and no such entry left out rates above
      a row kept. */
  lemma TopMasajidCorrect(entries: seq<Entry>, reviews: seq<Review>)
    ensures var r, n := TopMasajid(entries, reviews), |QualifyingPositions(entries, reviews)|;
      |r| == (if n < Limit then n else Limit) &&
      (forall i :: 0 <= i < |r| ==> exists e :: e in entries && DescribesEntry(r[i], e, reviews)) &&
      (forall i, j :: 0 <= i < j < |r| ==> r[i].averageRating >= r[j].averageRating) &&
      multiset(r) <= multiset(Candidates(entries, reviews)) &&
      (forall q, k ::
        (0 <= q < |entries| && |ReviewsOf(entries[q].id, reviews)| >= 2 &&
         RowFor(entries[q], reviews) !in r && 0 <= k < |r|) ==>
        Average(ReviewsOf(entries[q].id, reviews)) <= r[k].averageRating)
  {
    TopMasajidLength(entries, reviews);
    TopMasajidRows(entries, reviews);
    TopMasajidBest(entries, reviews);
    TopMasajidBestOfEntries(entries, reviews);
  }

  /** Ratings between lo and hi add up to between lo and hi times their number. */
  lemma {:induction false} SumRatingsBounds(rs: seq<Review>, lo: real, hi: real)
    requires forall i :: 0 <= i < |rs| ==> lo <= rs[i].rating <= hi
    ensures lo * (|rs| as real) <= SumRatings(rs) <= hi * (|rs| as real)
  {
    if rs != [] {
      SumRatingsBounds(rs[1..], lo, hi);
    }
  }

  /** The mean of ratings between lo and hi lies between lo and hi, so with
      ratings on a 1 to 5 scale every average in the report is on that scale. */
  lemma AverageWithinRatings(rs: seq<Review>, lo: real, hi: real)
    requires |rs| > 0
    requires forall i :: 0 <= i < |rs| ==> lo <= rs[i].rating <= hi
    ensures lo <= Average(rs) <= hi
  {
    SumRatingsBounds(rs, lo, hi);
    var n := |rs| as real;
    assert Average(rs) * n == SumRatings(rs);
  }

  /** Two reviews rated 5 and 3 average 4. */
  lemma AverageExample(id: EntryId)
    ensures Average([Review(id, 5.0), Review(id, 3.0)]) == 4.0
  {
    var rs := [Review(id, 5.0), Review(id, 3.0)];
    assert rs[1..] == [Review(id, 3.0)];
    assert rs[1..][1..] == [];
    assert SumRatings(rs[1..]) == 3.0;
  }
}
