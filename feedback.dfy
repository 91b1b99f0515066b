/** Model of the data side of utils/feedback.py: `draw_stars`, and in
    `display_feedback_section` the per-rating counts behind the star breakdown and the
    three best and three worst rated rows.  The Streamlit rendering is not modelled. */
module Feedback {
  import opened Text
  import opened Wrappers
  import opened DataLoader

  const FilledStar: char := '★'
  const EmptyStar: char := '☆'

  /** The wrapper that colours the filled stars. */
  const StarsOpen: string := "<span style=\"color:#c9935c;\">"
  const StarsClose: string := "</span>"

  /** Python's `int(x)` on a number: truncation toward zero. */
  function Truncate(x: real): (n: int)
    ensures 0.0 <= x ==> 0 <= n && n as real <= x < n as real + 1.0
    ensures x < 0.0 ==> n <= 0 && n as real - 1.0 < x <= n as real
  {
    if x >= 0.0 then x.Floor else -((-x).Floor)
  }

  function Max(a: int, b: int): int {
    if a >= b then a else b
  }

  function Min(a: int, b: int): int {
    if a <= b then a else b
  }

  // ---------------------------------------------------------------------------------
  // draw_stars

  /** `draw_stars(rating, max_stars=5)`: `int(rating)` filled stars inside the coloured
      span, then `max_stars - int(rating)` empty stars after it; a negative count gives
      no stars, as Python's string repetition does. */
  function DrawStars(rating: real, maxStars: int := 5): (html: string)
    ensures var filled, empty := Max(0, Truncate(rating)), Max(0, maxStars - Truncate(rating));
            |html| == |StarsOpen| + filled + |StarsClose| + empty
            && html[..|StarsOpen|] == StarsOpen
            && (forall k | |StarsOpen| <= k < |StarsOpen| + filled :: html[k] == FilledStar)
            && html[|StarsOpen| + filled..|StarsOpen| + filled + |StarsClose|] == StarsClose
            && (forall k | |StarsOpen| + filled + |StarsClose| <= k < |html| :: html[k] == EmptyStar)
  {
    var n := Truncate(rating);
    StarsOpen + Repeat(FilledStar, n) + StarsClose + Repeat(EmptyStar, maxStars - n)
  }

  /** The markup carries exactly `int(rating)` filled stars and `max_stars - int(rating)`
      empty stars, none of either when the count is not positive. */
  lemma DrawStarsCounts(rating: real, maxStars: int)
    ensures Count(DrawStars(rating, maxStars), FilledStar) == Max(0, Truncate(rating))
    ensures Count(DrawStars(rating, maxStars), EmptyStar) == Max(0, maxStars - Truncate(rating))
  {
    var n := Truncate(rating);
    var filled, empty := Repeat(FilledStar, n), Repeat(EmptyStar, maxStars - n);
    assert DrawStars(rating, maxStars) == StarsOpen + filled + StarsClose + empty;
    CountMarkup(filled, empty, FilledStar);
    CountMarkup(filled, empty, EmptyStar);
    CountUniform(filled, FilledStar, FilledStar);
    CountUniform(filled, FilledStar, EmptyStar);
    CountUniform(empty, EmptyStar, FilledStar);
    CountUniform(empty, EmptyStar, EmptyStar);
  }

  /** The span markup contributes no star to the count. */
  lemma CountMarkup(filled: string, empty: string, c: char)
    requires c == FilledStar || c == EmptyStar
    ensures Count(StarsOpen + filled + StarsClose + empty, c) == Count(filled, c) + Count(empty, c)
  {
    CountConcat(StarsOpen + filled + StarsClose, empty, c);
    CountConcat(StarsOpen + filled, StarsClose, c);
    CountConcat(StarsOpen, filled, c);
    MarkupHasNoStars(c);
  }

  lemma MarkupHasNoStars(c: char)
    requires c == FilledStar || c == EmptyStar
    ensures Count(StarsOpen, c) == 0 && Count(StarsClose, c) == 0
  {
    AsciiHasNoStar(StarsOpen, c);
    AsciiHasNoStar(StarsClose, c);
  }

  lemma AsciiHasNoStar(s: string, c: char)
    requires c == FilledStar || c == EmptyStar
    requires s == StarsOpen || s == StarsClose
    ensures Count(s, c) == 0
  {
    assert forall k | 0 <= k < |s| :: s[k] < 128 as char;
    assert c !in s;
    CountAbsent(s, c);
  }

  /** For a rating between 0 and `max_stars` the filled and empty stars together are
      `max_stars` stars; with the default that is five. */
  lemma DrawStarsTotal(rating: real, maxStars: int)
    requires 0 <= Truncate(rating) <= maxStars
    ensures Count(DrawStars(rating, maxStars), FilledStar) + Count(DrawStars(rating, maxStars), EmptyStar) == maxStars
    ensures 0 <= Truncate(rating) <= 5 ==>
              Count(DrawStars(rating), FilledStar) + Count(DrawStars(rating), EmptyStar) == 5
  {
    DrawStarsCounts(rating, maxStars);
    DrawStarsCounts(rating, 5);
  }

  // ---------------------------------------------------------------------------------
  // Top and bottom feedback

  /** Whether a row rated `a` may stand before one rated `b` after
      `sort_values(by='Rating', ascending=not descending)`: by value in the requested
      direction, with a missing rating (NaN) last either way. */
  function RanksBefore(a: Option<real>, b: Option<real>, descending: bool): (before: bool)
    ensures a == b ==> before
    ensures a.Some? && b.None? ==> before
    ensures a.None? && b.Some? ==> !before
    ensures a.Some? && b.Some? && a.value != b.value ==>
      (before <==> if descending then a.value > b.value else a.value < b.value)
  {
    if a.None? then b.None?
    else if b.None? then true
    else if descending then a.value >= b.value
    else a.value <= b.value
  }

  predicate SortedBy(s: seq<Record>, descending: bool) {
    forall i, j | 0 <= i < j < |s| :: RanksBefore(s[i].rating, s[j].rating, descending)
  }

  lemma RanksBeforeTotal(a: Option<real>, b: Option<real>, descending: bool)
    ensures RanksBefore(a, b, descending) || RanksBefore(b, a, descending)
  {
  }

  /** The order is transitive, so sorting by it is well defined up to ties. */
  lemma RanksBeforeTransitive(a: Option<real>, b: Option<real>, c: Option<real>, descending: bool)
    requires RanksBefore(a, b, descending) && RanksBefore(b, c, descending)
    ensures RanksBefore(a, c, descending)
  {
  }

  /** A row that ranks before the head of a sorted sequence ranks before all of it. */
  lemma RanksBeforeSorted(x: Record, s: seq<Record>, descending: bool)
    requires SortedBy(s, descending) && s != [] && RanksBefore(x.rating, s[0].rating, descending)
    ensures forall y | y in s :: RanksBefore(x.rating, y.rating, descending)
  {
  }

  /** A row that ranks before every element of a sorted sequence can head it. */
  lemma ConsSorted(h: Record, t: seq<Record>, descending: bool)
    requires SortedBy(t, descending)
    requires forall y | y in t :: RanksBefore(h.rating, y.rating, descending)
    ensures SortedBy([h] + t, descending)
  {
    var s := [h] + t;
    forall i, j | 0 <= i < j < |s|
      ensures RanksBefore(s[i].rating, s[j].rating, descending)
    {
      assert s[j] == t[j - 1];
      if i > 0 {
        assert s[i] == t[i - 1];
      } else {
        assert t[j - 1] in t;
      }
    }
  }

  function Insert(x: Record, s: seq<Record>, descending: bool): (r: seq<Record>)
    requires SortedBy(s, descending)
    ensures SortedBy(r, descending)
    ensures multiset(r) == multiset(s) + multiset{x}
  {
    if s == [] then [x]
    else if RanksBefore(x.rating, s[0].rating, descending) then
      RanksBeforeSorted(x, s, descending);
      ConsSorted(x, s, descending);
      [x] + s
    else
      var tail := Insert(x, s[1..], descending);
      InsertBehindHead(x, s, tail, descending);
      [s[0]] + tail
  }

  lemma InsertBehindHead(x: Record, s: seq<Record>, tail: seq<Record>, descending: bool)
    requires SortedBy(s, descending) && s != [] && !RanksBefore(x.rating, s[0].rating, descending)
    requires SortedBy(tail, descending) && multiset(tail) == multiset(s[1..]) + multiset{x}
    ensures SortedBy([s[0]] + tail, descending)
    ensures multiset([s[0]] + tail) == multiset(s) + multiset{x}
  {
    assert s == [s[0]] + s[1..];
    RanksBeforeTotal(x.rating, s[0].rating, descending);
    forall y | y in tail
      ensures RanksBefore(s[0].rating, y.rating, descending)
    {
      assert y in multiset(tail);
      if y != x {
        assert y in s[1..];
      }
    }
    ConsSorted(s[0], tail, descending);
  }

  /** The rows ordered by rating in the requested direction, NaN last. */
  function SortByRating(s: seq<Record>, descending: bool): (r: seq<Record>)
    ensures SortedBy(r, descending)
    ensures multiset(r) == multiset(s)
  {
    if s == [] then []
    else
      assert s == [s[0]] + s[1..];
      Insert(s[0], SortByRating(s[1..], descending), descending)
  }

  /** A prefix of a sorted sequence is sorted. */
  lemma PrefixSorted(s: seq<Record>, k: nat, descending: bool)
    requires SortedBy(s, descending) && k <= |s|
    ensures SortedBy(s[..k], descending)
  {
    forall i, j | 0 <= i < j < k
      ensures RanksBefore(s[..k][i].rating, s[..k][j].rating, descending)
    {
      assert s[..k][i] == s[i] && s[..k][j] == s[j];
    }
  }

  /** The first `k` rows of a sorted sequence rank before all the others. */
  lemma PrefixRanksFirst(s: seq<Record>, k: nat, descending: bool)
    requires SortedBy(s, descending) && k <= |s|
    ensures multiset(s[..k]) <= multiset(s)
    ensures forall x, y | x in s[..k] && y in multiset(s) - multiset(s[..k]) :: RanksBefore(x.rating, y.rating, descending)
  {
    assert s == s[..k] + s[k..];
    assert multiset(s) - multiset(s[..k]) == multiset(s[k..]);
    forall x, y | x in s[..k] && y in multiset(s) - multiset(s[..k])
      ensures RanksBefore(x.rating, y.rating, descending)
    {
      var i :| 0 <= i < k && s[..k][i] == x;
      assert y in s[k..];
      var j :| 0 <= j < |s| - k && s[k..][j] == y;
      assert s[i] == x && s[k + j] == y;
    }
  }

  /** `data.sort_values(by='Rating', ascending=False).head(3)`: three rows (fewer when
      there are fewer), taken from the data, none rated below a row left out. */
  function TopFeedback(rows: seq<Record>): (top: seq<Record>)
    ensures |top| == Min(3, |rows|)
    ensures SortedBy(top, true)
    ensures multiset(top) <= multiset(rows)
    ensures forall x, y | x in top && y in multiset(rows) - multiset(top) :: RanksBefore(x.rating, y.rating, true)
  {
    var sorted := SortByRating(rows, true);
    assert |sorted| == |rows| by { assert |multiset(sorted)| == |multiset(rows)|; }
    PrefixRanksFirst(sorted, Min(3, |rows|), true);
    PrefixSorted(sorted, Min(3, |rows|), true);
    sorted[..Min(3, |rows|)]
  }

  /** `data.sort_values(by='Rating', ascending=True).head(3)`: three rows (fewer when
      there are fewer), taken from the data, none rated above a row left out. */
  function BottomFeedback(rows: seq<Record>): (bottom: seq<Record>)
    ensures |bottom| == Min(3, |rows|)
    ensures SortedBy(bottom, false)
    ensures multiset(bottom) <= multiset(rows)
    ensures forall x, y | x in bottom && y in multiset(rows) - multiset(bottom) :: RanksBefore(x.rating, y.rating, false)
  {
    var sorted := SortByRating(rows, false);
    assert |sorted| == |rows| by { assert |multiset(sorted)| == |multiset(rows)|; }
    PrefixRanksFirst(sorted, Min(3, |rows|), false);
    PrefixSorted(sorted, Min(3, |rows|), false);
    sorted[..Min(3, |rows|)]
  }

  // ---------------------------------------------------------------------------------
  // Rating counts

  /** The number of rows rated exactly `r`. */
  function CountRating(rows: seq<Record>, r: real): nat {
    if rows == [] then 0 else (if rows[0].rating == Some(r) then 1 else 0) + CountRating(rows[1..], r)
  }

  /** `data['Rating'].value_counts()`: every rating that occurs, with the number of rows
      that carry it; missing ratings are not counted. */
  function ValueCounts(rows: seq<Record>): (counts: map<real, nat>)
    ensures forall r :: r in counts <==> CountRating(rows, r) > 0
    ensures forall r | r in counts :: counts[r] == CountRating(rows, r)
  {
    if rows == [] then map[]
    else
      var rest := ValueCounts(rows[1..]);
      match rows[0].rating
      case None => rest
      case Some(r) => rest[r := (if r in rest then rest[r] else 0) + 1]
  }

  /** `rating_counts.get(rating, 0)`. */
  function CountOrZero(counts: map<real, nat>, r: real): (n: nat)
    ensures r in counts ==> n == counts[r]
    ensures r !in counts ==> n == 0
  {
    if r in counts then counts[r] else 0
  }

  /** The counts shown beside the star labels, for ratings 5 down to 1: the number of
      rows with that rating, 0 when there are none. */
  function RatingBreakdown(rows: seq<Record>): (counts: seq<nat>)
    ensures |counts| == 5
    ensures forall k | 0 <= k < 5 :: counts[k] == CountRating(rows, (5 - k) as real)
  {
    var vc := ValueCounts(rows);
    seq(5, k requires 0 <= k < 5 => CountOrZero(vc, (5 - k) as real))
  }

  predicate IsStarRating(r: Option<real>) {
    r == Some(1.0) || r == Some(2.0) || r == Some(3.0) || r == Some(4.0) || r == Some(5.0)
  }

  /** The number of rows whose rating is not a whole number of stars from 1 to 5. */
  function CountNonStar(rows: seq<Record>): (n: nat)
    ensures n <= |rows|
    ensures n == 0 <==> forall k | 0 <= k < |rows| :: IsStarRating(rows[k].rating)
  {
    if rows == [] then 0
    else
      assert forall k | 1 <= k < |rows| :: rows[k] == rows[1..][k - 1];
      (if IsStarRating(rows[0].rating) then 0 else 1) + CountNonStar(rows[1..])
  }

  /** Every row is counted under exactly one of the five bars, or under none when its
      rating is not a whole number of stars from 1 to 5. */
  lemma {:induction false} StarCountsPartition(rows: seq<Record>)
    ensures CountRating(rows, 5.0) + CountRating(rows, 4.0) + CountRating(rows, 3.0)
            + CountRating(rows, 2.0) + CountRating(rows, 1.0) + CountNonStar(rows) == |rows|
  {
    if rows != [] {
      StarCountsPartition(rows[1..]);
    }
  }

  /** The five bars never count more rows than there are, and they account for every
      row exactly when every rating is a whole number of stars from 1 to 5. */
  lemma BreakdownCoversRows(rows: seq<Record>)
    ensures var c := RatingBreakdown(rows);
            c[0] + c[1] + c[2] + c[3] + c[4] <= |rows|
            && (c[0] + c[1] + c[2] + c[3] + c[4] == |rows| <==> forall k | 0 <= k < |rows| :: IsStarRating(rows[k].rating))
  {
    StarCountsPartition(rows);
  }
}
