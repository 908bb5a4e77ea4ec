/**
 The figures behind the analytics dashboard
 (event_hub_app/auth/analytics_dashboard.py): per event its name, its average
 rating and its number of participants, collected into three parallel
 columns, and the top three rows by rating and by participation.

 The data frame is modelled by its three columns; averages are exact reals.
 */
module Analytics {
  import opened Model

  /** `event.feedback`: the feedback rows that refer to the event, in store order. */
  function FeedbackOf(e: Event, fb: seq<Feedback>): (r: seq<Feedback>)
    ensures |r| <= |fb|
    ensures forall f :: f in r <==> f in fb && f.eventId == e.id
  {
    if fb == [] then []
    else (if fb[0].eventId == e.id then [fb[0]] else []) + FeedbackOf(e, fb[1..])
  }

  /** `[feedback.rating for feedback in ...]`; a rating may be missing. */
  function Ratings(fb: seq<Feedback>): (r: seq<Option<int>>)
    ensures |r| == |fb|
    ensures forall i :: 0 <= i < |fb| ==> r[i] == fb[i].rating
  {
    seq(|fb|, i requires 0 <= i < |fb| => fb[i].rating)
  }

  predicate AllRated(rs: seq<Option<int>>)
  {
    forall i :: 0 <= i < |rs| ==> rs[i].Some?
  }

  function Values(rs: seq<Option<int>>): (r: seq<int>)
    requires AllRated(rs)
    ensures |r| == |rs|
    ensures forall i :: 0 <= i < |rs| ==> rs[i] == Some(r[i])
  {
    seq(|rs|, i requires 0 <= i < |rs| => rs[i].value)
  }

  function Sum(xs: seq<int>): int
  {
    if xs == [] then 0 else xs[0] + Sum(xs[1..])
  }

  function Min(xs: seq<int>): (m: int)
    requires xs != []
    ensures m in xs && forall i :: 0 <= i < |xs| ==> m <= xs[i]
  {
    if |xs| == 1 then xs[0]
    else var rest := Min(xs[1..]); if xs[0] <= rest then xs[0] else rest
  }

  function Max(xs: seq<int>): (m: int)
    requires xs != []
    ensures m in xs && forall i :: 0 <= i < |xs| ==> xs[i] <= m
  {
    if |xs| == 1 then xs[0]
    else var rest := Max(xs[1..]); if xs[0] >= rest then xs[0] else rest
  }

  /** `sum(ratings) / len(ratings)`, and 0 when there are no ratings. */
  function Average(xs: seq<int>): (avg: real)
    ensures xs == [] ==> avg == 0.0
  {
    if xs == [] then 0.0 else Sum(xs) as real / |xs| as real
  }

  /** The average times the number of ratings is their sum. */
  lemma AverageIsMean(xs: seq<int>)
    requires xs != []
    ensures Average(xs) * (|xs| as real) == Sum(xs) as real
  {
  }

  lemma {:induction false} SumBounds(xs: seq<int>, lo: int, hi: int)
    requires forall i :: 0 <= i < |xs| ==> lo <= xs[i] <= hi
    ensures |xs| * lo <= Sum(xs) <= |xs| * hi
  {
    if xs != [] {
      SumBounds(xs[1..], lo, hi);
      assert |xs| * lo == (|xs| - 1) * lo + lo;
      assert |xs| * hi == (|xs| - 1) * hi + hi;
    }
  }

  /** The average of a non-empty list of ratings lies between its smallest and largest rating. */
  lemma AverageWithinRange(xs: seq<int>)
    requires xs != []
    ensures Min(xs) as real <= Average(xs) <= Max(xs) as real
  {
    AverageBetween(xs, Min(xs), Max(xs));
  }

  /** Bounds on every rating bound the average. */
  lemma AverageBetween(xs: seq<int>, lo: int, hi: int)
    requires xs != []
    requires forall i :: 0 <= i < |xs| ==> lo <= xs[i] <= hi
    ensures lo as real <= Average(xs) <= hi as real
  {
    SumBounds(xs, lo, hi);
    IntBoundsAsReals(|xs|, lo, Sum(xs), hi);
    QuotientBounds(Sum(xs) as real, |xs| as real, lo as real, hi as real);
  }

  lemma IntBoundsAsReals(n: int, lo: int, s: int, hi: int)
    requires n * lo <= s <= n * hi
    ensures (n as real) * (lo as real) <= s as real <= (n as real) * (hi as real)
  {
    assert (n * lo) as real == (n as real) * (lo as real);
    assert (n * hi) as real == (n as real) * (hi as real);
  }

  lemma QuotientBounds(s: real, n: real, lo: real, hi: real)
    requires n > 0.0 && n * lo <= s <= n * hi
    ensures lo <= s / n <= hi
  {
    var q := s / n;
    assert (q - lo) * n == s - n * lo;
    assert (hi - q) * n == n * hi - s;
  }

  /** Whether summing the event's ratings succeeds: no rating is missing. */
  predicate RatingsAvailable(e: Event, fb: seq<Feedback>)
  {
    AllRated(Ratings(FeedbackOf(e, fb)))
  }

  /** The average rating `get_event_data` computes for one event. */
  function AverageFor(e: Event, fb: seq<Feedback>): (r: real)
    requires RatingsAvailable(e, fb)
    ensures FeedbackOf(e, fb) == [] ==> r == 0.0
    ensures FeedbackOf(e, fb) != [] ==>
      var xs := Values(Ratings(FeedbackOf(e, fb)));
      Min(xs) as real <= r <= Max(xs) as real
  {
    var xs := Values(Ratings(FeedbackOf(e, fb)));
    if xs == [] then Average(xs) else AverageWithinRange(xs); Average(xs)
  }

  /** The `Events`, `Rating` and `Participation` columns of the data frame. */
  datatype EventFrame = EventFrame(names: seq<string>, ratings: seq<real>, participation: seq<nat>)

  predicate WellFormed(f: EventFrame)
  {
    |f.names| == |f.ratings| == |f.participation|
  }

  /** `get_event_data`: one row per event in query order. No frame when there
      are no events (it is built inside the loop) or when a missing rating
      makes the sum raise (the handler then returns nothing). */
  method GetEventData(events: seq<Event>, feedback: seq<Feedback>) returns (frame: Option<EventFrame>)
    ensures frame.None? <==> events == [] || exists i :: 0 <= i < |events| && !RatingsAvailable(events[i], feedback)
    ensures frame.Some? ==>
      var f := frame.value;
      && WellFormed(f) && |f.names| == |events|
      && forall i :: 0 <= i < |events| ==>
           && f.names[i] == events[i].name
           && f.ratings[i] == AverageFor(events[i], feedback)
           && f.participation[i] == |events[i].participants|
  {
    var names: seq<string> := [];
    var ratings: seq<real> := [];
    var participation: seq<nat> := [];
    frame := None;
    for i := 0 to |events|
      invariant |names| == i && |ratings| == i && |participation| == i
      invariant forall j :: 0 <= j < i ==>
        && RatingsAvailable(events[j], feedback)
        && names[j] == events[j].name
        && ratings[j] == AverageFor(events[j], feedback)
        && participation[j] == |events[j].participants|
      invariant frame == if i == 0 then None else Some(EventFrame(names, ratings, participation))
    {
      var event := events[i];
      names := names + [event.name];
      var rs := Ratings(FeedbackOf(event, feedback));
      var averageRating: real;
      if rs != [] {
        if !AllRated(rs) {
          return None;
        }
        averageRating := Average(Values(rs));
      } else {
        averageRating := 0.0;
      }
      ratings := ratings + [averageRating];
      participation := participation + [|event.participants|];
      frame := Some(EventFrame(names, ratings, participation));
    }
  }

  /** One row of the data frame. */
  datatype Row = Row(name: string, rating: real, participation: nat)

  datatype SortKey = ByRating | ByParticipation

  function Key(r: Row, k: SortKey): real
  {
    match k
    case ByRating => r.rating
    case ByParticipation => r.participation as real
  }

  function RowsOf(f: EventFrame): (rows: seq<Row>)
    requires WellFormed(f)
    ensures |rows| == |f.names|
    ensures forall i :: 0 <= i < |rows| ==> rows[i] == Row(f.names[i], f.ratings[i], f.participation[i])
  {
    seq(|f.names|, i requires 0 <= i < |f.names| => Row(f.names[i], f.ratings[i], f.participation[i]))
  }

  predicate Descending(s: seq<Row>, k: SortKey)
  {
    forall i, j :: 0 <= i < j < |s| ==> Key(s[i], k) >= Key(s[j], k)
  }

  function Insert(x: Row, s: seq<Row>, k: SortKey): (r: seq<Row>)
    requires Descending(s, k)
    ensures Descending(r, k)
    ensures forall y :: y in r ==> y == x || y in s
    ensures multiset(r) == multiset(s) + multiset{x}
  {
    if s == [] then [x]
    else if Key(x, k) >= Key(s[0], k) then [x] + s
    else
      var rest := Insert(x, s[1..], k);
      HeadDominates(s[0], x, s[1..], rest, k);
      assert s == [s[0]] + s[1..];
      [s[0]] + rest
  }

  lemma HeadDominates(h: Row, x: Row, tail: seq<Row>, rest: seq<Row>, k: SortKey)
    requires Descending([h] + tail, k) && Descending(rest, k)
    requires Key(x, k) < Key(h, k)
    requires forall y :: y in rest ==> y == x || y in tail
    ensures Descending([h] + rest, k)
  {
    forall j | 0 <= j < |rest|
      ensures Key(h, k) >= Key(rest[j], k)
    {
      assert rest[j] in rest;
      if rest[j] != x {
        var n :| 0 <= n < |tail| && tail[n] == rest[j];
        assert ([h] + tail)[0] == h && ([h] + tail)[n + 1] == rest[j];
      }
    }
  }

  /** `sort_values(by=key, ascending=False)`. */
  function SortDescending(s: seq<Row>, k: SortKey): (r: seq<Row>)
    ensures Descending(r, k)
    ensures multiset(r) == multiset(s)
  {
    if s == [] then []
    else
      assert s == [s[0]] + s[1..];
      Insert(s[0], SortDescending(s[1..], k), k)
  }

  /** `.head(3)` of the sorted frame: min(3, n) rows in descending order, all
      taken from the frame, and no row left out has a larger key than a row
      selected. */
  function TopThree(rows: seq<Row>, k: SortKey): (r: seq<Row>)
    ensures |r| == if |rows| < 3 then |rows| else 3
    ensures Descending(r, k)
    ensures multiset(r) <= multiset(rows)
    ensures forall x, y :: x in r && y in multiset(rows) - multiset(r) ==> Key(x, k) >= Key(y, k)
  {
    var sorted := SortDescending(rows, k);
    assert |sorted| == |rows| by {
      assert |multiset(sorted)| == |multiset(rows)|;
    }
    var m := if |sorted| < 3 then |sorted| else 3;
    PrefixSplit(sorted, m, k);
    sorted[..m]
  }

  /** Cutting a descending sequence: the prefix keeps the order and every key
      in it is at least every key left in the suffix. */
  lemma PrefixSplit(sorted: seq<Row>, m: nat, k: SortKey)
    requires Descending(sorted, k) && m <= |sorted|
    ensures Descending(sorted[..m], k)
    ensures multiset(sorted[..m]) <= multiset(sorted)
    ensures multiset(sorted) - multiset(sorted[..m]) == multiset(sorted[m..])
    ensures forall x, y :: x in sorted[..m] && y in multiset(sorted[m..]) ==> Key(x, k) >= Key(y, k)
  {
    var top, rest := sorted[..m], sorted[m..];
    assert sorted == top + rest;
    assert multiset(sorted) == multiset(top) + multiset(rest);
    forall x, y | x in top && y in multiset(rest)
      ensures Key(x, k) >= Key(y, k)
    {
      var i :| 0 <= i < m && top[i] == x;
      var j :| 0 <= j < |rest| && rest[j] == y;
      assert sorted[i] == x && sorted[m + j] == y;
    }
  }

  /** `generate_graph`: the two selections it plots; nothing when there is no
      frame (sorting `None` raises and the handler stops). */
  function GraphData(frame: Option<EventFrame>): (r: Option<(seq<Row>, seq<Row>)>)
    requires frame.Some? ==> WellFormed(frame.value)
    ensures r.None? <==> frame.None?
    ensures r.Some? ==> r.value == (TopThree(RowsOf(frame.value), ByRating), TopThree(RowsOf(frame.value), ByParticipation))
    ensures r.Some? ==>
      var n := |frame.value.names|;
      && |r.value.0| == |r.value.1| == (if n < 3 then n else 3)
      && Descending(r.value.0, ByRating) && Descending(r.value.1, ByParticipation)
      && multiset(r.value.0) <= multiset(RowsOf(frame.value))
      && multiset(r.value.1) <= multiset(RowsOf(frame.value))
  {
    match frame
    case None => None
    case Some(f) =>
      var rows := RowsOf(f);
      Some((TopThree(rows, ByRating), TopThree(rows, ByParticipation)))
  }
}
