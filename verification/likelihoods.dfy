/**
  Projecting a world's accepted sightings onto the locations
  (`get_likelihoods` in server/likelihoods.py). Each sighting fixes a moment,
  within the last fifteen minutes, at which the circle's location is known;
  the sighting whose moment is most recent decides the location, and when all
  sightings agree the circle may since have moved on to the next location.
  Probabilities are reals; the current time is the parameter `now`.
*/
module Likelihoods {
  import opened Ring
  import opened Sightings

  /** What one sighting says: the location at a moment `seconds` ago. */
  datatype Moment = Moment(location: int, seconds: int)

  /** Python's `int(a / b)` for `b > 0`: the quotient truncated toward zero. */
  function TruncDiv(a: int, b: int): (q: int)
    requires b > 0
    ensures a >= 0 ==> q * b <= a < (q + 1) * b
    ensures a < 0 ==> (q - 1) * b < a <= q * b
  {
    if a >= 0 then a / b else -((-a) / b)
  }

  /**
    The moment a sighting fixes: `seconds_since_moment` is the elapsed time
    modulo fifteen minutes, and `location_at_moment` is the sighting's location
    advanced by the number of whole fifteen minutes elapsed.
  */
  function MomentOf(s: Sighting, now: int): (m: Moment)
    ensures 0 <= m.seconds < FifteenMinutes
    ensures 0 <= m.location < LocationCount
    ensures now - s.dt >= 0 ==>
      var periods := (now - s.dt - m.seconds) / FifteenMinutes;
      && now - s.dt == periods * FifteenMinutes + m.seconds
      && m.location == (s.location + periods) % LocationCount
  {
    var elapsed := now - s.dt;
    Moment((s.location + TruncDiv(elapsed, FifteenMinutes)) % LocationCount, elapsed % FifteenMinutes)
  }

  /** The moments of all sightings, in the order the sightings are given. */
  function Moments(sightings: seq<Sighting>, now: int): (ms: seq<Moment>)
    ensures |ms| == |sightings|
    ensures forall i :: 0 <= i < |ms| ==> ms[i] == MomentOf(sightings[i], now)
  {
    seq(|sightings|, i requires 0 <= i < |sightings| => MomentOf(sightings[i], now))
  }

  /**
    Index of the first moment with the fewest seconds: the head of the list
    after Python's stable sort by `seconds`.
  */
  function FirstLowest(ms: seq<Moment>): (i: nat)
    requires |ms| > 0
    ensures i < |ms|
    ensures forall j :: 0 <= j < |ms| ==> ms[i].seconds <= ms[j].seconds
    ensures forall j :: 0 <= j < i ==> ms[i].seconds < ms[j].seconds
  {
    if |ms| == 1 then
      0
    else
      var k := FirstLowest(ms[1..]) + 1;
      if ms[0].seconds <= ms[k].seconds then 0 else k
  }

  /** The largest number of seconds: the tail of the list after the sort. */
  function Highest(ms: seq<Moment>): (h: int)
    requires |ms| > 0
    ensures forall j :: 0 <= j < |ms| ==> ms[j].seconds <= h
    ensures exists j :: 0 <= j < |ms| && ms[j].seconds == h
  {
    if |ms| == 1 then
      ms[0].seconds
    else
      var h := Highest(ms[1..]);
      assert forall j :: 1 <= j < |ms| ==> ms[j] == ms[1..][j - 1];
      if ms[0].seconds >= h then ms[0].seconds else h
  }

  /** The distinct locations the moments name. */
  function LocationsOf(ms: seq<Moment>): set<int> {
    set m <- ms :: m.location
  }

  /** Every moment names the same location. */
  predicate SameLocation(ms: seq<Moment>)
    requires |ms| > 0
  {
    forall i :: 0 <= i < |ms| ==> ms[i].location == ms[0].location
  }

  /** `len(set(locations)) > 1` holds exactly when the moments disagree on the location. */
  lemma DistinctLocations(ms: seq<Moment>)
    requires |ms| > 0
    ensures |LocationsOf(ms)| > 1 <==> !SameLocation(ms)
  {
    if SameLocation(ms) {
      assert LocationsOf(ms) == {ms[0].location};
    } else {
      var i :| 0 <= i < |ms| && ms[i].location != ms[0].location;
      var rest := LocationsOf(ms) - {ms[0].location};
      assert ms[i].location in rest;
      assert |LocationsOf(ms)| == |rest| + 1;
    }
  }

  /**
    The part of the fifteen-minute slot that no sighting rules out: with all
    sightings at one location the current one was reached between the latest
    moment (`highest` seconds ago) and fifteen minutes after the most recent
    one (`lowest` seconds ago).
  */
  function UnknownWindow(lowest: int, highest: int): (w: int)
    requires 0 <= lowest <= highest < FifteenMinutes
    ensures 0 < w <= FifteenMinutes
    ensures lowest <= w
    ensures w == lowest + (FifteenMinutes - highest)
  {
    FifteenMinutes - (highest - lowest)
  }

  /** A moment as `MomentOf` produces it: a location and fewer than fifteen minutes. */
  predicate ValidMoment(m: Moment) {
    0 <= m.location < LocationCount && 0 <= m.seconds < FifteenMinutes
  }

  /**
    `get_likelihoods`: a single location with certainty when the sightings
    disagree, otherwise the common location and its successor, weighted by how
    much of the unexplained window has passed since the most recent moment.
    An empty list raises `IndexError` in the server; it is never passed one.
  */
  function GetLikelihoods(sightings: seq<Sighting>, now: int): (r: map<int, real>)
    requires |sightings| > 0
    ensures forall k <- r :: 0 <= k < LocationCount
    ensures forall k <- r :: 0.0 <= r[k] <= 1.0
    ensures Total(r) == 1.0
  {
    Project(Moments(sightings, now))
  }

  /** The projection of the moments onto the locations, the body of `get_likelihoods`. */
  function Project(ms: seq<Moment>): (r: map<int, real>)
    requires |ms| > 0 && forall i :: 0 <= i < |ms| ==> ValidMoment(ms[i])
    ensures forall k <- r :: 0 <= k < LocationCount
    ensures forall k <- r :: 0.0 <= r[k] <= 1.0
    ensures Total(r) == 1.0
  {
    var first := ms[FirstLowest(ms)];
    assert ValidMoment(first);
    HighestIsValid(ms);
    if |LocationsOf(ms)| > 1 then
      Certain(first.location)
    else
      Split(first.location, first.seconds, Highest(ms))
  }

  /** The largest number of seconds is itself under fifteen minutes. */
  lemma HighestIsValid(ms: seq<Moment>)
    requires |ms| > 0 && forall i :: 0 <= i < |ms| ==> ValidMoment(ms[i])
    ensures 0 <= Highest(ms) < FifteenMinutes
  {
    var j :| 0 <= j < |ms| && ms[j].seconds == Highest(ms);
    assert ValidMoment(ms[j]);
  }

  /**
    When the sightings disagree on the location, the circle is certainly at
    the location given by a sighting whose moment is the most recent.
  */
  lemma DisagreementPicksMostRecent(ms: seq<Moment>)
    requires |ms| > 0 && forall i :: 0 <= i < |ms| ==> ValidMoment(ms[i])
    requires !SameLocation(ms)
    ensures exists i ::
      && 0 <= i < |ms|
      && (forall j :: 0 <= j < |ms| ==> ms[i].seconds <= ms[j].seconds)
      && Project(ms) == map[ms[i].location := 1.0]
  {
    var i := FirstLowest(ms);
    DistinctLocations(ms);
    assert Project(ms) == map[ms[i].location := 1.0];
  }

  /**
    When the sightings agree on the location, the projection is the split
    between that location and the next one, weighted by the most recent
    moment (`lowest`) and the earliest one (`highest`).
  */
  lemma AgreementSplitsOverUnknownWindow(ms: seq<Moment>)
    requires |ms| > 0 && forall i :: 0 <= i < |ms| ==> ValidMoment(ms[i])
    requires SameLocation(ms)
    ensures 0 <= Highest(ms) < FifteenMinutes
    ensures Project(ms) == Split(ms[0].location, ms[FirstLowest(ms)].seconds, Highest(ms))
  {
    var i := FirstLowest(ms);
    var here, lowest, highest := ms[0].location, ms[i].seconds, Highest(ms);
    assert 0 <= here < LocationCount && 0 <= lowest <= highest < FifteenMinutes by {
      HighestIsValid(ms);
      assert ValidMoment(ms[0]);
      assert ValidMoment(ms[i]);
    }
    assert Project(ms) == Split(here, lowest, highest) by {
      DistinctLocations(ms);
      assert ms[i].location == ms[0].location;
    }
  }

  /**
    A lone sighting splits its probability by the time elapsed within the
    current fifteen-minute slot: the circle has moved on with probability
    `seconds / 900`.
  */
  lemma LoneSighting(s: Sighting, now: int)
    ensures var m, r := MomentOf(s, now), GetLikelihoods([s], now);
      var next := (m.location + 1) % LocationCount;
      && r.Keys == {m.location, next}
      && r[next] * (FifteenMinutes as real) == m.seconds as real
  {
    var ms := Moments([s], now);
    var m := MomentOf(s, now);
    assert ms == [m];
    assert FirstLowest(ms) == 0 && Highest(ms) == m.seconds;
    AgreementSplitsOverUnknownWindow(ms);
    assert GetLikelihoods([s], now) == Split(m.location, m.seconds, m.seconds);
  }

  /** All probability on one location. */
  function Certain(location: int): (r: map<int, real>)
    requires 0 <= location < LocationCount
    ensures r.Keys == {location} && r[location] == 1.0
    ensures Total(r) == 1.0
  {
    SumOne(location, 1.0, 0);
    map[location := 1.0]
  }

  /**
    The probability split between `here` and the next location, when the most
    recent moment is `lowest` seconds ago and the earliest `highest`.
  */
  function Split(here: int, lowest: int, highest: int): (r: map<int, real>)
    requires 0 <= here < LocationCount
    requires 0 <= lowest <= highest < FifteenMinutes
    ensures var next := (here + 1) % LocationCount;
      && r.Keys == {here, next}
      && 0.0 <= r[next] <= 1.0
      && r[next] * (UnknownWindow(lowest, highest) as real) == lowest as real
      && r[here] == 1.0 - r[next]
    ensures Total(r) == 1.0
  {
    var moved := Fraction(lowest, UnknownWindow(lowest, highest));
    var next := (here + 1) % LocationCount;
    SumTwo(here, 1.0 - moved, next, moved, 0);
    map[here := 1.0 - moved, next := moved]
  }

  /** `part / whole` as a real, for `0 <= part <= whole`: a probability. */
  function Fraction(part: int, whole: int): (f: real)
    requires 0 <= part <= whole && whole > 0
    ensures 0.0 <= f <= 1.0
    ensures f * (whole as real) == part as real
  {
    (part as real) / (whole as real)
  }

  // ---------------------------------------------------------------------------
  // Total probability
  // ---------------------------------------------------------------------------

  /** Sum of the probabilities of locations `k` and above. */
  function SumFrom(m: map<int, real>, k: int): real
    decreases LocationCount - k
  {
    if k >= LocationCount then 0.0
    else (if k in m then m[k] else 0.0) + SumFrom(m, k + 1)
  }

  /** Sum of the probabilities over all locations. */
  function Total(m: map<int, real>): real {
    SumFrom(m, 0)
  }

  /** A distribution with one location sums to that location's probability. */
  lemma {:induction false} SumOne(a: int, p: real, k: int)
    requires 0 <= a < LocationCount
    ensures SumFrom(map[a := p], k) == if k <= a then p else 0.0
    decreases LocationCount - k
  {
    if k < LocationCount {
      SumOne(a, p, k + 1);
    }
  }

  /** A distribution with two distinct locations sums to the sum of their probabilities. */
  lemma {:induction false} SumTwo(a: int, p: real, b: int, q: real, k: int)
    requires 0 <= a < LocationCount && 0 <= b < LocationCount && a != b
    ensures SumFrom(map[a := p, b := q], k) == (if k <= a then p else 0.0) + (if k <= b then q else 0.0)
    decreases LocationCount - k
  {
    if k < LocationCount {
      SumTwo(a, p, b, q, k + 1);
    }
  }
}
