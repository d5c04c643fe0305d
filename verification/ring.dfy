/**
  The cyclic timeline of the crop-circle rotation: the circle visits every
  location for fifteen minutes, so one full rotation lasts
  `LocationCount * FifteenMinutes` seconds. Times on the ring are integers
  taken modulo that length with floor semantics, as Python's `%` does.
*/
module Ring {

  /** Number of locations the crop circle rotates through (keys 0..17 of the location table). */
  const LocationCount: int := 18

  /** The time, in seconds, the circle spends at each location. */
  const FifteenMinutes: int := 900

  /** Seconds in one full rotation, `Section.LENGTH` in the server. */
  const Length: int := 16200

  /** The location table: location number to its name. */
  const LocationNames: map<int, string> := map[
    0 := "Doric's House",
    1 := "Yanille",
    2 := "Draynor",
    3 := "Rimmington",
    4 := "Grand Exchange",
    5 := "Farming Guild",
    6 := "Hosidius",
    7 := "Harmony Island",
    8 := "Gwenith",
    9 := "Catherby",
    10 := "Tree Gnome Stronghold",
    11 := "Brimhaven",
    12 := "Mos Le'Harmless",
    13 := "Taverley",
    14 := "Lumbridge Mill",
    15 := "East Ardougne",
    16 := "South of Varrock",
    17 := "Miscellania"
  ]

  /** A normalised position on the ring. */
  type Point = x: int | 0 <= x < Length

  /** Both integers denote the same point of the ring. */
  predicate Congruent(x: int, y: int) {
    (x - y) % Length == 0
  }

  /** Python's `x % LENGTH`: the unique point of the ring congruent to `x`. */
  function Wrap(x: int): (p: Point)
    ensures Congruent(p, x)
  {
    var p := x % Length;
    assert p - x == (-(x / Length)) * Length;
    assert (p - x) % Length == 0 by {
      ModUnique(p - x, -(x / Length), 0);
    }
    p
  }

  /** Forward distance on the ring from `a` to `b`. */
  function Dist(a: int, b: int): Point {
    Wrap(b - a)
  }

  /** A point congruent to `x` that lies on the ring is `x % Length` itself. */
  lemma ModUnique(x: int, q: int, r: int)
    requires 0 <= r < Length
    requires x == q * Length + r
    ensures x % Length == r
  {
    var q' := x / Length;
    assert x == q' * Length + x % Length;
    assert (q - q') * Length == x % Length - r;
  }

  /** Adding whole rotations does not move a point. */
  lemma WrapAddRotations(x: int, k: int)
    ensures Wrap(x + k * Length) == Wrap(x)
  {
    var q := x / Length;
    assert x == q * Length + Wrap(x);
    assert x + k * Length == (q + k) * Length + Wrap(x);
    ModUnique(x + k * Length, q + k, Wrap(x));
  }

  /** Wrapping the operands of a difference first does not change the wrapped difference. */
  lemma WrapDiff(u: int, v: int)
    ensures Wrap(Wrap(u) - Wrap(v)) == Wrap(u - v)
  {
    var qu := u / Length;
    var qv := v / Length;
    assert u == qu * Length + Wrap(u);
    assert v == qv * Length + Wrap(v);
    assert Wrap(u) - Wrap(v) == (u - v) + (qv - qu) * Length;
    WrapAddRotations(u - v, qv - qu);
  }

  /** A value already on the ring wraps to itself; one rotation below it wraps up to it. */
  lemma WrapSmall(x: int)
    requires -Length <= x < Length
    ensures Wrap(x) == if x < 0 then x + Length else x
  {
    if x < 0 {
      ModUnique(x, -1, x + Length);
    } else {
      ModUnique(x, 0, x);
    }
  }

  /**
    The location table has exactly the keys `0 .. LocationCount - 1`.
  */
  lemma LocationTable()
    ensures forall l :: l in LocationNames <==> 0 <= l < LocationCount
  {
    forall l
      ensures l in LocationNames <==> 0 <= l < LocationCount
    {
      if 0 <= l < LocationCount {
        assert l in LocationNames.Keys;
      }
    }
  }

  /** `LENGTH = len(LOCATIONS) * FIFTEEN_MINUTES`: the table has one entry per location. */
  lemma RotationLength()
    ensures |LocationNames| == LocationCount
    ensures Length == |LocationNames| * FifteenMinutes
  {
    LocationTable();
    RangeSize(LocationNames.Keys, LocationCount);
    assert |LocationNames| == |LocationNames.Keys|;
  }

  /** A set holding exactly `0 .. n - 1` has `n` elements. */
  lemma RangeSize(keys: set<int>, n: nat)
    requires forall l :: l in keys <==> 0 <= l < n
    ensures |keys| == n
  {
    assert keys == Range(n);
  }

  /** The integers `0 .. n - 1`. */
  function Range(n: nat): (r: set<int>)
    ensures forall l :: l in r <==> 0 <= l < n
    ensures |r| == n
  {
    if n == 0 then {} else Range(n - 1) + {n - 1}
  }
}
