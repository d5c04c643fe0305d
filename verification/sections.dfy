/**
  Sections of the rotation ring (`Section` in server/likelihoods.py): half-open
  arcs `[start, end)` of the ring of `Length` seconds, and `combine`, which
  intersects two of them.

  A point `x` lies in a section when its forward distance from the start is
  below the section's span. Every proof about `combine` moves to the frame the
  server itself uses: the ring shifted so that `self` starts at 0.
*/
module Sections {
  import opened Ring
  import opened Wrappers

  /** A section with both endpoints normalised onto the ring, as the constructor guarantees. */
  datatype Section = Section(start: Point, end: Point)

  /** Raised by `combine` when it judges the two sections not to overlap. */
  datatype InconsistentSections = InconsistentSections

  /** The constructor `Section(start, end)`: both endpoints are reduced modulo the ring length. */
  function MakeSection(start: int, end: int): (s: Section)
    ensures Congruent(s.start, start) && Congruent(s.end, end)
  {
    Section(Wrap(start), Wrap(end))
  }

  /** Length of the arc from `start` forward to `end`. */
  function Span(s: Section): Point {
    Dist(s.start, s.end)
  }

  /** The point `x` (any integer, read modulo the ring) lies in the half-open arc `s`. */
  predicate Contains(s: Section, x: int) {
    Dist(s.start, x) < Span(s)
  }

  /** The class's standing assumption: a section is shorter than half the ring. */
  predicate Short(s: Section) {
    Span(s) < Length / 2
  }

  function Min(a: int, b: int): int {
    if a < b then a else b
  }

  /**
    The three cases of `combine` in the shifted frame, where `self` is `[0, end)`.
    `None` is the case that raises `InconsistentSections`.
  */
  function CombineShifted(end: Point, otherStart: Point, otherEnd: Point): Option<(Point, Point)> {
    if otherStart < end then
      Some((otherStart, Min(end, otherEnd)))
    else if otherEnd < end then
      Some((if otherStart < otherEnd then otherStart else 0, otherEnd))
    else
      None
  }

  /**
    `Section.combine`: shift both sections so that `self` starts at 0, pick the
    overlap by the three cases, and shift the result back.
  */
  function Combine(self: Section, other: Section): (r: Result<Section, InconsistentSections>)
    ensures r.Failure? <==>
      Dist(self.start, other.start) >= Span(self) && Dist(self.start, other.end) >= Span(self)
  {
    var offset := Length - self.start;
    var end := Wrap(self.end + offset);
    var otherStart := Wrap(other.start + offset);
    var otherEnd := Wrap(other.end + offset);
    ShiftIn(self.start, self.end);
    ShiftIn(self.start, other.start);
    ShiftIn(self.start, other.end);
    match CombineShifted(end, otherStart, otherEnd)
    case None => Failure(InconsistentSections)
    case Some((start, end')) => Success(MakeSection(start - offset, end' - offset))
  }

  // ---------------------------------------------------------------------------
  // Moving between the ring and the shifted frame
  // ---------------------------------------------------------------------------

  /** Adding the server's offset `Length - a` is measuring the distance from `a`. */
  lemma ShiftIn(a: Point, b: int)
    ensures Wrap(b + (Length - a)) == Dist(a, b)
  {
    WrapAddRotations(b - a, 1);
  }

  /** Subtracting the offset again lands on the point at distance `v` from `a`. */
  lemma ShiftBack(a: Point, v: Point)
    ensures Dist(a, Wrap(v - (Length - a))) == v
  {
    WrapDiff(v - (Length - a), a);
    WrapSmall(a);
    WrapSmall(v - Length);
  }

  /** The span of a section seen from a frame anchored anywhere. */
  lemma FrameSpan(t: Section, a: int)
    ensures Span(t) == Wrap(Dist(a, t.end) - Dist(a, t.start))
  {
    WrapDiff(t.end - a, t.start - a);
  }

  /** Two points at the same distance from an anchor are the same point. */
  lemma DistInjective(a: Point, p: Point, q: Point)
    requires Dist(a, p) == Dist(a, q)
    ensures p == q
  {
    WrapSmall(p - a);
    WrapSmall(q - a);
  }

  /** A successful combine, read back in `self`'s frame, is exactly what `CombineShifted` chose. */
  lemma CombineInFrame(self: Section, other: Section)
    requires Combine(self, other).Success?
    ensures var a := self.start;
      var p := CombineShifted(Dist(a, self.end), Dist(a, other.start), Dist(a, other.end));
      p.Some? &&
      Dist(a, Combine(self, other).value.start) == p.value.0 &&
      Dist(a, Combine(self, other).value.end) == p.value.1
  {
    var a := self.start;
    ShiftIn(a, self.end);
    ShiftIn(a, other.start);
    ShiftIn(a, other.end);
    var p := CombineShifted(Dist(a, self.end), Dist(a, other.start), Dist(a, other.end));
    assert p.Some?;
    var r := MakeSection(p.value.0 - (Length - a), p.value.1 - (Length - a));
    assert Combine(self, other) == Success(r);
    ShiftBack(a, p.value.0);
    ShiftBack(a, p.value.1);
  }

  /** Membership of `y` in the frame arc `[lo, hi)`, which wraps past 0 when `hi < lo`. */
  predicate OnArc(lo: int, hi: int, y: int) {
    if lo <= hi then lo <= y < hi else lo <= y || y < hi
  }

  /** Length of the frame arc `[lo, hi)`. */
  function ArcSpan(lo: int, hi: int): int {
    if lo <= hi then hi - lo else Length - lo + hi
  }

  /** Membership of a ring point, read in the frame anchored at `a`. */
  lemma ContainsInFrame(t: Section, a: int, x: int)
    ensures Contains(t, x) <==> OnArc(Dist(a, t.start), Dist(a, t.end), Dist(a, x))
  {
    WrapDiff(x - a, t.start - a);
    WrapDiff(t.end - a, t.start - a);
    WrapSmall(Dist(a, x) - Dist(a, t.start));
    WrapSmall(Dist(a, t.end) - Dist(a, t.start));
  }

  /** The span of a section, read in the frame anchored at `a`. */
  lemma SpanInFrame(t: Section, a: int)
    ensures Span(t) == ArcSpan(Dist(a, t.start), Dist(a, t.end))
  {
    FrameSpan(t, a);
    WrapSmall(Dist(a, t.end) - Dist(a, t.start));
  }

  /** The anchor itself sits at 0 in its own frame. */
  lemma AnchorAtZero(a: Point)
    ensures Dist(a, a) == 0
  {
    WrapSmall(0);
  }

  // ---------------------------------------------------------------------------
  // What `combine` promises
  // ---------------------------------------------------------------------------

  /** `CombineShifted` picks exactly the common part of two short arcs in `self`'s frame. */
  lemma ShiftedIsIntersection(e: Point, os: Point, oe: Point, y: Point)
    requires e < Length / 2 && ArcSpan(os, oe) < Length / 2
    requires CombineShifted(e, os, oe).Some?
    ensures var p := CombineShifted(e, os, oe).value;
      OnArc(p.0, p.1, y) <==> OnArc(0, e, y) && OnArc(os, oe, y)
    ensures var p := CombineShifted(e, os, oe).value;
      0 <= p.0 <= p.1 <= e
  {
  }

  /**
    For sections shorter than half the ring, a successful combine returns
    exactly the common part of the two sections.
  */
  lemma CombineIsIntersection(self: Section, other: Section, x: int)
    requires Short(self) && Short(other)
    requires Combine(self, other).Success?
    ensures Contains(Combine(self, other).value, x) <==> Contains(self, x) && Contains(other, x)
  {
    var a := self.start;
    var r := Combine(self, other).value;
    CombineInFrame(self, other);
    ContainsInFrame(r, a, x);
    ContainsInFrame(self, a, x);
    ContainsInFrame(other, a, x);
    SpanInFrame(other, a);
    AnchorAtZero(a);
    ShiftedIsIntersection(Dist(a, self.end), Dist(a, other.start), Dist(a, other.end), Dist(a, x));
  }

  /**
    For sections shorter than half the ring, a successful combine lies inside
    `self`: in `self`'s frame `0 <= start <= end <= Span(self)`, so it is no
    longer than `self`.
  */
  lemma CombineInsideSelf(self: Section, other: Section)
    requires Short(self) && Short(other)
    requires Combine(self, other).Success?
    ensures var a, r := self.start, Combine(self, other).value;
      Dist(a, r.start) <= Dist(a, r.end) <= Span(self)
    ensures Span(Combine(self, other).value) <= Span(self)
  {
    var a := self.start;
    var r := Combine(self, other).value;
    CombineInFrame(self, other);
    SpanInFrame(other, a);
    SpanInFrame(r, a);
    ShiftedIsIntersection(Dist(a, self.end), Dist(a, other.start), Dist(a, other.end), 0);
  }

  /** Combining a non-empty section with itself gives the section back. */
  lemma CombineSelf(s: Section)
    requires s.start != s.end
    ensures Combine(s, s) == Success(s)
  {
    var a := s.start;
    AnchorAtZero(a);
    SpanInFrame(s, a);
    assert Combine(s, s).Success?;
    CombineInFrame(s, s);
    var r := Combine(s, s).value;
    DistInjective(a, r.start, s.start);
    DistInjective(a, r.end, s.end);
  }

  /**
    For short sections, the only overlapping pairs that combine rejects are
    those where `other` encloses all of `self`: in `self`'s frame `other`
    starts after `self` ends and wraps round past 0 to end at or beyond it.
  */
  lemma CombineFailsOnlyWhenEnclosed(self: Section, other: Section, x: int, z: int)
    requires Short(self) && Short(other)
    requires Combine(self, other).Failure?
    requires Contains(self, x) && Contains(other, x)
    requires Contains(self, z)
    ensures Contains(other, z)
    ensures Dist(self.start, other.end) < Dist(self.start, other.start)
  {
    var a := self.start;
    AnchorAtZero(a);
    ContainsInFrame(self, a, x);
    ContainsInFrame(other, a, x);
    ContainsInFrame(self, a, z);
    ContainsInFrame(other, a, z);
  }

  // ---------------------------------------------------------------------------
  // The intersection the docstring describes
  // ---------------------------------------------------------------------------

  /** The intended case split in `self`'s frame; `None` means the sections share no point. */
  function IntendedShifted(e: Point, os: Point, oe: Point): Option<(Point, Point)> {
    if os < oe then
      if os < e then Some((os, Min(e, oe))) else None
    else if oe < os && 0 < oe && 0 < e then
      Some((0, Min(e, oe)))
    else
      None
  }

  /**
    `combine` as its docstring describes it: the overlapping section, or
    `InconsistentSections` exactly when the two sections share no point.
    It differs from `Combine` in two cases: `other` enclosing `self` and
    wrapping past `self`'s start (overlap that `Combine` rejects), and `other`
    ending exactly where `self` starts (no overlap, where `Combine` returns an
    empty section).
  */
  function CombineIntended(self: Section, other: Section): (r: Result<Section, InconsistentSections>)
    ensures r.Success? ==> r.value.start != r.value.end
  {
    var offset := Length - self.start;
    var end := Wrap(self.end + offset);
    var otherStart := Wrap(other.start + offset);
    var otherEnd := Wrap(other.end + offset);
    match IntendedShifted(end, otherStart, otherEnd)
    case None => Failure(InconsistentSections)
    case Some((start, end')) =>
      ShiftBack(self.start, start);
      ShiftBack(self.start, end');
      Success(MakeSection(start - offset, end' - offset))
  }

  /** A success of the intended combine, read back in `self`'s frame. */
  lemma IntendedInFrame(self: Section, other: Section)
    ensures var a := self.start;
      var p := IntendedShifted(Dist(a, self.end), Dist(a, other.start), Dist(a, other.end));
      && (CombineIntended(self, other).Success? <==> p.Some?)
      && (p.Some? ==>
            Dist(a, CombineIntended(self, other).value.start) == p.value.0 &&
            Dist(a, CombineIntended(self, other).value.end) == p.value.1)
  {
    var a := self.start;
    ShiftIn(a, self.end);
    ShiftIn(a, other.start);
    ShiftIn(a, other.end);
    var p := IntendedShifted(Dist(a, self.end), Dist(a, other.start), Dist(a, other.end));
    if p.Some? {
      var r := MakeSection(p.value.0 - (Length - a), p.value.1 - (Length - a));
      assert CombineIntended(self, other) == Success(r);
      ShiftBack(a, p.value.0);
      ShiftBack(a, p.value.1);
    }
  }

  /** `IntendedShifted` succeeds exactly on overlap and then picks the common part. */
  lemma IntendedShiftedIsIntersection(e: Point, os: Point, oe: Point, y: Point)
    requires e < Length / 2 && ArcSpan(os, oe) < Length / 2
    ensures OnArc(0, e, y) && OnArc(os, oe, y) ==> IntendedShifted(e, os, oe).Some?
    ensures IntendedShifted(e, os, oe).Some? ==>
      var p := IntendedShifted(e, os, oe).value;
      (OnArc(p.0, p.1, y) <==> OnArc(0, e, y) && OnArc(os, oe, y))
  {
  }

  /**
    For short sections the intended combine succeeds exactly when the two
    sections share a point (given here as `x`), and then returns their common part.
  */
  lemma IntendedIsIntersection(self: Section, other: Section, x: int)
    requires Short(self) && Short(other)
    ensures Contains(self, x) && Contains(other, x) ==> CombineIntended(self, other).Success?
    ensures CombineIntended(self, other).Success? ==>
      (Contains(CombineIntended(self, other).value, x) <==> Contains(self, x) && Contains(other, x))
  {
    var a := self.start;
    IntendedInFrame(self, other);
    ContainsInFrame(self, a, x);
    ContainsInFrame(other, a, x);
    SpanInFrame(other, a);
    AnchorAtZero(a);
    if CombineIntended(self, other).Success? {
      ContainsInFrame(CombineIntended(self, other).value, a, x);
    }
    IntendedShiftedIsIntersection(Dist(a, self.end), Dist(a, other.start), Dist(a, other.end), Dist(a, x));
  }

  // ---------------------------------------------------------------------------
  // Where `combine` as written departs from its docstring
  // ---------------------------------------------------------------------------

  /**
    `[400, 2200)` encloses `[800, 1800)`, and in the latter's frame it wraps
    past 0, so `Combine` rejects the pair although they share, for one, the
    point 1000. The intended combine returns `[800, 1800)`.
  */
  lemma CombineRejectsEnclosingSection()
    ensures Contains(Section(800, 1800), 1000) && Contains(Section(400, 2200), 1000)
    ensures Combine(Section(800, 1800), Section(400, 2200)).Failure?
    ensures CombineIntended(Section(800, 1800), Section(400, 2200)) == Success(Section(800, 1800))
  {
    WrapSmall(200);
    WrapSmall(1000);
    WrapSmall(600);
    WrapSmall(1800);
    ShiftIn(800, 1800);
    ShiftIn(800, 400);
    ShiftIn(800, 2200);
    WrapSmall(-400);
    WrapSmall(1400);
    ShiftBack(800, 0);
    ShiftBack(800, 1000);
    DistInjective(800, Wrap(0 - (Length - 800)), 800);
    DistInjective(800, Wrap(1000 - (Length - 800)), 1800);
  }

  /**
    `[15300, 900)` ends exactly where `[900, 2700)` starts, so the two share no
    point; `Combine` nevertheless succeeds, with the empty section `[900, 900)`,
    where the intended combine raises.
  */
  lemma CombineAcceptsTouchingSections(x: int)
    ensures !(Contains(Section(900, 2700), x) && Contains(Section(15300, 900), x))
    ensures Combine(Section(900, 2700), Section(15300, 900)) == Success(Section(900, 900))
    ensures CombineIntended(Section(900, 2700), Section(15300, 900)).Failure?
  {
    var s, o := Section(900, 2700), Section(15300, 900);
    WrapSmall(1800);
    WrapSmall(1800 - 0);
    ShiftIn(900, 2700);
    ShiftIn(900, 15300);
    ShiftIn(900, 900);
    WrapSmall(14400);
    WrapSmall(0);
    AnchorAtZero(900);
    ShiftBack(900, 0);
    DistInjective(900, Wrap(0 - (Length - 900)), 900);
    IntendedInFrame(s, o);
    ContainsInFrame(s, 900, x);
    ContainsInFrame(o, 900, x);
  }
}
