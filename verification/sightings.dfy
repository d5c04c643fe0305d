/**
  Reconciling a world's sightings (`separate_sightings` in
  server/likelihoods.py): every sighting predicts a section of the ring in
  which the crop circle moves to location 0; sightings are folded newest first,
  and at the first one whose section is inconsistent with the running
  combination, it and every older sighting are set aside as old.
*/
module Sightings {
  import opened Ring
  import opened Wrappers
  import opened Sections

  /** A stored sighting: database row, reported location and the time it was made, in seconds. */
  datatype Sighting = Sighting(rowId: int, location: int, dt: int)

  /** A way of combining the running section with the next sighting's section. */
  type Combiner = (Section, Section) -> Result<Section, InconsistentSections>

  /** Seconds from a sighting at `location` until the circle is predicted to reach location 0. */
  function SecondsUntilLocationZero(location: int): (r: int)
    ensures 0 <= r < Length
    ensures (location * FifteenMinutes + r) % Length == 0
  {
    var steps := (LocationCount - location) % LocationCount;
    assert location * FifteenMinutes + steps * FifteenMinutes
        == (location + steps) * FifteenMinutes;
    assert (location + steps) % LocationCount == 0;
    var k := (location + steps) / LocationCount;
    assert location * FifteenMinutes + steps * FifteenMinutes == k * Length;
    ModUnique(k * Length, k, 0);
    steps * FifteenMinutes
  }

  /**
    The section a sighting predicts: fifteen minutes either side of the
    moment the circle is expected to move to location 0.
  */
  function SightingSection(s: Sighting): (r: Section)
    ensures Span(r) == 2 * FifteenMinutes
    ensures Dist(r.start, s.dt + SecondsUntilLocationZero(s.location)) == FifteenMinutes
    ensures Short(r)
  {
    var untilZero := SecondsUntilLocationZero(s.location);
    var r := MakeSection(s.dt + untilZero - FifteenMinutes, s.dt + untilZero + FifteenMinutes);
    WrapDiff(s.dt + untilZero + FifteenMinutes, s.dt + untilZero - FifteenMinutes);
    WrapSmall(2 * FifteenMinutes);
    WrapDiff(s.dt + untilZero, s.dt + untilZero - FifteenMinutes);
    WrapSmall(FifteenMinutes);
    r
  }

  // ---------------------------------------------------------------------------
  // Newest first
  // ---------------------------------------------------------------------------

  /** Sightings in order of time, most recent first. */
  predicate SortedNewestFirst(ss: seq<Sighting>) {
    forall i, j :: 0 <= i < j < |ss| ==> ss[i].dt >= ss[j].dt
  }

  /** Insert `x` before the first sighting that is not newer than it. */
  function InsertNewestFirst(x: Sighting, ss: seq<Sighting>): (r: seq<Sighting>)
    requires SortedNewestFirst(ss)
    ensures SortedNewestFirst(r)
    ensures multiset(r) == multiset(ss) + multiset{x}
    ensures forall y <- r :: y == x || y in ss
  {
    if |ss| == 0 || ss[0].dt <= x.dt then
      [x] + ss
    else
      var rest := InsertNewestFirst(x, ss[1..]);
      assert ss == [ss[0]] + ss[1..];
      assert forall y <- rest :: y.dt <= ss[0].dt;
      [ss[0]] + rest
  }

  /**
    `sorted(sightings, key=dt, reverse=True)`: a stable sort, most recent first,
    by insertion.
  */
  function SortNewestFirst(ss: seq<Sighting>): (r: seq<Sighting>)
    ensures SortedNewestFirst(r)
    ensures multiset(r) == multiset(ss)
  {
    if |ss| == 0 then
      []
    else
      assert ss == [ss[0]] + ss[1..];
      InsertNewestFirst(ss[0], SortNewestFirst(ss[1..]))
  }

  // ---------------------------------------------------------------------------
  // The fold
  // ---------------------------------------------------------------------------

  /**
    The loop of `separate_sightings` over sightings already sorted newest
    first, with `acc` the most accurate section so far. The first sighting
    always starts the section; on the first inconsistency the remaining
    sightings, the failing one included, all become old and nothing more is
    combined.
  */
  function Separate(ss: seq<Sighting>, acc: Option<Section>, combine: Combiner): (r: (seq<Sighting>, seq<Sighting>))
    ensures r.0 + r.1 == ss
    ensures acc.None? && |ss| > 0 ==> |r.0| > 0
  {
    if |ss| == 0 then
      ([], [])
    else
      var section := SightingSection(ss[0]);
      var next :=
        match acc
        case None => Success(section)
        case Some(current) => combine(current, section);
      match next
      case Success(combined) =>
        var rest := Separate(ss[1..], Some(combined), combine);
        assert ss == [ss[0]] + ss[1..];
        ([ss[0]] + rest.0, rest.1)
      case Failure(_) =>
        ([], ss)
  }

  /**
    Reference definition: fold every sighting's section into `acc`, failing
    at the first inconsistency.
  */
  function Accumulate(ss: seq<Sighting>, acc: Option<Section>, combine: Combiner): Result<Option<Section>, InconsistentSections> {
    if |ss| == 0 then
      Success(acc)
    else
      var section := SightingSection(ss[0]);
      var next :=
        match acc
        case None => Success(section)
        case Some(current) => combine(current, section);
      match next
      case Success(combined) => Accumulate(ss[1..], Some(combined), combine)
      case Failure(e) => Failure(e)
  }

  /** Folding a concatenation is folding the first part, then the second from where it left off. */
  lemma {:induction false} AccumulateAppend(p: seq<Sighting>, q: seq<Sighting>, acc: Option<Section>, combine: Combiner)
    ensures Accumulate(p + q, acc, combine) ==
      match Accumulate(p, acc, combine)
      case Success(acc') => Accumulate(q, acc', combine)
      case Failure(e) => Failure(e)
  {
    if |p| > 0 {
      assert (p + q)[0] == p[0];
      assert (p + q)[1..] == p[1..] + q;
      var section := SightingSection(p[0]);
      var next :=
        match acc
        case None => Success(section)
        case Some(current) => combine(current, section);
      if next.Success? {
        AccumulateAppend(p[1..], q, Some(next.value), combine);
      }
    } else {
      assert p + q == q;
    }
  }

  /**
    The sightings kept as new are the longest run, newest first, whose
    sections fold together without inconsistency: that run folds, and adding
    the next (the first old) sighting to it does not.
  */
  lemma {:induction false} SeparateKeepsLongestConsistentRun(ss: seq<Sighting>, acc: Option<Section>, combine: Combiner)
    ensures Accumulate(Separate(ss, acc, combine).0, acc, combine).Success?
    ensures var r := Separate(ss, acc, combine);
      r.1 != [] ==> Accumulate(r.0 + [r.1[0]], acc, combine).Failure?
  {
    if |ss| > 0 {
      var section := SightingSection(ss[0]);
      var next :=
        match acc
        case None => Success(section)
        case Some(current) => combine(current, section);
      var r := Separate(ss, acc, combine);
      if next.Success? {
        var rest := Separate(ss[1..], Some(next.value), combine);
        SeparateKeepsLongestConsistentRun(ss[1..], Some(next.value), combine);
        assert r.0 == [ss[0]] + rest.0;
        assert r.0[1..] == rest.0;
        if r.1 != [] {
          assert (r.0 + [r.1[0]])[0] == ss[0];
          assert (r.0 + [r.1[0]])[1..] == rest.0 + [rest.1[0]];
        }
      } else {
        assert r.0 == [];
        assert r.0 + [r.1[0]] == [ss[0]];
      }
    }
  }

  /**
    Once the run breaks, no longer run of the sorted sightings folds either:
    every prefix that reaches into the old sightings is inconsistent.
  */
  lemma LongerRunsAreInconsistent(ss: seq<Sighting>, acc: Option<Section>, combine: Combiner, k: nat)
    requires |Separate(ss, acc, combine).0| < k <= |ss|
    ensures Accumulate(ss[..k], acc, combine).Failure?
  {
    var r := Separate(ss, acc, combine);
    var n := |r.0|;
    SeparateKeepsLongestConsistentRun(ss, acc, combine);
    assert ss[..n + 1] == r.0 + [r.1[0]];
    assert ss[..k] == ss[..n + 1] + ss[n + 1..k];
    AccumulateAppend(ss[..n + 1], ss[n + 1..k], acc, combine);
  }

  /**
    With `Combine`, the running section stays shorter than half the ring, so
    the assumption `combine` relies on holds at every step of the fold.
  */
  lemma {:induction false} AccumulateStaysShort(ss: seq<Sighting>, acc: Option<Section>)
    requires acc.Some? ==> Short(acc.value)
    ensures Accumulate(ss, acc, Combine).Success? && Accumulate(ss, acc, Combine).value.Some? ==>
      Short(Accumulate(ss, acc, Combine).value.value)
  {
    if |ss| > 0 {
      var section := SightingSection(ss[0]);
      match acc
      case None =>
        AccumulateStaysShort(ss[1..], Some(section));
      case Some(current) =>
        if Combine(current, section).Success? {
          CombineInsideSelf(current, section);
          AccumulateStaysShort(ss[1..], Some(Combine(current, section).value));
        }
    }
  }

  // ---------------------------------------------------------------------------
  // separate_sightings
  // ---------------------------------------------------------------------------

  /**
    `separate_sightings`: split a world's sightings into the new, consistent
    ones and the old ones to delete, favouring the most recent.
  */
  function SeparateSightings(sightings: seq<Sighting>): (r: (seq<Sighting>, seq<Sighting>))
    ensures SortedNewestFirst(r.0 + r.1)
    ensures multiset(r.0 + r.1) == multiset(sightings)
    ensures |sightings| == 0 ==> r == ([], [])
    ensures |sightings| > 0 ==> |r.0| > 0 && forall s <- sightings :: s.dt <= r.0[0].dt
  {
    var sorted := SortNewestFirst(sightings);
    var r := Separate(sorted, None, Combine);
    HeadIsNewest(sightings, sorted);
    assert |sightings| > 0 ==> r.0[0] == sorted[0];
    r
  }

  /** The head of a newest-first permutation is at least as recent as every sighting. */
  lemma HeadIsNewest(sightings: seq<Sighting>, sorted: seq<Sighting>)
    requires SortedNewestFirst(sorted) && multiset(sorted) == multiset(sightings)
    ensures |sightings| > 0 ==> forall s <- sightings :: s.dt <= sorted[0].dt
  {
    forall s <- sightings
      ensures s.dt <= sorted[0].dt
    {
      assert s in multiset(sorted);
    }
  }

  /** The same split with the intended combine in place of `Combine`. */
  function SeparateSightingsIntended(sightings: seq<Sighting>): (r: (seq<Sighting>, seq<Sighting>))
    ensures SortedNewestFirst(r.0 + r.1)
    ensures multiset(r.0 + r.1) == multiset(sightings)
    ensures |sightings| > 0 ==> |r.0| > 0
  {
    Separate(SortNewestFirst(sightings), None, CombineIntended)
  }

  /** The sections predicted by the three sightings of `OldestTrueSightingDiscarded`. */
  lemma ExampleSections()
    ensures SightingSection(Sighting(1, 0, 17900)) == Section(800, 2600)
    ensures SightingSection(Sighting(2, 17, 16200)) == Section(0, 1800)
    ensures SightingSection(Sighting(3, 16, 15700)) == Section(400, 2200)
  {
  }

  /** The first two of those sections overlap in `[800, 1800)`, and both combines find it. */
  lemma ExampleFirstCombine()
    ensures Combine(Section(800, 2600), Section(0, 1800)) == Success(Section(800, 1800))
    ensures CombineIntended(Section(800, 2600), Section(0, 1800)) == Success(Section(800, 1800))
  {
  }

  /** The three sightings are already newest first. */
  lemma ExampleSort()
    ensures var a, b, c := Sighting(1, 0, 17900), Sighting(2, 17, 16200), Sighting(3, 16, 15700);
      SortNewestFirst([a, b, c]) == [a, b, c]
  {
    var a, b, c := Sighting(1, 0, 17900), Sighting(2, 17, 16200), Sighting(3, 16, 15700);
    assert [a, b, c][1..] == [b, c];
    assert [b, c][1..] == [c];
    assert [c][1..] == [];
  }

  /** The third sighting: `Combine` rejects it, the intended combine keeps it. */
  lemma ExampleLastStep()
    ensures Separate([Sighting(3, 16, 15700)], Some(Section(800, 1800)), Combine) == ([], [Sighting(3, 16, 15700)])
    ensures Separate([Sighting(3, 16, 15700)], Some(Section(800, 1800)), CombineIntended) == ([Sighting(3, 16, 15700)], [])
  {
    var c := Sighting(3, 16, 15700);
    ExampleSections();
    CombineRejectsEnclosingSection();
    var f: Combiner := Combine;
    var g: Combiner := CombineIntended;
    assert f(Section(800, 1800), SightingSection(c)).Failure?;
    assert g(Section(800, 1800), SightingSection(c)) == Success(Section(800, 1800));
    assert [c][1..] == [];
    assert Separate([], Some(Section(800, 1800)), CombineIntended) == ([], []);
    assert [c] + [] == [c];
  }

  /** The fold from the second sighting on, with the first section as the running one. */
  lemma ExampleMiddleStep()
    ensures Separate([Sighting(2, 17, 16200), Sighting(3, 16, 15700)], Some(Section(800, 2600)), Combine)
      == ([Sighting(2, 17, 16200)], [Sighting(3, 16, 15700)])
    ensures Separate([Sighting(2, 17, 16200), Sighting(3, 16, 15700)], Some(Section(800, 2600)), CombineIntended)
      == ([Sighting(2, 17, 16200), Sighting(3, 16, 15700)], [])
  {
    var b, c := Sighting(2, 17, 16200), Sighting(3, 16, 15700);
    ExampleSections();
    ExampleFirstCombine();
    ExampleLastStep();
    var f: Combiner := Combine;
    var g: Combiner := CombineIntended;
    assert f(Section(800, 2600), SightingSection(b)) == Success(Section(800, 1800));
    assert g(Section(800, 2600), SightingSection(b)) == Success(Section(800, 1800));
    assert [b, c][1..] == [c];
    assert [b] + [] == [b];
    assert [b] + [c] == [b, c];
  }

  /** The whole fold over the three sorted sightings, with both combines. */
  lemma ExampleFirstStep()
    ensures var a, b, c := Sighting(1, 0, 17900), Sighting(2, 17, 16200), Sighting(3, 16, 15700);
      Separate([a, b, c], None, Combine) == ([a, b], [c]) &&
      Separate([a, b, c], None, CombineIntended) == ([a, b, c], [])
  {
    var a, b, c := Sighting(1, 0, 17900), Sighting(2, 17, 16200), Sighting(3, 16, 15700);
    ExampleSections();
    ExampleMiddleStep();
    assert [a, b, c][1..] == [b, c];
    assert [a] + [b] == [a, b];
    assert [a] + [b, c] == [a, b, c];
  }

  /**
    Three true sightings of a circle that is at location 16 during
    [15300, 16200), 17 during [16200, 17100) and 0 during [17100, 18000).
    `Combine` rejects the oldest, whose section encloses the running one;
    the intended combine keeps all three.
  */
  lemma OldestTrueSightingDiscarded()
    ensures var a, b, c := Sighting(1, 0, 17900), Sighting(2, 17, 16200), Sighting(3, 16, 15700);
      SeparateSightings([a, b, c]) == ([a, b], [c])
    ensures var a, b, c := Sighting(1, 0, 17900), Sighting(2, 17, 16200), Sighting(3, 16, 15700);
      SeparateSightingsIntended([a, b, c]) == ([a, b, c], [])
  {
    ExampleSort();
    ExampleFirstStep();
  }
}
