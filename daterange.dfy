/** The year-range filter: the list of selectable years and the two select handlers, which pull
    the other bound along so that the range never becomes inverted. */
module DateRange {
  import opened Common

  /** The selected bounds; `None` is the empty "From"/"To" choice. */
  datatype YearRange = YearRange(yearStart: Option<int>, yearEnd: Option<int>)

  /** Both bounds are set and the start is after the end. */
  predicate Inverted(r: YearRange) {
    r.yearStart.Some? && r.yearEnd.Some? && r.yearStart.value > r.yearEnd.value
  }

  /** The `years` loop: `yearMin` to `yearMax` inclusive, ascending. */
  method Years(yearMin: int, yearMax: int) returns (years: seq<int>)
    ensures |years| == if yearMax >= yearMin then yearMax - yearMin + 1 else 0
    ensures forall k :: 0 <= k < |years| ==> years[k] == yearMin + k
    ensures forall y :: y in years <==> yearMin <= y <= yearMax
  {
    years := [];
    var y := yearMin;
    while y <= yearMax
      invariant yearMin <= y && (y <= yearMax + 1 || y == yearMin)
      invariant |years| == y - yearMin
      invariant forall k :: 0 <= k < |years| ==> years[k] == yearMin + k
    {
      years := years + [y];
      y := y + 1;
    }
    forall v | v in years
      ensures yearMin <= v <= yearMax
    {
      var k :| 0 <= k < |years| && years[k] == v;
    }
    forall v | yearMin <= v <= yearMax
      ensures v in years
    {
      assert years[v - yearMin] == v;
    }
  }

  /** `handleFromChange`: the chosen "From" year (or none) becomes the start. The range is never
      inverted afterwards, whatever it was before; the end is kept unless it was set and earlier
      than the choice, in which case it becomes the choice; clearing the start keeps the end. */
  function FromChange(from: Option<int>, current: YearRange): (r: YearRange)
    ensures !Inverted(r)
    ensures r.yearStart == from
    ensures r.yearEnd != current.yearEnd <==>
      from.Some? && current.yearEnd.Some? && from.value > current.yearEnd.value
    ensures r.yearEnd != current.yearEnd ==> r.yearEnd == from
    ensures from.None? ==> r.yearEnd == current.yearEnd
    ensures r.yearEnd.Some? == current.yearEnd.Some?
  {
    var to := if from.Some? && current.yearEnd.Some? && from.value > current.yearEnd.value
              then from else current.yearEnd;
    YearRange(from, to)
  }

  /** `handleToChange`: the chosen "To" year (or none) becomes the end. The range is never
      inverted afterwards; the start is kept unless it was set and later than the choice, in
      which case it becomes the choice; clearing the end keeps the start. */
  function ToChange(to: Option<int>, current: YearRange): (r: YearRange)
    ensures !Inverted(r)
    ensures r.yearEnd == to
    ensures r.yearStart != current.yearStart <==>
      to.Some? && current.yearStart.Some? && to.value < current.yearStart.value
    ensures r.yearStart != current.yearStart ==> r.yearStart == to
    ensures to.None? ==> r.yearStart == current.yearStart
    ensures r.yearStart.Some? == current.yearStart.Some?
  {
    var from := if to.Some? && current.yearStart.Some? && to.value < current.yearStart.value
                then to else current.yearStart;
    YearRange(from, to)
  }

  /** An edit made through one of the two selects. */
  datatype Edit = From(from: Option<int>) | To(to: Option<int>)

  function ApplyEdit(r: YearRange, e: Edit): YearRange {
    match e
    case From(f) => FromChange(f, r)
    case To(t) => ToChange(t, r)
  }

  function ApplyEdits(r: YearRange, es: seq<Edit>): YearRange
    decreases |es|
  {
    if es == [] then r else ApplyEdits(ApplyEdit(r, es[0]), es[1..])
  }

  /** Any sequence of edits, from any starting range, leaves a range that is not inverted once
      at least one edit was made. */
  lemma {:induction false} EditsNeverInvert(r: YearRange, es: seq<Edit>)
    requires es != [] || !Inverted(r)
    ensures !Inverted(ApplyEdits(r, es))
    decreases |es|
  {
    if es != [] {
      EditsNeverInvert(ApplyEdit(r, es[0]), es[1..]);
    }
  }
}
