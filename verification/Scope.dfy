/**
 The scope check of a grant (`validate_scope_within_grant`) against the record filter it has to agree with
 (`_records_filter_from_search_criteria` and `_apply_record_filters`).
 */
module Scope {
  import opened Outcomes
  import opened Calendar
  import opened TextOrder
  import opened DateText

  // ---------------------------------------------------------------- criteria

  datatype Bounds = Bounds(latMin: real, latMax: real, lonMin: real, lonMax: real) {
    predicate Ordered() { latMin <= latMax && lonMin <= lonMax }
  }

  /** `SearchCriteriaSchema`: what a request asks for, what a grant allows, what an extraction asks for. */
  datatype Criteria = Criteria(
    category: Option<string>,
    parameters: Option<seq<string>>,
    quality: Option<string>,
    source: Option<string>,
    platform: Option<string>,
    station: Option<string>,
    format: Option<string>,
    processingLevel: Option<string>,
    dateFrom: Option<string>,
    dateTo: Option<string>,
    depthMin: Option<real>,
    depthMax: Option<real>,
    bounds: Option<Bounds>)

  /** Python truth of an optional text: absent and empty both mean "no restriction". */
  predicate IsSet(text: Option<string>) {
    text.Some? && text.value != ""
  }

  predicate AnyOf(list: Option<seq<string>>) {
    list.Some? && list.value != []
  }

  // ---------------------------------------------------------------- the grant check

  datatype Field =
    | Category | Source | Quality | Platform | Station | Format | ProcessingLevel
    | Parameters | DateFrom | DateTo | DepthMin | DepthMax | SpatialBounds

  /** A text field is acceptable unless both sides set it and they differ. */
  predicate TextAgrees(requested: Option<string>, granted: Option<string>) {
    IsSet(granted) && IsSet(requested) ==> requested == granted
  }

  predicate ParametersAllowed(requested: Option<seq<string>>, granted: Option<seq<string>>) {
    AnyOf(granted) && AnyOf(requested) ==> forall p :: p in requested.value ==> p in granted.value
  }

  predicate BoundsInside(requested: Option<Bounds>, granted: Option<Bounds>) {
    granted.Some? && requested.Some? ==>
      var r, g := requested.value, granted.value;
      !(r.latMin < g.latMin || r.latMax > g.latMax || r.lonMin < g.lonMin || r.lonMax > g.lonMax)
  }

  datatype Check = Check(field: Field, passes: bool)

  /** Every test of the check, in the order the service makes them. */
  function Checks(requested: Criteria, granted: Criteria): seq<Check> {
    [ Check(Category, TextAgrees(requested.category, granted.category)),
      Check(Source, TextAgrees(requested.source, granted.source)),
      Check(Quality, TextAgrees(requested.quality, granted.quality)),
      Check(Platform, TextAgrees(requested.platform, granted.platform)),
      Check(Station, TextAgrees(requested.station, granted.station)),
      Check(Format, TextAgrees(requested.format, granted.format)),
      Check(ProcessingLevel, TextAgrees(requested.processingLevel, granted.processingLevel)),
      Check(Parameters, ParametersAllowed(requested.parameters, granted.parameters)),
      Check(DateFrom, IsSet(granted.dateFrom) && IsSet(requested.dateFrom)
                 ==> !Less(requested.dateFrom.value, granted.dateFrom.value)),
      Check(DateTo, IsSet(granted.dateTo) && IsSet(requested.dateTo)
               ==> !Less(granted.dateTo.value, requested.dateTo.value)),
      Check(DepthMin, granted.depthMin.Some? && requested.depthMin.Some? ==> requested.depthMin.value >= granted.depthMin.value),
      Check(DepthMax, granted.depthMax.Some? && requested.depthMax.Some? ==> requested.depthMax.value <= granted.depthMax.value),
      Check(SpatialBounds, BoundsInside(requested.bounds, granted.bounds)) ]
  }

  function FirstViolation(checks: seq<Check>): (r: Result<(), Field>)
    ensures r.Ok? <==> forall i :: 0 <= i < |checks| ==> checks[i].passes
    ensures r.Err? ==> exists i :: 0 <= i < |checks| && checks[i] == Check(r.error, false) && forall j :: 0 <= j < i ==> checks[j].passes
  {
    if checks == [] then Ok(())
    else if !checks[0].passes then
      assert checks[0] == Check(checks[0].field, false);
      Err(checks[0].field)
    else
      var r := FirstViolation(checks[1..]);
      assert r.Err? ==> forall i :: 0 <= i < |checks| - 1 ==> checks[1..][i] == checks[i + 1];
      r
  }

  /** `validate_scope_within_grant`: a grant without a scope governs nothing; otherwise the first violated field is reported. */
  function ValidateScope(requested: Criteria, grantScope: Option<Criteria>): Result<(), Field> {
    if grantScope.None? then Ok(()) else FirstViolation(Checks(requested, grantScope.value))
  }

  // ---------------------------------------------------------------- the record filter

  /** A record as the filter sees it; `time` is a day number, and every nullable column is an option. */
  datatype Record = Record(
    parameter: string,
    quality: string,
    time: Option<int>,
    depth: Option<real>,
    source: Option<string>,
    platform: Option<string>,
    station: Option<string>,
    format: Option<string>,
    processingLevel: Option<string>,
    geom: Option<Point>)

  datatype Point = Point(lat: real, lon: real)

  datatype RecordsFilter = RecordsFilter(
    parameters: Option<seq<string>>,
    quality: Option<string>,
    dateFrom: Option<int>,
    dateTo: Option<int>,
    latMin: Option<real>,
    latMax: Option<real>,
    lonMin: Option<real>,
    lonMax: Option<real>,
    depthMin: Option<real>,
    depthMax: Option<real>,
    source: Option<string>,
    platform: Option<string>,
    station: Option<string>,
    format: Option<string>,
    processingLevel: Option<string>)

  /** An unset date stays unset; a set one must parse, or `date.fromisoformat` raises. */
  predicate DateReadable(text: Option<string>) {
    IsSet(text) ==> IsReadable(text.value)
  }

  function DayIfSet(text: Option<string>): Option<int>
    requires DateReadable(text)
  {
    if IsSet(text) then Some(DayOf(text.value)) else None
  }

  /** `_records_filter_from_search_criteria`. */
  function FilterOf(c: Criteria): (r: Result<RecordsFilter, string>)
    ensures r.Ok? <==> DateReadable(c.dateFrom) && DateReadable(c.dateTo)
  {
    if !DateReadable(c.dateFrom) then Err(c.dateFrom.value)
    else if !DateReadable(c.dateTo) then Err(c.dateTo.value)
    else
      Ok(RecordsFilter(
           c.parameters, c.quality, DayIfSet(c.dateFrom), DayIfSet(c.dateTo),
           if c.bounds.Some? then Some(c.bounds.value.latMin) else None,
           if c.bounds.Some? then Some(c.bounds.value.latMax) else None,
           if c.bounds.Some? then Some(c.bounds.value.lonMin) else None,
           if c.bounds.Some? then Some(c.bounds.value.lonMax) else None,
           c.depthMin, c.depthMax, c.source, c.platform, c.station, c.format, c.processingLevel))
  }

  predicate TextPasses(wanted: Option<string>, actual: Option<string>) {
    IsSet(wanted) ==> actual == wanted
  }

  predicate ParameterPasses(wanted: Option<seq<string>>, actual: string) {
    AnyOf(wanted) ==> actual in wanted.value
  }

  /** SQL comparisons: a null column value fails any comparison that is made. */
  predicate DayPasses(from: Option<int>, to: Option<int>, actual: Option<int>) {
    && (from.Some? ==> actual.Some? && from.value <= actual.value)
    && (to.Some? ==> actual.Some? && actual.value <= to.value)
  }

  predicate DepthPasses(min: Option<real>, max: Option<real>, actual: Option<real>) {
    && (min.Some? ==> actual.Some? && min.value <= actual.value)
    && (max.Some? ==> actual.Some? && actual.value <= max.value)
  }

  /** Between two corner coordinates, in either order: an envelope is the rectangle its corners span. */
  predicate Spanned(a: real, x: real, b: real) {
    a <= x <= b || b <= x <= a
  }

  predicate PointPasses(latMin: Option<real>, latMax: Option<real>, lonMin: Option<real>, lonMax: Option<real>, actual: Option<Point>) {
    latMin.Some? && latMax.Some? && lonMin.Some? && lonMax.Some? ==>
      && actual.Some?
      && Spanned(latMin.value, actual.value.lat, latMax.value)
      && Spanned(lonMin.value, actual.value.lon, lonMax.value)
  }

  /** The conjunction of `_apply_record_filters`' WHERE clauses. */
  predicate Selects(f: RecordsFilter, r: Record) {
    && ParameterPasses(f.parameters, r.parameter)
    && TextPasses(f.quality, Some(r.quality))
    && DayPasses(f.dateFrom, f.dateTo, r.time)
    && TextPasses(f.source, r.source)
    && TextPasses(f.platform, r.platform)
    && TextPasses(f.format, r.format)
    && TextPasses(f.processingLevel, r.processingLevel)
    && DepthPasses(f.depthMin, f.depthMax, r.depth)
    && TextPasses(f.station, r.station)
    && PointPasses(f.latMin, f.latMax, f.lonMin, f.lonMax, r.geom)
  }

  /** A point of the rectangle two corners span, whichever corner comes first. */
  predicate Between(a: real, x: real, b: real) {
    Rmin(a, b) <= x <= Rmax(a, b)
  }

  function Rmin(a: real, b: real): real {
    if a <= b then a else b
  }

  function Rmax(a: real, b: real): real {
    if a <= b then b else a
  }

  /**
   What stored criteria select, column by column of the record: each field that is set constrains the column
   of its own name and no other, and a record without a value in that column is not selected.
   */
  lemma CriteriaSelect(c: Criteria, r: Record)
    requires FilterOf(c).Ok?
    ensures forall t: Option<string> :: IsSet(t) <==> t.Some? && t.value != ""
    ensures Selects(FilterOf(c).value, r) <==>
      && (c.parameters.Some? && c.parameters.value != [] ==> r.parameter in c.parameters.value)
      && (IsSet(c.quality) ==> r.quality == c.quality.value)
      && (IsSet(c.source) ==> r.source == c.source)
      && (IsSet(c.platform) ==> r.platform == c.platform)
      && (IsSet(c.station) ==> r.station == c.station)
      && (IsSet(c.format) ==> r.format == c.format)
      && (IsSet(c.processingLevel) ==> r.processingLevel == c.processingLevel)
      && (IsSet(c.dateFrom) ==> r.time.Some? && DayOf(c.dateFrom.value) <= r.time.value)
      && (IsSet(c.dateTo) ==> r.time.Some? && r.time.value <= DayOf(c.dateTo.value))
      && (c.depthMin.Some? ==> r.depth.Some? && c.depthMin.value <= r.depth.value)
      && (c.depthMax.Some? ==> r.depth.Some? && r.depth.value <= c.depthMax.value)
      && (c.bounds.Some? ==>
            && r.geom.Some?
            && Between(c.bounds.value.latMin, r.geom.value.lat, c.bounds.value.latMax)
            && Between(c.bounds.value.lonMin, r.geom.value.lon, c.bounds.value.lonMax))
  {
    hide DayOf, IsReadable;
  }

  /** Criteria that cannot be read are those with a date no form of `date.fromisoformat` reads. */
  lemma UnreadableCriteria(c: Criteria)
    ensures FilterOf(c).Err? <==> (IsSet(c.dateFrom) && ParseDay(c.dateFrom.value).None?) || (IsSet(c.dateTo) && ParseDay(c.dateTo.value).None?)
    ensures FilterOf(c).Err? ==> Some(FilterOf(c).error) == c.dateFrom || Some(FilterOf(c).error) == c.dateTo
  {
  }

  // ---------------------------------------------------------------- containment

  ghost predicate Contained(inner: RecordsFilter, outer: RecordsFilter) {
    forall r :: Selects(inner, r) ==> Selects(outer, r)
  }

  ghost predicate Satisfiable(f: RecordsFilter) {
    exists r :: Selects(f, r)
  }

  /** Every restriction of the grant is matched by some restriction of the request, category aside. */
  predicate SetsEveryField(r: Criteria, g: Criteria) {
    && (AnyOf(g.parameters) ==> AnyOf(r.parameters))
    && (IsSet(g.quality) ==> IsSet(r.quality))
    && (IsSet(g.source) ==> IsSet(r.source))
    && (IsSet(g.platform) ==> IsSet(r.platform))
    && (IsSet(g.station) ==> IsSet(r.station))
    && (IsSet(g.format) ==> IsSet(r.format))
    && (IsSet(g.processingLevel) ==> IsSet(r.processingLevel))
    && (IsSet(g.dateFrom) ==> IsSet(r.dateFrom))
    && (IsSet(g.dateTo) ==> IsSet(r.dateTo))
    && (g.depthMin.Some? ==> r.depthMin.Some?)
    && (g.depthMax.Some? ==> r.depthMax.Some?)
    && (g.bounds.Some? ==> r.bounds.Some?)
  }

  lemma TextContainment(r: Option<string>, g: Option<string>)
    ensures (forall x :: TextPasses(r, x) ==> TextPasses(g, x)) <==> (IsSet(g) ==> IsSet(r)) && TextAgrees(r, g)
  {
    if IsSet(g) {
      assert !TextPasses(g, None);
      assert IsSet(r) ==> TextPasses(r, r);
    }
  }

  lemma PresentTextContainment(r: Option<string>, g: Option<string>)
    ensures (forall x: string :: TextPasses(r, Some(x)) ==> TextPasses(g, Some(x)))
            <==> (IsSet(g) ==> IsSet(r)) && TextAgrees(r, g)
  {
    if IsSet(g) {
      assert |g.value + "x"| == |g.value| + 1;
      assert !TextPasses(g, Some(g.value + "x"));
      assert IsSet(r) ==> TextPasses(r, Some(r.value));
    }
  }

  function Longest(list: seq<string>): (n: nat)
    ensures forall p :: p in list ==> |p| <= n
  {
    if list == [] then 0 else Max(|list[0]|, Longest(list[1..]))
  }

  lemma ParameterContainment(r: Option<seq<string>>, g: Option<seq<string>>)
    ensures (forall x :: ParameterPasses(r, x) ==> ParameterPasses(g, x))
            <==> (AnyOf(g) ==> AnyOf(r)) && ParametersAllowed(r, g)
  {
    if AnyOf(g) {
      var unlisted := seq(Longest(g.value) + 1, _ => 'x');
      assert !ParameterPasses(g, unlisted);
      if AnyOf(r) && !ParametersAllowed(r, g) {
        var p :| p in r.value && p !in g.value;
        assert ParameterPasses(r, p) && !ParameterPasses(g, p);
      }
    }
  }

  lemma DayContainment(rFrom: Option<int>, rTo: Option<int>, gFrom: Option<int>, gTo: Option<int>, t: Option<int>)
    requires DayPasses(rFrom, rTo, t)
    ensures (forall x :: DayPasses(rFrom, rTo, x) ==> DayPasses(gFrom, gTo, x))
            <==> && (gFrom.Some? ==> rFrom.Some? && gFrom.value <= rFrom.value)
                 && (gTo.Some? ==> rTo.Some? && rTo.value <= gTo.value)
  {
    if gFrom.Some? && !(rFrom.Some? && gFrom.value <= rFrom.value) {
      var early := if rFrom.Some? then rFrom.value else if rTo.Some? then Min(rTo.value, gFrom.value - 1) else gFrom.value - 1;
      assert DayPasses(rFrom, rTo, Some(early)) && !DayPasses(gFrom, gTo, Some(early));
    } else if gTo.Some? && !(rTo.Some? && rTo.value <= gTo.value) {
      var late := if rTo.Some? then rTo.value else if rFrom.Some? then Max(rFrom.value, gTo.value + 1) else gTo.value + 1;
      assert DayPasses(rFrom, rTo, Some(late)) && !DayPasses(gFrom, gTo, Some(late));
    }
  }

  lemma DepthContainment(rMin: Option<real>, rMax: Option<real>, gMin: Option<real>, gMax: Option<real>, d: Option<real>)
    requires DepthPasses(rMin, rMax, d)
    ensures (forall x :: DepthPasses(rMin, rMax, x) ==> DepthPasses(gMin, gMax, x))
            <==> && (gMin.Some? ==> rMin.Some? && gMin.value <= rMin.value)
                 && (gMax.Some? ==> rMax.Some? && rMax.value <= gMax.value)
  {
    if gMin.Some? && !(rMin.Some? && gMin.value <= rMin.value) {
      var below := gMin.value - 1.0;
      var shallow := if rMin.Some? then rMin.value else if rMax.Some? && rMax.value < below then rMax.value else below;
      assert DepthPasses(rMin, rMax, Some(shallow)) && !DepthPasses(gMin, gMax, Some(shallow));
    } else if gMax.Some? && !(rMax.Some? && rMax.value <= gMax.value) {
      var above := gMax.value + 1.0;
      var deep := if rMax.Some? then rMax.value else if rMin.Some? && rMin.value > above then rMin.value else above;
      assert DepthPasses(rMin, rMax, Some(deep)) && !DepthPasses(gMin, gMax, Some(deep));
    }
  }

  predicate InBox(box: Option<Bounds>, p: Option<Point>) {
    if box.None? then true
    else PointPasses(Some(box.value.latMin), Some(box.value.latMax), Some(box.value.lonMin), Some(box.value.lonMax), p)
  }

  /** One side of the requested box lies within the same side of the granted one, whichever corner comes first. */
  predicate SpanWithin(rMin: real, rMax: real, gMin: real, gMax: real) {
    Spanned(gMin, rMin, gMax) && Spanned(gMin, rMax, gMax)
  }

  predicate BoxWithin(requested: Option<Bounds>, granted: Option<Bounds>) {
    granted.Some? && requested.Some? ==>
      var r, g := requested.value, granted.value;
      SpanWithin(r.latMin, r.latMax, g.latMin, g.latMax) && SpanWithin(r.lonMin, r.lonMax, g.lonMin, g.lonMax)
  }

  /** The box a request asks for lies in the granted one exactly if each of its sides does. */
  lemma BoxContainment(r: Option<Bounds>, g: Option<Bounds>)
    ensures (forall p :: InBox(r, p) ==> InBox(g, p)) <==> (g.Some? ==> r.Some?) && BoxWithin(r, g)
  {
    if g.Some? {
      assert !InBox(g, None);
      if r.Some? {
        var low, high := Some(Point(r.value.latMin, r.value.lonMin)), Some(Point(r.value.latMax, r.value.lonMax));
        assert InBox(r, low) && InBox(r, high);
      }
    }
  }

  /**
   When one side of an accepted box does lie within the granted one. Against a side written low end first, a
   requested side written high end first must cross back into it; against one written high end first, nothing
   but that very side will do, because an accepted side reaches at least as far.
   */
  predicate SideHolds(rMin: real, rMax: real, gMin: real, gMax: real) {
    if gMin <= gMax then rMin <= gMax && gMin <= rMax else rMin == gMin && rMax == gMax
  }

  predicate CornersHold(requested: Option<Bounds>, granted: Option<Bounds>) {
    granted.Some? && requested.Some? ==>
      var r, g := requested.value, granted.value;
      SideHolds(r.latMin, r.latMax, g.latMin, g.latMax) && SideHolds(r.lonMin, r.lonMax, g.lonMin, g.lonMax)
  }

  /** The four comparisons of the check against where the boxes lie, corners in any order. */
  lemma AcceptedBox(r: Option<Bounds>, g: Option<Bounds>)
    ensures BoundsInside(r, g) ==> (BoxWithin(r, g) <==> CornersHold(r, g))
    ensures (g.Some? ==> g.value.Ordered()) ==> (BoxWithin(r, g) <==> BoundsInside(r, g) && CornersHold(r, g))
    ensures (g.Some? ==> g.value.Ordered()) && (r.Some? ==> r.value.Ordered()) ==> (BoxWithin(r, g) <==> BoundsInside(r, g))
  {
  }

  /** A granted box with both corners swapped is turned inside out: every box the check accepts contains it. */
  lemma InsideOutGrant(r: Bounds, g: Bounds)
    requires g.latMax < g.latMin && g.lonMax < g.lonMin && BoundsInside(Some(r), Some(g))
    ensures BoxWithin(Some(g), Some(r))
    ensures BoxWithin(Some(r), Some(g)) <==> r == g
  {
  }

  /** A satisfiable filter is contained in another exactly when it is, column by column. */
  lemma ContainmentIsColumnwise(r: RecordsFilter, g: RecordsFilter, w: Record)
    requires Selects(r, w)
    ensures Contained(r, g) <==>
      && (forall x :: ParameterPasses(r.parameters, x) ==> ParameterPasses(g.parameters, x))
      && (forall x: string :: TextPasses(r.quality, Some(x)) ==> TextPasses(g.quality, Some(x)))
      && (forall x :: DayPasses(r.dateFrom, r.dateTo, x) ==> DayPasses(g.dateFrom, g.dateTo, x))
      && (forall x :: TextPasses(r.source, x) ==> TextPasses(g.source, x))
      && (forall x :: TextPasses(r.platform, x) ==> TextPasses(g.platform, x))
      && (forall x :: TextPasses(r.format, x) ==> TextPasses(g.format, x))
      && (forall x :: TextPasses(r.processingLevel, x) ==> TextPasses(g.processingLevel, x))
      && (forall x :: DepthPasses(r.depthMin, r.depthMax, x) ==> DepthPasses(g.depthMin, g.depthMax, x))
      && (forall x :: TextPasses(r.station, x) ==> TextPasses(g.station, x))
      && (forall p :: PointPasses(r.latMin, r.latMax, r.lonMin, r.lonMax, p) ==> PointPasses(g.latMin, g.latMax, g.lonMin, g.lonMax, p))
  {
    if Contained(r, g) {
      forall x | ParameterPasses(r.parameters, x) ensures ParameterPasses(g.parameters, x) {
        assert Selects(r, w.(parameter := x));
      }
      forall x: string | TextPasses(r.quality, Some(x)) ensures TextPasses(g.quality, Some(x)) {
        assert Selects(r, w.(quality := x));
      }
      forall x | DayPasses(r.dateFrom, r.dateTo, x) ensures DayPasses(g.dateFrom, g.dateTo, x) {
        assert Selects(r, w.(time := x));
      }
      forall x | TextPasses(r.source, x) ensures TextPasses(g.source, x) { assert Selects(r, w.(source := x)); }
      forall x | TextPasses(r.platform, x) ensures TextPasses(g.platform, x) { assert Selects(r, w.(platform := x)); }
      forall x | TextPasses(r.format, x) ensures TextPasses(g.format, x) { assert Selects(r, w.(format := x)); }
      forall x | TextPasses(r.processingLevel, x) ensures TextPasses(g.processingLevel, x) {
        assert Selects(r, w.(processingLevel := x));
      }
      forall x | DepthPasses(r.depthMin, r.depthMax, x) ensures DepthPasses(g.depthMin, g.depthMax, x) {
        assert Selects(r, w.(depth := x));
      }
      forall x | TextPasses(r.station, x) ensures TextPasses(g.station, x) { assert Selects(r, w.(station := x)); }
      forall p | PointPasses(r.latMin, r.latMax, r.lonMin, r.lonMax, p)
        ensures PointPasses(g.latMin, g.latMax, g.lonMin, g.lonMax, p)
      {
        assert Selects(r, w.(geom := p));
      }
    }
  }

  // ---------------------------------------------------------------- the check against containment

  /** The dates lie within the granted ones, as days. */
  predicate DatesWithin(r: Criteria, g: Criteria)
    requires FilterOf(r).Ok? && FilterOf(g).Ok?
  {
    && (IsSet(g.dateFrom) && IsSet(r.dateFrom) ==> DayOf(g.dateFrom.value) <= DayOf(r.dateFrom.value))
    && (IsSet(g.dateTo) && IsSet(r.dateTo) ==> DayOf(r.dateTo.value) <= DayOf(g.dateTo.value))
  }

  /** Each date is written so that text order tells whether it lies outside the granted one. */
  predicate DatesInStep(r: Criteria, g: Criteria)
    requires FilterOf(r).Ok? && FilterOf(g).Ok?
  {
    && (IsSet(g.dateFrom) && IsSet(r.dateFrom) ==> InStep(r.dateFrom.value, g.dateFrom.value))
    && (IsSet(g.dateTo) && IsSet(r.dateTo) ==> InStep(g.dateTo.value, r.dateTo.value))
  }

  predicate FullDates(c: Criteria) {
    && (IsSet(c.dateFrom) ==> IsFullDate(c.dateFrom.value))
    && (IsSet(c.dateTo) ==> IsFullDate(c.dateTo.value))
  }

  predicate BoxOrdered(c: Criteria) {
    c.bounds.Some? ==> c.bounds.value.Ordered()
  }

  /** What the check compares as it is: neither dates nor boxes, nor the category, which the filter does not look at. */
  function Plain(c: Criteria): Criteria {
    c.(category := None, dateFrom := None, dateTo := None, bounds := None)
  }

  /**
   Set inclusion of the selected records, for every two readable criteria of which the first selects
   something. The check's own verdict is right on every field but three: it compares dates as text, it
   compares box corners one by one, and the filter knows nothing of the category.
   */
  lemma ContainmentExactly(r: Criteria, g: Criteria)
    requires FilterOf(r).Ok? && FilterOf(g).Ok? && Satisfiable(FilterOf(r).value)
    ensures Contained(FilterOf(r).value, FilterOf(g).value)
            <==> SetsEveryField(r, g) && ValidateScope(Plain(r), Some(g)).Ok? && DatesWithin(r, g) && BoxWithin(r.bounds, g.bounds)
  {
    hide Selects, ParameterPasses, TextPasses, DayPasses, DepthPasses, PointPasses, ValidateScope, DayIfSet, DayOf, IsReadable;
    var fr, fg := FilterOf(r).value, FilterOf(g).value;
    var w :| Selects(fr, w);
    ContainmentIsColumnwise(fr, fg, w);
    ParameterContainment(r.parameters, g.parameters);
    PresentTextContainment(r.quality, g.quality);
    TextContainment(r.source, g.source);
    TextContainment(r.platform, g.platform);
    TextContainment(r.station, g.station);
    TextContainment(r.format, g.format);
    TextContainment(r.processingLevel, g.processingLevel);
    SelectedWithin(fr, w);
    DepthContainment(r.depthMin, r.depthMax, g.depthMin, g.depthMax, w.depth);
    DateContainment(r, g, w.time);
    BoxContainment(r.bounds, g.bounds);
    BoxOfFilter(r);
    BoxOfFilter(g);
    AllChecks(Plain(r), g);
    hide BoxWithin, DatesWithin, InBox;
  }

  lemma SelectedWithin(f: RecordsFilter, w: Record)
    requires Selects(f, w)
    ensures DayPasses(f.dateFrom, f.dateTo, w.time) && DepthPasses(f.depthMin, f.depthMax, w.depth)
  {
  }

  lemma BoxOfFilter(c: Criteria)
    requires FilterOf(c).Ok?
    ensures var f := FilterOf(c).value;
      forall p :: InBox(c.bounds, p) <==> PointPasses(f.latMin, f.latMax, f.lonMin, f.lonMax, p)
  {
  }

  lemma DateContainment(r: Criteria, g: Criteria, t: Option<int>)
    requires FilterOf(r).Ok? && FilterOf(g).Ok?
    requires DayPasses(DayIfSet(r.dateFrom), DayIfSet(r.dateTo), t)
    ensures (forall x :: DayPasses(DayIfSet(r.dateFrom), DayIfSet(r.dateTo), x) ==> DayPasses(DayIfSet(g.dateFrom), DayIfSet(g.dateTo), x))
            <==> (IsSet(g.dateFrom) ==> IsSet(r.dateFrom)) && (IsSet(g.dateTo) ==> IsSet(r.dateTo)) && DatesWithin(r, g)
  {
    hide DayOf, IsReadable, DayPasses;
    DayContainment(DayIfSet(r.dateFrom), DayIfSet(r.dateTo), DayIfSet(g.dateFrom), DayIfSet(g.dateTo), t);
  }

  /** The check without its order of evaluation. */
  lemma AllChecks(r: Criteria, g: Criteria)
    ensures ValidateScope(r, Some(g)).Ok? <==>
      && TextAgrees(r.category, g.category) && TextAgrees(r.source, g.source) && TextAgrees(r.quality, g.quality)
      && TextAgrees(r.platform, g.platform) && TextAgrees(r.station, g.station) && TextAgrees(r.format, g.format)
      && TextAgrees(r.processingLevel, g.processingLevel) && ParametersAllowed(r.parameters, g.parameters)
      && (IsSet(g.dateFrom) && IsSet(r.dateFrom) ==> !Less(r.dateFrom.value, g.dateFrom.value))
      && (IsSet(g.dateTo) && IsSet(r.dateTo) ==> !Less(g.dateTo.value, r.dateTo.value))
      && (g.depthMin.Some? && r.depthMin.Some? ==> r.depthMin.value >= g.depthMin.value)
      && (g.depthMax.Some? && r.depthMax.Some? ==> r.depthMax.value <= g.depthMax.value)
      && BoundsInside(r.bounds, g.bounds)
  {
    var c := Checks(r, g);
    assert ValidateScope(r, Some(g)).Ok? ==>
        && c[0].passes && c[1].passes && c[2].passes && c[3].passes && c[4].passes && c[5].passes && c[6].passes
        && c[7].passes && c[8].passes && c[9].passes && c[10].passes && c[11].passes && c[12].passes;
  }

  /** The fields in the order in which the service looks at them. */
  const CHECK_ORDER: seq<Field> :=
    [Category, Source, Quality, Platform, Station, Format, ProcessingLevel, Parameters, DateFrom, DateTo, DepthMin, DepthMax, SpatialBounds]

  /** Both sides set the field and the requested value is outside the granted one. */
  predicate Violates(f: Field, r: Criteria, g: Criteria) {
    match f
    case Category => IsSet(r.category) && IsSet(g.category) && r.category.value != g.category.value
    case Source => IsSet(r.source) && IsSet(g.source) && r.source.value != g.source.value
    case Quality => IsSet(r.quality) && IsSet(g.quality) && r.quality.value != g.quality.value
    case Platform => IsSet(r.platform) && IsSet(g.platform) && r.platform.value != g.platform.value
    case Station => IsSet(r.station) && IsSet(g.station) && r.station.value != g.station.value
    case Format => IsSet(r.format) && IsSet(g.format) && r.format.value != g.format.value
    case ProcessingLevel => IsSet(r.processingLevel) && IsSet(g.processingLevel) && r.processingLevel.value != g.processingLevel.value
    case Parameters => AnyOf(r.parameters) && AnyOf(g.parameters) && exists p :: p in r.parameters.value && p !in g.parameters.value
    case DateFrom => IsSet(r.dateFrom) && IsSet(g.dateFrom) && Less(r.dateFrom.value, g.dateFrom.value)
    case DateTo => IsSet(r.dateTo) && IsSet(g.dateTo) && Less(g.dateTo.value, r.dateTo.value)
    case DepthMin => r.depthMin.Some? && g.depthMin.Some? && r.depthMin.value < g.depthMin.value
    case DepthMax => r.depthMax.Some? && g.depthMax.Some? && r.depthMax.value > g.depthMax.value
    case SpatialBounds =>
      r.bounds.Some? && g.bounds.Some?
      && (r.bounds.value.latMin < g.bounds.value.latMin || r.bounds.value.latMax > g.bounds.value.latMax
          || r.bounds.value.lonMin < g.bounds.value.lonMin || r.bounds.value.lonMax > g.bounds.value.lonMax)
  }

  predicate SameVerdict(c: Check, f: Field, r: Criteria, g: Criteria) {
    c.field == f && (c.passes <==> !Violates(f, r, g))
  }

  lemma TextChecks(r: Criteria, g: Criteria)
    ensures var c := Checks(r, g);
      && |c| == 13
      && SameVerdict(c[0], Category, r, g) && SameVerdict(c[1], Source, r, g) && SameVerdict(c[2], Quality, r, g)
      && SameVerdict(c[3], Platform, r, g)
  {
    hide Less, ParametersAllowed, BoundsInside, TextAgrees, IsSet, AnyOf;
    TextVerdict(r.category, g.category);
    TextVerdict(r.source, g.source);
    TextVerdict(r.quality, g.quality);
    TextVerdict(r.platform, g.platform);
  }

  lemma MoreTextChecks(r: Criteria, g: Criteria)
    ensures var c := Checks(r, g);
      && |c| == 13
      && SameVerdict(c[4], Station, r, g) && SameVerdict(c[5], Format, r, g) && SameVerdict(c[6], ProcessingLevel, r, g)
  {
    hide Less, ParametersAllowed, BoundsInside, TextAgrees, IsSet, AnyOf;
    TextVerdict(r.station, g.station);
    TextVerdict(r.format, g.format);
    TextVerdict(r.processingLevel, g.processingLevel);
  }

  lemma TextVerdict(r: Option<string>, g: Option<string>)
    ensures IsSet(r) ==> r.Some?
    ensures IsSet(g) ==> g.Some?
    ensures TextAgrees(r, g) <==> !(IsSet(r) && IsSet(g) && r.value != g.value)
  {
  }

  lemma RangeChecks(r: Criteria, g: Criteria)
    ensures var c := Checks(r, g);
      && |c| == 13
      && SameVerdict(c[7], Parameters, r, g) && SameVerdict(c[8], DateFrom, r, g) && SameVerdict(c[9], DateTo, r, g)
      && SameVerdict(c[10], DepthMin, r, g) && SameVerdict(c[11], DepthMax, r, g) && SameVerdict(c[12], SpatialBounds, r, g)
  {
    hide Less, TextAgrees;
  }

  lemma CheckAt(r: Criteria, g: Criteria, i: nat)
    requires i < 13
    ensures |Checks(r, g)| == |CHECK_ORDER| == 13 && SameVerdict(Checks(r, g)[i], CHECK_ORDER[i], r, g)
  {
    hide Checks, SameVerdict;
    TextChecks(r, g);
    MoreTextChecks(r, g);
    RangeChecks(r, g);
    if i < 4 {
    } else if i < 8 {
    } else if i < 11 {
    }
  }

  /**
   A request is refused exactly if it violates some field, and the field it is refused for is one it violates:
   the first such in the order of the service. A grant without a scope refuses nothing.
   */
  lemma RefusedForItsFirstViolation(r: Criteria, grantScope: Option<Criteria>)
    ensures ValidateScope(r, grantScope).Ok? <==>
      grantScope.None? || forall i :: 0 <= i < |CHECK_ORDER| ==> !Violates(CHECK_ORDER[i], r, grantScope.value)
    ensures ValidateScope(r, grantScope).Err? ==>
      exists i :: 0 <= i < |CHECK_ORDER| && CHECK_ORDER[i] == ValidateScope(r, grantScope).error
        && Violates(CHECK_ORDER[i], r, grantScope.value) && forall j :: 0 <= j < i ==> !Violates(CHECK_ORDER[j], r, grantScope.value)
  {
    if grantScope.Some? {
      var g := grantScope.value;
      hide Checks, Violates;
      CheckAt(r, g, 0);
      forall i: nat | i < 13 { CheckAt(r, g, i); }
      var checks := Checks(r, g);
      var verdict := FirstViolation(checks);
      if verdict.Err? {
        var i :| 0 <= i < |checks| && checks[i] == Check(verdict.error, false) && forall j :: 0 <= j < i ==> checks[j].passes;
        assert CHECK_ORDER[i] == verdict.error && Violates(CHECK_ORDER[i], r, g);
      }
    }
  }

  /** The comparisons of dates that the check makes. */
  predicate DatesPass(r: Criteria, g: Criteria) {
    && (IsSet(g.dateFrom) && IsSet(r.dateFrom) ==> !Less(r.dateFrom.value, g.dateFrom.value))
    && (IsSet(g.dateTo) && IsSet(r.dateTo) ==> !Less(g.dateTo.value, r.dateTo.value))
  }

  lemma CheckSplits(r: Criteria, g: Criteria)
    ensures ValidateScope(r, Some(g)).Ok?
            <==> TextAgrees(r.category, g.category) && ValidateScope(Plain(r), Some(g)).Ok? && DatesPass(r, g) && BoundsInside(r.bounds, g.bounds)
  {
    AllChecks(r, g);
    AllChecks(Plain(r), g);
    hide ValidateScope, Less, ParametersAllowed;
  }

  lemma DatesInStepDecide(r: Criteria, g: Criteria)
    requires FilterOf(r).Ok? && FilterOf(g).Ok?
    ensures DatesInStep(r, g) ==> (DatesPass(r, g) <==> DatesWithin(r, g))
    ensures DatesPass(r, g) ==> (DatesWithin(r, g) <==> DatesInStep(r, g))
  {
    if IsSet(r.dateFrom) && IsSet(g.dateFrom) { InStepExactly(r.dateFrom.value, g.dateFrom.value); }
    if IsSet(r.dateTo) && IsSet(g.dateTo) { InStepExactly(g.dateTo.value, r.dateTo.value); }
    hide DayOf, IsReadable, InStep, Less;
  }

  /**
   What acceptance is worth, for every two readable criteria: an accepted request selects nothing but granted
   records exactly if it sets every field the grant sets, its dates are in step with the granted ones, and its
   box holds at the corners.
   */
  lemma AcceptedMeansContainedExactly(r: Criteria, g: Criteria)
    requires FilterOf(r).Ok? && FilterOf(g).Ok? && Satisfiable(FilterOf(r).value)
    requires ValidateScope(r, Some(g)).Ok?
    ensures Contained(FilterOf(r).value, FilterOf(g).value)
            <==> SetsEveryField(r, g) && DatesInStep(r, g) && CornersHold(r.bounds, g.bounds)
  {
    ContainmentExactly(r, g);
    CheckSplits(r, g);
    DatesInStepDecide(r, g);
    AcceptedBox(r.bounds, g.bounds);
    hide ValidateScope, Contained, SetsEveryField, DatesInStep, DatesWithin, DatesPass, CornersHold, BoxWithin, BoundsInside, FilterOf;
  }

  /**
   The scope check and set inclusion of the selected records. With dates in step and a granted box in order,
   a satisfiable request's records are all granted ones exactly when the request sets every field the grant
   sets, the check raises no objection other than to the category, and a requested box written high corner
   first crosses back into the granted one.
   */
  lemma ScopeCheckIsContainment(r: Criteria, g: Criteria)
    requires FilterOf(r).Ok? && FilterOf(g).Ok? && Satisfiable(FilterOf(r).value)
    requires DatesInStep(r, g) && BoxOrdered(g)
    ensures Contained(FilterOf(r).value, FilterOf(g).value)
            <==> SetsEveryField(r, g) && ValidateScope(r.(category := None), Some(g)).Ok? && CornersHold(r.bounds, g.bounds)
  {
    ContainmentExactly(r, g);
    CheckSplits(r.(category := None), g);
    DatesInStepDecide(r, g);
    AcceptedBox(r.bounds, g.bounds);
    hide ValidateScope, Contained, SetsEveryField, DatesInStep, DatesWithin, BoxWithin, BoundsInside, FilterOf;
  }

  lemma FullDatesInStep(r: Criteria, g: Criteria)
    requires FullDates(r) && FullDates(g)
    ensures FilterOf(r).Ok? && FilterOf(g).Ok? && DatesInStep(r, g)
  {
    assert FilterOf(r).Ok? && FilterOf(g).Ok?;
    hide IsFullDate, ParseDay, FilterOf, InStep;
    if IsSet(r.dateFrom) && IsSet(g.dateFrom) { CalendarDatesInStep(r.dateFrom.value, g.dateFrom.value); }
    if IsSet(r.dateTo) && IsSet(g.dateTo) { CalendarDatesInStep(g.dateTo.value, r.dateTo.value); }
  }

  /**
   Full-dates and boxes in order, as the portal's own forms send them: for a request that sets every field
   the grant sets, acceptance is containment; and an accepted request is contained only if it sets them.
   */
  lemma AcceptedMeansContained(r: Criteria, g: Criteria)
    requires FullDates(r) && FullDates(g) && BoxOrdered(r) && BoxOrdered(g)
    requires Satisfiable(FilterOf(r).value)
    requires TextAgrees(r.category, g.category)
    ensures SetsEveryField(r, g) ==>
      (ValidateScope(r, Some(g)).Ok? <==> Contained(FilterOf(r).value, FilterOf(g).value))
    ensures ValidateScope(r, Some(g)).Ok? ==>
      (SetsEveryField(r, g) <==> Contained(FilterOf(r).value, FilterOf(g).value))
  {
    FullDatesInStep(r, g);
    ContainmentExactly(r, g);
    CheckSplits(r, g);
    DatesInStepDecide(r, g);
    AcceptedBox(r.bounds, g.bounds);
    hide ValidateScope, Contained, SetsEveryField, DatesInStep, DatesWithin, DatesPass, BoxWithin, BoundsInside, FilterOf;
  }

  // ---------------------------------------------------------------- requests that reach outside

  const NO_CRITERIA := Criteria(None, None, None, None, None, None, None, None, None, None, None, None, None)

  function RecordAt(time: Option<int>, geom: Option<Point>): Record {
    Record("", "", time, None, None, None, None, None, None, geom)
  }

  lemma SelectsFrom(d: string, t: int)
    requires IsReadable(d) && d != ""
    ensures var f := FilterOf(NO_CRITERIA.(dateFrom := Some(d)));
      f.Ok? && (Selects(f.value, RecordAt(Some(t), None)) <==> DayOf(d) <= t)
  {
    hide DayOf, IsReadable;
  }

  lemma SelectsIn(b: Bounds, p: Point)
    ensures var f := FilterOf(NO_CRITERIA.(bounds := Some(b)));
      f.Ok? && (Selects(f.value, RecordAt(None, Some(p))) <==> Spanned(b.latMin, p.lat, b.latMax) && Spanned(b.lonMin, p.lon, b.lonMax))
  {
  }

  /** Asking for everything since New Year's Day, without hyphens, of a grant that starts in June: accepted, and too much. */
  lemma HyphenlessDateReachesOutside()
    ensures var r, g := NO_CRITERIA.(dateFrom := Some("20250101")), NO_CRITERIA.(dateFrom := Some("2025-06-01"));
      && FilterOf(r).Ok? && FilterOf(g).Ok? && SetsEveryField(r, g)
      && ValidateScope(r, Some(g)).Ok? && !Contained(FilterOf(r).value, FilterOf(g).value)
  {
    var r, g := NO_CRITERIA.(dateFrom := Some("20250101")), NO_CRITERIA.(dateFrom := Some("2025-06-01"));
    HyphenlessNewYear();
    assert IsReadable("20250101") && IsReadable("2025-06-01");
    hide IsFullDate, IsBasicDate, ParseDay, InStep, Less, ValidateScope, IsReadable, DayOf, Selects, FilterOf, RecordAt;
    AllChecks(r, g);
    var t := DayOf("20250101");
    SelectsFrom("20250101", t);
    SelectsFrom("2025-06-01", t);
    assert Selects(FilterOf(r).value, RecordAt(Some(t), None)) && !Selects(FilterOf(g).value, RecordAt(Some(t), None));
  }

  /** A box from 20 degrees north down to 5, asked of a grant from the equator to 10: accepted, and reaching to 20. */
  lemma SwappedCornersReachOutside()
    ensures var r, g := NO_CRITERIA.(bounds := Some(Bounds(20.0, 5.0, 0.0, 1.0))), NO_CRITERIA.(bounds := Some(Bounds(0.0, 10.0, 0.0, 1.0)));
      && FilterOf(r).Ok? && FilterOf(g).Ok? && SetsEveryField(r, g)
      && ValidateScope(r, Some(g)).Ok? && !Contained(FilterOf(r).value, FilterOf(g).value)
  {
    var r, g := NO_CRITERIA.(bounds := Some(Bounds(20.0, 5.0, 0.0, 1.0))), NO_CRITERIA.(bounds := Some(Bounds(0.0, 10.0, 0.0, 1.0)));
    hide ValidateScope, Selects, FilterOf, RecordAt;
    AllChecks(r, g);
    var w := RecordAt(None, Some(Point(17.0, 0.5)));
    SelectsIn(r.bounds.value, Point(17.0, 0.5));
    SelectsIn(g.bounds.value, Point(17.0, 0.5));
    assert Selects(FilterOf(r).value, w) && !Selects(FilterOf(g).value, w);
  }
}
