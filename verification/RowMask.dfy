/**
 Extracting a subset of a MATLAB file: the variables that share the file's row length are filtered by one
 boolean mask, and the others pass through.
 */
module RowMask {
  import opened Outcomes
  import Scope

  /** A numeric cell. Every comparison with NaN is false. */
  datatype Value = NaN | Num(x: real)

  /** A variable, its cells in row-major order. */
  datatype Var = Var(name: string, shape: seq<nat>, cells: seq<Value>)

  /** Dates are day numbers counted from 1970-01-01. */
  datatype Selection = Selection(dateFrom: Option<int>, dateTo: Option<int>, bounds: Option<Scope.Bounds>)

  datatype Extraction = Extraction(vars: seq<Var>, recordCount: nat)

  datatype Error = NoVariables

  const LAT_NAMES: seq<string> := ["lat", "latitude", "y"]
  const LON_NAMES: seq<string> := ["lon", "long", "longitude", "x"]
  const TIME_NAMES: seq<string> := ["time", "date", "datetime", "t"]

  /** The MATLAB day number of 1970-01-01. */
  const MATLAB_EPOCH := 719529.0

  /** The furthest a nanosecond timestamp reaches, in days either side of 1970-01-01. */
  const TIMESTAMP_REACH := 9223372036854775807.0 / 86400000000000.0

  // ---------------------------------------------------------------- finding a variable by its name

  function LowerChar(c: char): char {
    if 'A' <= c <= 'Z' then c - 'A' + 'a' else c
  }

  function Lower(s: string): (t: string)
    ensures |t| == |s|
  {
    seq(|s|, i requires 0 <= i < |s| => LowerChar(s[i]))
  }

  /** Of the variables spelled `name` up to case, the last one. */
  function Named(vars: seq<Var>, name: string): Option<seq<Value>> {
    if vars == [] then None
    else if Lower(vars[|vars| - 1].name) == name then Some(vars[|vars| - 1].cells)
    else Named(vars[..|vars| - 1], name)
  }

  /** The first alias that some variable goes by. */
  function Find(vars: seq<Var>, names: seq<string>): Option<seq<Value>> {
    if names == [] then None
    else
      var v := Named(vars, names[0]);
      if v.Some? then v else Find(vars, names[1..])
  }

  // ---------------------------------------------------------------- which rows are wanted

  /** Days since 1970-01-01, when a timestamp can hold it. */
  function DayOf(v: Value): Option<real> {
    if v.Num? && -TIMESTAMP_REACH <= v.x - MATLAB_EPOCH <= TIMESTAMP_REACH then Some(v.x - MATLAB_EPOCH) else None
  }

  /** Both limits are midnights: of the last day, only midnight itself is within. */
  predicate InPeriod(v: Value, selection: Selection) {
    && (selection.dateFrom.Some? ==> DayOf(v).Some? && DayOf(v).value >= selection.dateFrom.value as real)
    && (selection.dateTo.Some? ==> DayOf(v).Some? && DayOf(v).value <= selection.dateTo.value as real)
  }

  predicate Within(v: Value, low: real, high: real) {
    v.Num? && low <= v.x <= high
  }

  predicate AllOfLength(vars: seq<Var>, n: nat) {
    forall i :: 0 <= i < |vars| ==> |vars[i].cells| == n
  }

  lemma {:induction false} NamedLength(vars: seq<Var>, name: string, n: nat)
    requires AllOfLength(vars, n)
    ensures Named(vars, name).Some? ==> |Named(vars, name).value| == n
  {
    if vars != [] { NamedLength(vars[..|vars| - 1], name, n); }
  }

  lemma {:induction false} FindLength(vars: seq<Var>, names: seq<string>, n: nat)
    requires AllOfLength(vars, n)
    ensures Find(vars, names).Some? ==> |Find(vars, names).value| == n
  {
    if names != [] {
      NamedLength(vars, names[0], n);
      FindLength(vars, names[1..], n);
    }
  }

  /** Row `i` of the table the filterable variables make up meets every test its columns allow. */
  predicate RowPasses(vars: seq<Var>, selection: Selection, i: nat) {
    var time, lat, lon := Find(vars, TIME_NAMES), Find(vars, LAT_NAMES), Find(vars, LON_NAMES);
    && (time.Some? && i < |time.value| ==> InPeriod(time.value[i], selection))
    && (selection.bounds.Some? && lat.Some? && i < |lat.value| ==> Within(lat.value[i], selection.bounds.value.latMin, selection.bounds.value.latMax))
    && (selection.bounds.Some? && lon.Some? && i < |lon.value| ==> Within(lon.value[i], selection.bounds.value.lonMin, selection.bounds.value.lonMax))
  }

  function Mask(vars: seq<Var>, selection: Selection, n: nat): (mask: seq<bool>)
    ensures |mask| == n
    ensures forall i :: 0 <= i < n ==> mask[i] == RowPasses(vars, selection, i)
  {
    seq(n, i requires 0 <= i < n => RowPasses(vars, selection, i))
  }

  // ---------------------------------------------------------------- building the mask in place

  /** `mask &= tests`, for one column's test. */
  method Narrow(mask: array<bool>, column: seq<Value>, test: Value -> bool)
    requires mask.Length == |column|
    modifies mask
    ensures forall i :: 0 <= i < mask.Length ==> mask[i] == (old(mask[i]) && test(column[i]))
  {
    for j := 0 to mask.Length
      invariant forall i :: 0 <= i < j ==> mask[i] == (old(mask[i]) && test(column[i]))
      invariant forall i :: j <= i < mask.Length ==> mask[i] == old(mask[i])
    {
      mask[j] := mask[j] && test(column[j]);
    }
  }

  method BuildMask(vars: seq<Var>, selection: Selection, n: nat) returns (mask: array<bool>)
    requires AllOfLength(vars, n)
    ensures fresh(mask) && mask[..] == Mask(vars, selection, n)
  {
    FindLength(vars, TIME_NAMES, n);
    FindLength(vars, LAT_NAMES, n);
    FindLength(vars, LON_NAMES, n);
    mask := new bool[n](_ => true);
    var time := Find(vars, TIME_NAMES);
    if time.Some? && selection.dateFrom.Some? {
      Narrow(mask, time.value, v => DayOf(v).Some? && DayOf(v).value >= selection.dateFrom.value as real);
    }
    if time.Some? && selection.dateTo.Some? {
      Narrow(mask, time.value, v => DayOf(v).Some? && DayOf(v).value <= selection.dateTo.value as real);
    }
    if selection.bounds.Some? {
      var lat, lon := Find(vars, LAT_NAMES), Find(vars, LON_NAMES);
      if lat.Some? { Narrow(mask, lat.value, v => Within(v, selection.bounds.value.latMin, selection.bounds.value.latMax)); }
      if lon.Some? { Narrow(mask, lon.value, v => Within(v, selection.bounds.value.lonMin, selection.bounds.value.lonMax)); }
    }
    hide Find;
  }

  // ---------------------------------------------------------------- applying it

  /** `v[mask]` */
  function Kept(cells: seq<Value>, mask: seq<bool>): (kept: seq<Value>)
    requires |mask| == |cells|
    ensures |kept| == Count(mask)
  {
    if cells == [] then []
    else Kept(cells[..|cells| - 1], mask[..|mask| - 1]) + if mask[|mask| - 1] then [cells[|cells| - 1]] else []
  }

  function Count(mask: seq<bool>): (n: nat)
    ensures n <= |mask|
  {
    if mask == [] then 0 else Count(mask[..|mask| - 1]) + if mask[|mask| - 1] then 1 else 0
  }

  /** The row numbers a mask keeps. */
  function Rows(mask: seq<bool>): (rows: seq<nat>)
    ensures |rows| == Count(mask)
  {
    if mask == [] then []
    else Rows(mask[..|mask| - 1]) + if mask[|mask| - 1] then [|mask| - 1] else []
  }

  /** They are in increasing order, and exactly those where the mask is true. */
  lemma {:induction false} RowsAreTheTrueOnes(mask: seq<bool>)
    ensures forall j :: 0 <= j < |Rows(mask)| ==> Rows(mask)[j] < |mask|
    ensures forall i, j :: 0 <= i < j < |Rows(mask)| ==> Rows(mask)[i] < Rows(mask)[j]
    ensures forall i: nat :: i in Rows(mask) <==> i < |mask| && mask[i]
  {
    if mask != [] {
      var most := mask[..|mask| - 1];
      RowsAreTheTrueOnes(most);
      assert forall i :: 0 <= i < |most| ==> most[i] == mask[i];
      forall i: nat ensures i in Rows(mask) <==> i in Rows(most) || (i == |mask| - 1 && mask[i]) {
        InConcat(Rows(most), if mask[|mask| - 1] then [|mask| - 1] else [], i);
      }
    }
  }

  lemma InConcat(a: seq<nat>, b: seq<nat>, i: nat)
    ensures i in a + b <==> i in a || i in b
  {
  }

  lemma {:induction false} KeptIsRows(cells: seq<Value>, mask: seq<bool>)
    requires |mask| == |cells|
    ensures forall j :: 0 <= j < Count(mask) ==> Rows(mask)[j] < |cells| && Kept(cells, mask)[j] == cells[Rows(mask)[j]]
  {
    RowsAreTheTrueOnes(mask);
    if cells != [] {
      RowsAreTheTrueOnes(mask[..|mask| - 1]);
      KeptIsRows(cells[..|cells| - 1], mask[..|mask| - 1]);
    }
  }

  function Largest(vars: seq<Var>): (n: nat)
    ensures forall i :: 0 <= i < |vars| ==> |vars[i].cells| <= n
    ensures vars != [] ==> exists i :: 0 <= i < |vars| && |vars[i].cells| == n
  {
    if vars == [] then 0 else Max(Largest(vars[..|vars| - 1]), |vars[|vars| - 1].cells|)
  }

  function Filterable(vars: seq<Var>, n: nat): (f: seq<Var>)
    ensures AllOfLength(f, n)
  {
    if vars == [] then []
    else Filterable(vars[..|vars| - 1], n) + if |vars[|vars| - 1].cells| == n then [vars[|vars| - 1]] else []
  }

  function Passthrough(vars: seq<Var>, n: nat): seq<Var> {
    if vars == [] then []
    else Passthrough(vars[..|vars| - 1], n) + if |vars[|vars| - 1].cells| == n then [] else [vars[|vars| - 1]]
  }

  function Masked(vars: seq<Var>, mask: seq<bool>): (out: seq<Var>)
    requires AllOfLength(vars, |mask|)
    ensures |out| == |vars|
    ensures forall i :: 0 <= i < |vars| ==> out[i] == Var(vars[i].name, [Count(mask)], Kept(vars[i].cells, mask))
  {
    seq(|vars|, i requires 0 <= i < |vars| => Var(vars[i].name, [Count(mask)], Kept(vars[i].cells, mask)))
  }

  function Extracted(vars: seq<Var>, selection: Selection): Result<Extraction, Error> {
    if vars == [] then Err(NoVariables)
    else
      var n := Largest(vars);
      var table := Filterable(vars, n);
      var mask := Mask(table, selection, n);
      Ok(Extraction(Masked(table, mask) + Passthrough(vars, n), Count(mask)))
  }

  method Extract(vars: seq<Var>, selection: Selection) returns (r: Result<Extraction, Error>)
    ensures r == Extracted(vars, selection)
    ensures r.Err? <==> vars == []
    ensures r.Ok? ==>
      var n := Largest(vars);
      && |r.value.vars| == |vars|
      && forall v :: 0 <= v < |Filterable(vars, n)| ==> |r.value.vars[v].cells| == r.value.recordCount <= n
  {
    if vars == [] { return Err(NoVariables); }
    var n := Largest(vars);
    var table := Filterable(vars, n);
    var mask := BuildMask(table, selection, n);
    EveryVariableComesOut(vars, n, vars[0]);
    r := Ok(Extraction(Masked(table, mask[..]) + Passthrough(vars, n), Count(mask[..])));
  }

  // ---------------------------------------------------------------- what the extraction is worth

  /**
   One list of row numbers serves every filterable variable: increasing, exactly the rows that meet the selection,
   and as many as the record count says. So the rows that come out are rows that went in, in their order.
   */
  lemma RowsStayAligned(vars: seq<Var>, selection: Selection, n: nat)
    requires AllOfLength(vars, n)
    ensures var mask := Mask(vars, selection, n);
      var rows := Rows(mask);
      && (forall i, j :: 0 <= i < j < |rows| ==> rows[i] < rows[j] < n)
      && (forall i :: 0 <= i < n ==> (i in rows <==> RowPasses(vars, selection, i)))
      && (forall v :: 0 <= v < |vars| ==>
            var out := Masked(vars, mask)[v];
            && out.name == vars[v].name && |out.cells| == |rows| == Count(mask)
            && forall j :: 0 <= j < |rows| ==> rows[j] < n && out.cells[j] == vars[v].cells[rows[j]])
  {
    var mask := Mask(vars, selection, n);
    RowsAreTheTrueOnes(mask);
    forall v | 0 <= v < |vars| { KeptIsRows(vars[v].cells, mask); }
    hide RowPasses, Kept;
  }

  /** Every variable of the file comes out once: filtered if it has the common length, as it was if not. */
  lemma {:induction false} EveryVariableComesOut(vars: seq<Var>, n: nat, v: Var)
    ensures v in vars <==> v in Filterable(vars, n) || v in Passthrough(vars, n)
    ensures v in Filterable(vars, n) ==> |v.cells| == n
    ensures v in Passthrough(vars, n) ==> |v.cells| != n
    ensures |Filterable(vars, n)| + |Passthrough(vars, n)| == |vars|
  {
    if vars != [] {
      EveryVariableComesOut(vars[..|vars| - 1], n, v);
      assert vars == vars[..|vars| - 1] + [vars[|vars| - 1]];
    }
  }

  // ---------------------------------------------------------------- masking again

  lemma {:induction false} NamedMasked(vars: seq<Var>, mask: seq<bool>, name: string)
    requires AllOfLength(vars, |mask|)
    ensures Named(vars, name).None? ==> Named(Masked(vars, mask), name).None?
    ensures Named(vars, name).Some? ==>
      |Named(vars, name).value| == |mask| && Named(Masked(vars, mask), name) == Some(Kept(Named(vars, name).value, mask))
  {
    if vars != [] {
      var most := vars[..|vars| - 1];
      NamedMasked(most, mask, name);
      assert Masked(vars, mask)[..|vars| - 1] == Masked(most, mask);
    }
  }

  lemma {:induction false} FindMasked(vars: seq<Var>, mask: seq<bool>, names: seq<string>)
    requires AllOfLength(vars, |mask|)
    ensures Find(vars, names).None? ==> Find(Masked(vars, mask), names).None?
    ensures Find(vars, names).Some? ==>
      |Find(vars, names).value| == |mask| && Find(Masked(vars, mask), names) == Some(Kept(Find(vars, names).value, mask))
  {
    if names != [] {
      NamedMasked(vars, mask, names[0]);
      FindMasked(vars, mask, names[1..]);
    }
  }

  /** A row that was kept is the row it was, and passes or fails as it did. */
  lemma SameVerdict(vars: seq<Var>, selection: Selection, mask: seq<bool>, j: nat)
    requires AllOfLength(vars, |mask|) && j < Count(mask)
    ensures RowPasses(Masked(vars, mask), selection, j) == RowPasses(vars, selection, Rows(mask)[j])
  {
    hide InPeriod, Within, Masked;
    ColumnMasked(vars, mask, TIME_NAMES, j);
    ColumnMasked(vars, mask, LAT_NAMES, j);
    ColumnMasked(vars, mask, LON_NAMES, j);
    hide Find;
  }

  lemma ColumnMasked(vars: seq<Var>, mask: seq<bool>, names: seq<string>, j: nat)
    requires AllOfLength(vars, |mask|) && j < Count(mask)
    ensures var before, after := Find(vars, names), Find(Masked(vars, mask), names);
      && before.Some? == after.Some?
      && (before.Some? ==>
           |before.value| == |mask| && |after.value| == Count(mask) && Rows(mask)[j] < |mask| && after.value[j] == before.value[Rows(mask)[j]])
  {
    FindMasked(vars, mask, names);
    if Find(vars, names).Some? { KeptIsRows(Find(vars, names).value, mask); }
  }

  lemma {:induction false} KeepingAll(cells: seq<Value>, mask: seq<bool>)
    requires |mask| == |cells| && forall i :: 0 <= i < |mask| ==> mask[i]
    ensures Kept(cells, mask) == cells && Count(mask) == |mask|
  {
    if cells != [] {
      KeepingAll(cells[..|cells| - 1], mask[..|mask| - 1]);
      assert cells == cells[..|cells| - 1] + [cells[|cells| - 1]];
    }
  }

  /** Masking what was kept with the same selection drops no row and changes no variable. */
  lemma RemaskingDropsNothing(vars: seq<Var>, selection: Selection, n: nat)
    requires AllOfLength(vars, n)
    ensures var mask := Mask(vars, selection, n);
      var kept := Masked(vars, mask);
      var again := Mask(kept, selection, Count(mask));
      Count(again) == Count(mask) && Masked(kept, again) == kept
  {
    hide RowPasses, Kept, Count, Rows;
    var mask := Mask(vars, selection, n);
    var kept := Masked(vars, mask);
    var again := Mask(kept, selection, Count(mask));
    forall j: nat | j < Count(mask) ensures again[j] { KeptRowPasses(vars, selection, n, j); }
    forall v | 0 <= v < |kept| ensures Masked(kept, again)[v] == kept[v] { KeepingAll(kept[v].cells, again); }
    KeepingAll(seq(Count(mask), _ => NaN), again);
  }

  lemma KeptRowPasses(vars: seq<Var>, selection: Selection, n: nat, j: nat)
    requires AllOfLength(vars, n) && j < Count(Mask(vars, selection, n))
    ensures RowPasses(Masked(vars, Mask(vars, selection, n)), selection, j)
  {
    var mask := Mask(vars, selection, n);
    SameVerdict(vars, selection, mask, j);
    RowsAreTheTrueOnes(mask);
    hide RowPasses, Masked;
    assert Rows(mask)[j] in Rows(mask);
  }

  // ---------------------------------------------------------------- which rows come out, in the file's own terms

  /**
   Variable `v` is the one taken for a column: it goes by an alias, up to case; no variable goes by an earlier
   alias of the column, and no later one by the same.
   */
  predicate FoundAs(vars: seq<Var>, names: seq<string>, v: nat) {
    v < |vars| && exists a :: 0 <= a < |names| && IsFirstAlias(vars, names, v, a)
  }

  predicate IsFirstAlias(vars: seq<Var>, names: seq<string>, v: nat, a: nat)
    requires v < |vars| && a < |names|
  {
    && Lower(vars[v].name) == names[a]
    && (forall w :: v < w < |vars| ==> Lower(vars[w].name) != names[a])
    && (forall b, w :: 0 <= b < a && 0 <= w < |vars| ==> Lower(vars[w].name) != names[b])
  }

  /** Variable `v` is the last of that name, up to case. */
  predicate IsLastNamed(vars: seq<Var>, name: string, v: nat) {
    v < |vars| && Lower(vars[v].name) == name && forall w :: v < w < |vars| ==> Lower(vars[w].name) != name
  }

  lemma {:induction false} NamedIsLast(vars: seq<Var>, name: string)
    ensures Named(vars, name).None? ==> forall w :: 0 <= w < |vars| ==> Lower(vars[w].name) != name
    ensures Named(vars, name).Some? ==> exists v: nat :: IsLastNamed(vars, name, v) && vars[v].cells == Named(vars, name).value
  {
    hide Lower;
    if vars != [] {
      var most := vars[..|vars| - 1];
      if Lower(vars[|vars| - 1].name) == name {
        assert IsLastNamed(vars, name, |vars| - 1);
      } else {
        NamedIsLast(most, name);
        assert forall w :: 0 <= w < |most| ==> vars[w] == most[w];
        if Named(most, name).Some? {
          var v: nat :| IsLastNamed(most, name, v) && most[v].cells == Named(most, name).value;
          assert IsLastNamed(vars, name, v);
        }
      }
    }
  }

  /** Looking a column up finds exactly that variable. */
  lemma {:induction false} FindIsFirstAlias(vars: seq<Var>, names: seq<string>)
    ensures Find(vars, names).None? ==> forall v: nat :: !FoundAs(vars, names, v)
    ensures Find(vars, names).Some? ==> exists v: nat :: FoundAs(vars, names, v) && vars[v].cells == Find(vars, names).value
  {
    hide Lower, Named;
    if names != [] {
      NamedIsLast(vars, names[0]);
      var first := Named(vars, names[0]);
      if first.Some? {
        var v: nat :| IsLastNamed(vars, names[0], v) && vars[v].cells == first.value;
        assert IsFirstAlias(vars, names, v, 0);
      } else {
        FindIsFirstAlias(vars, names[1..]);
        forall v: nat ensures FoundAs(vars, names, v) <==> FoundAs(vars, names[1..], v) { NextAlias(vars, names, v); }
        hide FoundAs;
      }
    }
  }

  lemma NextAlias(vars: seq<Var>, names: seq<string>, v: nat)
    requires names != [] && forall w :: 0 <= w < |vars| ==> Lower(vars[w].name) != names[0]
    ensures FoundAs(vars, names, v) <==> FoundAs(vars, names[1..], v)
  {
    hide Lower;
    var rest := names[1..];
    if FoundAs(vars, rest, v) {
      var a :| 0 <= a < |rest| && IsFirstAlias(vars, rest, v, a);
      assert forall b :: 0 < b <= a ==> names[b] == rest[b - 1];
      assert IsFirstAlias(vars, names, v, a + 1);
    }
    if FoundAs(vars, names, v) {
      var a :| 0 <= a < |names| && IsFirstAlias(vars, names, v, a);
      assert forall b :: 0 <= b < a - 1 ==> rest[b] == names[b + 1];
      assert IsFirstAlias(vars, rest, v, a - 1);
    }
  }

  lemma OnlyOneFound(vars: seq<Var>, names: seq<string>, v: nat, w: nat)
    requires FoundAs(vars, names, v) && FoundAs(vars, names, w)
    ensures v == w
  {
    hide Lower;
    var a :| 0 <= a < |names| && IsFirstAlias(vars, names, v, a);
    var b :| 0 <= b < |names| && IsFirstAlias(vars, names, w, b);
    assert a == b;
  }

  /** The cells of the variable that is found are those that are looked up. */
  lemma FoundIsFind(vars: seq<Var>, names: seq<string>, v: nat)
    requires FoundAs(vars, names, v)
    ensures Find(vars, names) == Some(vars[v].cells)
  {
    FindIsFirstAlias(vars, names);
    var w: nat :| FoundAs(vars, names, w) && vars[w].cells == Find(vars, names).value;
    OnlyOneFound(vars, names, v, w);
  }

  /** The table an extraction filters, and the same variables as they come out. */
  function TableOf(vars: seq<Var>): seq<Var> {
    Filterable(vars, Largest(vars))
  }

  function OutOf(vars: seq<Var>, selection: Selection): (out: seq<Var>)
    requires vars != []
    ensures |out| == |TableOf(vars)|
    ensures forall v :: 0 <= v < |out| ==> out[v].name == TableOf(vars)[v].name
  {
    Extracted(vars, selection).value.vars[..|TableOf(vars)|]
  }

  lemma OutIsMasked(vars: seq<Var>, selection: Selection)
    requires vars != []
    ensures OutOf(vars, selection) == Masked(TableOf(vars), Mask(TableOf(vars), selection, Largest(vars)))
  {
  }

  /** Every cell that the row has in column `names` is wanted. */
  predicate AllWanted(table: seq<Var>, names: seq<string>, i: nat, wanted: Value -> bool) {
    forall v: nat :: v < |table| && i < |table[v].cells| && FoundAs(table, names, v) ==> wanted(table[v].cells[i])
  }

  predicate InLatitude(selection: Selection, c: Value) {
    selection.bounds.Some? ==> c.Num? && selection.bounds.value.latMin <= c.x <= selection.bounds.value.latMax
  }

  predicate InLongitude(selection: Selection, c: Value) {
    selection.bounds.Some? ==> c.Num? && selection.bounds.value.lonMin <= c.x <= selection.bounds.value.lonMax
  }

  /** A MATLAB day number that a nanosecond timestamp can hold, from the first midnight to the last. */
  predicate InTime(selection: Selection, c: Value) {
    selection.dateFrom.Some? || selection.dateTo.Some? ==>
      && c.Num? && -9223372036854775807.0 / 86400000000000.0 <= c.x - 719529.0 <= 9223372036854775807.0 / 86400000000000.0
      && (selection.dateFrom.Some? ==> selection.dateFrom.value as real <= c.x - 719529.0)
      && (selection.dateTo.Some? ==> c.x - 719529.0 <= selection.dateTo.value as real)
  }

  /** A row of a file is wanted if its latitude, its longitude and its time are, whatever variables hold them. */
  predicate RowWanted(table: seq<Var>, selection: Selection, i: nat) {
    && AllWanted(table, ["lat", "latitude", "y"], i, c => InLatitude(selection, c))
    && AllWanted(table, ["lon", "long", "longitude", "x"], i, c => InLongitude(selection, c))
    && AllWanted(table, ["time", "date", "datetime", "t"], i, c => InTime(selection, c))
  }

  lemma ColumnWanted(table: seq<Var>, names: seq<string>, n: nat, i: nat, wanted: Value -> bool)
    requires AllOfLength(table, n) && i < n
    ensures Find(table, names).Some? ==> |Find(table, names).value| == n
    ensures AllWanted(table, names, i, wanted) <==> (Find(table, names).Some? ==> wanted(Find(table, names).value[i]))
  {
    hide Find, FoundAs;
    ColumnInWords(table, names, n);
    if Find(table, names).Some? {
      var v: nat :| FoundAs(table, names, v);
      assert Find(table, names) == Some(table[v].cells);
    }
  }

  lemma PassingIsBeingWanted(table: seq<Var>, selection: Selection, n: nat, i: nat)
    requires AllOfLength(table, n) && i < n
    ensures RowPasses(table, selection, i) <==> RowWanted(table, selection, i)
  {
    ColumnWanted(table, LAT_NAMES, n, i, c => InLatitude(selection, c));
    ColumnWanted(table, LON_NAMES, n, i, c => InLongitude(selection, c));
    ColumnWanted(table, TIME_NAMES, n, i, c => InTime(selection, c));
    hide Find, AllWanted;
  }

  /**
   What an extraction does, from file to file. There is one increasing list of row numbers; every variable of
   the table comes out under its name with its cells at those rows; those rows are wanted, and a row that is
   missing is not: its latitude, its longitude or its time lies outside.
   */
  lemma ExactlyTheWantedRowsComeOut(vars: seq<Var>, selection: Selection) returns (rows: seq<nat>)
    requires vars != []
    ensures var table, out := TableOf(vars), OutOf(vars, selection);
      && |rows| == Extracted(vars, selection).value.recordCount
      && (forall i, j :: 0 <= i < j < |rows| ==> rows[i] < rows[j])
      && (forall i: nat :: i in rows <==> i < Largest(vars) && RowWanted(table, selection, i))
      && (forall v :: 0 <= v < |table| ==>
            && out[v].name == table[v].name && |out[v].cells| == |rows|
            && forall j :: 0 <= j < |rows| ==> rows[j] < |table[v].cells| && out[v].cells[j] == table[v].cells[rows[j]])
      && forall j: nat :: j < |rows| ==> RowWanted(out, selection, j)
  {
    var table, n := TableOf(vars), Largest(vars);
    var mask := Mask(table, selection, n);
    rows := Rows(mask);
    OutIsMasked(vars, selection);
    RowsStayAligned(table, selection, n);
    RowsAreTheTrueOnes(mask);
    hide RowPasses, RowWanted, Kept, Find;
    forall i: nat | i < n { PassingIsBeingWanted(table, selection, n, i); }
    forall j: nat | j < |rows| ensures RowWanted(OutOf(vars, selection), selection, j) {
      KeptRowPasses(table, selection, n, j);
      MaskedLength(table, mask);
      PassingIsBeingWanted(OutOf(vars, selection), selection, |rows|, j);
    }
  }

  lemma MaskedLength(table: seq<Var>, mask: seq<bool>)
    requires AllOfLength(table, |mask|)
    ensures AllOfLength(Masked(table, mask), Count(mask))
  {
  }

  lemma ColumnInWords(table: seq<Var>, names: seq<string>, n: nat)
    requires AllOfLength(table, n)
    ensures Find(table, names).None? ==> forall v: nat :: !FoundAs(table, names, v)
    ensures Find(table, names).Some? ==>
      |Find(table, names).value| == n && exists v: nat :: FoundAs(table, names, v)
    ensures forall v: nat :: FoundAs(table, names, v) ==> v < |table| && Find(table, names) == Some(table[v].cells)
  {
    FindIsFirstAlias(table, names);
    FindLength(table, names, n);
    forall v: nat | FoundAs(table, names, v) { FoundIsFind(table, names, v); }
  }

  // ---------------------------------------------------------------- one variable, one row

  /** A file of one variable, under any alias and in any case: its one row comes out exactly if it is inside. */
  lemma OneLatitude(name: string, x: real, b: Scope.Bounds)
    requires Lower(name) in ["lat", "latitude", "y"]
    ensures Extracted([Var(name, [1], [Num(x)])], Selection(None, None, Some(b))).value.recordCount == if b.latMin <= x <= b.latMax then 1 else 0
  {
    OneRow(name, x, Selection(None, None, Some(b)));
    Aliases(name);
    hide Lower;
  }

  lemma OneLongitude(name: string, x: real, b: Scope.Bounds)
    requires Lower(name) in ["lon", "long", "longitude", "x"]
    ensures Extracted([Var(name, [1], [Num(x)])], Selection(None, None, Some(b))).value.recordCount == if b.lonMin <= x <= b.lonMax then 1 else 0
  {
    OneRow(name, x, Selection(None, None, Some(b)));
    Aliases(name);
    hide Lower;
  }

  /** 719529 is the MATLAB day number of 1 January 1970. */
  lemma OneTime(name: string, day: int, from: int, to: int)
    requires Lower(name) in ["time", "date", "datetime", "t"] && -100000 <= day <= 100000
    ensures Extracted([Var(name, [1], [Num((719529 + day) as real)])], Selection(Some(from), Some(to), None)).value.recordCount
         == if from <= day <= to then 1 else 0
  {
    hide Lower, Extracted, InPeriod;
    OneRow(name, (719529 + day) as real, Selection(Some(from), Some(to), None));
    Aliases(name);
    DayInPeriod(day, from, to);
  }

  lemma DayInPeriod(day: int, from: int, to: int)
    requires -100000 <= day <= 100000
    ensures InPeriod(Num((719529 + day) as real), Selection(Some(from), Some(to), None)) <==> from <= day <= to
  {
    assert (719529 + day) as real - MATLAB_EPOCH == day as real;
    assert TIMESTAMP_REACH >= 100000.0;
    assert DayOf(Num((719529 + day) as real)) == Some(day as real);
    hide DayOf;
  }

  /** A variable that goes by no alias decides nothing. */
  lemma OneOther(name: string, x: real, selection: Selection)
    requires Lower(name) !in ["lat", "latitude", "y", "lon", "long", "longitude", "x", "time", "date", "datetime", "t"]
    ensures Extracted([Var(name, [1], [Num(x)])], selection).value.recordCount == 1
  {
    OneRow(name, x, selection);
    Aliases(name);
    hide Lower;
  }

  lemma Aliases(name: string)
    ensures Lower(name) in LAT_NAMES ==> Lower(name) !in LON_NAMES && Lower(name) !in TIME_NAMES
    ensures Lower(name) in LON_NAMES ==> Lower(name) !in TIME_NAMES
  {
    hide Lower;
    var s := Lower(name);
    assert s in LAT_NAMES ==> s == "lat" || s == "latitude" || s == "y";
    assert s in LON_NAMES ==> s == "lon" || s == "long" || s == "longitude" || s == "x";
  }

  lemma {:induction false} FindOne(name: string, x: real, names: seq<string>)
    ensures Find([Var(name, [1], [Num(x)])], names) == if Lower(name) in names then Some([Num(x)]) else None
  {
    hide Lower;
    var vars := [Var(name, [1], [Num(x)])];
    assert vars[..0] == [] && vars[|vars| - 1] == vars[0];
    assert forall n :: Named(vars, n) == if Lower(name) == n then Some([Num(x)]) else None;
    hide Named;
    if names != [] {
      FindOne(name, x, names[1..]);
      assert names == [names[0]] + names[1..];
    }
  }

  lemma OneRow(name: string, x: real, selection: Selection)
    ensures var vars := [Var(name, [1], [Num(x)])];
      && Extracted(vars, selection).Ok?
      && Extracted(vars, selection).value.recordCount
         == if (Lower(name) in LAT_NAMES && selection.bounds.Some? ==> selection.bounds.value.latMin <= x <= selection.bounds.value.latMax)
             && (Lower(name) in LON_NAMES && selection.bounds.Some? ==> selection.bounds.value.lonMin <= x <= selection.bounds.value.lonMax)
             && (Lower(name) in TIME_NAMES ==> InPeriod(Num(x), selection)) then 1 else 0
  {
    hide Lower, InPeriod, Find, Named, Kept;
    var vars := [Var(name, [1], [Num(x)])];
    OneTable(name, x);
    FindOne(name, x, LAT_NAMES);
    FindOne(name, x, LON_NAMES);
    FindOne(name, x, TIME_NAMES);
    OneCount(Mask(vars, selection, 1));
    hide Largest, Filterable, Count;
  }

  lemma OneTable(name: string, x: real)
    ensures var vars := [Var(name, [1], [Num(x)])]; Largest(vars) == 1 && Filterable(vars, 1) == vars
  {
    var vars := [Var(name, [1], [Num(x)])];
    assert vars[..0] == [];
  }

  lemma OneCount(mask: seq<bool>)
    requires |mask| == 1
    ensures Count(mask) == if mask[0] then 1 else 0
  {
    assert mask[..0] == [];
  }
}
