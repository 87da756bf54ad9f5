/** Row reduction and quality gating of `sedclient/download.py`: the first
    data row of a catalogue answer is picked, its `;`-separated fields are
    coerced by their configured types, the numeric fields are given units
    and paired into (value, error) points, and the points are filtered by
    their quality flags.

    astropy's unit algebra, `eval` of unit strings and Python's `int()` and
    `float()` parsers are not part of this model: they arrive as the
    function-valued fields of `UnitAlgebra` and `Parsers`. */
module Download {
  import opened Basics
  import opened Text
  import opened Measures

  /** The survey's configuration file, as far as the reduction reads it:
      the whitespace-separated lists under `[reduce] exclude`, `types`,
      `units` and `[quality] qual`. */
  datatype Config = Config(exclude: string, types: string, units: string, qual: string)

  /** What the reduction asks of astropy, for a unit type `U`:
      `eval` turns a configured unit string into a unit (`None` when `eval`
      raises); `dimensionless` is the unit astropy gives a bare float;
      `fraction(u)` is `Some(f)` when `u` is equivalent to `u.percent`, `f`
      being the factor `decompose()` multiplies by, and `None` otherwise;
      `equivalent` is `is_equivalent`. */
  datatype UnitAlgebra<!U> = UnitAlgebra(
    eval: string -> Option<U>,
    dimensionless: U,
    fraction: U -> Option<real>,
    equivalent: (U, U) -> bool)

  /** Python's `int(s)` and `float(s)`; `None` where they raise `ValueError`. */
  datatype Parsers = Parsers(toInt: string -> Option<int>, toFloat: string -> Option<Float>)

  /** A coerced field: what `int`, `float` or `str` made of it. */
  datatype Field = IntField(i: int) | FloatField(f: Float) | StrField(s: string)

  /** A numeric column before and after it is multiplied by its unit. */
  datatype Cell<U> = Raw(x: Float) | Qty(x: Float, unit: U)

  /** A reduced data point: `ufloat(n, s) * unit`. */
  datatype Point<U> = Point(n: Float, s: Float, unit: U)

  /** The exceptions the reduction can raise, with the field or column at
      which it raises. */
  datatype ReduceError =
    | MissingType(field: nat)      // `types[i]`: fewer types than fields
    | UnknownType(field: nat)      // `typeDict[...]`: not int, float or string
    | BadValue(field: nat)         // `int(...)` or `float(...)` refuses the text
    | MissingColumn(column: nat)   // `dat[i]`: fewer numeric columns than needed
    | BadUnit(column: nat)         // `eval(units[i])` raises
    | NoUnit(column: nat)          // `.unit` of a column that has no unit
    | NoValue(column: nat)         // `.value` of a column that has no unit
    | PopOutOfRange                // `data.pop(index)` past the end
    | ThresholdComparison          // `float(qua) < qual` compares a float with a list

  // ---------------------------------------------------------------------
  // Row selection

  /** `['#', '----'] + exclude.split()`. */
  function ExcludeTokens(conf: Config): (ex: seq<string>)
    ensures |ex| >= 2 && ex[0] == "#" && ex[1] == "----"
    ensures ex[2..] == Words(conf.exclude)
  {
    ["#", "----"] + Words(conf.exclude)
  }

  /** A row is skipped when it is empty or its first `;` field contains
      one of the exclusion tokens. */
  predicate Excluded(row: string, ex: seq<string>) {
    row == [] || ScanTokens(SplitOn(row, ';')[0], ex)
  }

  /** The loop over `ex` sets its flag when any token matches, and never
      clears it. */
  function ScanTokens(first: string, ex: seq<string>): (hit: bool)
    ensures hit <==> exists t :: t in ex && Contains(first, t)
  {
    if ex == [] then false
    else
      var rest := ScanTokens(first, ex[1..]);
      assert forall t :: t in ex <==> t == ex[0] || t in ex[1..];
      Contains(first, ex[0]) || rest
  }

  /** A row is skipped exactly when it is empty or its first `;` field
      contains `#`, `----` or one of the configured words. */
  lemma ExcludedIff(conf: Config, row: string)
    ensures Excluded(row, ExcludeTokens(conf)) <==>
      || row == []
      || Contains(SplitOn(row, ';')[0], "#")
      || Contains(SplitOn(row, ';')[0], "----")
      || exists w :: w in Words(conf.exclude) && Contains(SplitOn(row, ';')[0], w)
  {
    var ex := ExcludeTokens(conf);
    assert ex == [ex[0], ex[1]] + ex[2..];
    assert forall t :: t in ex <==> t == "#" || t == "----" || t in Words(conf.exclude);
  }

  /** The loop of `reduction` over the rows, `process` standing for the body
      of its `if not exclude:` branch: the first row that is not excluded is
      processed and its outcome returned; `None` when every row is
      excluded. */
  function Scan<T>(ex: seq<string>, raw: seq<string>, process: string -> Result<T, ReduceError>)
    : (r: Result<Option<T>, ReduceError>)
    ensures r == Success(None) <==> forall k :: 0 <= k < |raw| ==> Excluded(raw[k], ex)
    ensures forall k :: 0 <= k < |raw| && !Excluded(raw[k], ex) && (forall j :: 0 <= j < k ==> Excluded(raw[j], ex))
                        ==> r == Lift(process(raw[k]))
  {
    if raw == [] then Success(None)
    else
      var rest := Scan(ex, raw[1..], process);
      assert forall k :: 1 <= k < |raw| ==> raw[k] == raw[1..][k - 1];
      if Excluded(raw[0], ex) then rest
      else Lift(process(raw[0]))
  }

  /** The `return data` inside the loop: a row's outcome, or its exception. */
  function Lift<T>(r: Result<T, ReduceError>): (o: Result<Option<T>, ReduceError>)
    ensures o != Success(None)
    ensures o.Success? <==> r.Success?
    ensures r.Success? ==> o.value == Some(r.value)
    ensures r.Failure? ==> o.error == r.error
  {
    match r
    case Success(x) => Success(Some(x))
    case Failure(e) => Failure(e)
  }

  /** Once a row has been accepted, the rows after it are never looked at. */
  lemma {:induction false} ScanIgnoresLaterRows<T>(ex: seq<string>, raw: seq<string>, more: seq<string>,
                                                   process: string -> Result<T, ReduceError>)
    requires exists k :: 0 <= k < |raw| && !Excluded(raw[k], ex)
    ensures Scan(ex, raw + more, process) == Scan(ex, raw, process)
    decreases |raw|
  {
    assert (raw + more)[0] == raw[0];
    if Excluded(raw[0], ex) {
      var k :| 0 <= k < |raw| && !Excluded(raw[k], ex);
      assert raw[1..][k - 1] == raw[k];
      assert (raw + more)[1..] == raw[1..] + more;
      ScanIgnoresLaterRows(ex, raw[1..], more, process);
    }
  }

  /** `reduction`: the rows are scanned with the configured exclusion tokens,
      and the chosen row is reduced by `ReduceRow`. */
  function Reduction<U>(alg: UnitAlgebra<U>, parse: Parsers, conf: Config, raw: seq<string>)
    : (r: Result<Option<seq<Point<U>>>, ReduceError>)
    ensures r == Success(None) <==> forall k :: 0 <= k < |raw| ==> Excluded(raw[k], ExcludeTokens(conf))
    ensures forall k :: 0 <= k < |raw| && !Excluded(raw[k], ExcludeTokens(conf))
                        && (forall j :: 0 <= j < k ==> Excluded(raw[j], ExcludeTokens(conf)))
                        ==> r == Lift(ReduceRow(alg, parse, conf, raw[k]))
  {
    Scan(ExcludeTokens(conf), raw, RowProcessor(alg, parse, conf))
  }

  function RowProcessor<U>(alg: UnitAlgebra<U>, parse: Parsers, conf: Config): string -> Result<seq<Point<U>>, ReduceError> {
    row => ReduceRow(alg, parse, conf, row)
  }

  /** The body of the `if not exclude:` branch. */
  function ReduceRow<U>(alg: UnitAlgebra<U>, parse: Parsers, conf: Config, row: string)
    : (r: Result<seq<Point<U>>, ReduceError>)
    ensures CheckTypes(parse, SplitOn(row, ';'), Words(conf.types)).Failure? ==>
      r == Failure(CheckTypes(parse, SplitOn(row, ';'), Words(conf.types)).error)
    ensures CheckTypes(parse, SplitOn(row, ';'), Words(conf.types)).Success? ==>
      r == CheckUnits(alg, CheckTypes(parse, SplitOn(row, ';'), Words(conf.types)).value,
                      Words(conf.units), Words(conf.qual))
  {
    match CheckTypes(parse, SplitOn(row, ';'), Words(conf.types))
    case Failure(e) => Failure(e)
    case Success(fields) => CheckUnits(alg, fields, Words(conf.units), Words(conf.qual))
  }

  /** Once `reduction` has accepted a row, appending rows changes nothing. */
  lemma ReductionIgnoresLaterRows<U>(alg: UnitAlgebra<U>, parse: Parsers, conf: Config,
                                     raw: seq<string>, more: seq<string>)
    requires exists k :: 0 <= k < |raw| && !Excluded(raw[k], ExcludeTokens(conf))
    ensures Reduction(alg, parse, conf, raw + more) == Reduction(alg, parse, conf, raw)
  {
    ScanIgnoresLaterRows(ExcludeTokens(conf), raw, more, RowProcessor(alg, parse, conf));
  }

  // ---------------------------------------------------------------------
  // Type coercion

  /** One iteration of `checkTypes`: a field that strips to nothing becomes
      `nan` before its type is looked up; otherwise `typeDict[types[i]]`
      is applied to the unstripped text. */
  function Coerce(parse: Parsers, field: string, types: seq<string>, i: nat): (r: Result<Field, ReduceError>)
    ensures IsBlank(field) ==> r == Success(FloatField(NaN))
    ensures !IsBlank(field) && i >= |types| ==> r == Failure(MissingType(i))
    ensures !IsBlank(field) && i < |types| && types[i] !in ["int", "float", "string"]
            ==> r == Failure(UnknownType(i))
    ensures !IsBlank(field) && i < |types| && types[i] == "string" ==> r == Success(StrField(field))
    ensures !IsBlank(field) && i < |types| && types[i] == "int" ==>
      r == (if parse.toInt(field).Some? then Success(IntField(parse.toInt(field).value)) else Failure(BadValue(i)))
    ensures !IsBlank(field) && i < |types| && types[i] == "float" ==>
      r == (if parse.toFloat(field).Some? then Success(FloatField(parse.toFloat(field).value)) else Failure(BadValue(i)))
    ensures r.Failure? ==> r.error in {MissingType(i), UnknownType(i), BadValue(i)}
  {
    if IsBlank(field) then Success(FloatField(NaN))
    else if i >= |types| then Failure(MissingType(i))
    else if types[i] == "int" then
      match parse.toInt(field)
      case None => Failure(BadValue(i))
      case Some(n) => Success(IntField(n))
    else if types[i] == "float" then
      match parse.toFloat(field)
      case None => Failure(BadValue(i))
      case Some(x) => Success(FloatField(x))
    else if types[i] == "string" then Success(StrField(field))
    else Failure(UnknownType(i))
  }

  /** `checkTypes`: every field is coerced in place, or the first field
      that cannot be raises. */
  function CheckTypes(parse: Parsers, data: seq<string>, types: seq<string>): (r: Result<seq<Field>, ReduceError>)
    ensures r.Success? <==> forall i :: 0 <= i < |data| ==> Coerce(parse, data[i], types, i).Success?
    ensures r.Success? ==> |r.value| == |data|
                           && forall i :: 0 <= i < |data| ==> Success(r.value[i]) == Coerce(parse, data[i], types, i)
    ensures r.Failure? ==> exists i :: 0 <= i < |data| && Coerce(parse, data[i], types, i) == Failure(r.error)
                                       && forall j :: 0 <= j < i ==> Coerce(parse, data[j], types, j).Success?
  {
    CoerceFrom(parse, data, types, 0)
  }

  /** The loop of `checkTypes` from field `i` on. */
  function CoerceFrom(parse: Parsers, data: seq<string>, types: seq<string>, i: nat): (r: Result<seq<Field>, ReduceError>)
    requires i <= |data|
    ensures r.Success? <==> forall k :: i <= k < |data| ==> Coerce(parse, data[k], types, k).Success?
    ensures r.Success? ==> |r.value| == |data| - i
                           && forall k :: i <= k < |data| ==> Success(r.value[k - i]) == Coerce(parse, data[k], types, k)
    ensures r.Failure? ==> exists k :: i <= k < |data| && Coerce(parse, data[k], types, k) == Failure(r.error)
                                       && forall j :: i <= j < k ==> Coerce(parse, data[j], types, j).Success?
    decreases |data| - i
  {
    if i == |data| then Success([])
    else
      match Coerce(parse, data[i], types, i)
      case Failure(e) => Failure(e)
      case Success(f) =>
        match CoerceFrom(parse, data, types, i + 1)
        case Failure(e) => Failure(e)
        case Success(fs) => Success([f] + fs)
  }

  /** A blank field is `nan` whatever type it was given, so type coercion of
      a blank field never fails. */
  lemma BlankIsNaN(parse: Parsers, data: seq<string>, types: seq<string>, i: nat)
    requires i < |data| && IsBlank(data[i])
    requires CheckTypes(parse, data, types).Success?
    ensures CheckTypes(parse, data, types).value[i] == FloatField(NaN)
  {
    assert Coerce(parse, data[i], types, i) == Success(FloatField(NaN));
  }

  // ---------------------------------------------------------------------
  // Partition of the fields

  function AsFloat(d: Field): Option<Float> {
    if d.FloatField? then Some(d.f) else None
  }

  function AsString(d: Field): Option<string> {
    if d.StrField? then Some(d.s) else None
  }

  /** `[d for d in data if type(d) == float]`; `nan` is a float. */
  function Floats(data: seq<Field>): seq<Float> {
    FilterMap(data, AsFloat)
  }

  /** `[q for q in data if type(q) == str]`. */
  function Strings(data: seq<Field>): seq<string> {
    FilterMap(data, AsString)
  }

  /** `dat` holds the float fields and `qua` the string fields, each in
      field order; a field is in `dat` exactly when it is a float, in
      `qua` exactly when it is a string, so integer fields are in neither. */
  lemma Partition(data: seq<Field>)
    ensures var ks := Positions(|data|, Kept(data, AsFloat));
      && |Floats(data)| == |ks|
      && (forall m :: 0 <= m < |ks| ==> data[ks[m]] == FloatField(Floats(data)[m]))
      && (forall k: nat :: k < |data| ==> (k in ks <==> data[k].FloatField?))
    ensures var ks := Positions(|data|, Kept(data, AsString));
      && |Strings(data)| == |ks|
      && (forall m :: 0 <= m < |ks| ==> data[ks[m]] == StrField(Strings(data)[m]))
      && (forall k: nat :: k < |data| ==> (k in ks <==> data[k].StrField?))
  {
    FilterMapSpec(data, AsFloat);
    var ks := Positions(|data|, Kept(data, AsFloat));
    forall m | 0 <= m < |ks|
      ensures data[ks[m]] == FloatField(Floats(data)[m])
    {
      assert AsFloat(data[ks[m]]) == Some(Floats(data)[m]);
    }
    forall k: nat | k < |data|
      ensures k in ks <==> data[k].FloatField?
    {
      assert Kept(data, AsFloat)(k) <==> data[k].FloatField?;
    }
    FilterMapSpec(data, AsString);
    var ks' := Positions(|data|, Kept(data, AsString));
    forall m | 0 <= m < |ks'|
      ensures data[ks'[m]] == StrField(Strings(data)[m])
    {
      assert AsString(data[ks'[m]]) == Some(Strings(data)[m]);
    }
    forall k: nat | k < |data|
      ensures k in ks' <==> data[k].StrField?
    {
      assert Kept(data, AsString)(k) <==> data[k].StrField?;
    }
  }

  // ---------------------------------------------------------------------
  // Units

  /** `dat[i] *= eval(units[i])` followed, for a unit equivalent to
      percent, by `dat[i] = dat[i].decompose() * dat[i-1]`: the fraction
      times the value of the column before, in that column's unit. */
  function Attach<U>(alg: UnitAlgebra<U>, x: Float, u: U, prev: Cell<U>): (c: Cell<U>)
    ensures c.Qty?
    ensures alg.fraction(u).None? ==> c == Qty(x, u)
    ensures alg.fraction(u).Some? ==> c.x == Mul(Mul(x, Finite(alg.fraction(u).value)), prev.x)
    ensures alg.fraction(u).Some? && prev.Qty? ==> c.unit == prev.unit
    ensures alg.fraction(u).Some? && prev.Raw? ==> c.unit == alg.dimensionless
  {
    match alg.fraction(u)
    case None => Qty(x, u)
    case Some(f) =>
      var unit := if prev.Qty? then prev.unit else alg.dimensionless;
      Qty(Mul(Mul(x, Finite(f)), prev.x), unit)
  }

  /** The column `dat[i-1]` the percent rule reads while column `i` is being
      processed: Python's index `-1` wraps to the last column, which is
      column 0 itself, already given its unit, when there is only one. */
  function Before<U>(cells: seq<Cell<U>>, i: nat): Cell<U>
    requires i < |cells|
  {
    if i == 0 then cells[|cells| - 1] else cells[i - 1]
  }

  /** The loop `for i in range(len(units))` of `checkUnits`, from column
      `i` on. */
  function AttachFrom<U>(alg: UnitAlgebra<U>, cells: seq<Cell<U>>, units: seq<string>, i: nat)
    : (r: Result<seq<Cell<U>>, ReduceError>)
    requires i <= |units| && i <= |cells|
    ensures r.Success? <==> |units| <= |cells| && forall k :: i <= k < |units| ==> alg.eval(units[k]).Some?
    ensures r.Success? ==> |r.value| == |cells| && r.value[..i] == cells[..i] && r.value[|units|..] == cells[|units|..]
    decreases |units| - i
  {
    if i == |units| then Success(cells)
    else if i >= |cells| then Failure(MissingColumn(i))
    else
      match alg.eval(units[i])
      case None => Failure(BadUnit(i))
      case Some(u) =>
        var tagged := cells[i := Qty(cells[i].x, u)];
        var next := cells[i := Attach(alg, cells[i].x, u, Before(tagged, i))];
        var r := AttachFrom(alg, next, units, i + 1);
        if r.Failure? then r
        else
          assert next[..i] == cells[..i] && next[|units|..] == cells[|units|..];
          assert r.value[..i] == r.value[..i + 1][..i];
          r
  }

  /** What `dat` holds after the unit loop: a column beyond the unit list
      keeps its bare float; column `k` of the list gets unit `eval(units[k])`,
      the percent rule reading the already-converted column `k - 1`, or for
      column 0 the untouched last column. */
  ghost predicate Attached<U>(alg: UnitAlgebra<U>, dat: seq<Float>, units: seq<string>, r: seq<Cell<U>>)
    requires |units| <= |dat| && forall k :: 0 <= k < |units| ==> alg.eval(units[k]).Some?
  {
    && |r| == |dat|
    && (forall k :: |units| <= k < |dat| ==> r[k] == Raw(dat[k]))
    && (forall k :: 0 < k < |units| ==> r[k] == Attach(alg, dat[k], alg.eval(units[k]).value, r[k - 1]))
    && (0 < |units| ==>
          var u := alg.eval(units[0]).value;
          var last := if |dat| == 1 then Qty(dat[0], u) else Raw(dat[|dat| - 1]);
          r[0] == Attach(alg, dat[0], u, last))
  }

  function Raws<U>(dat: seq<Float>): (cs: seq<Cell<U>>)
    ensures |cs| == |dat| && forall k :: 0 <= k < |dat| ==> cs[k] == Raw(dat[k])
  {
    seq(|dat|, k requires 0 <= k < |dat| => Raw(dat[k]))
  }

  /** `dat[i] *= eval(units[i])` for every `i`: it raises exactly when there
      are more units than numeric columns or a unit fails to evaluate, and
      otherwise leaves `dat` as `Attached` describes. */
  function AttachUnits<U>(alg: UnitAlgebra<U>, dat: seq<Float>, units: seq<string>)
    : (r: Result<seq<Cell<U>>, ReduceError>)
    ensures r.Success? <==> |units| <= |dat| && forall k :: 0 <= k < |units| ==> alg.eval(units[k]).Some?
    ensures r.Success? ==> Attached(alg, dat, units, r.value)
  {
    var r := AttachFrom(alg, Raws(dat), units, 0);
    if r.Success? then AttachFromSpec(alg, dat, Raws(dat), units, 0); r else r
  }

  /** Loop invariant of the unit loop: columns before `i` are final,
      columns from `i` on are still bare floats. */
  ghost predicate AttachedUpTo<U>(alg: UnitAlgebra<U>, dat: seq<Float>, units: seq<string>, cells: seq<Cell<U>>, i: nat)
    requires i <= |units| <= |dat| && forall k :: 0 <= k < |units| ==> alg.eval(units[k]).Some?
  {
    && |cells| == |dat|
    && (forall k :: i <= k < |dat| ==> cells[k] == Raw(dat[k]))
    && (forall k :: 0 < k < i ==> cells[k] == Attach(alg, dat[k], alg.eval(units[k]).value, cells[k - 1]))
    && (0 < i ==>
          var u := alg.eval(units[0]).value;
          var last := if |dat| == 1 then Qty(dat[0], u) else Raw(dat[|dat| - 1]);
          cells[0] == Attach(alg, dat[0], u, last))
  }

  lemma {:induction false} AttachFromSpec<U>(alg: UnitAlgebra<U>, dat: seq<Float>, cells: seq<Cell<U>>,
                                             units: seq<string>, i: nat)
    requires i <= |units| <= |dat| && forall k :: 0 <= k < |units| ==> alg.eval(units[k]).Some?
    requires AttachedUpTo(alg, dat, units, cells, i)
    ensures AttachFrom(alg, cells, units, i).Success?
    ensures Attached(alg, dat, units, AttachFrom(alg, cells, units, i).value)
    decreases |units| - i
  {
    if i < |units| {
      var u := alg.eval(units[i]).value;
      var tagged := cells[i := Qty(cells[i].x, u)];
      var next := cells[i := Attach(alg, cells[i].x, u, Before(tagged, i))];
      assert cells[i].x == dat[i];
      if i == 0 {
        assert Before(tagged, 0) == (if |dat| == 1 then Qty(dat[0], u) else Raw(dat[|dat| - 1]));
      } else {
        assert Before(tagged, i) == cells[i - 1];
      }
      assert AttachedUpTo(alg, dat, units, next, i + 1);
      AttachFromSpec(alg, dat, next, units, i + 1);
    }
  }

  // ---------------------------------------------------------------------
  // Pairing

  /** What iteration `i` of the pairing loop does. */
  datatype PairStep<U> = Keep(p: Point<U>) | Skip | Raise(e: ReduceError)

  /** Iteration `i` of `for i in range(len(qua))`: column `2i` must exist
      and carry a unit; column `2i + 1` must exist; when the units are
      equivalent the point is `ufloat(dat[2i].value, dat[2i+1].value)` in
      column `2i`'s unit, and a bare float in column `2i + 1` has no
      `.value`. A bare float compared as a unit is dimensionless. */
  function PairAt<U>(alg: UnitAlgebra<U>, dat: seq<Cell<U>>, i: nat): (st: PairStep<U>)
    ensures st.Keep? ==> 2 * i + 1 < |dat| && dat[2 * i].Qty? && dat[2 * i + 1].Qty?
                         && st.p == Point(dat[2 * i].x, dat[2 * i + 1].x, dat[2 * i].unit)
                         && alg.equivalent(dat[2 * i].unit, dat[2 * i + 1].unit)
    ensures st.Skip? ==> 2 * i + 1 < |dat| && dat[2 * i].Qty?
                         && !alg.equivalent(dat[2 * i].unit, if dat[2 * i + 1].Qty? then dat[2 * i + 1].unit else alg.dimensionless)
    ensures 2 * i + 1 < |dat| && dat[2 * i].Qty? && dat[2 * i + 1].Qty? ==> !st.Raise?
  {
    if 2 * i >= |dat| then Raise(MissingColumn(2 * i))
    else if dat[2 * i].Raw? then Raise(NoUnit(2 * i))
    else if 2 * i + 1 >= |dat| then Raise(MissingColumn(2 * i + 1))
    else
      var u := dat[2 * i].unit;
      var e := dat[2 * i + 1];
      if !alg.equivalent(u, if e.Qty? then e.unit else alg.dimensionless) then Skip
      else if e.Raw? then Raise(NoValue(2 * i + 1))
      else Keep(Point(dat[2 * i].x, e.x, u))
  }

  function PairKept<U>(alg: UnitAlgebra<U>, dat: seq<Cell<U>>): nat -> bool {
    (i: nat) => PairAt(alg, dat, i).Keep?
  }

  /** The pairing loop over the first `n` pairs: it raises at the first
      pair that raises; otherwise it holds, in order, the points of exactly
      the pairs whose units agreed. */
  function PairUp<U>(alg: UnitAlgebra<U>, dat: seq<Cell<U>>, n: nat): (r: Result<seq<Point<U>>, ReduceError>)
    ensures r.Success? <==> forall i :: 0 <= i < n ==> !PairAt(alg, dat, i).Raise?
    ensures r.Success? ==>
      var ks := Positions(n, PairKept(alg, dat));
      && |r.value| == |ks|
      && forall m :: 0 <= m < |ks| ==> PairAt(alg, dat, ks[m]) == Keep(r.value[m])
  {
    if n == 0 then Success([])
    else
      var r0 := PairUp(alg, dat, n - 1);
      var st := PairAt(alg, dat, n - 1);
      if r0.Failure? then r0
      else if st.Raise? then Failure(st.e)
      else
        var ks0 := Positions(n - 1, PairKept(alg, dat));
        assert PairKept(alg, dat)(n - 1) == st.Keep?;
        var r := r0.value + (if st.Keep? then [st.p] else []);
        assert forall m :: 0 <= m < |ks0| ==> r[m] == r0.value[m];
        Success(r)
  }

  /** The pairing loop keeps at most one point per quality flag. */
  lemma PairUpBound<U>(alg: UnitAlgebra<U>, dat: seq<Cell<U>>, n: nat)
    requires PairUp(alg, dat, n).Success?
    ensures |PairUp(alg, dat, n).value| <= n
  {
  }

  // ---------------------------------------------------------------------
  // Quality flags

  /** Positions whose flag is one of the allowed ones. */
  function Allowed(qual: seq<string>, req: seq<string>): nat -> bool {
    (k: nat) => k < |qual| && qual[k] in req
  }

  /** Keeps a point whose flag is allowed. */
  function FlagIn<T>(req: seq<string>): ((T, string)) -> Option<T> {
    (p: (T, string)) => if p.1 in req then Some(p.0) else None
  }

  /** The documented result of `qualCheck` for a list of allowed flags,
      `[d for d, q in zip(data, qual) if q in qualReq]`. */
  function QualFilter<T>(data: seq<T>, qual: seq<string>, req: seq<string>): (r: seq<T>)
    requires |data| == |qual|
    ensures |r| <= |data|
  {
    FilterMap(Zip(data, qual), FlagIn(req))
  }

  /** `QualFilter` keeps exactly the points with an allowed flag, in
      order. */
  lemma QualFilterSpec<T>(data: seq<T>, qual: seq<string>, req: seq<string>)
    requires |data| == |qual|
    ensures var ks := Positions(|qual|, Allowed(qual, req));
      && |QualFilter(data, qual, req)| == |ks|
      && forall m :: 0 <= m < |ks| ==> QualFilter(data, qual, req)[m] == data[ks[m]]
  {
    var z := Zip(data, qual);
    FilterMapSpec(z, FlagIn(req));
    forall k: nat | k < |qual|
      ensures Kept(z, FlagIn(req))(k) == Allowed(qual, req)(k)
    {
      assert z[k] == (data[k], qual[k]);
    }
    PositionsAgree(|qual|, Kept(z, FlagIn(req)), Allowed(qual, req));
    var ks := Positions(|qual|, Allowed(qual, req));
    var r := QualFilter(data, qual, req);
    forall m | 0 <= m < |ks|
      ensures r[m] == data[ks[m]]
    {
      assert FlagIn(req)(z[ks[m]]) == Some(r[m]);
    }
  }

  /** `qualCheck` with the filtering its documentation describes: with
      more than one allowed flag the points are filtered; otherwise the
      threshold branch runs, which returns the list untouched when there
      are no flags and raises as soon as it compares a flag with the list
      `qual`. */
  function QualCheck<T>(data: seq<T>, qual: seq<string>, req: seq<string>): (r: Result<seq<T>, ReduceError>)
    requires |data| == |qual|
    ensures |req| > 1 ==> r.Success?
    ensures |req| > 1 ==>
      var ks := Positions(|qual|, Allowed(qual, req));
      && |r.value| == |ks|
      && forall m :: 0 <= m < |ks| ==> r.value[m] == data[ks[m]] && qual[ks[m]] in req
    ensures |req| <= 1 ==> (r.Success? <==> qual == [])
    ensures r.Success? ==> |r.value| <= |data|
  {
    if |req| > 1 then
      var r := QualFilter(data, qual, req);
      QualFilterSpec(data, qual, req);
      Success(r)
    else if qual == [] then Success(data)
    else Failure(ThresholdComparison)
  }

  /** The number of flags at positions `j` up to `k` (exclusive) that are
      not allowed: the points the loop has popped by the time it reaches
      flag `k`, having started at flag `j`. */
  function Disallowed(qual: seq<string>, req: seq<string>, j: nat, k: nat): (n: nat)
    requires j <= k <= |qual|
    ensures n <= k - j
    decreases k - j
  {
    if j == k then 0 else (if qual[j] in req then 0 else 1) + Disallowed(qual, req, j + 1, k)
  }

  /** The enumerated-set branch of `qualCheck` as written, from flag `j`
      on: for each flag in `qual` that is not allowed, the point at the
      flag's FIRST position in the unmodified `qual` is popped from the
      shrinking `data`. It raises `IndexError` exactly when, at some
      disallowed flag, that position is past the end of what is left;
      otherwise one point has gone per disallowed flag, and the survivors
      keep their order. */
  function QualPopFrom<T>(data: seq<T>, qual: seq<string>, req: seq<string>, j: nat)
    : (r: Result<seq<T>, ReduceError>)
    requires j <= |qual|
    ensures r.Success? <==> forall k :: j <= k < |qual| && qual[k] !in req ==>
                              IndexOf(qual, qual[k]) < |data| - Disallowed(qual, req, j, k)
    ensures r.Success? ==> |r.value| == |data| - Disallowed(qual, req, j, |qual|)
                           && IsSubsequence(r.value, data)
    ensures r.Failure? ==> r.error == PopOutOfRange
    decreases |qual| - j
  {
    if j == |qual| then
      SubsequenceRefl(data);
      Success(data)
    else if qual[j] in req then QualPopFrom(data, qual, req, j + 1)
    else
      var index := IndexOf(qual, qual[j]);
      if index < |data| then
        var rest := data[..index] + data[index + 1..];
        var r := QualPopFrom(rest, qual, req, j + 1);
        assert data == data[..index] + [data[index]] + data[index + 1..];
        DropOneIsSubsequence(data[..index], data[index], data[index + 1..]);
        if r.Success? then
          SubsequenceTrans(r.value, rest, data);
          r
        else r
      else Failure(PopOutOfRange)
  }

  /** `qualCheck` with two or more allowed flags, as written. */
  function QualCheckAsWritten<T>(data: seq<T>, qual: seq<string>, req: seq<string>): (r: Result<seq<T>, ReduceError>)
    requires |req| > 1
    ensures r.Success? <==> forall k :: 0 <= k < |qual| && qual[k] !in req ==>
                              IndexOf(qual, qual[k]) < |data| - Disallowed(qual, req, 0, k)
    ensures r.Success? ==> |r.value| == |data| - Disallowed(qual, req, 0, |qual|)
                           && IsSubsequence(r.value, data)
    ensures r.Failure? ==> r.error == PopOutOfRange
  {
    QualPopFrom(data, qual, req, 0)
  }

  /** Flags `C, D, A` with `A, B` allowed: only the third point should
      survive, but popping at positions looked up in the unmodified list
      removes the first and the third, so the second survives. */
  lemma QualCheckPopsWrongPoint()
    ensures QualCheckAsWritten([1, 2, 3], ["C", "D", "A"], ["A", "B"]) == Success([2])
    ensures QualCheck([1, 2, 3], ["C", "D", "A"], ["A", "B"]) == Success([3])
  {
    PopsAsWritten();
    FiltersAsIntended();
  }

  /** Flags `C, D` with neither allowed: the intended result is empty, but
      the second pop looks for position 1 in a one-point list and raises. */
  lemma QualCheckPopsPastEnd()
    ensures QualCheckAsWritten([1, 2], ["C", "D"], ["A", "B"]) == Failure(PopOutOfRange)
    ensures QualCheck([1, 2], ["C", "D"], ["A", "B"]) == Success([])
  {
    PopsPastEnd();
    FiltersEverything();
  }

  lemma PopsPastEnd()
    ensures QualPopFrom([1, 2], ["C", "D"], ["A", "B"], 0) == Failure(PopOutOfRange)
  {
    var qual := ["C", "D"];
    var req := ["A", "B"];
    assert "C" !in req && "D" !in req;
    assert IndexOf(qual, "C") == 0;
    assert IndexOf(qual, "D") == 1 by {
      assert qual[1..] == ["D"];
    }
    var d0: seq<int> := [1, 2];
    assert d0[..0] + d0[1..] == [2];
    assert QualPopFrom([2], qual, req, 1) == Failure(PopOutOfRange);
  }

  lemma FiltersEverything()
    ensures QualFilter([1, 2], ["C", "D"], ["A", "B"]) == []
  {
    var data: seq<int> := [1, 2];
    var qual := ["C", "D"];
    var req := ["A", "B"];
    QualFilterSpec(data, qual, req);
    assert Allowed(qual, req)(0) == false && Allowed(qual, req)(1) == false;
    assert Positions(2, Allowed(qual, req)) == [];
  }

  lemma PopsAsWritten()
    ensures QualPopFrom([1, 2, 3], ["C", "D", "A"], ["A", "B"], 0) == Success([2])
  {
    var qual := ["C", "D", "A"];
    var req := ["A", "B"];
    assert "C" !in req && "D" !in req && "A" in req;
    assert IndexOf(qual, "C") == 0;
    assert IndexOf(qual, "D") == 1 by {
      assert qual[1..] == ["D", "A"];
    }
    var d0: seq<int> := [1, 2, 3];
    assert d0[..0] + d0[1..] == [2, 3];
    var d1: seq<int> := [2, 3];
    assert d1[..1] + d1[2..] == [2];
    assert QualPopFrom([2], qual, req, 2) == QualPopFrom([2], qual, req, 3);
  }

  lemma FiltersAsIntended()
    ensures QualFilter([1, 2, 3], ["C", "D", "A"], ["A", "B"]) == [3]
  {
    var data: seq<int> := [1, 2, 3];
    var qual := ["C", "D", "A"];
    var req := ["A", "B"];
    QualFilterSpec(data, qual, req);
    assert Allowed(qual, req)(0) == false && Allowed(qual, req)(1) == false && Allowed(qual, req)(2);
    assert Positions(3, Allowed(qual, req)) == [2];
  }

  // ---------------------------------------------------------------------
  // checkUnits

  /** `checkUnits`: the unit list is repeated once per quality flag and
      applied to the float columns; the columns are paired, and when every
      pair survived the points are filtered by their flags. */
  function CheckUnits<U>(alg: UnitAlgebra<U>, data: seq<Field>, units: seq<string>, req: seq<string>)
    : (r: Result<seq<Point<U>>, ReduceError>)
    ensures var qua := Strings(data);
      r.Success? ==> |r.value| <= |qua|
    ensures var att := AttachUnits(alg, Floats(data), Repeat(units, |Strings(data)|));
      att.Failure? ==> r == Failure(att.error)
    ensures var att := AttachUnits(alg, Floats(data), Repeat(units, |Strings(data)|));
      att.Success? && PairUp(alg, att.value, |Strings(data)|).Failure? ==>
        r == Failure(PairUp(alg, att.value, |Strings(data)|).error)
  {
    var dat := Floats(data);
    var qua := Strings(data);
    var all := Repeat(units, |qua|);
    match AttachUnits(alg, dat, all)
    case Failure(e) => Failure(e)
    case Success(cells) =>
      match PairUp(alg, cells, |qua|)
      case Failure(e) => Failure(e)
      case Success(red) =>
        PairUpBound(alg, cells, |qua|);
        if |red| == |qua| then QualCheck(red, qua, req) else Success(red)
  }

  /** After the units are attached and the pairs formed: when a pair was
      dropped for disagreeing units, the survivors are returned unfiltered;
      when none was, and two or more flags are allowed, exactly the points
      whose flag is allowed are kept, in order; with fewer allowed flags
      the threshold comparison raises unless there are no flags. */
  lemma CheckUnitsGate<U>(alg: UnitAlgebra<U>, data: seq<Field>, units: seq<string>, req: seq<string>,
                          cells: seq<Cell<U>>)
    requires AttachUnits(alg, Floats(data), Repeat(units, |Strings(data)|)) == Success(cells)
    requires PairUp(alg, cells, |Strings(data)|).Success?
    ensures var red := PairUp(alg, cells, |Strings(data)|).value;
      |red| < |Strings(data)| ==> CheckUnits(alg, data, units, req) == Success(red)
    ensures var red := PairUp(alg, cells, |Strings(data)|).value;
            var qua := Strings(data);
            var r := CheckUnits(alg, data, units, req);
      |red| == |qua| && |req| > 1 ==>
        var ks := Positions(|qua|, Allowed(qua, req));
        && r.Success? && |r.value| == |ks|
        && forall m :: 0 <= m < |ks| ==> r.value[m] == red[ks[m]] && qua[ks[m]] in req
    ensures var red := PairUp(alg, cells, |Strings(data)|).value;
      |red| == |Strings(data)| && |req| <= 1 ==>
        (CheckUnits(alg, data, units, req).Success? <==> Strings(data) == [])
  {
    PairUpBound(alg, cells, |Strings(data)|);
  }
}
