/** `loadPh` and `loadSp` of `sedclient/load.py`: reading saved photometry
    and spectra back as wavelengths and points in erg/s/cm^2.

    Reading the files is not part of this model: `LoadPh` receives the
    text of the `wave` and `red` entries of the object's section, and
    `LoadSp` the rows the CSV reader yields. Python's `float()` is a
    parameter. */
module Load {
  import opened Basics
  import opened Text
  import opened Measures
  import opened DataSave

  /** The exceptions the loaders raise. */
  datatype LoadError =
    | BadNumber(text: string)             // `float(...)` refuses the text
    | MissingColumn(row: nat, column: nat) // `row[k]` past the end of a CSV row

  /** `xs[0::2]`. */
  function Evens<T>(xs: seq<T>): (r: seq<T>)
    ensures |r| == (|xs| + 1) / 2
    ensures forall i :: 0 <= i < |r| ==> r[i] == xs[2 * i]
    decreases |xs|
  {
    if xs == [] then [] else [xs[0]] + Odds(xs[1..])
  }

  /** `xs[1::2]`. */
  function Odds<T>(xs: seq<T>): (r: seq<T>)
    ensures |r| == |xs| / 2
    ensures forall i :: 0 <= i < |r| ==> r[i] == xs[2 * i + 1]
    decreases |xs|
  {
    if xs == [] then [] else Evens(xs[1..])
  }

  /** A point as the loaders build it: `ufloat(f, e) * (u.erg/u.s/u.cm**2)`. */
  function ErgPoint(f: real, e: real): (q: Quantity)
    ensures q.Measured? && q.unit == ErgFlux && q.v == Uv(f, e)
  {
    Measured(Uv(f, e), ErgFlux)
  }

  /** `[ufloat(f, e) * erg/s/cm^2 for f, e in zip(flux, e_flux)]`: `zip`
      stops at the shorter list. */
  function ZipPoints(flux: seq<real>, eflux: seq<real>): (r: seq<Quantity>)
    ensures |r| == if |flux| <= |eflux| then |flux| else |eflux|
    ensures forall i :: 0 <= i < |r| ==> r[i] == ErgPoint(flux[i], eflux[i])
  {
    if flux == [] || eflux == [] then []
    else [ErgPoint(flux[0], eflux[0])] + ZipPoints(flux[1..], eflux[1..])
  }

  /** `[float(w) for w in tokens]`: raises at the first token `float`
      refuses. */
  function ParseAll(tokens: seq<string>, parse: string -> Option<real>): (r: Result<seq<real>, LoadError>)
    ensures r.Success? <==> forall k :: 0 <= k < |tokens| ==> parse(tokens[k]).Some?
    ensures r.Success? ==> |r.value| == |tokens| && forall k :: 0 <= k < |tokens| ==> Some(r.value[k]) == parse(tokens[k])
    ensures r.Failure? ==> exists k :: 0 <= k < |tokens| && parse(tokens[k]).None? && r.error == BadNumber(tokens[k])
  {
    if tokens == [] then Success([])
    else
      match parse(tokens[0])
      case None => Failure(BadNumber(tokens[0]))
      case Some(x) =>
        var rest := ParseAll(tokens[1..], parse);
        assert forall k :: 1 <= k < |tokens| ==> tokens[k] == tokens[1..][k - 1];
        if rest.Failure? then rest else Success([x] + rest.value)
  }

  /** `loadPh`: the wavelengths are the numbers of the `wave` entry, in
      order; the points pair entry `2i` of the `red` entry (value) with entry
      `2i + 1` (uncertainty), so an odd trailing number is dropped; every
      point is in erg/s/cm^2. */
  function LoadPh(waveText: string, redText: string, parse: string -> Option<real>)
    : (r: Result<(seq<real>, seq<Quantity>), LoadError>)
    ensures r.Success? <==> ParseAll(Words(waveText), parse).Success? && ParseAll(Words(redText), parse).Success?
    ensures r.Success? ==> r.value.0 == ParseAll(Words(waveText), parse).value
    ensures r.Success? ==>
      var fluxVec := ParseAll(Words(redText), parse).value;
      && |r.value.1| == |fluxVec| / 2
      && forall i :: 0 <= i < |r.value.1| ==> r.value.1[i] == ErgPoint(fluxVec[2 * i], fluxVec[2 * i + 1])
  {
    match ParseAll(Words(waveText), parse)
    case Failure(e) => Failure(e)
    case Success(wave) =>
      match ParseAll(Words(redText), parse)
      case Failure(e) => Failure(e)
      case Success(fluxVec) => Success((wave, ZipPoints(Evens(fluxVec), Odds(fluxVec))))
  }

  /** One CSV row of a spectrum: `float(row[0])` is the wavelength, then
      `float(row[1])` and `float(row[2])` the value and uncertainty,
      evaluated in that order. */
  function SpRow(row: seq<string>, i: nat, parse: string -> Option<real>): (r: Result<(real, Quantity), LoadError>)
    ensures r.Success? <==> |row| >= 3 && parse(row[0]).Some? && parse(row[1]).Some? && parse(row[2]).Some?
    ensures r.Success? ==> r.value == (parse(row[0]).value, ErgPoint(parse(row[1]).value, parse(row[2]).value))
    ensures r.Failure? ==> exists c :: 0 <= c < 3 && (forall d :: 0 <= d < c ==> d < |row| && parse(row[d]).Some?)
                                       && r.error == (if c < |row| then BadNumber(row[c]) else MissingColumn(i, c))
  {
    if |row| < 1 then Failure(MissingColumn(i, 0))
    else if parse(row[0]).None? then Failure(BadNumber(row[0]))
    else if |row| < 2 then Failure(MissingColumn(i, 1))
    else if parse(row[1]).None? then Failure(BadNumber(row[1]))
    else if |row| < 3 then Failure(MissingColumn(i, 2))
    else if parse(row[2]).None? then Failure(BadNumber(row[2]))
    else Success((parse(row[0]).value, ErgPoint(parse(row[1]).value, parse(row[2]).value)))
  }

  /** `loadSp` from row `i` on. */
  function LoadSpFrom(rows: seq<seq<string>>, i: nat, parse: string -> Option<real>)
    : (r: Result<(seq<real>, seq<Quantity>), LoadError>)
    requires i <= |rows|
    ensures r.Success? <==> forall k :: i <= k < |rows| ==> SpRow(rows[k], k, parse).Success?
    ensures r.Success? ==> |r.value.0| == |rows| - i && |r.value.1| == |rows| - i
    ensures r.Success? ==> forall k :: i <= k < |rows| ==>
      (r.value.0[k - i], r.value.1[k - i]) == SpRow(rows[k], k, parse).value
    ensures r.Failure? ==> exists k :: i <= k < |rows| && SpRow(rows[k], k, parse) == Failure(r.error)
                                       && forall j :: i <= j < k ==> SpRow(rows[j], j, parse).Success?
    decreases |rows| - i
  {
    if i == |rows| then Success(([], []))
    else
      match SpRow(rows[i], i, parse)
      case Failure(e) => Failure(e)
      case Success(wf) =>
        match LoadSpFrom(rows, i + 1, parse)
        case Failure(e) =>
          assert forall j :: i <= j < i + 1 ==> SpRow(rows[j], j, parse).Success?;
          Failure(e)
        case Success(rest) => Success(([wf.0] + rest.0, [wf.1] + rest.1))
  }

  /** `loadSp`: one wavelength and one point per CSV row, so the two lists
      have equal length; `row[0]` is the wavelength and `(row[1], row[2])`
      the point, in erg/s/cm^2. Any short row or unparsable number raises. */
  function LoadSp(rows: seq<seq<string>>, parse: string -> Option<real>): (r: Result<(seq<real>, seq<Quantity>), LoadError>)
    ensures r.Success? <==> forall k :: 0 <= k < |rows| ==>
      |rows[k]| >= 3 && parse(rows[k][0]).Some? && parse(rows[k][1]).Some? && parse(rows[k][2]).Some?
    ensures r.Success? ==> |r.value.0| == |rows| && |r.value.1| == |rows|
    ensures r.Success? ==> forall k :: 0 <= k < |rows| ==>
      r.value.0[k] == parse(rows[k][0]).value && r.value.1[k] == ErgPoint(parse(rows[k][1]).value, parse(rows[k][2]).value)
  {
    LoadSpFrom(rows, 0, parse)
  }

  // ---------------------------------------------------------------------
  // Round trip with savePh

  /** Splitting the interleaved list `redEx` back with `[0::2]` and
      `[1::2]` gives back each point's value and uncertainty. */
  lemma EvensOddsOfInterleave(red: seq<Uv>)
    ensures Evens(Interleave(red)) == Map((p: Uv) => p.n, red)
    ensures Odds(Interleave(red)) == Map((p: Uv) => p.s, red)
  {
    InterleaveSpec(red);
  }

  /** The points `loadPh` rebuilds from an interleaved list are the saved
      points, now in erg/s/cm^2. */
  lemma PairsOfInterleave(red: seq<Uv>)
    ensures ZipPoints(Evens(Interleave(red)), Odds(Interleave(red))) == Map((p: Uv) => ErgPoint(p.n, p.s), red)
  {
    EvensOddsOfInterleave(red);
  }

  /** What `savePh` writes as the `red` entry is read back by `loadPh` as
      the same points, provided each saved number is rendered as one token
      that `float` reads back exactly. The rounding of `{:.3E}` is where
      the source loses precision; here exactness on the saved numbers is
      the caller's hypothesis. */
  lemma SaveLoadRoundTrip(waveText: string, red: seq<Uv>, sci: real -> string, parse: string -> Option<real>)
    requires forall k :: 0 <= k < |Interleave(red)| ==>
               IsWord(sci(Interleave(red)[k])) && parse(sci(Interleave(red)[k])) == Some(Interleave(red)[k])
    requires ParseAll(Words(waveText), parse).Success?
    ensures LoadPh(waveText, SpaceTerminated(Map(sci, Interleave(red))), parse)
            == Success((ParseAll(Words(waveText), parse).value, Map((p: Uv) => ErgPoint(p.n, p.s), red)))
  {
    var ys := Interleave(red);
    var tokens := Map(sci, ys);
    forall k | 0 <= k < |tokens|
      ensures IsWord(tokens[k])
    {
      assert tokens[k] == sci(ys[k]);
    }
    WordsOfSpaceTerminated(tokens);
    ParseRendered(ys, sci, parse);
    PairsOfInterleave(red);
  }

  /** Numbers whose renderings `float` reads back exactly parse back to
      themselves. */
  lemma ParseRendered(ys: seq<real>, sci: real -> string, parse: string -> Option<real>)
    requires forall k :: 0 <= k < |ys| ==> parse(sci(ys[k])) == Some(ys[k])
    ensures ParseAll(Map(sci, ys), parse) == Success(ys)
  {
    var tokens := Map(sci, ys);
    forall k | 0 <= k < |tokens|
      ensures parse(tokens[k]) == Some(ys[k])
    {
      assert tokens[k] == sci(ys[k]);
    }
    var parsed := ParseAll(tokens, parse);
    assert parsed.Success?;
    assert parsed.value == ys by {
      forall k | 0 <= k < |ys|
        ensures parsed.value[k] == ys[k]
      {
        assert Some(parsed.value[k]) == parse(tokens[k]);
      }
    }
  }
}
