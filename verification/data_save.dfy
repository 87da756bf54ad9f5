/** `savePh` of `sedclient/dataSave.py`: the lines appended to an object's
    `raw` and `red` photometry files. The lines are built from
    `str.format` templates with one `{}` slot per value; the reduced
    points are written as their values and uncertainties interleaved.

    Opening and appending to the files is not part of this model: `SavePh`
    returns, per file, the path and the text appended to it. Rendering a
    value as text (`str(x)`, `{:.3E}`) is a parameter. */
module DataSave {
  import opened Basics
  import opened Text
  import opened Measures

  const SaveDirPh: string := "data/photometry/"

  // ---------------------------------------------------------------------
  // str.format

  /** The exceptions `str.format` raises on these templates. */
  datatype FormatError = MissingArgument | UnclosedBrace

  /** Prefixes `s` to a successful formatting result. */
  function Prepend(s: string, r: Result<string, FormatError>): (o: Result<string, FormatError>)
    ensures o.Success? <==> r.Success?
    ensures r.Success? ==> o.value == s + r.value
    ensures r.Failure? ==> o == r
  {
    if r.Success? then Success(s + r.value) else r
  }

  /** `t.format(*args)` for templates whose slots are `{}` or `{:spec}`
      and whose literal text has no braces: each slot takes the next
      argument, already rendered as its spec asks; arguments beyond the
      last slot are ignored; running out of arguments raises. */
  function Format(t: string, args: seq<string>): (r: Result<string, FormatError>)
    decreases |t|
  {
    if t == [] then Success([])
    else if t[0] == '{' then
      if '}' !in t then Failure(UnclosedBrace)
      else if args == [] then Failure(MissingArgument)
      else
        var close := IndexOf(t, '}');
        Prepend(args[0], Format(t[close + 1..], args[1..]))
    else Prepend([t[0]], Format(t[1..], args))
  }

  /** A slot: `{`, a format spec without braces, `}`. */
  predicate IsSlot(slot: string) {
    |slot| >= 2 && slot[0] == '{' && slot[|slot| - 1] == '}'
    && forall k :: 0 < k < |slot| - 1 ==> slot[k] != '{' && slot[k] != '}'
  }

  lemma PrependNothing(r: Result<string, FormatError>)
    ensures Prepend([], r) == r
  {
    if r.Success? {
      assert [] + r.value == r.value;
    }
  }

  lemma PrependPrepend(a: string, b: string, r: Result<string, FormatError>)
    ensures Prepend(a, Prepend(b, r)) == Prepend(a + b, r)
  {
    if r.Success? {
      assert a + (b + r.value) == (a + b) + r.value;
    }
  }

  /** Literal text is copied. */
  lemma {:induction false} FormatLiteral(lit: string, rest: string, args: seq<string>)
    requires '{' !in lit
    ensures Format(lit + rest, args) == Prepend(lit, Format(rest, args))
    decreases |lit|
  {
    if lit != [] {
      var t := lit + rest;
      assert t[0] == lit[0] && t[0] != '{';
      assert t[1..] == lit[1..] + rest;
      assert Format(t, args) == Prepend([lit[0]], Format(lit[1..] + rest, args));
      FormatLiteral(lit[1..], rest, args);
      PrependPrepend([lit[0]], lit[1..], Format(rest, args));
      assert [lit[0]] + lit[1..] == lit;
    } else {
      assert lit + rest == rest;
      PrependNothing(Format(rest, args));
    }
  }

  /** A slot takes the next argument; with none left it raises. */
  lemma FormatSlot(slot: string, after: string, args: seq<string>)
    requires IsSlot(slot)
    ensures args != [] ==> Format(slot + after, args) == Prepend(args[0], Format(after, args[1..]))
    ensures args == [] ==> Format(slot + after, args) == Failure(MissingArgument)
  {
    var t := slot + after;
    assert t[0] == '{' && t[|slot| - 1] == '}';
    if args != [] {
      assert IndexOf(t, '}') == |slot| - 1 by {
        forall k | 0 <= k < |slot| - 1
          ensures t[k] != '}'
        {
          assert t[k] == slot[k];
        }
      }
      assert t[|slot|..] == after;
    }
  }

  /** A run of `n` slots, each followed by a space, takes the next `n`
      arguments and writes them space-terminated; with fewer than `n`
      arguments it raises. */
  lemma FormatRun(slot: string, n: nat, tail: string, args: seq<string>)
    requires IsSlot(slot)
    ensures |args| >= n ==>
      Format(Repeat(slot + " ", n) + tail, args) == Prepend(SpaceTerminated(args[..n]), Format(tail, args[n..]))
    ensures |args| < n ==> Format(Repeat(slot + " ", n) + tail, args) == Failure(MissingArgument)
  {
    if |args| >= n {
      FormatRunFilled(slot, n, tail, args);
    } else {
      FormatRunShort(slot, n, tail, args);
    }
  }

  /** One slot of the run, then the run of the remaining `n - 1`. */
  lemma FormatRunHead(slot: string, n: nat, tail: string, args: seq<string>)
    requires IsSlot(slot) && n >= 1 && args != []
    ensures Format(Repeat(slot + " ", n) + tail, args)
            == Prepend(args[0], Prepend(" ", Format(Repeat(slot + " ", n - 1) + tail, args[1..])))
  {
    var rest := Repeat(slot + " ", n - 1) + tail;
    RepeatOnce(slot + " ", n);
    Regroup(slot, " ", Repeat(slot + " ", n - 1), tail);
    FormatSlot(slot, " " + rest, args);
    FormatLiteral(" ", rest, args[1..]);
  }

  lemma {:induction false} FormatRunFilled(slot: string, n: nat, tail: string, args: seq<string>)
    requires IsSlot(slot) && |args| >= n
    ensures Format(Repeat(slot + " ", n) + tail, args) == Prepend(SpaceTerminated(args[..n]), Format(tail, args[n..]))
  {
    if n == 0 {
      assert Repeat(slot + " ", 0) == [];
      assert [] + tail == tail && args[..0] == [] && args[0..] == args;
      PrependNothing(Format(tail, args));
    } else {
      var more := args[1..];
      FormatRunHead(slot, n, tail, args);
      FormatRunFilled(slot, n - 1, tail, more);
      assert more[n - 1..] == args[n..];
      RunStep(args, n, Format(tail, args[n..]));
    }
  }

  lemma {:induction false} FormatRunShort(slot: string, n: nat, tail: string, args: seq<string>)
    requires IsSlot(slot) && |args| < n
    ensures Format(Repeat(slot + " ", n) + tail, args) == Failure(MissingArgument)
  {
    var rest := Repeat(slot + " ", n - 1) + tail;
    if args == [] {
      RepeatOnce(slot + " ", n);
      Regroup(slot, " ", Repeat(slot + " ", n - 1), tail);
      FormatSlot(slot, " " + rest, args);
    } else {
      FormatRunHead(slot, n, tail, args);
      FormatRunShort(slot, n - 1, tail, args[1..]);
    }
  }

  lemma RepeatOnce(xs: string, n: nat)
    requires n >= 1
    ensures Repeat(xs, n) == xs + Repeat(xs, n - 1)
  {
  }

  lemma Regroup(a: string, b: string, c: string, d: string)
    ensures (a + b) + c + d == a + (b + (c + d))
  {
  }

  /** The text of one slot and its space, then the rest of the run. */
  lemma RunStep(args: seq<string>, n: nat, r: Result<string, FormatError>)
    requires 1 <= n <= |args|
    ensures Prepend(args[0], Prepend(" ", Prepend(SpaceTerminated(args[1..][..n - 1]), r)))
            == Prepend(SpaceTerminated(args[..n]), r)
  {
    var st := SpaceTerminated(args[1..][..n - 1]);
    assert args[..n][1..] == args[1..][..n - 1];
    assert SpaceTerminated(args[..n]) == args[0] + " " + st;
    PrependPrepend(" ", st, r);
    PrependPrepend(args[0], " " + st, r);
    assert args[0] + (" " + st) == args[0] + " " + st;
  }

  /** `prefix + "{} " * n + "\n"`-shaped templates with `n` slots. */
  function Line(prefix: string, slot: string, n: nat): string {
    prefix + Repeat(slot + " ", n) + "\n"
  }

  /** Formatting such a line with exactly its slot count of arguments
      writes the prefix and the arguments, space-terminated; with fewer it
      raises. The template therefore has exactly `n` placeholders. */
  lemma FormatLine(prefix: string, slot: string, n: nat, args: seq<string>)
    requires '{' !in prefix && IsSlot(slot)
    ensures |args| == n ==> Format(Line(prefix, slot, n), args) == Success(prefix + SpaceTerminated(args) + "\n")
    ensures |args| < n ==> Format(Line(prefix, slot, n), args).Failure?
  {
    var run := Repeat(slot + " ", n);
    assert Line(prefix, slot, n) == prefix + (run + "\n");
    FormatLiteral(prefix, run + "\n", args);
    FormatRun(slot, n, "\n", args);
    if |args| == n {
      assert args[..n] == args && args[n..] == [];
      FormatLiteral("\n", [], []);
      assert "\n" + [] == "\n";
      PrependPrepend(prefix, SpaceTerminated(args), Success("\n"));
    }
  }

  // ---------------------------------------------------------------------
  // savePh

  /** `[y for x in red for y in (x.value.n, x.value.s)]`, each point given
      by the `ufloat` it carries. */
  function Interleave(red: seq<Uv>): (ys: seq<real>)
    ensures |ys| == 2 * |red|
  {
    if red == [] then [] else [red[0].n, red[0].s] + Interleave(red[1..])
  }

  /** Value and uncertainty of point `i` sit at positions `2i` and `2i + 1`. */
  lemma {:induction false} InterleaveSpec(red: seq<Uv>)
    ensures forall i :: 0 <= i < |red| ==> Interleave(red)[2 * i] == red[i].n && Interleave(red)[2 * i + 1] == red[i].s
  {
    if red != [] {
      InterleaveSpec(red[1..]);
      var rest := Interleave(red[1..]);
      forall i | 1 <= i < |red|
        ensures Interleave(red)[2 * i] == red[i].n && Interleave(red)[2 * i + 1] == red[i].s
      {
        assert Interleave(red)[2 * i] == rest[2 * (i - 1)];
        assert Interleave(red)[2 * i + 1] == rest[2 * (i - 1) + 1];
        assert red[1..][i - 1] == red[i];
      }
    }
  }

  /** The text appended to a file: the path and what is written to it. */
  datatype Write = Write(path: string, text: string)

  /** The `raw=` template `"raw=" + "{} " * len(raw) + "\n"`. */
  function RawTemplate(n: nat): string {
    Line("raw=", "{}", n)
  }

  /** The `wave=` template. */
  function WaveTemplate(n: nat): string {
    Line("wave=", "{}", n)
  }

  /** The `red=` template `"red=" + "{:.3E} " * len(red) * 2 + "\n"`. */
  function RedTemplate(n: nat): string {
    "red=" + Repeat(Repeat("{:.3E} ", n), 2) + "\n"
  }

  /** The `red=` template is a line of `2n` `{:.3E}` slots. */
  lemma RedTemplateIsLine(n: nat)
    ensures RedTemplate(n) == Line("red=", "{:.3E}", 2 * n)
  {
    var run := Repeat("{:.3E} ", n);
    assert Repeat(run, 2) == run + run by {
      assert Repeat(run, 0) == [];
      assert Repeat(run, 1) == run + [];
    }
    RepeatAdd("{:.3E} ", n, n);
    assert "{:.3E}" + " " == "{:.3E} ";
  }

  /** `"[{}] \n".format(source)`. */
  function Header(source: string): string {
    "[" + source + "] \n"
  }

  /** The line listing `values`, space-terminated, after `key=`. */
  function KeyLine(key: string, values: seq<string>): string {
    key + "=" + SpaceTerminated(values) + "\n"
  }

  /** The text `savePh` appends to the file with suffix `f`: the header,
      then the lines whose condition names this file. `raw` and `wave` are
      the values as `str` renders them; `sci` is the `{:.3E}` rendering. */
  function FileText(f: string, raw: seq<string>, red: seq<Uv>, wave: seq<string>, source: string,
                    sci: real -> string): (text: string)
    ensures text == Header(source)
                    + (if raw != [] && Contains(f, "raw") then KeyLine("raw", raw) else "")
                    + (if red != [] && Contains(f, "red")
                       then KeyLine("wave", wave) + KeyLine("red", Map(sci, Interleave(red)))
                       else "")
  {
    var rawLine :=
      if raw != [] && Contains(f, "raw") then
        FormatLine("raw=", "{}", |raw|, raw);
        assert "raw" + "=" == "raw=";
        Format(RawTemplate(|raw|), raw).value
      else "";
    var redLines :=
      if red != [] && Contains(f, "red") then
        var redEx := Map(sci, Interleave(red));
        FormatLine("wave=", "{}", |wave|, wave);
        RedTemplateIsLine(|red|);
        FormatLine("red=", "{:.3E}", 2 * |red|, redEx);
        assert "wave" + "=" == "wave=" && "red" + "=" == "red=";
        Format(WaveTemplate(|wave|), wave).value + Format(RedTemplate(|red|), redEx).value
      else "";
    Header(source) + rawLine + redLines
  }

  /** One pass of `for f in files`. */
  function FileWrite(name: string, f: string, raw: seq<string>, red: seq<Uv>, wave: seq<string>, source: string,
                     sci: real -> string): Write
  {
    Write(SaveDirPh + name + "_" + f, FileText(f, raw, red, wave, source, sci))
  }

  /** Neither file suffix contains the other. */
  lemma DistinctSuffixes()
    ensures Contains("raw", "raw") && !Contains("raw", "red")
    ensures Contains("red", "red") && !Contains("red", "raw")
  {
    assert !Contains([], "red") && !Contains([], "raw");
    assert "w"[1..] == [] && "d"[1..] == [];
    assert !Contains("w", "red") && !Contains("d", "raw");
    assert "aw"[1..] == "w" && "ed"[1..] == "d";
    assert !Contains("aw", "red") && !Contains("ed", "raw");
    assert "raw"[1..] == "aw" && "red"[1..] == "ed";
    assert "red"[1] != "raw"[1];
  }

  /** `savePh`, for the object `name`: one write to `<name>_raw` and one to
      `<name>_red`. The `raw=` line goes only to the raw file and only when
      there are raw values; the `wave=` and `red=` lines go only to the red
      file and only when there are reduced points; the `red=` line holds
      each point's value and uncertainty in turn. */
  function SavePh(name: string, raw: seq<string>, red: seq<Uv>, wave: seq<string>, source: string,
                  sci: real -> string): (ws: seq<Write>)
    ensures |ws| == 2
    ensures ws[0].path == SaveDirPh + name + "_" + "raw"
    ensures ws[0].text == Header(source) + (if raw != [] then KeyLine("raw", raw) else "")
    ensures ws[1].path == SaveDirPh + name + "_" + "red"
    ensures ws[1].text == Header(source)
                          + (if red != [] then KeyLine("wave", wave) + KeyLine("red", Map(sci, Interleave(red))) else "")
  {
    DistinctSuffixes();
    var rawFile := FileWrite(name, "raw", raw, red, wave, source, sci);
    var redFile := FileWrite(name, "red", raw, red, wave, source, sci);
    assert rawFile.text == Header(source) + (if raw != [] then KeyLine("raw", raw) else "") + "";
    assert redFile.text == Header(source) + ""
                           + (if red != [] then KeyLine("wave", wave) + KeyLine("red", Map(sci, Interleave(red))) else "");
    [rawFile, redFile]
  }
}
