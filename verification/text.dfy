/** The handful of Python string operations the reduction and the loaders rely
    on: digit and whitespace tests, `str.split()` with no argument,
    `str.split(sep)`, `str.strip(ch)` and the substring test `t in s`. */
module Text {

  /** `c.isdigit()` restricted to the ASCII digits. */
  predicate IsDigit(c: char) {
    '0' <= c <= '9'
  }

  /** `int(c)` for a digit character. */
  function DigitValue(c: char): (d: nat)
    requires IsDigit(c)
    ensures d <= 9
    ensures (d == 0) == (c == '0')
  {
    c as int - '0' as int
  }

  /** `c.isspace()`: the characters Python's `str.split()` and `str.strip()`
      treat as whitespace. */
  predicate IsSpace(c: char) {
    var k := c as int;
    || k == 0x20 || 0x09 <= k <= 0x0D || 0x1C <= k <= 0x1F
    || k == 0x85 || k == 0xA0 || k == 0x1680 || 0x2000 <= k <= 0x200A
    || k == 0x2028 || k == 0x2029 || k == 0x202F || k == 0x205F || k == 0x3000
  }

  /** `s.strip() == ''`. */
  predicate IsBlank(s: string) {
    forall i :: 0 <= i < |s| ==> IsSpace(s[i])
  }

  /** A token as `str.split()` produces it: non-empty, with no whitespace. */
  predicate IsWord(w: string) {
    w != [] && forall i :: 0 <= i < |w| ==> !IsSpace(w[i])
  }

  /** Length of the longest whitespace-free prefix of `s`. */
  function WordLength(s: string): (n: nat)
    ensures n <= |s|
    ensures forall i :: 0 <= i < n ==> !IsSpace(s[i])
    ensures n == |s| || IsSpace(s[n])
  {
    if s == [] || IsSpace(s[0]) then 0 else 1 + WordLength(s[1..])
  }

  /** `s.split()`: the maximal runs of non-whitespace characters, in order. */
  function Words(s: string): (ws: seq<string>)
    ensures forall k :: 0 <= k < |ws| ==> IsWord(ws[k])
    ensures ws == [] <==> IsBlank(s)
    decreases |s|
  {
    if s == [] then []
    else if IsSpace(s[0]) then Words(s[1..])
    else
      var n := WordLength(s);
      [s[..n]] + Words(s[n..])
  }

  /** The text a `"{} " * len(ws)` template produces from `ws`: every token
      followed by one space. */
  function SpaceTerminated(ws: seq<string>): string {
    if ws == [] then "" else ws[0] + " " + SpaceTerminated(ws[1..])
  }

  /** Splitting what was written as space-terminated words recovers the words. */
  lemma {:induction false} WordsOfSpaceTerminated(ws: seq<string>)
    requires forall k :: 0 <= k < |ws| ==> IsWord(ws[k])
    ensures Words(SpaceTerminated(ws)) == ws
  {
    if ws != [] {
      var w := ws[0];
      var rest := SpaceTerminated(ws[1..]);
      var s := w + " " + rest;
      assert SpaceTerminated(ws) == s;
      WordLengthOfWord(w, " " + rest);
      assert s == w + (" " + rest);
      assert s[..|w|] == w;
      assert s[|w|..] == " " + rest;
      assert Words(s) == [w] + Words(" " + rest);
      assert (" " + rest)[1..] == rest;
      assert Words(" " + rest) == Words(rest);
      WordsOfSpaceTerminated(ws[1..]);
    }
  }

  lemma {:induction false} WordLengthOfWord(w: string, tail: string)
    requires IsWord(w)
    requires tail != [] && IsSpace(tail[0])
    ensures WordLength(w + tail) == |w|
    decreases |w|
  {
    if |w| > 1 {
      assert (w + tail)[1..] == w[1..] + tail;
      WordLengthOfWord(w[1..], tail);
    } else {
      assert (w + tail)[1..] == tail;
    }
  }

  /** `s.split(sep)`: the pieces between occurrences of `sep`; always at least one. */
  function SplitOn(s: string, sep: char): (parts: seq<string>)
    ensures |parts| >= 1
    ensures forall k :: 0 <= k < |parts| ==> sep !in parts[k]
    decreases |s|
  {
    if s == [] then [""]
    else
      var rest := SplitOn(s[1..], sep);
      if s[0] == sep then [""] + rest
      else [[s[0]] + rest[0]] + rest[1..]
  }

  /** `sep.join(parts)`. */
  function JoinWith(parts: seq<string>, sep: char): string
    requires |parts| >= 1
  {
    if |parts| == 1 then parts[0] else parts[0] + [sep] + JoinWith(parts[1..], sep)
  }

  /** Splitting and re-joining on the same separator gives back the text, so
      the split loses nothing. */
  lemma {:induction false} JoinSplit(s: string, sep: char)
    ensures JoinWith(SplitOn(s, sep), sep) == s
    decreases |s|
  {
    if s != [] {
      var rest := SplitOn(s[1..], sep);
      JoinSplit(s[1..], sep);
      if s[0] == sep {
        assert SplitOn(s, sep) == [""] + rest;
        assert JoinWith([""] + rest, sep) == [sep] + JoinWith(rest, sep);
      } else {
        var parts := [[s[0]] + rest[0]] + rest[1..];
        assert SplitOn(s, sep) == parts;
        if |rest| == 1 {
          assert JoinWith(parts, sep) == [s[0]] + rest[0];
        } else {
          assert parts[1..] == rest[1..];
          assert JoinWith(parts, sep) == [s[0]] + rest[0] + [sep] + JoinWith(rest[1..], sep);
          assert JoinWith(rest, sep) == rest[0] + [sep] + JoinWith(rest[1..], sep);
        }
      }
    }
  }

  /** The substring test `t in s`. */
  predicate Contains(s: string, t: string)
    decreases |s|
  {
    t <= s || (s != [] && Contains(s[1..], t))
  }

  /** `s.strip(ch)`: `s` without its leading and trailing runs of `ch`. */
  function StripChar(s: string, ch: char): (r: string)
    ensures r == [] || (r[0] != ch && r[|r| - 1] != ch)
    ensures |r| <= |s|
    ensures (s == [] || (s[0] != ch && s[|s| - 1] != ch)) ==> r == s
  {
    TrimEnd(TrimStart(s, ch).1, ch)
  }

  /** Drops the leading run of `ch`; returns how many characters were dropped. */
  function TrimStart(s: string, ch: char): (r: (nat, string))
    ensures r.0 <= |s| && r.1 == s[r.0..]
    ensures forall i :: 0 <= i < r.0 ==> s[i] == ch
    ensures r.1 == [] || r.1[0] != ch
  {
    if s != [] && s[0] == ch then
      var t := TrimStart(s[1..], ch);
      (t.0 + 1, t.1)
    else (0, s)
  }

  /** Drops the trailing run of `ch`. */
  function TrimEnd(s: string, ch: char): (r: string)
    ensures |r| <= |s| && r == s[..|r|]
    ensures forall i :: |r| <= i < |s| ==> s[i] == ch
    ensures r == [] || r[|r| - 1] != ch
  {
    if s != [] && s[|s| - 1] == ch then TrimEnd(s[..|s| - 1], ch) else s
  }
}
