/** Unit-token bookkeeping of `sedclient/unitConversion.py`: the printed form
    of a unit decomposed into the cgs bases (`g / (cm s3)`) is split into
    atom tokens, powers are written out as repeated atoms, the tokens are
    cut at `/`, and the atoms a flux density per unit frequency needs are
    cancelled, leaving the atoms the wavelength must account for. */
module UnitTokens {
  import opened Basics
  import opened Text

  /** `hasDigits`: some character of `s` is a digit. */
  predicate HasDigits(s: string)
    decreases |s|
  {
    s != [] && (IsDigit(s[0]) || HasDigits(s[1..]))
  }

  /** The scan finds a digit exactly when there is one. */
  lemma {:induction false} HasDigitsIff(s: string)
    ensures HasDigits(s) <==> exists i :: 0 <= i < |s| && IsDigit(s[i])
    decreases |s|
  {
    if s != [] {
      HasDigitsIff(s[1..]);
      if !IsDigit(s[0]) && exists i :: 0 <= i < |s| && IsDigit(s[i]) {
        var i :| 0 <= i < |s| && IsDigit(s[i]);
        assert s[1..][i - 1] == s[i];
      }
    }
  }

  /** Position of the last digit of `s`. */
  function LastDigit(s: string): (i: nat)
    requires HasDigits(s)
    ensures i < |s| && IsDigit(s[i])
    ensures forall j :: i < j < |s| ==> !IsDigit(s[j])
  {
    if IsDigit(s[|s| - 1]) then |s| - 1
    else
      HasDigitsIff(s);
      HasDigitsIff(s[..|s| - 1]);
      assert forall i :: 0 <= i < |s| - 1 ==> s[..|s| - 1][i] == s[i];
      LastDigit(s[..|s| - 1])
  }

  /** `s.replace(c, '')`. */
  function RemoveAll(s: string, c: char): (r: string)
    ensures c !in r
    ensures |r| <= |s| && (c in s ==> |r| < |s|)
  {
    if s == [] then []
    else
      var rest := RemoveAll(s[1..], c);
      if s[0] == c then rest else [s[0]] + rest
  }

  /** What `replace(c, '')` keeps: every other character, as often and in
      the same order. */
  lemma {:induction false} RemoveAllSpec(s: string, c: char)
    ensures forall x :: x != c ==> multiset(RemoveAll(s, c))[x] == multiset(s)[x]
    ensures |RemoveAll(s, c)| == |s| - multiset(s)[c]
    ensures IsSubsequence(RemoveAll(s, c), s)
    decreases |s|
  {
    if s != [] {
      RemoveAllSpec(s[1..], c);
      assert s == [s[0]] + s[1..];
    }
  }

  /** The character of a single decimal digit. */
  function DigitChar(p: nat): (c: char)
    requires p <= 9
    ensures IsDigit(c) && DigitValue(c) == p
  {
    ('0' as int + p) as char
  }

  /** `splitUnit`: the power is the last digit of `u`, and the name is `u`
      with every occurrence of that digit removed. The source raises
      when `u` has no digit; its only caller checks `hasDigits` first. */
  function SplitUnit(u: string): (r: (string, nat))
    requires HasDigits(u)
    ensures r.1 <= 9
    ensures |r.0| < |u|
  {
    var i := LastDigit(u);
    var d := u[i];
    assert d in multiset(u);
    (RemoveAll(u, d), DigitValue(d))
  }

  /** What `splitUnit` returns, stated without its body: the power is the
      value of the last digit of `u`; the name has no copy of that digit
      and every other character as often as `u`, in `u`'s order. */
  lemma SplitUnitSpec(u: string)
    requires HasDigits(u)
    ensures exists i :: 0 <= i < |u| && IsDigit(u[i]) && DigitValue(u[i]) == SplitUnit(u).1
                        && forall j :: i < j < |u| ==> !IsDigit(u[j])
    ensures DigitChar(SplitUnit(u).1) !in SplitUnit(u).0
    ensures forall x :: x != DigitChar(SplitUnit(u).1) ==> multiset(SplitUnit(u).0)[x] == multiset(u)[x]
    ensures IsSubsequence(SplitUnit(u).0, u)
  {
    var i := LastDigit(u);
    var d := u[i];
    var r := SplitUnit(u);
    assert r == (RemoveAll(u, d), DigitValue(d));
    RemoveAllSpec(u, d);
    assert DigitChar(r.1) == d;
    assert 0 <= i < |u| && IsDigit(u[i]) && DigitValue(u[i]) == r.1;
  }

  /** A name followed by one power digit that the name does not contain
      splits back into that name and that power: `'cm3'` gives `('cm', 3)`. */
  lemma SplitUnitOfPowered(name: string, d: char)
    requires IsDigit(d) && d !in name
    ensures HasDigits(name + [d])
    ensures SplitUnit(name + [d]) == (name, DigitValue(d))
  {
    var u := name + [d];
    assert u[|u| - 1] == d;
    HasDigitsIff(u);
    assert HasDigits(u);
    assert LastDigit(u) == |u| - 1;
    RemoveAllAbsent(name, d);
    RemoveAllAppend(name, [d], d);
    assert RemoveAll([d], d) == [];
    assert RemoveAll(u, d) == name;
  }

  lemma {:induction false} RemoveAllAbsent(s: string, c: char)
    requires c !in s
    ensures RemoveAll(s, c) == s
    decreases |s|
  {
    if s != [] {
      RemoveAllAbsent(s[1..], c);
    }
  }

  lemma {:induction false} RemoveAllAppend(a: string, b: string, c: char)
    ensures RemoveAll(a + b, c) == RemoveAll(a, c) + RemoveAll(b, c)
    decreases |a|
  {
    if a == [] {
      assert a + b == b;
    } else {
      assert (a + b)[1..] == a[1..] + b;
      RemoveAllAppend(a[1..], b, c);
    }
  }

  /** `act.pop(act.index(x))` when `x` is present, otherwise `act` itself. */
  function RemoveFirst(act: seq<string>, x: string): (r: seq<string>)
    ensures x in act ==> exists i :: 0 <= i < |act| && act[i] == x && (forall j :: 0 <= j < i ==> act[j] != x)
                                     && r == act[..i] + act[i + 1..]
    ensures x in act ==> multiset(r) == multiset(act) - multiset{x}
    ensures x !in act ==> r == act
    ensures IsSubsequence(r, act)
  {
    if x in act then
      var i := IndexOf(act, x);
      assert act[i] == x && forall j :: 0 <= j < i ==> act[j] != x;
      assert act == act[..i] + [x] + act[i + 1..];
      SubsequenceRefl(act[i + 1..]);
      DropOneIsSubsequence(act[..i], x, act[i + 1..]);
      act[..i] + act[i + 1..]
    else
      SubsequenceRefl(act);
      act
  }

  /** `reqUnits(req, act)`: pops each atom off the end of `req` and removes
      its first occurrence from `act`, when there is one. What is left has,
      of every atom, `max(0, count in act - count in req)` copies, kept in
      their original order. Which of several equal atoms goes is stated by
      `RemoveFirst`, not here: the conversions only count atoms. */
  function ReqUnits(req: seq<string>, act: seq<string>): (r: seq<string>)
    ensures multiset(r) == multiset(act) - multiset(req)
    ensures IsSubsequence(r, act)
    decreases |req|
  {
    if req == [] then
      SubsequenceRefl(act);
      act
    else
      var e := req[|req| - 1];
      var front := req[..|req| - 1];
      assert req == front + [e];
      var act' := RemoveFirst(act, e);
      var r := ReqUnits(front, act');
      SubsequenceTrans(r, act', act);
      assert multiset(req) == multiset(front) + multiset{e};
      if e in act then
        DiffDiff(multiset(act), multiset{e}, multiset(front));
        r
      else
        DiffAbsent(multiset(act), multiset(front), e);
        r
  }

  lemma DiffDiff<T>(a: multiset<T>, b: multiset<T>, c: multiset<T>)
    ensures a - b - c == a - (c + b)
  {
    forall x
      ensures (a - b - c)[x] == (a - (c + b))[x]
    {
    }
  }

  lemma DiffAbsent<T>(a: multiset<T>, c: multiset<T>, e: T)
    requires a[e] == 0
    ensures a - c == a - (c + multiset{e})
  {
    forall x
      ensures (a - c)[x] == (a - (c + multiset{e}))[x]
    {
    }
  }

  /** With nothing required, or nothing required present, `reqUnits` leaves
      the actual atoms as they are. */
  lemma ReqUnitsDisjoint(req: seq<string>, act: seq<string>)
    requires forall a :: a in req ==> a !in act
    ensures ReqUnits(req, act) == act
  {
    var r := ReqUnits(req, act);
    assert multiset(r) == multiset(act) by {
      forall a
        ensures multiset(r)[a] == multiset(act)[a]
      {
        if a in req {
          assert multiset(act)[a] == 0;
        }
      }
    }
    SubsequenceSameSize(r, act);
  }

  lemma {:induction false} SubsequenceSameSize<T>(a: seq<T>, b: seq<T>)
    requires IsSubsequence(a, b) && |a| == |b|
    ensures a == b
    decreases |b|
  {
    if a != [] {
      if a[0] == b[0] && IsSubsequence(a[1..], b[1..]) {
        SubsequenceSameSize(a[1..], b[1..]);
      } else {
        SubsequenceShorter(a, b[1..]);
      }
    }
  }

  lemma {:induction false} SubsequenceShorter<T>(a: seq<T>, b: seq<T>)
    requires IsSubsequence(a, b)
    ensures |a| <= |b|
    decreases |b|
  {
    if a != [] {
      if a[0] == b[0] && IsSubsequence(a[1..], b[1..]) {
        SubsequenceShorter(a[1..], b[1..]);
      } else {
        SubsequenceShorter(a, b[1..]);
      }
    }
  }

  // ---------------------------------------------------------------------
  // Writing powers out as repeated atoms (`s2` becomes `s, s`)
  // ---------------------------------------------------------------------

  /** A token the expansion loop rewrites: longer than one character and
      holding a digit. */
  predicate Expandable(t: string) {
    |t| > 1 && HasDigits(t)
  }

  /** What expanding one token means: `n` copies of the name of `xN`, the
      token itself otherwise. */
  function Expansion(t: string): seq<string> {
    if Expandable(t) then Copies(SplitUnit(t).0, SplitUnit(t).1) else [t]
  }

  /** The intended expansion: every token replaced, in place, by its expansion. */
  function ExpandIntended(ts: seq<string>): seq<string> {
    if ts == [] then [] else Expansion(ts[0]) + ExpandIntended(ts[1..])
  }

  /** Expansion works token by token, so it distributes over concatenation. */
  lemma {:induction false} ExpandIntendedAppend(a: seq<string>, b: seq<string>)
    ensures ExpandIntended(a + b) == ExpandIntended(a) + ExpandIntended(b)
    decreases |a|
  {
    if a == [] {
      assert a + b == b;
    } else {
      assert (a + b)[1..] == a[1..] + b;
      ExpandIntendedAppend(a[1..], b);
    }
  }

  /** Tokens that need no expansion are left exactly as they are. */
  lemma {:induction false} ExpandIntendedPlain(ts: seq<string>)
    requires forall k :: 0 <= k < |ts| ==> !Expandable(ts[k])
    ensures ExpandIntended(ts) == ts
  {
    if ts != [] {
      ExpandIntendedPlain(ts[1..]);
    }
  }

  function Pow10(n: nat): (p: nat)
    ensures p >= 1
  {
    if n == 0 then 1 else 10 * Pow10(n - 1)
  }

  lemma {:induction false} Pow10Grows(m: nat, n: nat)
    requires m < n
    ensures 10 * Pow10(m) <= Pow10(n)
    decreases n
  {
    if m + 1 < n {
      Pow10Grows(m, n - 1);
    }
  }

  /** A weight that every expansion step strictly lowers: a token of length
      `n` weighs `10^n`, and its replacement is at most nine copies of a
      strictly shorter name. */
  function Potential(ts: seq<string>): nat {
    if ts == [] then 0 else Pow10(|ts[0]|) + Potential(ts[1..])
  }

  lemma {:induction false} PotentialAppend(a: seq<string>, b: seq<string>)
    ensures Potential(a + b) == Potential(a) + Potential(b)
    decreases |a|
  {
    if a == [] {
      assert a + b == b;
    } else {
      assert (a + b)[1..] == a[1..] + b;
      PotentialAppend(a[1..], b);
    }
  }

  lemma {:induction false} PotentialCopies(u: string, k: nat)
    ensures Potential(Copies(u, k)) == k * Pow10(|u|)
  {
    if k > 0 {
      PotentialCopies(u, k - 1);
    }
  }

  lemma PotentialReplace(ts: seq<string>, j: nat, t: string)
    requires j < |ts| && ts[j] == t && Expandable(t)
    ensures Potential(ts[..j] + Copies(SplitUnit(t).0, SplitUnit(t).1) + ts[j + 1..]) < Potential(ts)
  {
    var name := SplitUnit(t).0;
    var k := SplitUnit(t).1;
    assert ts == ts[..j] + [t] + ts[j + 1..];
    PotentialAppend(ts[..j] + [t], ts[j + 1..]);
    PotentialAppend(ts[..j], [t]);
    PotentialAppend(ts[..j] + Copies(name, k), ts[j + 1..]);
    PotentialAppend(ts[..j], Copies(name, k));
    PotentialCopies(name, k);
    Pow10Grows(|name|, |t|);
    MulAtMostNine(k, Pow10(|name|));
  }

  lemma MulAtMostNine(k: nat, p: nat)
    requires k <= 9
    ensures k * p <= 9 * p
  {
  }

  /** The expansion loop of `toJansky` as written: a `for` loop over the
      list that the body rewrites. At position `i`, an expandable token is
      looked up again with `list.index` (its first occurrence) and that
      occurrence is replaced by the copies; the iteration then moves on to
      position `i + 1` of the rewritten list. */
  function ExpandLoop(ts: seq<string>, i: nat): seq<string>
    decreases Potential(ts), |ts| - i
  {
    if i >= |ts| then ts
    else
      var ele := ts[i];
      if Expandable(ele) then
        var j := IndexOf(ts, ele);
        var name := SplitUnit(ele).0;
        var power := SplitUnit(ele).1;
        PotentialReplace(ts, j, ele);
        ExpandLoop(ts[..j] + Copies(name, power) + ts[j + 1..], i + 1)
      else ExpandLoop(ts, i + 1)
  }

  /** The token expansion `toJansky` performs. */
  function ExpandPowers(ts: seq<string>): seq<string> {
    ExpandLoop(ts, 0)
  }

  /** A token as astropy prints a cgs decomposition: either left alone by the
      loop, or a digit-free atom name followed by a non-zero power digit. */
  predicate WellFormed(t: string) {
    !Expandable(t) || (!Expandable(SplitUnit(t).0) && SplitUnit(t).1 >= 1)
  }

  /** On well-formed tokens the loop does what it is meant to do: every
      `xN` is replaced in place by `N` copies of `x`, every other token is
      kept. */
  lemma ExpandPowersIntended(ts: seq<string>)
    requires forall k :: 0 <= k < |ts| ==> WellFormed(ts[k])
    ensures ExpandPowers(ts) == ExpandIntended(ts)
  {
    ExpandLoopFrom([], ts);
    assert [] + ts == ts;
  }

  lemma {:induction false} ExpandLoopFrom(done: seq<string>, rest: seq<string>)
    requires forall k :: 0 <= k < |done| ==> !Expandable(done[k])
    requires forall k :: 0 <= k < |rest| ==> WellFormed(rest[k])
    ensures ExpandLoop(done + rest, |done|) == done + ExpandIntended(rest)
    decreases Potential(rest), 1
  {
    if rest == [] {
      assert done + rest == done;
    } else if Expandable(rest[0]) {
      ExpandLoopFromExpandable(done, rest);
    } else {
      ExpandLoopFromPlain(done, rest);
    }
  }

  lemma {:induction false} ExpandLoopFromExpandable(done: seq<string>, rest: seq<string>)
    requires forall k :: 0 <= k < |done| ==> !Expandable(done[k])
    requires forall k :: 0 <= k < |rest| ==> WellFormed(rest[k])
    requires rest != [] && Expandable(rest[0])
    ensures ExpandLoop(done + rest, |done|) == done + ExpandIntended(rest)
    decreases Potential(rest), 0
  {
    var t := rest[0];
    var tail := rest[1..];
    assert rest == [t] + tail;
    assert WellFormed(t);
    var name := SplitUnit(t).0;
    var power := SplitUnit(t).1;
    var rest' := Copies(name, power - 1) + tail;
    assert Expansion(t) == Copies(name, power);
    calc {
      ExpandLoop(done + rest, |done|);
      { assert done + rest == done + [t] + tail; }
      ExpandLoop(done + [t] + tail, |done|);
      { ExpandStep(done, t, tail, name, power); }
      ExpandLoop(done + [name] + rest', |done| + 1);
      { TailWellFormed(rest);
        PlainAppend(done, name);
        CopiesWellFormed(name, power - 1, tail);
        PotentialDrops(t, tail);
        ExpandLoopFrom(done + [name], rest'); }
      done + [name] + ExpandIntended(rest');
      done + ([name] + ExpandIntended(rest'));
      { ExpandIntendedStep(t, tail, name, power); }
      done + ExpandIntended(rest);
    }
  }

  /** The first expansion step, with the first copy moved to the done part. */
  lemma ExpandStep(done: seq<string>, t: string, tail: seq<string>, name: string, power: nat)
    requires forall k :: 0 <= k < |done| ==> !Expandable(done[k])
    requires Expandable(t) && SplitUnit(t) == (name, power) && power >= 1
    ensures ExpandLoop(done + [t] + tail, |done|)
         == ExpandLoop(done + [name] + (Copies(name, power - 1) + tail), |done| + 1)
  {
    LoopStepExpand(done, t, tail);
    CopiesSplit(name, power);
    assert done + Copies(name, power) + tail == done + [name] + (Copies(name, power - 1) + tail);
  }

  /** The intended expansion of an expandable head, written as its first
      copy followed by the expansion of the rest. */
  lemma ExpandIntendedStep(t: string, tail: seq<string>, name: string, power: nat)
    requires Expansion(t) == Copies(name, power) && power >= 1 && !Expandable(name)
    ensures ExpandIntended([t] + tail) == [name] + ExpandIntended(Copies(name, power - 1) + tail)
  {
    assert ([t] + tail)[1..] == tail;
    CopiesSplit(name, power);
    ExpandIntendedCopies(name, power - 1, tail);
  }

  lemma ExpandIntendedCopies(name: string, n: nat, tail: seq<string>)
    requires !Expandable(name)
    ensures ExpandIntended(Copies(name, n) + tail) == Copies(name, n) + ExpandIntended(tail)
  {
    ExpandIntendedAppend(Copies(name, n), tail);
    ExpandIntendedPlain(Copies(name, n));
  }

  lemma {:induction false} ExpandLoopFromPlain(done: seq<string>, rest: seq<string>)
    requires forall k :: 0 <= k < |done| ==> !Expandable(done[k])
    requires forall k :: 0 <= k < |rest| ==> WellFormed(rest[k])
    requires rest != [] && !Expandable(rest[0])
    ensures ExpandLoop(done + rest, |done|) == done + ExpandIntended(rest)
    decreases Potential(rest), 0
  {
    var t := rest[0];
    var tail := rest[1..];
    assert rest == [t] + tail;
    TailWellFormed(rest);
    LoopStepPlain(done + rest, |done|);
    var done' := done + [t];
    assert done + rest == done' + tail;
    assert |done'| == |done| + 1;
    PotentialAppend([t], tail);
    assert Potential([t]) == Pow10(|t|);
    PlainAppend(done, t);
    ExpandLoopFrom(done', tail);
    assert Expansion(t) == [t];
    assert ExpandIntended(rest) == [t] + ExpandIntended(tail);
  }

  lemma TailWellFormed(rest: seq<string>)
    requires rest != [] && forall k :: 0 <= k < |rest| ==> WellFormed(rest[k])
    ensures forall k :: 0 <= k < |rest[1..]| ==> WellFormed(rest[1..][k])
  {
    forall k | 0 <= k < |rest[1..]|
      ensures WellFormed(rest[1..][k])
    {
      assert rest[1..][k] == rest[k + 1];
    }
  }

  lemma PlainAppend(done: seq<string>, t: string)
    requires forall k :: 0 <= k < |done| ==> !Expandable(done[k])
    requires !Expandable(t)
    ensures forall k :: 0 <= k < |done + [t]| ==> !Expandable((done + [t])[k])
  {
  }

  lemma CopiesWellFormed(name: string, n: nat, tail: seq<string>)
    requires !Expandable(name)
    requires forall k :: 0 <= k < |tail| ==> WellFormed(tail[k])
    ensures forall k :: 0 <= k < |Copies(name, n) + tail| ==> WellFormed((Copies(name, n) + tail)[k])
  {
    var xs := Copies(name, n) + tail;
    forall k | 0 <= k < |xs|
      ensures WellFormed(xs[k])
    {
      if k < n {
        assert xs[k] == name;
      } else {
        assert xs[k] == tail[k - n];
      }
    }
  }

  lemma LoopStepPlain(ts: seq<string>, i: nat)
    requires i < |ts| && !Expandable(ts[i])
    ensures ExpandLoop(ts, i) == ExpandLoop(ts, i + 1)
  {
  }

  /** One expansion step when everything before the loop position is
      already plain: the token at the position is its own first occurrence. */
  lemma LoopStepExpand(done: seq<string>, t: string, tail: seq<string>)
    requires forall k :: 0 <= k < |done| ==> !Expandable(done[k])
    requires Expandable(t)
    ensures ExpandLoop(done + [t] + tail, |done|)
         == ExpandLoop(done + Copies(SplitUnit(t).0, SplitUnit(t).1) + tail, |done| + 1)
  {
    var ts := done + [t] + tail;
    assert ts[|done|] == t;
    assert forall k :: 0 <= k < |done| ==> ts[k] == done[k];
    assert IndexOf(ts, t) == |done|;
    assert ts[..|done|] == done;
    assert ts[|done| + 1..] == tail;
  }

  lemma PotentialDrops(t: string, tail: seq<string>)
    requires Expandable(t) && SplitUnit(t).1 >= 1
    ensures Potential(Copies(SplitUnit(t).0, SplitUnit(t).1 - 1) + tail) < Potential([t] + tail)
  {
    var name := SplitUnit(t).0;
    var power := SplitUnit(t).1;
    PotentialAppend(Copies(name, power - 1), tail);
    PotentialAppend([t], tail);
    PotentialCopies(name, power - 1);
    Pow10Grows(|name|, |t|);
    MulAtMostNine(power - 1, Pow10(|name|));
  }

  /** A power digit of zero deletes its token, shifting the next token under
      the loop's position, which is then never visited: `s0, cm2` comes out
      as `cm2`, not as nothing followed by `cm, cm`. astropy never prints a
      zero power, so this does not arise in practice. */
  lemma ExpandPowersZeroPowerSkips()
    ensures ExpandPowers(["s0", "cm2"]) == ["cm2"]
    ensures ExpandIntended(["s0", "cm2"]) == ["cm", "cm"]
  {
    assert "s" + ['0'] == "s0";
    assert "cm" + ['2'] == "cm2";
    SplitUnitOfPowered("s", '0');
    SplitUnitOfPowered("cm", '2');
    var ts := ["s0", "cm2"];
    assert Expandable(ts[0]);
    assert IndexOf(ts, "s0") == 0;
    assert ts[..0] + Copies("s", 0) + ts[1..] == ["cm2"];
    assert ExpandLoop(ts, 0) == ExpandLoop(["cm2"], 1);
    assert ExpandIntended(["cm2"]) == ["cm", "cm"] + ExpandIntended([]);
  }

  /** The cut at the first `'/'` (`unit.index('/')`): tokens before it are the
      numerator, tokens after it the denominator; `None` when there is no
      `'/'`, where the source gives up on the conversion. */
  function SplitAtSlash(ts: seq<string>): (r: Option<(seq<string>, seq<string>)>)
    ensures r.None? <==> "/" !in ts
    ensures r.Some? ==> ts == r.value.0 + ["/"] + r.value.1 && "/" !in r.value.0
  {
    if "/" in ts then
      var k := IndexOf(ts, "/");
      assert ts == ts[..k] + ["/"] + ts[k + 1..];
      Some((ts[..k], ts[k + 1..]))
    else None
  }

  /** The leftover atoms `toJansky` must still remove with the wavelength: of
      the expanded tokens, the numerator without one `g` and the denominator
      without up to two `s`. */
  function Leftover(ts: seq<string>): (r: Option<(seq<string>, seq<string>)>)
    ensures r.None? <==> "/" !in ExpandPowers(ts)
    ensures r.Some? ==>
      exists top, bottom ::
        && ExpandPowers(ts) == top + ["/"] + bottom && "/" !in top
        && multiset(r.value.0) == multiset(top) - multiset{"g"}
        && multiset(r.value.1) == multiset(bottom) - multiset{"s", "s"}
        && IsSubsequence(r.value.0, top) && IsSubsequence(r.value.1, bottom)
  {
    match SplitAtSlash(ExpandPowers(ts))
    case None => None
    case Some(parts) =>
      var top := ReqUnits(["g"], parts.0);
      var bottom := ReqUnits(["s", "s"], parts.1);
      assert multiset(["s", "s"]) == multiset{"s", "s"};
      Some((top, bottom))
  }
}
