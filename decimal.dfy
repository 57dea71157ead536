/**
  Decimal text as JavaScript's template literals produce it for integers
  (`${n}`), and a reader for the "name(a, b, c)" strings the colour
  conversions and the pixel sampler build, so that the strings can be
  shown to carry exactly the channels they were built from.
 */
module Decimal {
  import opened Wrappers

  predicate IsDigit(c: char) {
    '0' <= c <= '9'
  }

  predicate AllDigits(s: string) {
    forall i :: 0 <= i < |s| ==> IsDigit(s[i])
  }

  function DigitChar(d: int): (c: char)
    requires 0 <= d < 10
    ensures IsDigit(c)
  {
    "0123456789"[d]
  }

  function DigitValue(c: char): (d: int)
    requires IsDigit(c)
    ensures 0 <= d < 10
  {
    c as int - '0' as int
  }

  /** The decimal text of a non-negative integer: digits only, no leading zero. */
  function NatToString(n: nat): (s: string)
    ensures |s| >= 1 && AllDigits(s)
    ensures s[0] == '0' ==> s == "0"
    decreases n
  {
    if n < 10 then [DigitChar(n)] else NatToString(n / 10) + [DigitChar(n % 10)]
  }

  /** `${n}` for an integer `n`. */
  function IntToString(n: int): (s: string)
    ensures n >= 0 ==> s == NatToString(n)
  {
    if n < 0 then "-" + NatToString(-n) else NatToString(n)
  }

  /** The value of a string of digits, most significant digit first. */
  function DigitsValue(s: string): nat
    requires AllDigits(s)
  {
    if s == [] then 0 else DigitsValue(s[..|s| - 1]) * 10 + DigitValue(s[|s| - 1])
  }

  /** Reading back the decimal text of `n` gives `n`. */
  lemma {:induction false} NatToStringRoundTrip(n: nat)
    ensures DigitsValue(NatToString(n)) == n
    decreases n
  {
    var s := NatToString(n);
    if n >= 10 {
      NatToStringRoundTrip(n / 10);
      assert s[..|s| - 1] == NatToString(n / 10);
    }
  }

  /** The length of the run of digits at the front of `s`. */
  function DigitRun(s: string): (k: nat)
    ensures k <= |s| && AllDigits(s[..k])
    ensures k < |s| ==> !IsDigit(s[k])
  {
    if s == [] || !IsDigit(s[0]) then 0
    else
      var k := 1 + DigitRun(s[1..]);
      assert s[..k] == [s[0]] + s[1..][..k - 1];
      k
  }

  /** A digit string followed by a non-digit (or nothing) is one whole run. */
  lemma {:induction false} DigitRunOfPrefix(s: string, t: string)
    requires AllDigits(s)
    requires t == [] || !IsDigit(t[0])
    ensures DigitRun(s + t) == |s|
  {
    if s != [] {
      assert (s + t)[1..] == s[1..] + t;
      DigitRunOfPrefix(s[1..], t);
    }
  }

  predicate NonNegative(xs: seq<int>) {
    forall i :: 0 <= i < |xs| ==> xs[i] >= 0
  }

  /** Channel values joined by ", ", as the colour template literals lay them out. */
  function Join(xs: seq<int>): string {
    if |xs| == 0 then ""
    else if |xs| == 1 then IntToString(xs[0])
    else IntToString(xs[0]) + ", " + Join(xs[1..])
  }

  /** `name(x0, x1, ...)`. */
  function Call(name: string, xs: seq<int>): string {
    name + "(" + Join(xs) + ")"
  }

  /** Reads a non-empty list of decimal naturals separated by ", "; `None` on anything else. */
  function ParseList(s: string): (r: Option<seq<int>>)
    ensures r.Some? ==> |r.value| >= 1 && NonNegative(r.value)
    decreases |s|
  {
    var k := DigitRun(s);
    if k == 0 then None
    else if k == |s| then Some([DigitsValue(s)])
    else if |s| >= k + 2 && s[k..k + 2] == ", " then
      match ParseList(s[k + 2..])
      case None => None
      case Some(rest) => Some([DigitsValue(s[..k])] + rest)
    else None
  }

  /** Reads `name(x0, x1, ...)` with decimal naturals; `None` on anything else. */
  function ParseCall(name: string, s: string): (r: Option<seq<int>>)
    ensures r.Some? ==> |r.value| >= 1 && NonNegative(r.value)
  {
    if |s| >= |name| + 2 && s[..|name| + 1] == name + "(" && s[|s| - 1] == ')'
    then ParseList(s[|name| + 1..|s| - 1])
    else None
  }

  /** `ParseList` reads a leading run of digits, then either stops or continues after ", ". */
  lemma ParseListStep(head: string, tail: string)
    requires |head| >= 1 && AllDigits(head)
    ensures ParseList(head) == Some([DigitsValue(head)])
    ensures ParseList(head + ", " + tail)
         == match ParseList(tail)
            case None => None
            case Some(rest) => Some([DigitsValue(head)] + rest)
  {
    DigitRunOfPrefix(head, []);
    assert head + [] == head;
    var s := head + ", " + tail;
    assert s == head + (", " + tail);
    DigitRunOfPrefix(head, ", " + tail);
    var k := |head|;
    assert s[..k] == head;
    assert s[k..k + 2] == ", ";
    assert s[k + 2..] == tail;
  }

  /** `ParseList` undoes `Join` on every non-empty list of naturals. */
  lemma {:induction false} ParseJoin(xs: seq<int>)
    requires |xs| >= 1 && NonNegative(xs)
    ensures ParseList(Join(xs)) == Some(xs)
    decreases |xs|
  {
    var head := NatToString(xs[0]);
    NatToStringRoundTrip(xs[0]);
    ParseListStep(head, Join(xs[1..]));
    if |xs| == 1 {
      assert [xs[0]] == xs;
    } else {
      assert NonNegative(xs[1..]);
      ParseJoin(xs[1..]);
      assert [xs[0]] + xs[1..] == xs;
    }
  }

  /** `ParseCall` undoes `Call` on every non-empty list of naturals. */
  lemma ParseCallRoundTrip(name: string, xs: seq<int>)
    requires |xs| >= 1 && NonNegative(xs)
    ensures ParseCall(name, Call(name, xs)) == Some(xs)
  {
    var s := Call(name, xs);
    assert s[..|name| + 1] == name + "(";
    assert s[|name| + 1..|s| - 1] == Join(xs);
    ParseJoin(xs);
  }

  /** Two calls of one name with non-empty lists of naturals print alike only when the lists are equal. */
  lemma CallInjective(name: string, xs: seq<int>, ys: seq<int>)
    requires |xs| >= 1 && |ys| >= 1 && NonNegative(xs) && NonNegative(ys)
    ensures Call(name, xs) == Call(name, ys) <==> xs == ys
  {
    ParseCallRoundTrip(name, xs);
    ParseCallRoundTrip(name, ys);
  }

  /** Regrouping a concatenation of three strings. */
  lemma Regroup(x: string, y: string, z: string)
    ensures x + (y + z) == x + y + z
  {
  }

  /** Moves the text before a list inside it: `p + Join(x :: xs)` is `p + x + ", " + Join(xs)`. */
  lemma JoinAfter(p: string, xs: seq<int>)
    requires |xs| >= 2
    ensures p + Join(xs) == p + IntToString(xs[0]) + ", " + Join(xs[1..])
  {
    var sx := IntToString(xs[0]);
    Regroup(p, sx + ", ", Join(xs[1..]));
    Regroup(p, sx, ", ");
  }

  /** The three-channel template literal `name(${a}, ${b}, ${c})`. */
  lemma CallOfThree(name: string, a: int, b: int, c: int)
    ensures Call(name, [a, b, c])
         == name + "(" + IntToString(a) + ", " + IntToString(b) + ", " + IntToString(c) + ")"
  {
    assert [a, b, c][1..] == [b, c];
    assert [b, c][1..] == [c];
    var p := name + "(";
    JoinAfter(p, [a, b, c]);
    var p' := p + IntToString(a) + ", ";
    JoinAfter(p', [b, c]);
  }

  /** The four-channel template literal `name(${a}, ${b}, ${c}, ${d})`. */
  lemma CallOfFour(name: string, a: int, b: int, c: int, d: int)
    ensures Call(name, [a, b, c, d])
         == name + "(" + IntToString(a) + ", " + IntToString(b) + ", " + IntToString(c) + ", " + IntToString(d) + ")"
  {
    assert [a, b, c, d][1..] == [b, c, d];
    assert [b, c, d][1..] == [c, d];
    assert [c, d][1..] == [d];
    var p := name + "(";
    JoinAfter(p, [a, b, c, d]);
    var p' := p + IntToString(a) + ", ";
    JoinAfter(p', [b, c, d]);
    var p'' := p' + IntToString(b) + ", ";
    JoinAfter(p'', [c, d]);
  }
}
