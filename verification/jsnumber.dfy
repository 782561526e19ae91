/** JavaScript numbers as the agent and the monitor use them: the arithmetic
    of the estimators, `parseInt`, the `toFixed(2)` rounding read back by
    `parseFloat`, and the comparisons of the health scorer.

    A double is idealised as an exact real when it is finite; NaN and the two
    infinities are kept, because the source produces them (a zero divisor, a
    text that does not parse). Signed zero is not distinguished. */
module JsNumber {
  import opened JsString

  datatype Num = Finite(v: real) | NaN | Infinity(positive: bool)

  /** `a - b`: NaN absorbs, finite operands subtract exactly, and opposite
      infinities cancel to NaN. */
  function Sub(a: Num, b: Num): (r: Num)
    ensures a == NaN || b == NaN ==> r == NaN
    ensures a.Finite? && b.Finite? ==> r == Finite(a.v - b.v)
    ensures r.Finite? <==> a.Finite? && b.Finite?
    ensures a.Infinity? && b.Infinity? ==> (r == NaN <==> a.positive == b.positive)
  {
    match (a, b)
    case (NaN, _) => NaN
    case (_, NaN) => NaN
    case (Finite(x), Finite(y)) => Finite(x - y)
    case (Infinity(p), Infinity(q)) => if p == q then NaN else Infinity(p)
    case (Infinity(p), Finite(_)) => Infinity(p)
    case (Finite(_), Infinity(q)) => Infinity(!q)
  }

  /** `a * b`: NaN absorbs, finite operands multiply exactly, and an
      infinity times zero is NaN. */
  function Mul(a: Num, b: Num): (r: Num)
    ensures a == NaN || b == NaN ==> r == NaN
    ensures a.Finite? && b.Finite? ==> r == Finite(a.v * b.v)
    ensures r.Finite? <==> a.Finite? && b.Finite?
    ensures (a.Infinity? && b == Finite(0.0)) || (a == Finite(0.0) && b.Infinity?) ==> r == NaN
  {
    match (a, b)
    case (NaN, _) => NaN
    case (_, NaN) => NaN
    case (Finite(_), Finite(_)) => Finite(a.v * b.v)
    case (Infinity(p), Infinity(q)) => Infinity(p == q)
    case (Infinity(p), Finite(y)) => if y == 0.0 then NaN else Infinity(p == (y > 0.0))
    case (Finite(x), Infinity(q)) => if x == 0.0 then NaN else Infinity(q == (x > 0.0))
  }

  /** `a / b`, a zero divisor being taken as +0: NaN absorbs, a non-zero
      finite divisor divides exactly, zero over zero is NaN, any other
      finite number over zero is an infinity of its sign, and a finite
      number over an infinity is zero. */
  function Div(a: Num, b: Num): (r: Num)
    ensures a == NaN || b == NaN ==> r == NaN
    ensures a.Finite? && b.Finite? && b.v != 0.0 ==> r == Finite(a.v / b.v)
    ensures a.Finite? && b == Finite(0.0) ==> r == if a.v == 0.0 then NaN else Infinity(a.v > 0.0)
    ensures a.Finite? && b.Infinity? ==> r == Finite(0.0)
    ensures r.Finite? ==> a.Finite?
  {
    match (a, b)
    case (NaN, _) => NaN
    case (_, NaN) => NaN
    case (Finite(x), Finite(y)) =>
      if y != 0.0 then Finite(x / y)
      else if x == 0.0 then NaN
      else Infinity(x > 0.0)
    case (Finite(_), Infinity(_)) => Finite(0.0)
    case (Infinity(p), Finite(y)) => Infinity(if y == 0.0 then p else p == (y > 0.0))
    case (Infinity(_), Infinity(_)) => NaN
  }

  function Abs(x: real): real {
    if x < 0.0 then -x else x
  }

  /** True when `x` is a whole number of hundredths. */
  predicate IsHundredths(x: real) {
    (x * 100.0).Floor as real == x * 100.0
  }

  /** Rounding a non-negative real to hundredths, a tie going up. */
  function HalfUp(y: real): real
    requires y >= 0.0
  {
    ((y * 100.0 + 0.5).Floor as real) / 100.0
  }

  /** The value `x.toFixed(2)` denotes for |x| below 10^21: the nearest
      hundredth, a tie going away from zero. */
  function RoundHundredths(x: real): (r: real)
    ensures IsHundredths(r)
    ensures Abs(r - x) <= 0.005
    ensures x >= 0.0 ==> r >= 0.0
  {
    if x < 0.0 then
      HalfUpNearest(-x);
      NegatedHundredths(HalfUp(-x));
      -HalfUp(-x)
    else
      HalfUpNearest(x);
      HalfUp(x)
  }

  lemma HalfUpNearest(y: real)
    requires y >= 0.0
    ensures IsHundredths(HalfUp(y)) && HalfUp(y) >= 0.0
    ensures Abs(HalfUp(y) - y) <= 0.005
  {
    var f := (y * 100.0 + 0.5).Floor;
    assert f as real <= y * 100.0 + 0.5 < f as real + 1.0;
    assert HalfUp(y) * 100.0 == f as real;
    assert (f as real).Floor == f;
  }

  lemma NegatedHundredths(r: real)
    requires IsHundredths(r)
    ensures IsHundredths(-r)
  {
    var k := (r * 100.0).Floor;
    assert -r * 100.0 == (-k) as real;
    assert ((-k) as real).Floor == -k;
  }

  /** A whole number of hundredths is left as it is. */
  lemma RoundHundredthsExact(k: int)
    ensures RoundHundredths(k as real / 100.0) == k as real / 100.0
  {
    var x := k as real / 100.0;
    if k >= 0 {
      assert x * 100.0 + 0.5 == k as real + 0.5;
      assert (k as real + 0.5).Floor == k;
    } else {
      assert -x * 100.0 + 0.5 == (-k) as real + 0.5;
      assert ((-k) as real + 0.5).Floor == -k;
    }
  }

  /** A value half-way between two hundredths goes to the one farther from
      zero. */
  lemma RoundHundredthsTie(k: int)
    ensures RoundHundredths((k as real + 0.5) / 100.0)
            == (if k >= 0 then k + 1 else k) as real / 100.0
  {
    var x := (k as real + 0.5) / 100.0;
    if k >= 0 {
      assert x * 100.0 + 0.5 == (k + 1) as real;
      assert ((k + 1) as real).Floor == k + 1;
    } else {
      assert -x * 100.0 + 0.5 == (-k) as real;
      assert ((-k) as real).Floor == -k;
    }
  }

  /** Rounding never takes a value of at least one below one. */
  lemma RoundHundredthsAtLeastOne(x: real)
    requires x >= 1.0
    ensures RoundHundredths(x) >= 1.0
  {
    assert x * 100.0 + 0.5 >= 100.0;
    assert (x * 100.0 + 0.5).Floor >= 100;
  }

  /** The finite number `parseFloat(x.toFixed(2))` gives back: from 10^21 on,
      `toFixed` prints the number itself. */
  function Fixed2Real(x: real): real {
    if Abs(x) >= 1.0e21 then x else RoundHundredths(x)
  }

  /** `parseFloat(n.toFixed(2))`: NaN and the infinities print as themselves
      and are read back unchanged. */
  function Fixed2(n: Num): (r: Num)
    ensures r.Finite? <==> n.Finite?
    ensures n.Finite? && Abs(n.v) < 1.0e21 ==> IsHundredths(r.v) && Abs(r.v - n.v) <= 0.005
    ensures !n.Finite? ==> r == n
  {
    match n
    case Finite(x) => Finite(Fixed2Real(x))
    case _ => n
  }

  // ---------------------------------------------------------------------
  // parseInt

  predicate IsAsciiDigit(c: char) { '0' <= c <= '9' }

  predicate IsAsciiLetter(c: char) { 'a' <= c <= 'z' || 'A' <= c <= 'Z' }

  /** The value of a digit character in any radix up to 36. */
  function DigitValue(c: char): nat
    requires IsAsciiDigit(c) || IsAsciiLetter(c)
  {
    if IsAsciiDigit(c) then c as nat - '0' as nat
    else if 'a' <= c <= 'z' then c as nat - 'a' as nat + 10
    else c as nat - 'A' as nat + 10
  }

  predicate IsDigit(c: char, radix: nat) {
    (IsAsciiDigit(c) || IsAsciiLetter(c)) && DigitValue(c) < radix
  }

  predicate AllDigits(s: string, radix: nat) {
    forall i :: 0 <= i < |s| ==> IsDigit(s[i], radix)
  }

  /** Length of the longest prefix of `s` made of digits of `radix`. */
  function DigitRun(s: string, radix: nat): (n: nat)
    ensures n <= |s|
    ensures AllDigits(s[..n], radix)
    ensures n < |s| ==> !IsDigit(s[n], radix)
  {
    if |s| == 0 || !IsDigit(s[0], radix) then 0
    else 1 + DigitRun(s[1..], radix)
  }

  /** The number written by the digits `ds`, most significant first. */
  function DigitsValue(ds: string, radix: nat): nat
    requires AllDigits(ds, radix)
  {
    if |ds| == 0 then 0
    else DigitsValue(ds[..|ds| - 1], radix) * radix + DigitValue(ds[|ds| - 1])
  }

  /** A natural number with a sign applied, as a whole-numbered real. */
  function Signed(negative: bool, m: nat): (r: real)
    ensures r.Floor as real == r
  {
    if negative then
      assert (-(m as int)) as real == -(m as real);
      assert (-(m as real)).Floor == -(m as int);
      -(m as real)
    else
      assert (m as real).Floor == m;
      m as real
  }

  /** `parseInt(s)` with no radix: white space is skipped, then an optional
      sign, then a `0x`/`0X` prefix selects radix 16; the longest run of
      digits that follows is the value, and NaN when that run is empty. */
  function ParseInt(s: string): (n: Num)
    ensures n.Finite? ==> n.v.Floor as real == n.v
    ensures !n.Finite? ==> n == NaN
    ensures |s| == 0 ==> n == NaN
    ensures |s| > 0 && !IsWhiteSpace(s[0]) && !IsAsciiDigit(s[0]) && s[0] != '-' && s[0] != '+' ==> n == NaN
  {
    assert |s| > 0 && !IsWhiteSpace(s[0]) ==> LeadingSpace(s) == 0 && s[0..] == s;
    assert |s| > 0 && !IsAsciiDigit(s[0]) ==> !IsDigit(s[0], 10);
    var t := s[LeadingSpace(s)..];
    var negative := |t| > 0 && t[0] == '-';
    var u := if |t| > 0 && (t[0] == '-' || t[0] == '+') then t[1..] else t;
    var hex := |u| >= 2 && u[0] == '0' && (u[1] == 'x' || u[1] == 'X');
    var radix := if hex then 16 else 10;
    var body := if hex then u[2..] else u;
    var k := DigitRun(body, radix);
    if k == 0 then NaN
    else
      var m := DigitsValue(body[..k], radix);
      Finite(Signed(negative, m))
  }

  /** The decimal text of a natural number, as the kernel writes counters in
      its control files: the reference printer `ParseInt` inverts. */
  function Decimal(n: nat): (s: string)
    ensures |s| >= 1 && AllDigits(s, 10)
    ensures forall i :: 0 <= i < |s| ==> IsAsciiDigit(s[i])
    ensures s[0] == '0' ==> n == 0
  {
    if n < 10 then ["0123456789"[n]]
    else Decimal(n / 10) + ["0123456789"[n % 10]]
  }

  lemma {:induction false} DecimalValue(n: nat)
    ensures DigitsValue(Decimal(n), 10) == n
  {
    var s := Decimal(n);
    if n >= 10 {
      DecimalValue(n / 10);
      assert s[..|s| - 1] == Decimal(n / 10);
    }
  }

  lemma DigitRunOfPrefix(a: string, rest: string, radix: nat)
    requires AllDigits(a, radix)
    requires |rest| > 0 ==> !IsDigit(rest[0], radix)
    ensures DigitRun(a + rest, radix) == |a|
  {
    var s := a + rest;
    var n := DigitRun(s, radix);
    assert forall j :: 0 <= j < n ==> s[..n][j] == s[j];
    assert forall j :: 0 <= j < |a| ==> s[j] == a[j];
    assert |rest| > 0 ==> s[|a|] == rest[0];
  }

  /** `parseInt` reads back what `Decimal` writes, whatever follows the
      digits, as long as it cannot extend the number. */
  lemma ParseDecimal(n: nat, rest: string)
    requires |rest| > 0 ==> !IsAsciiDigit(rest[0])
    requires n == 0 && |rest| > 0 ==> rest[0] != 'x' && rest[0] != 'X'
    ensures ParseInt(Decimal(n) + rest) == Finite(n as real)
  {
    var d := Decimal(n);
    var s := d + rest;
    assert s[0] == d[0];
    assert LeadingSpace(s) == 0;
    assert s[0..] == s;
    assert !(|s| > 0 && (s[0] == '-' || s[0] == '+'));
    assert !(|s| >= 2 && s[0] == '0' && (s[1] == 'x' || s[1] == 'X')) by {
      if |d| >= 2 {
        assert s[1] == d[1];
      } else if |rest| > 0 {
        assert s[1] == rest[0];
      }
    }
    assert DigitRun(s, 10) == |d| by {
      DigitRunOfPrefix(d, rest, 10);
    }
    assert s[..|d|] == d;
    DecimalValue(n);
    assert Signed(false, n) == n as real;
  }

  // ---------------------------------------------------------------------
  // Values held in a record field that may never have been assigned

  datatype Value = Undefined | Null | Number(n: Num)

  /** ECMAScript's ToNumber on the values a record field can hold. */
  function ToNumber(v: Value): Num {
    match v
    case Undefined => NaN
    case Null => Finite(0.0)
    case Number(n) => n
  }

  /** `a > b` on two numbers: false whenever either is NaN. */
  predicate NumGreater(a: Num, b: Num) {
    match (a, b)
    case (NaN, _) => false
    case (_, NaN) => false
    case (Finite(x), Finite(y)) => x > y
    case (Infinity(p), Infinity(q)) => p && !q
    case (Infinity(p), Finite(_)) => p
    case (Finite(_), Infinity(q)) => !q
  }

  /** `v > k` for a number literal `k`: `undefined` converts to NaN, `null`
      to 0, and any comparison with NaN is false. */
  predicate GreaterThan(v: Value, k: real): (b: bool)
    ensures b <==> NumGreater(ToNumber(v), Finite(k))
  {
    match v
    case Undefined => false
    case Null => 0.0 > k
    case Number(n) => (n.Finite? && n.v > k) || n == Infinity(true)
  }

  /** `v === k` for a number literal `k`: only a number equal to `k`. */
  predicate StrictEquals(v: Value, k: real): (b: bool)
    ensures b <==> v.Number? && v.n.Finite? && v.n.v == k
    ensures b ==> NumGreater(ToNumber(v), Finite(k - 1.0)) && !NumGreater(ToNumber(v), Finite(k))
  {
    v == Number(Finite(k))
  }
}
