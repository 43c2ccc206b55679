/**
  The logarithm leaf (functions/Log.java): its constructors and base
  accessors, its derivative rule, its cross-representation equality and its
  rendering.
 */
module Logarithm {
  import opened Expr

  /** `new Log()`. */
  function Default(): (l: Function)
    ensures l.Log? && GetBase(l) == E
  {
    Log(E)
  }

  /** `new Log(base)`. */
  function WithBase(base: real): (l: Function)
    ensures l.Log? && GetBase(l) == base
  {
    Log(base)
  }

  function GetBase(l: Function): real
    requires l.Log?
  {
    l.base
  }

  /** `setBase`: the object afterwards is a Log with the new base and nothing
      else. */
  function SetBase(l: Function, base: real): (l': Function)
    requires l.Log?
    ensures l'.Log? && GetBase(l') == base
    ensures GetBase(l) == base ==> l' == l
  {
    l.(base := base)
  }

  /** `differentiate`: 1/x for base e; otherwise the chain
      (x^-1) o (x * ln(x)), built by `appendStart` then `appendEnd`. The inner
      Log is a fresh `new Log()`, so the result does not mention the base. */
  function Derivative(base: real): (r: Function)
    ensures base == E ==> r == Poly(1.0, -1.0)
    ensures base != E ==> r.Chain? && |r.nodes| == 2
    ensures base != E ==> r.nodes[0] == Poly(1.0, -1.0) && r.nodes[1] == Mul(Poly(1.0, 1.0), Default())
  {
    if base == E then Poly(1.0, -1.0)
    else Chain([Poly(1.0, -1.0), Mul(Poly(1.0, 1.0), Default())])
  }

  /** Every base other than e yields the very same derivative. */
  lemma DerivativeIgnoresBase(b1: real, b2: real)
    requires b1 != E && b2 != E
    ensures Derivative(b1) == Derivative(b2)
  {
  }

  /** One level of the "a size-1 Complex is the function it wraps" reading. */
  function Unwrap(f: Function): (g: Function)
    ensures f.Chain? && |f.nodes| == 1 ==> g == f.nodes[0]
    ensures !(f.Chain? && |f.nodes| == 1) ==> g == f
  {
    if f.Chain? && |f.nodes| == 1 then f.nodes[0] else f
  }

  /** `Log.equals(obj)`, with `None` for null. A Log equals another Log of the
      same base and a one-node Complex whose node is such a Log; nothing else. */
  function Equals(base: real, obj: Option<Function>): (r: bool)
    ensures obj.None? ==> !r
    ensures obj.Some? ==> (r <==> Unwrap(obj.value) == Log(base))
  {
    match obj
    case None => false
    case Some(Log(b)) => base == b
    case Some(Chain(ns)) => |ns| == 1 && ns[0].Log? && base == ns[0].base
    case Some(_) => false
  }

  // ---------------------------------------------------------------------
  // Rendering
  // ---------------------------------------------------------------------

  const MinInt: int := -0x8000_0000
  const MaxInt: int := 0x7FFF_FFFF

  /** The Java cast `(int) d`: truncation toward zero, saturating at the
      bounds of a 32-bit int. */
  function JavaIntCast(d: real): (n: int)
    ensures MinInt <= n <= MaxInt
  {
    var t := if d >= 0.0 then d.Floor else -((-d).Floor);
    if t < MinInt then MinInt else if t > MaxInt then MaxInt else t
  }

  /** `d == (int) d`: an integral base that fits in an int. */
  lemma IntegralTest(d: real)
    ensures d == JavaIntCast(d) as real <==> d == d.Floor as real && MinInt <= d.Floor <= MaxInt
  {
    var n := JavaIntCast(d);
    if d == n as real {
      assert d.Floor == n;
    }
    if d == d.Floor as real {
      if d < 0.0 {
        assert (-d).Floor == -d.Floor;
      }
    }
  }

  function DigitChar(d: nat): char
    requires d < 10
  {
    "0123456789"[d]
  }

  function DigitValue(c: char): Option<nat>
  {
    if '0' <= c <= '9' then Some((c as int - '0' as int) as nat) else None
  }

  /** Decimal digits of a natural number, most significant first. */
  function Digits(n: nat): (s: string)
    ensures |s| > 0
    decreases n
  {
    if n < 10 then [DigitChar(n)] else Digits(n / 10) + [DigitChar(n % 10)]
  }

  /** `Integer.toString`. */
  function IntText(n: int): string
  {
    if n < 0 then "-" + Digits(-n) else Digits(n)
  }

  function ParseDigits(s: string): Option<nat>
    decreases |s|
  {
    if |s| == 0 then None
    else
      var last := DigitValue(s[|s| - 1]);
      if last.None? then None
      else if |s| == 1 then last
      else
        match ParseDigits(s[..|s| - 1])
        case None => None
        case Some(v) => Some(v * 10 + last.value)
  }

  /** Reads a decimal integer with an optional leading '-'. */
  function ParseInt(s: string): Option<int>
  {
    if |s| > 0 && s[0] == '-' then
      match ParseDigits(s[1..])
      case None => None
      case Some(v) => var n: int := v; Some(-n)
    else
      match ParseDigits(s)
      case None => None
      case Some(v) => Some(v)
  }

  lemma {:induction false} DigitsRoundTrip(n: nat)
    ensures ParseDigits(Digits(n)) == Some(n)
    ensures Digits(n)[0] != '-'
    decreases n
  {
    var s := Digits(n);
    if n < 10 {
      assert DigitValue(DigitChar(n)) == Some(n);
    } else {
      DigitsRoundTrip(n / 10);
      assert s[..|s| - 1] == Digits(n / 10);
      assert DigitValue(DigitChar(n % 10)) == Some(n % 10);
      assert s[0] == Digits(n / 10)[0];
    }
  }

  /** The integer text reads back as the same integer. */
  lemma IntTextRoundTrip(n: int)
    ensures ParseInt(IntText(n)) == Some(n)
  {
    var m: nat := if n < 0 then -n else n;
    DigitsRoundTrip(m);
    ParseSigned(Digits(m), n < 0);
  }

  /** A digit string read with or without a leading '-'. */
  lemma ParseSigned(d: string, negative: bool)
    requires ParseDigits(d).Some? && d[0] != '-'
    ensures var v: int := ParseDigits(d).value;
      ParseInt(if negative then "-" + d else d) == Some(if negative then -v else v)
  {
    if negative {
      assert ("-" + d)[1..] == d;
    }
  }

  /** `Log.toString`: "ln(x)" for base e; otherwise "log" + base + "(x)",
      with an integral base printed as an int and any other base printed by
      `realText` (Java's `Double.toString`; the source's
      `replaceAll("0*?", "")` matches only empty strings and changes nothing). */
  function Text(base: real, realText: real -> string): string
  {
    if base == E then "ln(x)"
    else
      var n := JavaIntCast(base);
      "log" + (if base == n as real then IntText(n) else realText(base)) + "(x)"
  }

  /** Base e renders "ln(x)"; an int base n renders "log<n>(x)", whose middle
      reads back as n. */
  lemma TextCases(n: int, realText: real -> string)
    requires MinInt <= n <= MaxInt
    ensures Text(E, realText) == "ln(x)"
    ensures Text(n as real, realText) == "log" + IntText(n) + "(x)"
    ensures ParseInt(Text(n as real, realText)[3..|Text(n as real, realText)| - 3]) == Some(n)
  {
    assert n as real != E;
    assert JavaIntCast(n as real) == n;
    var t := Text(n as real, realText);
    assert t[3..|t| - 3] == IntText(n);
    IntTextRoundTrip(n);
  }
}
