/// The integer conversions the loaders rely on: std::to_string(int), which names
/// registered textures, and std::stoi, which reads integer cells.
module Numbers {

  /** The range of a 32-bit C++ `int`. */
  const IntMin: int := -0x8000_0000
  const IntMax: int := 0x7FFF_FFFF

  predicate IsDigit(c: char)
  {
    '0' <= c <= '9'
  }

  /** The characters std::isspace accepts in the "C" locale. */
  predicate IsSpace(c: char)
  {
    c == ' ' || c == '\t' || c == '\n' || c == '\r' || c == '\U{000B}' || c == '\U{000C}'
  }

  predicate AllDigits(s: string)
  {
    forall i :: 0 <= i < |s| ==> IsDigit(s[i])
  }

  function DigitChar(d: nat): (c: char)
    requires d < 10
    ensures IsDigit(c) && c as int - '0' as int == d
  {
    ('0' as int + d) as char
  }

  /** The value of a string of decimal digits. */
  function DecimalValue(ds: string): nat
    requires AllDigits(ds)
  {
    if ds == [] then 0 else 10 * DecimalValue(ds[..|ds| - 1]) + (ds[|ds| - 1] as int - '0' as int)
  }

  /** The decimal digits of `n`, without leading zeros. */
  function NatToString(n: nat): (s: string)
    ensures s != [] && AllDigits(s)
  {
    if n < 10 then [DigitChar(n)] else NatToString(n / 10) + [DigitChar(n % 10)]
  }

  /** std::to_string(int). */
  function ToString(n: int): string
  {
    if n < 0 then "-" + NatToString(-n) else NatToString(n)
  }

  lemma {:induction false} DecimalValueOfNatToString(n: nat)
    ensures DecimalValue(NatToString(n)) == n
  {
    if n >= 10 {
      var s := NatToString(n / 10);
      DecimalValueOfNatToString(n / 10);
      assert (s + [DigitChar(n % 10)])[..|s|] == s;
    }
  }

  /** Different numbers are written differently: this is what makes the keys of
      successive textures distinct. */
  lemma ToStringInjective(a: int, b: int)
    ensures ToString(a) == ToString(b) ==> a == b
  {
    if a < 0 && b >= 0 {
      SignTellsApart(a, b);
    } else if b < 0 && a >= 0 {
      SignTellsApart(b, a);
    } else if a < 0 && b < 0 {
      NegativesTellApart(a, b);
    } else {
      DecimalValueOfNatToString(a);
      DecimalValueOfNatToString(b);
    }
  }

  lemma NegativesTellApart(a: int, b: int)
    requires a < 0 && b < 0
    ensures ToString(a) == ToString(b) ==> a == b
  {
    var x, y := NatToString(-a), NatToString(-b);
    if ToString(a) == ToString(b) {
      assert x == ToString(a)[1..];
      assert y == ToString(b)[1..];
      DecimalValueOfNatToString(-a);
      DecimalValueOfNatToString(-b);
    }
  }

  lemma SignTellsApart(a: int, b: int)
    requires a < 0 <= b
    ensures ToString(a) != ToString(b)
  {
    assert ToString(a)[0] == '-';
    assert IsDigit(ToString(b)[0]);
  }

  /** What std::stoi reports: the converted value, or the exception it throws. */
  datatype Converted = Value(n: int) | InvalidArgument | OutOfRange

  /** The input with its leading white space removed. */
  function SkipSpace(s: string): (t: string)
    ensures |t| <= |s| && t == s[|s| - |t|..]
    ensures t == [] || !IsSpace(t[0])
  {
    if s != [] && IsSpace(s[0]) then SkipSpace(s[1..]) else s
  }

  /** The longest prefix of decimal digits. */
  function DigitRun(s: string): (d: string)
    ensures |d| <= |s| && d == s[..|d|] && AllDigits(d)
    ensures |d| < |s| ==> !IsDigit(s[|d|])
  {
    if s != [] && IsDigit(s[0]) then [s[0]] + DigitRun(s[1..]) else []
  }

  /** std::stoi(s) in base 10: leading white space, an optional sign, then as many
      digits as follow; the rest of the string is ignored. No digit at all raises
      std::invalid_argument, a value outside `int` std::out_of_range. */
  function StoI(s: string): (r: Converted)
    ensures r.Value? ==> IntMin <= r.n <= IntMax
    ensures (forall i :: 0 <= i < |s| ==> !IsDigit(s[i])) ==> r == InvalidArgument
  {
    var t := SkipSpace(s);
    var signed := t != [] && (t[0] == '+' || t[0] == '-');
    var digits := DigitRun(if signed then t[1..] else t);
    if digits == [] then InvalidArgument
    else
      var v: int := if signed && t[0] == '-' then -(DecimalValue(digits) as int) else DecimalValue(digits);
      if IntMin <= v <= IntMax then Value(v) else OutOfRange
  }

  lemma DigitRunOfDigits(s: string)
    requires AllDigits(s)
    ensures DigitRun(s) == s
  {
    if s != [] {
      DigitRunOfDigits(s[1..]);
    }
  }

  lemma StoIOfNatToString(n: nat)
    requires n <= IntMax
    ensures StoI(NatToString(n)) == Value(n)
  {
    var s := NatToString(n);
    DecimalValueOfNatToString(n);
    assert SkipSpace(s) == s;
    DigitRunOfDigits(s);
  }

  lemma StoIOfNegativeToString(n: int)
    requires IntMin <= n < 0
    ensures StoI(ToString(n)) == Value(n)
  {
    var m: nat := -n;
    var s := NatToString(m);
    DecimalValueOfNatToString(m);
    NegatedDigits(s);
    var t := ToString(n);
    assert t == "-" + s;
    assert StoI(t) == Value(-(DecimalValue(s) as int));
    assert -(DecimalValue(s) as int) == n;
  }

  lemma NegatedDigits(s: string)
    requires s != [] && AllDigits(s) && DecimalValue(s) <= -IntMin
    ensures StoI("-" + s) == Value(-(DecimalValue(s) as int))
  {
    var t := "-" + s;
    assert SkipSpace(t) == t;
    assert t[1..] == s;
    DigitRunOfDigits(s);
  }

  /** std::stoi reads back what std::to_string writes, for every `int`. */
  lemma StoIToString(n: int)
    requires IntMin <= n <= IntMax
    ensures StoI(ToString(n)) == Value(n)
  {
    if n < 0 {
      StoIOfNegativeToString(n);
    } else {
      StoIOfNatToString(n);
    }
  }
}
