// Complex.cpp: a pair of numbers rendered as "<real><sign><imag>i" and the
// character-code sum of that rendering. Only integer components are modelled.

module Complex {
  import opened Decimal

  /** `Complex<int, int>`: both components are integers. */
  datatype Complex = Complex(re: int, im: int)

  /** The default constructor sets both components to zero. */
  const Zero := Complex(0, 0)

  /** `unsigned int` holds sums modulo this. */
  const WordSize: nat := 0x1_0000_0000

  /** The rendering: real part, '+' only when imag >= 0, the imaginary part
      (with its own '-' when negative), then 'i'. */
  function ToString(c: Complex): (r: string)
    ensures |r| >= 4 && r[|r| - 1] == 'i'
    ensures '+' in r <==> c.im >= 0
  {
    var realText := IntToString(c.re);
    var imagText := IntToString(c.im);
    NoPlusIn(realText, c.re);
    NoPlusIn(imagText, c.im);
    var r := realText + (if c.im >= 0 then "+" else "") + imagText + "i";
    assert c.im >= 0 ==> r[|realText|] == '+';
    r
  }

  lemma {:induction false} NoPlusIn(s: string, i: int)
    requires s == IntToString(i)
    ensures '+' !in s
  {
    if i < 0 {
      assert forall k :: 1 <= k < |s| ==> s[1..][k - 1] == s[k];
    }
  }

  predicate IsSign(c: char) {
    c == '+' || c == '-'
  }

  /** Index of the last '+' or '-' in `s`, or -1 when there is none. */
  function LastSign(s: string): (j: int)
    ensures -1 <= j < |s|
    ensures j >= 0 ==> IsSign(s[j])
  {
    if s == [] then -1
    else if IsSign(s[|s| - 1]) then |s| - 1
    else LastSign(s[..|s| - 1])
  }

  /** Reads a rendering back into its two components. */
  function Parse(s: string): Option<Complex> {
    if |s| < 1 || s[|s| - 1] != 'i' then None
    else
      var body := s[..|s| - 1];
      var j := LastSign(body);
      if j < 1 then None
      else
        var realText := ParseInt(body[..j]);
        var imagText := if body[j] == '+' then ParseInt(body[j + 1..]) else ParseInt(body[j..]);
        if realText.Some? && imagText.Some? then Some(Complex(realText.value, imagText.value)) else None
  }

  lemma {:induction false} LastSignBeforeDigits(x: string, c: char, d: string)
    requires IsSign(c) && AllDigits(d)
    ensures LastSign(x + [c] + d) == |x|
    decreases |d|
  {
    var s := x + [c] + d;
    if d == [] {
    } else {
      assert !IsSign(s[|s| - 1]);
      assert s[..|s| - 1] == x + [c] + d[..|d| - 1];
      LastSignBeforeDigits(x, c, d[..|d| - 1]);
    }
  }

  /** The rendering determines the pair: parsing it gives the pair back. */
  lemma {:induction false} ToStringRoundTrip(c: Complex)
    ensures Parse(ToString(c)) == Some(c)
  {
    IntToStringRoundTrip(c.re);
    IntToStringRoundTrip(c.im);
    if c.im >= 0 {
      RoundTripPlus(c);
    } else {
      RoundTripMinus(c);
    }
  }

  lemma {:induction false} RoundTripPlus(c: Complex)
    requires c.im >= 0
    requires ParseInt(IntToString(c.re)) == Some(c.re) && ParseInt(IntToString(c.im)) == Some(c.im)
    ensures Parse(ToString(c)) == Some(c)
  {
    var realText := IntToString(c.re);
    var imagText := IntToString(c.im);
    var s := ToString(c);
    var body := s[..|s| - 1];
    assert body == realText + ['+'] + imagText;
    LastSignBeforeDigits(realText, '+', imagText);
    assert body[..|realText|] == realText;
    assert body[|realText| + 1..] == imagText;
  }

  lemma {:induction false} RoundTripMinus(c: Complex)
    requires c.im < 0
    requires ParseInt(IntToString(c.re)) == Some(c.re) && ParseInt(IntToString(c.im)) == Some(c.im)
    ensures Parse(ToString(c)) == Some(c)
  {
    var realText := IntToString(c.re);
    var imagText := IntToString(c.im);
    var s := ToString(c);
    var body := s[..|s| - 1];
    var digits := imagText[1..];
    assert imagText == ['-'] + digits;
    assert body == realText + ['-'] + digits;
    LastSignBeforeDigits(realText, '-', digits);
    assert body[..|realText|] == realText;
    assert body[|realText|..] == imagText;
  }

  /** Distinct pairs render differently. */
  lemma {:induction false} ToStringInjective(a: Complex, b: Complex)
    requires ToString(a) == ToString(b)
    ensures a == b
  {
    ToStringRoundTrip(a);
    ToStringRoundTrip(b);
  }

  /** A default-constructed pair renders as "0+0i". */
  lemma {:induction false} ZeroRendering()
    ensures ToString(Zero) == "0+0i"
  {
    assert IntToString(0) == "0";
  }

  /** Sum of the character codes of `s`, without wrap-around. */
  function CodeSum(s: string): nat {
    if s == [] then 0 else CodeSum(s[..|s| - 1]) + s[|s| - 1] as int
  }

  lemma {:induction false} CodeSumConcat(a: string, b: string)
    ensures CodeSum(a + b) == CodeSum(a) + CodeSum(b)
    decreases |b|
  {
    if b == [] {
      assert a + b == a;
    } else {
      assert (a + b)[..|a + b| - 1] == a + b[..|b| - 1];
      CodeSumConcat(a, b[..|b| - 1]);
    }
  }

  /** `get_ascii_value`: the character-code sum of the rendering, accumulated
      in an `unsigned int` and so reduced modulo 2^32. */
  method GetAsciiValue(c: Complex) returns (sum: nat)
    ensures sum == CodeSum(ToString(c)) % WordSize
  {
    var s := ToString(c);
    sum := 0;
    for k := 0 to |s|
      invariant sum == CodeSum(s[..k]) % WordSize
    {
      assert s[..k + 1][..k] == s[..k];
      ModAdd(CodeSum(s[..k]), s[k] as int);
      sum := (sum + s[k] as int) % WordSize;
    }
    assert s[..|s|] == s;
  }

  lemma {:induction false} ModAdd(a: nat, c: nat)
    ensures (a % WordSize + c) % WordSize == (a + c) % WordSize
  {
  }

  /** The key splits into the codes of the two numerals, of the '+' when
      present, and of the final 'i'. */
  lemma {:induction false} CodeSumOfRendering(c: Complex)
    ensures CodeSum(ToString(c)) ==
      CodeSum(IntToString(c.re)) + (if c.im >= 0 then '+' as int else 0)
      + CodeSum(IntToString(c.im)) + 'i' as int
  {
    var realText := IntToString(c.re);
    var imagText := IntToString(c.im);
    var sign := if c.im >= 0 then "+" else "";
    assert ToString(c) == realText + sign + imagText + "i";
    CodeSumConcat(realText + sign + imagText, "i");
    CodeSumConcat(realText + sign, imagText);
    CodeSumConcat(realText, sign);
  }

  /** (1, -2) renders as "1-2i", so its key imagText '1' + '-' + '2' + 'i'. */
  lemma {:induction false} AsciiValueExample()
    ensures ToString(Complex(1, -2)) == "1-2i"
    ensures CodeSum(ToString(Complex(1, -2))) % WordSize == '1' as int + '-' as int + '2' as int + 'i' as int
  {
    assert IntToString(1) == "1";
    assert IntToString(-2) == "-2";
    CodeSumOfRendering(Complex(1, -2));
  }
}
