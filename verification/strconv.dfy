/** The part of Go's `strconv` the file-id parser relies on: `ParseUint` for an
    explicit base and bit size, and `FormatUint`, which renders a number without
    leading zeros. */
module Strconv {
  import opened GoBase

  const MaxUint64: nat := 0xFFFF_FFFF_FFFF_FFFF
  const Two32: nat := 0x1_0000_0000
  const Two64: nat := 0x1_0000_0000_0000_0000

  function Pow(b: nat, e: nat): (r: nat)
    ensures b >= 1 ==> r >= 1
  {
    if e == 0 then 1 else b * Pow(b, e - 1)
  }

  /** The digit value Go gives a byte: '0'..'9' are 0..9 and a letter of either case
      is 10..35 (Go lowers a byte with `c | 0x20`, which maps exactly the upper-case
      letters onto the lower-case ones). Every other byte is a syntax error. */
  function DigitValue(c: Byte): (d: Option<nat>)
    ensures d.Some? ==> d.value < 36
  {
    if '0' <= c <= '9' then Some(c as int - '0' as int)
    else if 'a' <= c <= 'z' then Some(c as int - 'a' as int + 10)
    else if 'A' <= c <= 'Z' then Some(c as int - 'A' as int + 10)
    else None
  }

  predicate IsDigit(c: Byte, base: nat)
  {
    DigitValue(c).Some? && DigitValue(c).value < base
  }

  predicate AllDigits(s: GoString, base: nat)
  {
    forall i :: 0 <= i < |s| ==> IsDigit(s[i], base)
  }

  /** The mathematical value of a digit string, most significant digit first,
      with no bound on its size. */
  function Value(s: GoString, base: nat): nat
    requires AllDigits(s, base)
  {
    if |s| == 0 then 0
    else Value(s[..|s| - 1], base) * base + DigitValue(s[|s| - 1]).value
  }

  /** One iteration of Go's digit loop on the value `n` read so far: a byte that is
      not a digit of `base` is a syntax error, a value that would exceed `maxVal`
      is a range error. */
  function Step(n: nat, c: Byte, base: nat, maxVal: nat): (r: Result<nat, NumErrorKind>)
    ensures r == Failure(ErrSyntax) <==> !IsDigit(c, base)
    ensures IsDigit(c, base) ==> (r.Success? <==> n * base + DigitValue(c).value <= maxVal)
    ensures IsDigit(c, base) && r.Failure? ==> r.error == ErrRange
    ensures r.Success? ==> r.value == n * base + DigitValue(c).value <= maxVal
  {
    match DigitValue(c)
    case None => Failure(ErrSyntax)
    case Some(d) =>
      if d >= base then Failure(ErrSyntax)
      else if n * base + d > maxVal then Failure(ErrRange)
      else Success(n * base + d)
  }

  /** Go's digit loop over all of `s`. The prefix is processed first, so the first
      failing byte decides the error, exactly as the loop's early return does. */
  function Accumulate(s: GoString, base: nat, maxVal: nat): (r: Result<nat, NumErrorKind>)
    ensures r.Success? ==> r.value <= maxVal
  {
    if |s| == 0 then Success(0)
    else
      match Accumulate(s[..|s| - 1], base, maxVal)
      case Failure(k) => Failure(k)
      case Success(n) => Step(n, s[|s| - 1], base, maxVal)
  }

  /** Accumulate accepts exactly the digit strings whose value fits, yields that value,
      and reports an over-long digit string as a range error. */
  lemma {:induction false} AccumulateSpec(s: GoString, base: nat, maxVal: nat)
    requires base >= 1
    ensures AllDigits(s, base) && Value(s, base) <= maxVal ==>
              Accumulate(s, base, maxVal) == Success(Value(s, base))
    ensures AllDigits(s, base) && Value(s, base) > maxVal ==>
              Accumulate(s, base, maxVal) == Failure(ErrRange)
    ensures !AllDigits(s, base) ==> Accumulate(s, base, maxVal).Failure?
  {
    if |s| > 0 {
      var p := s[..|s| - 1];
      AccumulateSpec(p, base, maxVal);
      if AllDigits(s, base) {
        ValuePrefix(s, base);
      } else if AllDigits(p, base) {
        assert !IsDigit(s[|s| - 1], base) by {
          forall i | 0 <= i < |s| - 1 ensures IsDigit(s[i], base) {
            assert s[i] == p[i];
          }
        }
      }
    }
  }

  /** Dropping the last digit keeps a digit string and does not increase its value. */
  lemma ValuePrefix(s: GoString, base: nat)
    requires base >= 1 && |s| > 0 && AllDigits(s, base)
    ensures AllDigits(s[..|s| - 1], base)
    ensures Value(s, base) ==
              Value(s[..|s| - 1], base) * base + DigitValue(s[|s| - 1]).value
    ensures Value(s[..|s| - 1], base) <= Value(s, base)
  {
    var p := s[..|s| - 1];
    assert AllDigits(p, base) by {
      forall i | 0 <= i < |p| ensures IsDigit(p[i], base) {
        assert p[i] == s[i];
      }
    }
    MulGrows(Value(p, base), base);
  }

  lemma MulGrows(a: nat, b: nat)
    requires b >= 1
    ensures a <= a * b
  {
  }

  /** Appending a digit multiplies the value by the base and adds the digit. */
  lemma ValueAppend(p: GoString, d: nat, base: nat)
    requires 2 <= base <= 36 && d < base && AllDigits(p, base)
    ensures AllDigits(p + [DigitChar(d)], base)
    ensures Value(p + [DigitChar(d)], base) == Value(p, base) * base + d
  {
    var r := p + [DigitChar(d)];
    assert r[..|r| - 1] == p;
  }

  /** Once a prefix has failed, the whole string fails with the same error. */
  lemma {:induction false} AccumulateFailurePersists(s: GoString, j: nat, base: nat, maxVal: nat)
    requires j <= |s|
    requires Accumulate(s[..j], base, maxVal).Failure?
    ensures Accumulate(s, base, maxVal) == Accumulate(s[..j], base, maxVal)
    decreases |s|
  {
    if j < |s| {
      var p := s[..|s| - 1];
      assert p[..j] == s[..j];
      AccumulateFailurePersists(p, j, base, maxVal);
    } else {
      assert s[..j] == s;
    }
  }

  /** `strconv.ParseUint(s, base, bitSize)` for an explicit base and bit size. */
  function ParseUint(s: GoString, base: nat, bitSize: nat): (r: Result<nat, Error>)
    requires 2 <= base <= 36 && 1 <= bitSize <= 64
    ensures r.Success? <==>
              |s| > 0 && AllDigits(s, base) && Value(s, base) < Pow(2, bitSize)
    ensures r.Success? ==> r.value == Value(s, base)
    ensures r.Failure? ==> r.error.NumError? && r.error.fn == "ParseUint" && r.error.num == s
    ensures |s| == 0 ==> r == Failure(NumError("ParseUint", s, ErrSyntax))
    ensures |s| > 0 && AllDigits(s, base) && Value(s, base) >= Pow(2, bitSize) ==>
              r == Failure(NumError("ParseUint", s, ErrRange))
  {
    if |s| == 0 then Failure(NumError("ParseUint", s, ErrSyntax))
    else
      AccumulateSpec(s, base, Pow(2, bitSize) - 1);
      match Accumulate(s, base, Pow(2, bitSize) - 1)
      case Success(n) => Success(n)
      case Failure(k) => Failure(NumError("ParseUint", s, k))
  }

  /** A byte that is not a digit reports a syntax error when everything before it
      still fits; only an overflow earlier in the string turns it into a range error. */
  lemma ParseUintSyntaxError(s: GoString, i: nat, base: nat, bitSize: nat)
    requires 2 <= base <= 36 && 1 <= bitSize <= 64
    requires i < |s| && AllDigits(s[..i], base) && !IsDigit(s[i], base)
    requires Value(s[..i], base) < Pow(2, bitSize)
    ensures ParseUint(s, base, bitSize) == Failure(NumError("ParseUint", s, ErrSyntax))
  {
    var maxVal := Pow(2, bitSize) - 1;
    AccumulateSpec(s[..i], base, maxVal);
    assert s[..i + 1][..i] == s[..i];
    AccumulateFailurePersists(s, i + 1, base, maxVal);
  }

  /** The byte Go's formatter writes for digit `d` (lower-case letters above 9). */
  function DigitChar(d: nat): (c: Byte)
    requires d < 36
    ensures DigitValue(c) == Some(d)
  {
    if d < 10 then ('0' as int + d) as char else ('a' as int + d - 10) as char
  }

  /** `strconv.FormatUint(n, base)`: the shortest digit string of `n`. */
  function FormatUint(n: nat, base: nat): (r: GoString)
    requires 2 <= base <= 36
    ensures |r| >= 1 && AllDigits(r, base)
    ensures Value(r, base) == n
    ensures n == 0 <==> r == "0"
    ensures n > 0 ==> r[0] != '0'
  {
    if n < base then
      ValueAppend([], n, base);
      [DigitChar(n)]
    else
      DivModFacts(n, base);
      var p := FormatUint(n / base, base);
      AppendLastDigit(p, n, base);
      p + [DigitChar(n % base)]
  }

  /** Writing the last digit of `n` after the digits of `n / base` gives `n`. */
  lemma AppendLastDigit(p: GoString, n: nat, base: nat)
    requires 2 <= base <= 36 && AllDigits(p, base) && Value(p, base) == n / base
    ensures AllDigits(p + [DigitChar(n % base)], base)
    ensures Value(p + [DigitChar(n % base)], base) == n
  {
    DivModFacts(n, base);
    ValueAppend(p, n % base, base);
  }

  /** Euclidean division by a base of at least 2, as the formatter uses it. */
  lemma DivModFacts(n: nat, base: nat)
    requires base >= 2
    ensures n == (n / base) * base + n % base && 0 <= n % base < base && 0 <= n / base
    ensures n >= base ==> 1 <= n / base < n
  {
    var q, r := n / base, n % base;
    assert n == q * base + r;
    if n >= base {
      MulLe(2, base, q);
      assert q * base >= 2 * q;
    }
  }

  /** `n` written with exactly `width` digits, zero-padded on the left (`%08x` for
      width 8 and base 16). */
  function FixedWidth(n: nat, base: nat, width: nat): (r: GoString)
    requires 2 <= base <= 36
    ensures |r| == width && AllDigits(r, base)
    decreases width
  {
    if width == 0 then []
    else
      DivModFacts(n, base);
      FixedWidth(n / base, base, width - 1) + [DigitChar(n % base)]
  }

  /** The padded digits read back as the number they were made from. */
  lemma {:induction false} FixedWidthValue(n: nat, base: nat, width: nat)
    requires 2 <= base <= 36 && n < Pow(base, width)
    ensures Value(FixedWidth(n, base, width), base) == n
    decreases width
  {
    if width > 0 {
      var q := n / base;
      SplitLastDigit(n, base, width);
      var p := FixedWidth(q, base, width - 1);
      assert FixedWidth(n, base, width) == p + [DigitChar(n % base)];
      FixedWidthValue(q, base, width - 1);
      AppendLastDigit(p, n, base);
    }
  }

  /** Splitting off the last digit of a number below `base^width` leaves a number
      below `base^(width - 1)`. */
  lemma SplitLastDigit(n: nat, base: nat, width: nat)
    requires 2 <= base <= 36 && width > 0 && n < Pow(base, width)
    ensures n == (n / base) * base + n % base && n % base < base
    ensures 0 <= n / base < Pow(base, width - 1)
  {
    DivModFacts(n, base);
    var p := Pow(base, width - 1);
    assert Pow(base, width) == base * p;
    assert n < p * base;
    QuotientBound(n, base, p);
  }

  lemma QuotientBound(n: nat, base: nat, p: nat)
    requires base >= 2 && n < p * base
    ensures n / base < p
  {
    DivModFacts(n, base);
    if n / base >= p {
      MulLe(p, n / base, base);
    }
  }

  lemma MulDistrib(a: int, b: int, c: int)
    ensures (a + b) * c == a * c + b * c
  {
  }

  lemma MulAssoc(a: int, b: int, c: int)
    ensures a * (b * c) == (a * b) * c
  {
  }

  lemma MulLe(a: nat, b: nat, c: nat)
    requires a <= b
    ensures a * c <= b * c
  {
  }

  lemma DivModUnique(n: nat, m: nat, a: int, b: int)
    requires m > 0 && 0 <= b < m && n == a * m + b
    ensures n % m == b
  {
    var q, r := n / m, n % m;
    assert n == q * m + r && 0 <= r < m;
    var k := q - a;
    assert k * m == b - r by { MulDistrib(q, -a, m); }
    if k > 0 {
      MulLe(1, k, m);
    } else if k < 0 {
      MulLe(1, -k, m);
    }
    assert k == 0;
  }

  lemma {:induction false} PowAdd(b: nat, x: nat, y: nat)
    ensures Pow(b, x + y) == Pow(b, x) * Pow(b, y)
    decreases x
  {
    if x > 0 {
      var p, q, r := Pow(b, x - 1), Pow(b, y), Pow(b, x - 1 + y);
      assert r == p * q by { PowAdd(b, x - 1, y); }
      assert Pow(b, x + y) == b * r;
      assert Pow(b, x) == b * p;
      MulAssoc(b, p, q);
    }
  }

  /** For a base of at least 2 the bound `< 2^bits` is the familiar constant. */
  lemma Pow2Constants()
    ensures Pow(2, 32) == Two32
    ensures Pow(2, 64) == Two64
    ensures Pow(16, 8) == Two32
  {
    assert Pow(2, 2) == 4;
    PowAdd(2, 2, 2);
    PowAdd(2, 4, 4);
    PowAdd(2, 8, 8);
    PowAdd(2, 16, 16);
    PowAdd(2, 32, 32);
    assert Pow(16, 2) == 256;
    PowAdd(16, 2, 2);
    PowAdd(16, 4, 4);
  }

  /** Go's cutoff test `n >= maxUint64/base + 1` says exactly that `n * base`
      no longer fits in 64 bits. */
  lemma CutoffMeansOverflow(n: nat, base: nat)
    requires 2 <= base <= 36
    ensures n >= MaxUint64 / base + 1 <==> n * base > MaxUint64
  {
    var q := MaxUint64 / base;
    assert MaxUint64 == q * base + MaxUint64 % base;
    if n >= q + 1 {
      assert n * base >= (q + 1) * base;
    } else {
      assert n * base <= q * base;
    }
  }

  /** When `n * base` fits in 64 bits, the 64-bit sum `n*base + d` wraps around
      exactly when it drops below `n`. */
  lemma WrapDetected(n: nat, base: nat, d: nat)
    requires 2 <= base <= 36 && d < base && n * base <= MaxUint64
    ensures n * base + d >= Two64 ==> (n * base + d) % Two64 < n * base
    ensures n * base + d < Two64 ==> (n * base + d) % Two64 == n * base + d
  {
    if n * base + d >= Two64 {
      assert n * base + d - Two64 < d;
      if n * base < 36 {
      } else {
        assert d < 36;
      }
      DivModUnique(n * base + d, Two64, 1, n * base + d - Two64);
    } else {
      DivModUnique(n * base + d, Two64, 0, n * base + d);
    }
  }

  /** Go's own loop, on 64-bit unsigned arithmetic: the cutoff test against
      multiplication overflow, the wrapped addition and its `n1 < n || n1 > maxVal`
      test. It computes the same result as the unbounded model. */
  method ParseUintMachine(s: GoString, base: nat, bitSize: nat) returns (r: Result<nat, Error>)
    requires 2 <= base <= 36 && 1 <= bitSize <= 64
    ensures r == ParseUint(s, base, bitSize)
  {
    if |s| == 0 {
      return Failure(NumError("ParseUint", s, ErrSyntax));
    }
    var cutoff := MaxUint64 / base + 1;
    var maxVal := Pow(2, bitSize) - 1;
    assert maxVal <= MaxUint64 by { PowTwoBound(bitSize); }
    var n: nat := 0;
    var i := 0;
    assert s[..0] == [];
    while i < |s|
      invariant i <= |s| && n <= maxVal
      invariant Accumulate(s[..i], base, maxVal) == Success(n)
    {
      assert s[..i + 1][..i] == s[..i];
      var d: nat;
      match DigitValue(s[i]) {
        case None =>
          StopsAt(s, i, base, bitSize, ErrSyntax);
          return Failure(NumError("ParseUint", s, ErrSyntax));
        case Some(v) =>
          d := v;
      }
      if d >= base {
        StopsAt(s, i, base, bitSize, ErrSyntax);
        return Failure(NumError("ParseUint", s, ErrSyntax));
      }
      var nb, n1 := 0, 0;
      if n < cutoff {
        nb := n * base;
        n1 := (nb + d) % Two64;
      }
      MachineStep(n, base, d, maxVal);
      if n >= cutoff || n1 < nb || n1 > maxVal {
        StopsAt(s, i, base, bitSize, ErrRange);
        return Failure(NumError("ParseUint", s, ErrRange));
      }
      n := n1;
      i := i + 1;
    }
    assert s[..|s|] == s;
    return Success(n);
  }

  /** The 64-bit tests of one iteration reject exactly the steps whose unbounded
      value exceeds `maxVal`, and otherwise compute that value. */
  lemma MachineStep(n: nat, base: nat, d: nat, maxVal: nat)
    requires 2 <= base <= 36 && d < base && maxVal <= MaxUint64
    ensures var cutoff := MaxUint64 / base + 1;
      var nb := n * base;
      var n1 := (nb + d) % Two64;
      && (n >= cutoff || n1 < nb || n1 > maxVal <==> nb + d > maxVal)
      && (n < cutoff ==> nb + d <= maxVal ==> n1 == nb + d)
  {
    CutoffMeansOverflow(n, base);
    if n * base <= MaxUint64 {
      WrapDetected(n, base, d);
    }
  }

  /** Once the loop meets a failing byte at index `i`, ParseUint reports that
      failure for the whole string. */
  lemma StopsAt(s: GoString, i: nat, base: nat, bitSize: nat, k: NumErrorKind)
    requires 2 <= base <= 36 && 1 <= bitSize <= 64 && i < |s|
    requires Accumulate(s[..i], base, Pow(2, bitSize) - 1).Success?
    requires Step(Accumulate(s[..i], base, Pow(2, bitSize) - 1).value, s[i], base,
                  Pow(2, bitSize) - 1) == Failure(k)
    ensures ParseUint(s, base, bitSize) == Failure(NumError("ParseUint", s, k))
  {
    var maxVal := Pow(2, bitSize) - 1;
    assert s[..i + 1][..i] == s[..i];
    AccumulateFailurePersists(s, i + 1, base, maxVal);
  }

  lemma PowTwoBound(bits: nat)
    requires bits <= 64
    ensures 1 <= Pow(2, bits) <= Two64
  {
    Pow2Constants();
    PowMono(bits, 64);
  }

  lemma {:induction false} PowMono(a: nat, b: nat)
    requires a <= b
    ensures Pow(2, a) <= Pow(2, b)
    decreases b
  {
    if a < b {
      PowMono(a, b - 1);
    }
  }
}
