/** The integer helpers (`Math`). A number argument is a PHP int or a string; the value
    of a numeric string is taken as an exact rational number (PHP floats are not modelled). */
module Math {
  import opened Wrappers
  import opened Text
  import opened Php

  /** A PHP integer: 64 bits, signed. */
  type Int64 = i: int | IntMin <= i <= IntMax

  /** The `float|int|string` argument, without floats. */
  datatype Number = IntNum(i: Int64) | StrNum(s: string)

  /* ---------------------------------------------------------------
   * The value of a numeric string
   * --------------------------------------------------------------- */

  function Pow10(e: nat): (r: nat)
    ensures r >= 1
  {
    if e == 0 then 1 else 10 * Pow10(e - 1)
  }

  /** `x` times ten to the power `e`. */
  function Scale(x: real, e: int): real
  {
    if e >= 0 then x * Pow10(e) as real else x / Pow10(-e) as real
  }

  lemma DigitsBetween(s: string, i: nat, j: nat)
    requires i <= j <= |s|
    requires forall k :: i <= k < j ==> IsDigit(s[k])
    ensures AllDigits(s[i..j])
  {
    assert forall k :: 0 <= k < j - i ==> s[i..j][k] == s[i + k];
  }

  /** The signed exponent of a number whose exponent starts at `m`. */
  function ExponentValue(s: string, m: nat): int
    requires m < |s| && ExponentEnd(s, m) == |s|
  {
    var d := SkipSign(s, m + 1);
    DigitsBetween(s, d, |s|);
    var e: int := DigitsValue(s[d..]);
    if s[m + 1] == '-' then -e else e
  }

  /** The exact value of a text in PHP's number syntax: sign, mantissa, exponent. */
  function FloatValue(s: string): real
    requires FloatSyntax(s)
  {
    var a := SkipSign(s, 0);
    var b := SkipDigits(s, a);
    var m := MantissaEnd(s).value;
    var frac := if m > b then s[b + 1..m] else "";
    DigitsBetween(s, a, b);
    assert m > b ==> forall k :: b + 1 <= k < m ==> IsDigit(s[k]);
    DigitsBetween(s, if m > b then b + 1 else b, m);
    var mantissa := DigitsValue(s[a..b]) as real + DigitsValue(frac) as real / Pow10(|frac|) as real;
    var v := Scale(mantissa, if m < |s| then ExponentValue(s, m) else 0);
    if a > 0 && s[0] == '-' then -v else v
  }

  /** A sign followed by digits only has the value of those digits, negated after a `-`. */
  lemma DigitsTextValue(s: string, a: nat)
    requires a == SkipSign(s, 0) && a < |s|
    requires forall k :: a <= k < |s| ==> IsDigit(s[k])
    ensures FloatSyntax(s)
    ensures AllDigits(s[a..])
    ensures FloatValue(s) == if a > 0 && s[0] == '-' then -(DigitsValue(s[a..]) as real) else DigitsValue(s[a..]) as real
  {
    SkipDigitsToEnd(s, a);
    assert SkipDigits(s, a) == |s|;
    assert MantissaEnd(s) == Some(|s|);
    DigitsBetween(s, a, |s|);
    assert s[a..|s|] == s[a..];
    assert DigitsValue("") == 0 && Pow10(0) == 1;
    var mantissa := DigitsValue(s[a..]) as real + DigitsValue("") as real / Pow10(0) as real;
    assert mantissa == DigitsValue(s[a..]) as real;
    assert Scale(mantissa, 0) == mantissa;
  }

  /** The decimal text of an integer reads back as that integer. */
  lemma IntTextValue(i: int)
    ensures FloatSyntax(IntToString(i))
    ensures FloatValue(IntToString(i)) == i as real
  {
    var s := IntToString(i);
    if i < 0 {
      NatToStringFacts(-i);
      assert s[1..] == NatToString(-i);
      assert forall k :: 1 <= k < |s| ==> s[k] == s[1..][k - 1];
      DigitsTextValue(s, 1);
    } else {
      NatToStringFacts(i);
      assert s[0] != '-' && s[0] != '+';
      DigitsTextValue(s, 0);
      assert s[0..] == s;
    }
  }

  /* ---------------------------------------------------------------
   * isFloat, isInteger and the int cast
   * --------------------------------------------------------------- */

  /** `preg_match('/^…$/')` with the number pattern of `isFloat`: `$` also matches before a
      final newline. */
  predicate MatchesNumberPattern(s: string)
  {
    FloatSyntax(s) || (|s| > 0 && s[|s| - 1] == '\n' && FloatSyntax(s[..|s| - 1]))
  }

  /** `Math::isFloat`: numeric, and its text matches the number pattern. */
  predicate IsFloat(n: Number)
  {
    match n
    case IntNum(i) => MatchesNumberPattern(IntToString(i))
    case StrNum(s) => IsNumeric(s) && MatchesNumberPattern(s)
  }

  /** Every int passes `isFloat`. */
  lemma IntIsFloat(i: Int64)
    ensures IsFloat(IntNum(i))
    ensures IsFloat(StrNum(IntToString(i)))
  {
    IntTextIsNumber(i);
    IntTextIsNumeric(i);
  }

  /** The value a numeric argument compares with. */
  function NumValue(n: Number): real
    requires n.IntNum? || IsNumeric(n.s)
  {
    match n
    case IntNum(i) => i as real
    case StrNum(s) => FloatValue(TrimSpace(s))
  }

  /** Truncation toward zero. */
  function Truncate(x: real): int
  {
    if x >= 0.0 then x.Floor else -((-x).Floor)
  }

  /** `(int)` of a numeric string: the value truncated toward zero, saturated at the int range. */
  function IntCast(s: string): (r: Int64)
    requires IsNumeric(s)
  {
    var t := Truncate(FloatValue(TrimSpace(s)));
    if t < IntMin then IntMin else if t > IntMax then IntMax else t
  }

  /** `Math::isInteger`: numeric, and `(string)(int)` gives the text back. */
  predicate IsInteger(n: Number)
  {
    match n
    case IntNum(i) => true
    case StrNum(s) => IsNumeric(s) && IntToString(IntCast(s)) == s
  }

  /** `(int)` of the argument. */
  function IntValue(n: Number): Int64
    requires IsInteger(n)
  {
    match n
    case IntNum(i) => i
    case StrNum(s) => IntCast(s)
  }

  /** A canonical text has no blanks to trim. */
  lemma CanonicalTrimmed(s: string)
    requires IsCanonicalInt(s)
    ensures TrimSpace(s) == s
  {
    assert !IsSpace(s[0]);
    assert DropWhile(s, IsSpace) == s;
    assert !IsSpace(s[|s| - 1]) by {
      if s[0] == '-' {
        assert s[|s| - 1] == s[1..][|s| - 2];
      }
    }
  }

  /** `isInteger` holds for a string exactly when it is the canonical decimal text of a
      64-bit integer: no sign but `-`, no leading zero, no blank, no fraction. */
  lemma {:induction false} IsIntegerCanonical(s: string)
    ensures IsInteger(StrNum(s)) <==> IsCanonicalInt(s) && IntMin <= ParseCanonical(s) <= IntMax
    ensures IsInteger(StrNum(s)) ==> IntValue(StrNum(s)) == ParseCanonical(s)
  {
    if IsInteger(StrNum(s)) {
      IntToStringCanonical(IntCast(s));
    }
    if IsCanonicalInt(s) && IntMin <= ParseCanonical(s) <= IntMax {
      CanonicalCast(s);
    }
  }

  /** A canonical text is numeric and reads as its value. */
  lemma CanonicalValue(s: string)
    requires IsCanonicalInt(s)
    ensures TrimSpace(s) == s && IsNumeric(s)
    ensures FloatValue(s) == ParseCanonical(s) as real
  {
    var v := ParseCanonical(s);
    CanonicalRoundTrip(s);
    CanonicalTrimmed(s);
    IntTextValue(v);
  }

  /** `(int)` of a canonical text in range is its value. */
  lemma CanonicalCast(s: string)
    requires IsCanonicalInt(s) && IntMin <= ParseCanonical(s) <= IntMax
    ensures IsNumeric(s) && IntCast(s) == ParseCanonical(s)
    ensures IntToString(IntCast(s)) == s
  {
    CanonicalValue(s);
    TruncateInt(ParseCanonical(s));
    CanonicalRoundTrip(s);
  }

  lemma TruncateInt(v: int)
    ensures Truncate(v as real) == v
  {
  }

  /** Every int is an integer, and so is its decimal text. */
  lemma IntIsInteger(i: Int64)
    ensures IsInteger(IntNum(i))
    ensures IsInteger(StrNum(IntToString(i))) && IntValue(StrNum(IntToString(i))) == i
  {
    IntToStringCanonical(i);
    IsIntegerCanonical(IntToString(i));
  }

  /* ---------------------------------------------------------------
   * ordinal
   * --------------------------------------------------------------- */

  /** The suffix table of `ordinal`, with 11, 12 and 13 taking `th`. */
  function Suffix(v: nat): string
  {
    var append := ["th", "st", "nd", "rd", "th", "th", "th", "th", "th", "th"];
    if 11 <= v % 100 <= 13 then "th" else append[v % 10]
  }

  /** The English suffix read off the last two digits of a decimal text. */
  function SuffixOfDigits(t: string): string
    requires |t| > 0
  {
    var last := t[|t| - 1];
    if |t| >= 2 && t[|t| - 2] == '1' then "th"
    else if last == '1' then "st"
    else if last == '2' then "nd"
    else if last == '3' then "rd"
    else "th"
  }

  /** The last two digits of a decimal text are the value's ones and tens. */
  lemma LastDigits(v: nat)
    ensures var t := NatToString(v);
      && |t| > 0 && t[|t| - 1] == DigitChar(v % 10)
      && (v >= 10 ==> |t| >= 2 && t[|t| - 2] == DigitChar((v / 10) % 10))
      && (v < 10 ==> |t| == 1)
  {
    NatToStringFacts(v / 10);
  }

  /** Euclidean division is unique. */
  lemma DivModUnique(v: nat, m: nat, q: nat, r: nat)
    requires m >= 1 && v == q * m + r && r < m
    ensures v / m == q && v % m == r
  {
    var q', r' := v / m, v % m;
    assert v == q' * m + r';
    var d := q - q';
    assert d * m == r' - r;
    assert -(m as int) < d * m < m;
    MulSmall(d, m);
  }

  lemma MulSmall(d: int, m: nat)
    requires m >= 1 && -(m as int) < d * m < m
    ensures d == 0
  {
    assert d <= -1 ==> d * m <= -(m as int);
    assert d >= 1 ==> d * m >= m;
  }

  /** The last two decimal digits of `v`. */
  lemma LastTwo(v: nat)
    ensures v % 100 == 10 * ((v / 10) % 10) + v % 10
  {
    var q := v / 10;
    var t := q % 10;
    assert v == 10 * q + v % 10;
    assert q == 10 * (q / 10) + t;
    assert v == (q / 10) * 100 + (10 * t + v % 10);
    DivModUnique(v, 100, q / 10, 10 * t + v % 10);
  }

  lemma SuffixByDigits(v: nat)
    requires v > 0
    ensures Suffix(v) == SuffixOfDigits(NatToString(v))
  {
    LastDigits(v);
    LastTwo(v);
    var t := NatToString(v);
    var ones, tens := v % 10, (v / 10) % 10;
    assert t[|t| - 1] == DigitChar(ones);
    assert (11 <= v % 100 <= 13) <==> tens == 1 && 1 <= ones <= 3;
    assert (|t| >= 2 && t[|t| - 2] == '1') <==> tens == 1;
  }

  /** `Math::ordinal`: false unless the argument is a positive integer; otherwise its text
      followed by the suffix its last two digits call for. */
  function Ordinal(n: Number): (r: Option<string>)
    ensures r.Some? <==> IsInteger(n) && IntValue(n) > 0
    ensures r.Some? ==> r.value == IntToString(IntValue(n)) + SuffixOfDigits(IntToString(IntValue(n)))
    ensures r.Some? && n.StrNum? ==> r.value == n.s + SuffixOfDigits(n.s)
  {
    if !IsInteger(n) then None
    else
      var v := IntValue(n);
      if v <= 0 then None
      else
        var text := match n case IntNum(i) => IntToString(i) case StrNum(s) => s;
        SuffixByDigits(v);
        Some(text + Suffix(v))
  }

  /* ---------------------------------------------------------------
   * faculty
   * --------------------------------------------------------------- */

  /** The factorial. */
  function Fact(k: nat): nat
  {
    if k == 0 then 1 else k * Fact(k - 1)
  }

  lemma {:induction false} FactMonotone(j: nat, k: nat)
    requires j <= k
    ensures 1 <= Fact(j) <= Fact(k)
    decreases k
  {
    if j < k {
      FactMonotone(j, k - 1);
    } else if k > 0 {
      FactMonotone(k - 1, k - 1);
    }
  }

  lemma FactTwenty()
    ensures Fact(20) == 2432902008176640000 <= IntMax < 21 * Fact(20)
  {
    assert Fact(5) == 120;
    assert Fact(10) == 3628800;
    assert Fact(15) == 1307674368000;
  }

  /** The recursion of `faculty` on an int: a product past the int range becomes a float,
      which the `bool|int` return type rejects under strict types. */
  function FacultyOf(k: nat): (r: Result<Int64, Error>)
    ensures r.Success? <==> k <= 20
    ensures r.Success? ==> r.value == Fact(k)
    ensures r.Failure? ==> r.error == TypeError
  {
    if k == 0 then Success(1)
    else
      match FacultyOf(k - 1)
      case Failure(e) => Failure(e)
      case Success(p) =>
        FactTwenty();
        FactMonotone(if k <= 20 then k else 20, 20);
        if k * p > IntMax then Failure(TypeError) else Success(k * p)
  }

  /** `Math::faculty`: false for a negative or non-integer argument, else the factorial,
      which overflows from 21 on. */
  function Faculty(n: Number): (r: Result<Option<Int64>, Error>)
    ensures !IsInteger(n) || IntValue(n) < 0 ==> r == Success(None)
    ensures IsInteger(n) && 0 <= IntValue(n) <= 20 ==> r == Success(Some(Fact(IntValue(n))))
    ensures IsInteger(n) && IntValue(n) > 20 ==> r == Failure(TypeError)
  {
    if !IsInteger(n) || IntValue(n) < 0 then Success(None)
    else
      match FacultyOf(IntValue(n))
      case Success(v) => Success(Some(v))
      case Failure(e) => Failure(e)
  }

  /** `faculty(0)` is 1 and `faculty(k)` is `k * faculty(k - 1)` while it fits. */
  lemma FacultyRecurrence(k: Int64)
    requires 1 <= k <= 20
    ensures Faculty(IntNum(0)) == Success(Some(1))
    ensures Faculty(IntNum(k)).Success? && Faculty(IntNum(k - 1)).Success?
    ensures Faculty(IntNum(k)).value.value == k * Faculty(IntNum(k - 1)).value.value
  {
  }

  /* ---------------------------------------------------------------
   * combinations
   * --------------------------------------------------------------- */

  function Pow2(n: nat): (r: nat)
    ensures r >= 1
  {
    if n == 0 then 1 else 2 * Pow2(n - 1)
  }

  /** `(2 ** j) & i` is not zero: bit `j` of `i` is set. */
  predicate Bit(i: nat, j: nat)
  {
    (i / Pow2(j)) % 2 == 1
  }

  /** The elements among the first `k` whose bit is set in `i`, in index order. */
  function PickUpTo<T>(xs: seq<T>, i: nat, k: nat): (r: seq<T>)
    requires k <= |xs|
    ensures |r| <= k
  {
    if k == 0 then [] else PickUpTo(xs, i, k - 1) + (if Bit(i, k - 1) then [xs[k - 1]] else [])
  }

  /** The subset numbered `i`: the elements whose bit is set in `i`. */
  function SubsetOf<T>(xs: seq<T>, i: nat): seq<T>
  {
    PickUpTo(xs, i, |xs|)
  }

  /** No element is picked only when the low `k` bits of `i` are clear. */
  lemma {:induction false} PickEmpty<T>(xs: seq<T>, i: nat, k: nat)
    requires k <= |xs|
    ensures |PickUpTo(xs, i, k)| == 0 <==> i % Pow2(k) == 0
  {
    if k > 0 {
      PickEmpty(xs, i, k - 1);
      var p := Pow2(k - 1);
      assert |PickUpTo(xs, i, k)| == |PickUpTo(xs, i, k - 1)| + (if Bit(i, k - 1) then 1 else 0);
      assert Bit(i, k - 1) <==> (i / p) % 2 == 1;
      assert Pow2(k) == 2 * p;
      LowBits(i, p);
    }
  }

  /** `i` is a multiple of `2p` exactly when it is a multiple of `p` with an even quotient. */
  lemma LowBits(i: nat, p: nat)
    requires p >= 1
    ensures i % (2 * p) == 0 <==> i % p == 0 && (i / p) % 2 == 0
  {
    var q := i / p;
    var r := i % p;
    assert i == q * p + r;
    var q2 := i / (2 * p);
    var r2 := i % (2 * p);
    assert i == q2 * (2 * p) + r2;
    if r2 == 0 {
      assert i == (2 * q2) * p;
      DivModUnique(i, p, 2 * q2, 0);
    }
    if r == 0 && q % 2 == 0 {
      assert i == (q / 2) * (2 * p);
      DivModUnique(i, 2 * p, q / 2, 0);
    }
  }

  /** Every number from 1 below `2^n` names a non-empty subset. */
  lemma SubsetNonEmpty<T>(xs: seq<T>, i: nat)
    ensures 1 <= i < Pow2(|xs|) ==> |SubsetOf(xs, i)| > 0
  {
    PickEmpty(xs, i, |xs|);
    if 1 <= i < Pow2(|xs|) {
      SmallMod(i, Pow2(|xs|));
    }
  }

  lemma SmallMod(i: nat, m: nat)
    requires i < m
    ensures i % m == i
  {
  }

  /** Number 0 names the empty subset. */
  lemma SubsetZero<T>(xs: seq<T>)
    ensures SubsetOf(xs, 0) == []
  {
    PickEmpty(xs, 0, |xs|);
  }

  /** The result of `combinations`: key `i` for every `i` from 1 below `2^n`, in order,
      holding subset `i`. */
  function CombinationsOf<T>(xs: seq<T>): seq<(nat, seq<T>)>
  {
    seq(Pow2(|xs|) - 1, k requires 0 <= k < Pow2(|xs|) - 1 => (k + 1, SubsetOf(xs, k + 1)))
  }

  /** `Math::combinations` without an id: for every `i` below `2^n`, the elements whose bit is
      set are pushed onto entry `i`, which comes into being with its first element. */
  method Combinations<T>(xs: seq<T>) returns (r: seq<(nat, seq<T>)>)
    ensures |r| == Pow2(|xs|) - 1
    ensures forall k :: 0 <= k < |r| ==> r[k].0 == k + 1 && r[k].1 == SubsetOf(xs, k + 1)
  {
    var total := Pow2(|xs|);
    r := [];
    var i := 0;
    while i < total
      invariant 0 <= i <= total
      invariant |r| == if i == 0 then 0 else i - 1
      invariant forall k :: 0 <= k < |r| ==> r[k].0 == k + 1 && r[k].1 == SubsetOf(xs, k + 1)
    {
      var picked := [];
      var j := 0;
      while j < |xs|
        invariant 0 <= j <= |xs|
        invariant picked == PickUpTo(xs, i, j)
      {
        if Bit(i, j) {
          picked := picked + [xs[j]];
        }
        j := j + 1;
      }
      if i == 0 {
        SubsetZero(xs);
      } else {
        SubsetNonEmpty(xs, i);
      }
      if |picked| > 0 {
        r := r + [(i, picked)];
      }
      i := i + 1;
    }
  }

  /** The entry for `id` among `entries`, or `[]`. */
  function FindSubset<T>(entries: seq<(nat, seq<T>)>, id: int): seq<T>
  {
    if |entries| == 0 then []
    else if entries[0].0 == id then entries[0].1
    else FindSubset(entries[1..], id)
  }

  lemma {:induction false} FindFrom<T>(xs: seq<T>, id: int, j: nat)
    requires j <= Pow2(|xs|) - 1
    ensures FindSubset(CombinationsOf(xs)[j..], id) ==
      if j + 1 <= id < Pow2(|xs|) then SubsetOf(xs, id) else []
    decreases Pow2(|xs|) - 1 - j
  {
    var all := CombinationsOf(xs);
    if j < |all| {
      FindFrom(xs, id, j + 1);
      assert all[j..][1..] == all[j + 1..];
    }
  }

  /** `Math::combinations` with an id: the subset with that number, or `[]` when there is no
      such entry. */
  function CombinationById<T>(xs: seq<T>, id: int): (r: seq<T>)
    ensures 1 <= id < Pow2(|xs|) ==> r == SubsetOf(xs, id) && |r| > 0
    ensures !(1 <= id < Pow2(|xs|)) ==> r == []
  {
    FindFrom(xs, id, 0);
    assert CombinationsOf(xs)[0..] == CombinationsOf(xs);
    SubsetNonEmpty(xs, if id < 0 then 0 else id);
    FindSubset(CombinationsOf(xs), id)
  }

  /* ---------------------------------------------------------------
   * min, max and the range checks
   * --------------------------------------------------------------- */

  /** `Math::min`: false unless `isFloat`; the number, raised to `min` when below it. */
  function Min(n: Number, min: Int64): (r: Option<Number>)
    ensures r.Some? <==> IsFloat(n)
    ensures r.Some? ==> r.value == n || r.value == IntNum(min)
    ensures r.Some? ==> NumValue(r.value) >= min as real
    ensures r.Some? ==> (NumValue(n) >= min as real <==> r.value == n)
  {
    if !IsFloat(n) then None
    else if NumValue(n) < min as real then Some(IntNum(min))
    else Some(n)
  }

  /** `Math::max`: false unless `isFloat`; the number, lowered to `max` when above it. */
  function Max(n: Number, max: Int64): (r: Option<Number>)
    ensures r.Some? <==> IsFloat(n)
    ensures r.Some? ==> r.value == n || r.value == IntNum(max)
    ensures r.Some? ==> NumValue(r.value) <= max as real
    ensures r.Some? ==> (NumValue(n) <= max as real <==> r.value == n)
  {
    if !IsFloat(n) then None
    else if NumValue(n) > max as real then Some(IntNum(max))
    else Some(n)
  }

  /** `Math::isInRange`. */
  predicate IsInRange(n: Number, min: Int64, max: Int64)
  {
    IsFloat(n) && min as real <= NumValue(n) <= max as real
  }

  /** `Math::isOutOfRange`. */
  predicate IsOutOfRange(n: Number, min: Int64, max: Int64)
  {
    IsFloat(n) && (NumValue(n) < min as real || NumValue(n) > max as real)
  }

  /** On a number exactly one of the range checks holds; otherwise neither does. */
  lemma RangeChecksComplement(n: Number, min: Int64, max: Int64)
    ensures IsFloat(n) ==> (IsInRange(n, min, max) <==> !IsOutOfRange(n, min, max))
    ensures !IsFloat(n) ==> !IsInRange(n, min, max) && !IsOutOfRange(n, min, max)
  {
  }

  /** Clamping with `min` then `max` lands in the range, and leaves a number already in it
      alone. */
  lemma Clamp(n: Number, lo: Int64, hi: Int64)
    requires lo <= hi && IsFloat(n)
    ensures Max(Min(n, lo).value, hi).Some? && IsInRange(Max(Min(n, lo).value, hi).value, lo, hi)
    ensures IsInRange(n, lo, hi) ==> Min(n, lo) == Some(n) && Max(n, hi) == Some(n)
  {
    IntIsFloat(lo);
    IntIsFloat(hi);
  }

  /* ---------------------------------------------------------------
   * isEven, isOdd
   * --------------------------------------------------------------- */

  /** PHP's `%`: the remainder takes the sign of the dividend. */
  function TruncRem(a: int, b: int): (r: int)
    requires b != 0
    ensures a >= 0 ==> r == a % b
  {
    var m := (if a < 0 then -a else a) % (if b < 0 then -b else b);
    if a < 0 then -m else m
  }

  /** `Math::isEven` on an int: `$number % 2 === 0`. */
  predicate IsEven(i: Int64)
  {
    TruncRem(i, 2) == 0
  }

  /** `Math::isOdd` on an int. */
  predicate IsOdd(i: Int64)
  {
    !IsEven(i)
  }

  /** Even means a multiple of two, for negative numbers too, and odd is the rest. */
  lemma EvenOdd(i: Int64)
    ensures IsEven(i) <==> i % 2 == 0
    ensures IsOdd(i) <==> TruncRem(i, 2) == 1 || TruncRem(i, 2) == -1
    ensures -(i as int) <= IntMax ==> (IsEven(i) <==> IsEven(-(i as int)))
  {
  }
}
