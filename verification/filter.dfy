/** The character filters (`Filter`). The patterns carry no `u` flag, so they work on
    bytes; every byte of a multibyte character lies outside ASCII and is dropped, which on
    code points is the same as dropping the character. */
module Filter {
  import opened Wrappers
  import opened Text
  import opened Php
  import opened Math

  /** `Filter::alpha`: `preg_replace('#[^[:alpha:]]#', '')`. */
  function Alpha(s: string): (r: string)
    ensures forall i :: 0 <= i < |r| ==> IsLetter(r[i])
    ensures forall i :: 0 <= i < |s| && IsLetter(s[i]) ==> s[i] in r
    ensures (forall i :: 0 <= i < |s| ==> IsLetter(s[i])) ==> r == s
  {
    KeepAll(s, IsLetter);
    KeepComplete(s, IsLetter);
    Keep(s, IsLetter)
  }

  predicate IsAlnum(c: char) { IsLetter(c) || IsDigit(c) }

  /** `Filter::alphanum`: `preg_replace('#[^[:alnum:]]#', '')`. */
  function Alphanum(s: string): (r: string)
    ensures forall i :: 0 <= i < |r| ==> IsAlnum(r[i])
    ensures forall i :: 0 <= i < |s| && IsAlnum(s[i]) ==> s[i] in r
    ensures (forall i :: 0 <= i < |s| ==> IsAlnum(s[i])) ==> r == s
  {
    KeepAll(s, IsAlnum);
    KeepComplete(s, IsAlnum);
    Keep(s, IsAlnum)
  }

  predicate IsBase64Char(c: char) { IsLetter(c) || IsDigit(c) || c == '/' || c == '+' || c == '=' }

  /** `Filter::base64`: `preg_replace('#[^A-Z0-9\/+=]#i', '')`. */
  function Base64(s: string): (r: string)
    ensures forall i :: 0 <= i < |r| ==> IsBase64Char(r[i])
    ensures forall i :: 0 <= i < |s| && IsBase64Char(s[i]) ==> s[i] in r
    ensures (forall i :: 0 <= i < |s| ==> IsBase64Char(s[i])) ==> r == s
  {
    KeepAll(s, IsBase64Char);
    KeepComplete(s, IsBase64Char);
    Keep(s, IsBase64Char)
  }

  /** The filters keep order: each filters the parts of a concatenation independently and a
      single character is kept or dropped by its class alone, which together fix the result. */
  lemma FiltersInOrder(a: string, b: string, c: char)
    ensures Alpha(a + b) == Alpha(a) + Alpha(b)
    ensures Alphanum(a + b) == Alphanum(a) + Alphanum(b)
    ensures Base64(a + b) == Base64(a) + Base64(b)
    ensures Alpha([c]) == (if IsLetter(c) then [c] else [])
    ensures Alphanum([c]) == (if IsAlnum(c) then [c] else [])
    ensures Base64([c]) == (if IsBase64Char(c) then [c] else [])
  {
    KeepAppend(a, b, IsLetter);
    KeepAppend(a, b, IsAlnum);
    KeepAppend(a, b, IsBase64Char);
    assert [c][1..] == [];
  }

  /** Each filter keeps a subset of what the wider one keeps, in the same order. */
  lemma FiltersNest(s: string)
    ensures Alphanum(Alpha(s)) == Alpha(s)
    ensures Base64(Alphanum(s)) == Alphanum(s)
    ensures Alpha(Alphanum(s)) == Alpha(s)
  {
    var a := Alpha(s);
    assert forall i :: 0 <= i < |a| ==> IsAlnum(a[i]);
    var b := Alphanum(s);
    assert forall i :: 0 <= i < |b| ==> IsBase64Char(b[i]);
    KeepKeep(s, IsAlnum, IsLetter, IsLetter);
  }

  /** The characters `FILTER_SANITIZE_NUMBER_INT` keeps. */
  predicate IsNumberChar(c: char) { IsDigit(c) || c == '+' || c == '-' }

  /** `FILTER_SANITIZE_NUMBER_INT`: everything but digits, `+` and `-` removed. */
  function SanitizeNumberInt(s: string): (r: string)
    ensures forall i :: 0 <= i < |r| ==> IsDigit(r[i]) || r[i] == '+' || r[i] == '-'
    ensures forall i :: 0 <= i < |s| && IsNumberChar(s[i]) ==> s[i] in r
    ensures (forall i :: 0 <= i < |s| ==> IsNumberChar(s[i])) ==> r == s
  {
    KeepAll(s, IsNumberChar);
    KeepComplete(s, IsNumberChar);
    Keep(s, IsNumberChar)
  }

  /** Sanitising keeps order: the parts of a concatenation are sanitised independently and a
      single character is kept exactly when it is a digit or a sign. */
  lemma SanitizeInOrder(a: string, b: string, c: char)
    ensures SanitizeNumberInt(a + b) == SanitizeNumberInt(a) + SanitizeNumberInt(b)
    ensures SanitizeNumberInt([c]) == (if IsNumberChar(c) then [c] else [])
  {
    KeepAppend(a, b, IsNumberChar);
    assert [c][1..] == [];
  }

  /** `Filter::digits`: the signs are replaced away, then the text is sanitised as an int. */
  function Digits(s: string): (r: string)
    ensures r == Keep(s, IsDigit)
  {
    var cleaned := StrReplace(StrReplace(s, "-", ""), "+", "");
    DigitsOnly(s);
    SanitizeNumberInt(cleaned)
  }

  /** Removing both signs and sanitising leaves exactly the digits, in order. */
  lemma DigitsOnly(s: string)
    ensures SanitizeNumberInt(StrReplace(StrReplace(s, "-", ""), "+", "")) == Keep(s, IsDigit)
  {
    var noMinus := (x: char) => x != '-';
    var noPlus := (x: char) => x != '+';
        StrReplaceDelete(s, '-');
    assert "-" == ['-'] && "+" == ['+'];
    var a := Keep(s, noMinus);
    StrReplaceDelete(a, '+');
    var both := (c: char) => c != '-' && c != '+';
    KeepKeep(s, noMinus, noPlus, both);
    KeepKeep(s, both, IsNumberChar, IsDigit);
  }

  /* ---------------------------------------------------------------
   * int
   * --------------------------------------------------------------- */

  /** The characters `preg_replace('#[^0-9-+.,]#', '')` keeps. */
  predicate IsIntChar(c: char) { IsDigit(c) || c == '-' || c == '+' || c == '.' || c == ',' }

  predicate IsSign(c: char) { c == '-' || c == '+' }

  /** `[-+]?[\d]+` matches at `p`. */
  predicate MatchesAt(s: string, p: nat)
  {
    p < |s| && (IsDigit(s[p]) || (IsSign(s[p]) && p + 1 < |s| && IsDigit(s[p + 1])))
  }

  /** The leftmost match at or after `p`, as the regular expression engine finds it. */
  function MatchFrom(s: string, p: nat): (r: Option<nat>)
    requires p <= |s|
    ensures r.Some? ==> p <= r.value < |s| && MatchesAt(s, r.value)
    ensures r.Some? ==> forall q :: p <= q < r.value ==> !MatchesAt(s, q)
    ensures r.None? ==> forall q :: p <= q ==> !MatchesAt(s, q)
    decreases |s| - p
  {
    if p == |s| then None
    else if MatchesAt(s, p) then Some(p)
    else MatchFrom(s, p + 1)
  }

  /** The text of the match starting at `p`: an optional sign and every digit after it. */
  function MatchText(s: string, p: nat): (t: string)
    requires MatchesAt(s, p)
    ensures |t| > 0 && IsNumeric(t)
  {
    var d := if IsDigit(s[p]) then p else p + 1;
    var e := SkipDigits(s, d);
    SignedDigitsNumeric(s[p..e], d - p);
    s[p..e]
  }

  /** An optional sign followed by at least one digit is numeric. */
  lemma SignedDigitsNumeric(t: string, a: nat)
    requires a < |t| && (a == 0 || (a == 1 && IsSign(t[0])))
    requires forall k :: a <= k < |t| ==> IsDigit(t[k])
    ensures IsNumeric(t)
    ensures AllDigits(t[a..])
    ensures NumValue(StrNum(t)) == if a == 1 && t[0] == '-' then -(DigitsValue(t[a..]) as real) else DigitsValue(t[a..]) as real
  {
    assert SkipSign(t, 0) == a;
    DigitsTextValue(t, a);
    assert !IsSpace(t[0]) && !IsSpace(t[|t| - 1]);
    assert DropWhile(t, IsSpace) == t;
    assert TrimSpace(t) == t;
  }

  /** `Filter::int`: drop everything but digits and `-+.,`, then cast the first match of
      `[-+]?[\d]+` to int, or give 0 when there is none. */
  function Int(s: string): (r: Int64)
    ensures (forall i :: 0 <= i < |s| ==> !IsDigit(s[i])) ==> r == 0
  {
    var cleaned := Keep(s, IsIntChar);
    match MatchFrom(cleaned, 0)
    case None => 0
    case Some(p) =>
      NoDigitNoMatch(s, cleaned, p);
      IntCast(MatchText(cleaned, p))
  }

  lemma NoDigitNoMatch(s: string, cleaned: string, p: nat)
    requires cleaned == Keep(s, IsIntChar)
    requires MatchesAt(cleaned, p)
    ensures exists i :: 0 <= i < |s| && IsDigit(s[i])
  {
    var d := if IsDigit(cleaned[p]) then p else p + 1;
    assert IsDigit(cleaned[d]);
    KeepFrom(s, IsIntChar, d);
  }

  /** Every kept character comes from the input. */
  lemma {:induction false} KeepFrom(s: string, f: char -> bool, k: nat)
    requires k < |Keep(s, f)|
    ensures exists i :: 0 <= i < |s| && s[i] == Keep(s, f)[k]
    decreases |s|
  {
    if f(s[0]) && k == 0 {
      assert s[0] == Keep(s, f)[0];
    } else {
      var k' := if f(s[0]) then k - 1 else k;
      assert Keep(s, f)[k] == Keep(s[1..], f)[k'];
      KeepFrom(s[1..], f, k');
      var i :| 0 <= i < |s[1..]| && s[1..][i] == Keep(s[1..], f)[k'];
      assert s[i + 1] == Keep(s, f)[k];
    }
  }

  /** The decimal text of an int filters back to that int. */
  lemma IntOfIntText(i: Int64)
    ensures Int(IntToString(i)) == i
  {
    var s := IntToString(i);
    IntToStringCanonical(i);
    assert forall k :: 0 <= k < |s| ==> IsIntChar(s[k]) by {
      if s[0] == '-' {
        assert forall k :: 1 <= k < |s| ==> s[k] == s[1..][k - 1];
      }
    }
    KeepAll(s, IsIntChar);
    assert MatchesAt(s, 0) by {
      if s[0] == '-' {
        assert s[1] == s[1..][0];
      }
    }
    assert MatchFrom(s, 0) == Some(0);
    var d := if IsDigit(s[0]) then 0 else 1;
    assert forall k :: d <= k < |s| ==> IsDigit(s[k]) by {
      if s[0] == '-' {
        assert forall k :: 1 <= k < |s| ==> s[k] == s[1..][k - 1];
      }
    }
    SkipDigitsToEnd(s, d);
    assert s[0..|s|] == s;
    assert MatchText(s, 0) == s;
    CanonicalCast(s);
    assert IntToString(ParseCanonical(s)) == s;
  }

  /** Only a sign directly before a digit counts: `+-5` gives -5 and `-+6` gives 6. */
  lemma SignNextToDigit()
    ensures Int(" +- 5") == -5
    ensures Int(" -+ 6") == 6
  {
    PlusMinusFive();
    MinusPlusSix();
  }

  lemma PlusMinusFive()
    ensures Int(" +- 5") == -5
  {
    var a := " +- 5";
    var cleaned := a[1..3] + a[4..];
    CleanedExample(a, cleaned);
    SignedExample(a, cleaned, -5);
  }

  lemma MinusPlusSix()
    ensures Int(" -+ 6") == 6
  {
    var a := " -+ 6";
    var cleaned := a[1..3] + a[4..];
    CleanedExample(a, cleaned);
    SignedExample(a, cleaned, 6);
  }

  /** A blank, two signs, a blank and a digit clean to the signs and the digit. */
  lemma CleanedExample(a: string, cleaned: string)
    requires |a| == 5 && a[0] == ' ' && a[3] == ' ' && IsSign(a[1]) && IsSign(a[2]) && IsDigit(a[4])
    requires cleaned == a[1..3] + a[4..]
    ensures Keep(a, IsIntChar) == cleaned
  {
    assert a[4..][1..] == [];
    assert Keep(a[4..], IsIntChar) == a[4..];
    assert a[3..][1..] == a[4..];
    assert a[2..][1..] == a[3..];
    assert Keep(a[2..], IsIntChar) == [a[2]] + a[4..];
    assert a[1..][1..] == a[2..];
    assert Keep(a[1..], IsIntChar) == [a[1], a[2]] + a[4..];
  }

  /** Two signs and a digit: the match is the second sign with the digit. */
  lemma SignedMatch(cleaned: string)
    requires |cleaned| == 3 && IsSign(cleaned[0]) && IsSign(cleaned[1]) && IsDigit(cleaned[2])
    ensures MatchFrom(cleaned, 0) == Some(1)
    ensures MatchText(cleaned, 1) == cleaned[1..]
  {
    SignedMatchFrom(cleaned);
    SignedMatchText(cleaned);
  }

  lemma SignedMatchFrom(cleaned: string)
    requires |cleaned| == 3 && IsSign(cleaned[0]) && IsSign(cleaned[1]) && IsDigit(cleaned[2])
    ensures MatchFrom(cleaned, 0) == Some(1)
  {
    assert !MatchesAt(cleaned, 0);
    assert MatchFrom(cleaned, 0) == MatchFrom(cleaned, 1);
    assert MatchesAt(cleaned, 1);
  }

  lemma SignedMatchText(cleaned: string)
    requires |cleaned| == 3 && IsSign(cleaned[0]) && IsSign(cleaned[1]) && IsDigit(cleaned[2])
    ensures MatchesAt(cleaned, 1) && MatchText(cleaned, 1) == cleaned[1..]
  {
    assert MatchesAt(cleaned, 1) && !IsDigit(cleaned[1]);
    var e := SkipDigits(cleaned, 2);
    assert e == 3;
    assert MatchText(cleaned, 1) == cleaned[1..e];
  }

  /** A sign and one digit cast to that digit's value with that sign. */
  lemma SignedDigitCast(t: string)
    requires |t| == 2 && IsSign(t[0]) && IsDigit(t[1])
    ensures IsNumeric(t)
    ensures IntCast(t) == if t[0] == '-' then -(DigitValue(t[1]) as int) else DigitValue(t[1])
  {
    var v: int := if t[0] == '-' then -(DigitValue(t[1]) as int) else DigitValue(t[1]);
    SignedDigitValue(t, v);
    CastOfValue(t, v);
  }

  lemma SignedDigitValue(t: string, v: int)
    requires |t| == 2 && IsSign(t[0]) && IsDigit(t[1])
    requires v == if t[0] == '-' then -(DigitValue(t[1]) as int) else DigitValue(t[1])
    ensures IsNumeric(t) && NumValue(StrNum(t)) == v as real
  {
    assert t[1..] == [t[1]];
    SingleDigitValue(t[1]);
    SignedDigitsNumeric(t, 1);
  }

  lemma SingleDigitValue(c: char)
    requires IsDigit(c)
    ensures AllDigits([c]) && DigitsValue([c]) == DigitValue(c)
  {
    assert [c][..0] == [];
  }

  /** A numeric text whose value is an int in range casts to that int. */
  lemma CastOfValue(t: string, v: int)
    requires IsNumeric(t) && NumValue(StrNum(t)) == v as real
    requires IntMin <= v <= IntMax
    ensures IntCast(t) == v
  {
    TruncateInt(v);
  }

  lemma SignedExample(s: string, cleaned: string, v: Int64)
    requires Keep(s, IsIntChar) == cleaned && |cleaned| == 3
    requires IsSign(cleaned[0]) && IsSign(cleaned[1]) && IsDigit(cleaned[2])
    requires v == if cleaned[1] == '-' then -(DigitValue(cleaned[2]) as int) else DigitValue(cleaned[2])
    ensures Int(s) == v
  {
    SignedMatch(cleaned);
    SignedDigitCast(cleaned[1..]);
  }
}
