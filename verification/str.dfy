/** The string helpers (`Str`) over strings of code points. Case mapping is
    ASCII only; the multibyte functions count code points, as `mb_*` do. */
module Str {
  import opened Wrappers
  import opened Text
  import opened Php

  /* ---------------------------------------------------------------
   * mb_substr and toArray
   * --------------------------------------------------------------- */

  /** `mb_substr($s, $start, $length)` (PHP 8): a negative start counts from the end, a
      negative length leaves that many characters off the end, a null length runs to the end. */
  function SubString(s: string, start: int, length: Option<int>): (r: string)
    ensures |r| <= |s|
    ensures start >= 0 && length.None? && start <= |s| ==> r == s[start..]
    ensures start >= 0 && length.Some? && length.value >= 0 && start + length.value <= |s| ==>
      r == s[start..start + length.value]
  {
    var len := |s|;
    var from := if start < 0 then Max(0, len + start) else Min(start, len);
    var to := match length
      case None => len
      case Some(l) => if l < 0 then Max(from, len + l) else Min(len, from + l);
    s[from..to]
  }

  function Min(a: int, b: int): int { if a <= b then a else b }
  function Max(a: int, b: int): int { if a >= b then a else b }

  /** The pieces joined in order. */
  function Concat(pieces: seq<string>): string
    decreases |pieces|
  {
    if |pieces| == 0 then "" else Concat(pieces[..|pieces| - 1]) + pieces[|pieces| - 1]
  }

  /** `Str::toArray`: splits off one character at a time until nothing is left. */
  method ToArray(s: string) returns (pieces: seq<string>)
    ensures |pieces| == |s|
    ensures forall i :: 0 <= i < |pieces| ==> pieces[i] == [s[i]]
    ensures Concat(pieces) == s
  {
    pieces := [];
    var rest := s;
    while |rest| > 0
      invariant |pieces| + |rest| == |s|
      invariant rest == s[|pieces|..]
      invariant forall i :: 0 <= i < |pieces| ==> pieces[i] == [s[i]]
      invariant Concat(pieces) == s[..|pieces|]
      decreases |rest|
    {
      var head := SubString(rest, 0, Some(1));
      assert head == [rest[0]] == [s[|pieces|]];
      var next := pieces + [head];
      assert next[..|next| - 1] == pieces;
      assert s[..|next|] == s[..|pieces|] + head;
      pieces := next;
      rest := SubString(rest, 1, Some(|rest|));
    }
    assert s[..|pieces|] == s;
  }

  /* ---------------------------------------------------------------
   * toBool
   * --------------------------------------------------------------- */

  predicate NonSpace(c: char) { !IsSpace(c) }

  /** `Str::stripWhitespace`: every whitespace character removed, every other one kept. */
  function StripWhitespace(s: string): (r: string)
    ensures forall i :: 0 <= i < |r| ==> !IsSpace(r[i])
    ensures forall i :: 0 <= i < |s| && !IsSpace(s[i]) ==> s[i] in r
    ensures (forall i :: 0 <= i < |s| ==> !IsSpace(s[i])) ==> r == s
  {
    KeepAll(s, NonSpace);
    KeepComplete(s, NonSpace);
    Keep(s, NonSpace)
  }

  /** Stripping keeps order: the parts of a concatenation are stripped independently and a
      single character is kept exactly when it is not whitespace, which together fix the
      result. */
  lemma StripWhitespaceInOrder(a: string, b: string, c: char)
    ensures StripWhitespace(a + b) == StripWhitespace(a) + StripWhitespace(b)
    ensures StripWhitespace([c]) == (if IsSpace(c) then "" else [c])
  {
    KeepAppend(a, b, NonSpace);
    assert [c][1..] == [];
  }

  /** The words `toBool` recognises after lower-casing, and what they mean. */
  function BoolWord(s: string): Option<bool>
  {
    if s == "true" || s == "1" || s == "on" || s == "yes" then Some(true)
    else if s == "false" || s == "0" || s == "off" || s == "no" then Some(false)
    else None
  }

  /** `Str::toBool`: a recognised word in any case, otherwise the truthiness of the
      lower-cased text with its whitespace removed. */
  function ToBool(s: string): (r: bool)
    ensures BoolWord(Lower(s)) == Some(true) ==> r
    ensures BoolWord(Lower(s)) == Some(false) ==> !r
    ensures BoolWord(Lower(s)).None? ==>
      (r <==> StripWhitespace(Lower(s)) != "" && StripWhitespace(Lower(s)) != "0")
  {
    var t := Lower(s);
    match BoolWord(t)
    case Some(b) => b
    case None => Truthy(Str(StripWhitespace(t)))
  }

  lemma LowerUpper(s: string)
    ensures Lower(Upper(s)) == Lower(s)
  {
  }

  /** `toBool` does not depend on letter case. */
  lemma ToBoolCaseInsensitive(s: string)
    ensures ToBool(Upper(s)) == ToBool(s)
  {
    LowerUpper(s);
  }

  /** A string of whitespace only is false. */
  lemma ToBoolBlank(s: string)
    requires forall i :: 0 <= i < |s| ==> IsSpace(s[i])
    ensures !ToBool(s)
  {
    var t := Lower(s);
    assert forall i :: 0 <= i < |t| ==> IsSpace(t[i]);
    assert StripWhitespace(t) == "" by {
      KeepNone(t, NonSpace);
    }
    if |s| > 0 {
      assert t[0] == s[0];
    }
  }

  /* ---------------------------------------------------------------
   * Prefix, suffix and substring tests
   * --------------------------------------------------------------- */

  /** Both sides as the comparison sees them: unchanged, or ASCII lower-cased. */
  function Fold(s: string, caseSensitive: bool): (r: string)
    ensures |r| == |s|
  {
    if caseSensitive then s else Lower(s)
  }

  predicate IsPrefix(p: string, s: string)
  {
    |p| <= |s| && s[..|p|] == p
  }

  /** `Str::beginsWith`: some non-empty needle starts the haystack. */
  function BeginsWith(haystack: string, needles: seq<string>, caseSensitive: bool): (r: bool)
    ensures r <==> exists i :: (0 <= i < |needles| && needles[i] != "" &&
      IsPrefix(Fold(needles[i], caseSensitive), Fold(haystack, caseSensitive)))
    decreases |needles|
  {
    if |needles| == 0 then false
    else
      assert forall i :: 1 <= i < |needles| ==> needles[i] == needles[1..][i - 1];
      (needles[0] != "" && IsPrefix(Fold(needles[0], caseSensitive), Fold(haystack, caseSensitive)))
      || BeginsWith(haystack, needles[1..], caseSensitive)
  }

  /** `Str::endsWith`: the last occurrence of some non-empty needle ends the haystack. */
  function EndsWith(haystack: string, needles: seq<string>, caseSensitive: bool): (r: bool)
    ensures r <==> exists i :: (0 <= i < |needles| && needles[i] != "" &&
      IsSuffix(Fold(needles[i], caseSensitive), Fold(haystack, caseSensitive)))
    decreases |needles|
  {
    if |needles| == 0 then false
    else
      assert forall i :: 1 <= i < |needles| ==> needles[i] == needles[1..][i - 1];
      (needles[0] != "" && IsSuffix(Fold(needles[0], caseSensitive), Fold(haystack, caseSensitive)))
      || EndsWith(haystack, needles[1..], caseSensitive)
  }

  /** `Str::contains`: some non-empty needle occurs in the haystack. */
  function Contains(haystack: string, needles: seq<string>, caseSensitive: bool): (r: bool)
    ensures r <==> exists i :: (0 <= i < |needles| && needles[i] != "" &&
      Occurs(Fold(haystack, caseSensitive), Fold(needles[i], caseSensitive)))
    decreases |needles|
  {
    if |needles| == 0 then false
    else
      assert forall i :: 1 <= i < |needles| ==> needles[i] == needles[1..][i - 1];
      (needles[0] != "" && Occurs(Fold(haystack, caseSensitive), Fold(needles[0], caseSensitive)))
      || Contains(haystack, needles[1..], caseSensitive)
  }

  /** `Str::containsAll`: every needle, taken alone, is contained. */
  function ContainsAll(haystack: string, needles: seq<string>, caseSensitive: bool): (r: bool)
    ensures r <==> forall i :: 0 <= i < |needles| ==> Contains(haystack, [needles[i]], caseSensitive)
    decreases |needles|
  {
    if |needles| == 0 then true
    else
      assert forall i :: 1 <= i < |needles| ==> needles[i] == needles[1..][i - 1];
      Contains(haystack, [needles[0]], caseSensitive) && ContainsAll(haystack, needles[1..], caseSensitive)
  }

  /** An empty needle never matches, so `containsAll` with it is false. */
  lemma EmptyNeedleNeverMatches(haystack: string, caseSensitive: bool)
    ensures !BeginsWith(haystack, [""], caseSensitive)
    ensures !EndsWith(haystack, [""], caseSensitive)
    ensures !Contains(haystack, [""], caseSensitive)
    ensures !ContainsAll(haystack, [""], caseSensitive)
  {
    assert !Contains(haystack, [[""][0]], caseSensitive);
  }

  /** With a single needle each test is that needle's test. */
  lemma OneNeedle(haystack: string, needle: string, caseSensitive: bool)
    ensures BeginsWith(haystack, [needle], caseSensitive) <==>
              needle != "" && IsPrefix(Fold(needle, caseSensitive), Fold(haystack, caseSensitive))
    ensures EndsWith(haystack, [needle], caseSensitive) <==>
              needle != "" && IsSuffix(Fold(needle, caseSensitive), Fold(haystack, caseSensitive))
    ensures Contains(haystack, [needle], caseSensitive) <==>
              needle != "" && Occurs(Fold(haystack, caseSensitive), Fold(needle, caseSensitive))
  {
    assert [needle][0] == needle;
  }

  /** A needle the haystack begins or ends with is contained in it. */
  lemma PrefixSuffixContained(haystack: string, needle: string, caseSensitive: bool)
    ensures BeginsWith(haystack, [needle], caseSensitive) ==> Contains(haystack, [needle], caseSensitive)
    ensures EndsWith(haystack, [needle], caseSensitive) ==> Contains(haystack, [needle], caseSensitive)
  {
    OneNeedle(haystack, needle, caseSensitive);
    var h := Fold(haystack, caseSensitive);
    var n := Fold(needle, caseSensitive);
    if IsPrefix(n, h) {
      assert OccursAt(h, n, 0);
    }
    if IsSuffix(n, h) {
      assert OccursAt(h, n, |h| - |n|);
    }
  }

  /** Lower-casing commutes with taking a slice. */
  lemma LowerSlice(s: string, i: nat, j: nat)
    requires i <= j <= |s|
    ensures Lower(s)[i..j] == Lower(s[i..j])
  {
  }

  /** A case-sensitive match is also a case-insensitive one. */
  lemma CaseSensitiveImpliesInsensitive(haystack: string, needle: string)
    ensures BeginsWith(haystack, [needle], true) ==> BeginsWith(haystack, [needle], false)
    ensures EndsWith(haystack, [needle], true) ==> EndsWith(haystack, [needle], false)
    ensures Contains(haystack, [needle], true) ==> Contains(haystack, [needle], false)
  {
    OneNeedle(haystack, needle, true);
    OneNeedle(haystack, needle, false);
    PrefixFolds(haystack, needle);
    SuffixFolds(haystack, needle);
    OccursFolds(haystack, needle);
  }

  lemma PrefixFolds(haystack: string, needle: string)
    ensures IsPrefix(needle, haystack) ==> IsPrefix(Lower(needle), Lower(haystack))
  {
    if IsPrefix(needle, haystack) {
      LowerSlice(haystack, 0, |needle|);
    }
  }

  lemma SuffixFolds(haystack: string, needle: string)
    ensures IsSuffix(needle, haystack) ==> IsSuffix(Lower(needle), Lower(haystack))
  {
    if IsSuffix(needle, haystack) {
      LowerSlice(haystack, |haystack| - |needle|, |haystack|);
    }
  }

  lemma OccursFolds(haystack: string, needle: string)
    ensures Occurs(haystack, needle) ==> Occurs(Lower(haystack), Lower(needle))
  {
    if Occurs(haystack, needle) {
      var i :| 0 <= i <= |haystack| && OccursAt(haystack, needle, i);
      LowerSlice(haystack, i, i + |needle|);
      assert OccursAt(Lower(haystack), Lower(needle), i);
    }
  }

  /* ---------------------------------------------------------------
   * insert, limit, equals
   * --------------------------------------------------------------- */

  /** `Str::insert`: unchanged when the index lies past the end; otherwise the substring
      goes in at the index, a negative index counting from the end. */
  function Insert(s: string, sub: string, index: int): (r: string)
    ensures index > |s| ==> r == s
    ensures 0 <= index <= |s| ==> r == s[..index] + sub + s[index..]
    ensures index < 0 ==> r == s[..Max(0, |s| + index)] + sub + s[Max(0, |s| + index)..]
  {
    if |s| < index then s
    else SubString(s, 0, Some(index)) + sub + SubString(s, index, Some(|s|))
  }

  /** `Str::limit`: the string itself when it is short enough, otherwise its first
      `length` characters, right-trimmed, followed by `append`. */
  function Limit(s: string, length: int, append: string): (r: string)
    ensures length >= |s| ==> r == s
    ensures 0 <= length < |s| ==> r == RTrim(s[..length]) + append
    ensures length < |s| ==> IsSuffix(append, r) && IsPrefix(r[..|r| - |append|], s)
  {
    if length >= |s| then s
    else
      var t := RTrim(SubString(s, 0, Some(length)));
      assert (t + append)[..|t|] == t;
      t + append
  }

  /** `Str::equals`: `strcmp` or, case-insensitively, `strcasecmp`, which folds ASCII letters only. */
  function Equals(a: string, b: string, caseSensitive: bool): (r: bool)
    ensures caseSensitive ==> (r <==> a == b)
    ensures !caseSensitive ==> (r <==> |a| == |b| && forall i :: 0 <= i < |a| ==> LowerChar(a[i]) == LowerChar(b[i]))
  {
    if caseSensitive then a == b
    else
      LowerEqual(a, b);
      Lower(a) == Lower(b)
  }

  lemma LowerEqual(a: string, b: string)
    ensures Lower(a) == Lower(b) <==> |a| == |b| && forall i :: 0 <= i < |a| ==> LowerChar(a[i]) == LowerChar(b[i])
  {
    if |a| == |b| && forall i :: 0 <= i < |a| ==> LowerChar(a[i]) == LowerChar(b[i]) {
      assert forall i :: 0 <= i < |a| ==> Lower(a)[i] == Lower(b)[i];
    }
    if Lower(a) == Lower(b) {
      assert forall i :: 0 <= i < |a| ==> Lower(a)[i] == Lower(b)[i];
    }
  }

  /** Case-insensitive equality is an equivalence that contains case-sensitive equality. */
  lemma EqualsEquivalence(a: string, b: string, c: string)
    ensures Equals(a, a, false)
    ensures Equals(a, b, false) ==> Equals(b, a, false)
    ensures Equals(a, b, false) && Equals(b, c, false) ==> Equals(a, c, false)
    ensures Equals(a, b, true) ==> Equals(a, b, false)
    ensures Equals(Upper(a), a, false)
  {
    LowerUpper(a);
  }

  /* ---------------------------------------------------------------
   * escape
   * --------------------------------------------------------------- */

  /** The replacement `htmlspecialchars` with `ENT_QUOTES` makes for one character. */
  function EscapeChar(c: char): string
  {
    match c
    case '&' => "&amp;"
    case '"' => "&quot;"
    case '\'' => "&#039;"
    case '<' => "&lt;"
    case '>' => "&gt;"
    case _ => [c]
  }

  predicate IsSpecial(c: char)
  {
    c == '&' || c == '"' || c == '\'' || c == '<' || c == '>'
  }

  /** `Str::escape` with its defaults: `htmlspecialchars` with `ENT_QUOTES` and double encoding. */
  function Escape(s: string): (r: string)
    ensures forall i :: 0 <= i < |r| ==> r[i] != '<' && r[i] != '>' && r[i] != '"' && r[i] != '\''
    ensures |r| >= |s|
    decreases |s|
  {
    if |s| == 0 then "" else EscapeChar(s[0]) + Escape(s[1..])
  }

  /** Decodes the five entities `Escape` produces; everything else is copied. */
  function Unescape(s: string): string
    decreases |s|
  {
    if |s| == 0 then ""
    else if s[0] != '&' then [s[0]] + Unescape(s[1..])
    else if IsPrefix("&amp;", s) then "&" + Unescape(s[5..])
    else if IsPrefix("&quot;", s) then "\"" + Unescape(s[6..])
    else if IsPrefix("&#039;", s) then "'" + Unescape(s[6..])
    else if IsPrefix("&lt;", s) then "<" + Unescape(s[4..])
    else if IsPrefix("&gt;", s) then ">" + Unescape(s[4..])
    else [s[0]] + Unescape(s[1..])
  }

  /** Decoding undoes the escape of one character, whatever follows it. */
  lemma UnescapeStep(c: char, rest: string)
    ensures Unescape(EscapeChar(c) + rest) == [c] + Unescape(rest)
  {
    var e := EscapeChar(c);
    var t := e + rest;
    assert t[..|e|] == e && t[|e|..] == rest;
    if !IsSpecial(c) {
      assert t[0] == c && t[1..] == rest;
    } else if c == '&' {
      assert IsPrefix("&amp;", t);
    } else if c == '"' {
      assert !IsPrefix("&amp;", t) by { assert t[1] == 'q'; }
      assert IsPrefix("&quot;", t);
    } else if c == '\'' {
      assert !IsPrefix("&amp;", t) && !IsPrefix("&quot;", t) by { assert t[1] == '#'; }
      assert IsPrefix("&#039;", t);
    } else if c == '<' {
      assert !IsPrefix("&amp;", t) && !IsPrefix("&quot;", t) && !IsPrefix("&#039;", t) by { assert t[1] == 'l'; }
      assert IsPrefix("&lt;", t);
    } else {
      assert c == '>';
      assert !IsPrefix("&amp;", t) && !IsPrefix("&quot;", t) && !IsPrefix("&#039;", t) && !IsPrefix("&lt;", t)
        by { assert t[1] == 'g'; }
      assert IsPrefix("&gt;", t);
    }
  }

  /** Escaping loses nothing: decoding the entities gives the text back. */
  lemma {:induction false} UnescapeEscape(s: string)
    ensures Unescape(Escape(s)) == s
    decreases |s|
  {
    if |s| > 0 {
      UnescapeEscape(s[1..]);
      UnescapeStep(s[0], Escape(s[1..]));
    }
  }

  /** Text without special characters is left as it is. */
  lemma {:induction false} EscapePlain(s: string)
    requires forall i :: 0 <= i < |s| ==> !IsSpecial(s[i])
    ensures Escape(s) == s
    decreases |s|
  {
    if |s| > 0 {
      EscapePlain(s[1..]);
      assert s == [s[0]] + s[1..];
    }
  }

  /* ---------------------------------------------------------------
   * escape without double encoding
   * --------------------------------------------------------------- */

  predicate IsHexDigit(c: char) { IsDigit(c) || 'a' <= c <= 'f' || 'A' <= c <= 'F' }

  predicate IsAlnumChar(c: char) { IsLetter(c) || IsDigit(c) }

  /** The end of the run of characters satisfying `p` that starts at `i`. */
  function SkipRun(t: string, i: nat, p: char -> bool): (j: nat)
    requires i <= |t|
    ensures i <= j <= |t|
    ensures forall k :: i <= k < j ==> p(t[k])
    decreases |t| - i
  {
    if i < |t| && p(t[i]) then SkipRun(t, i + 1, p) else i
  }

  /** A run that stops inside `a` stops at the same place in any extension of `a`. */
  lemma {:induction false} SkipRunExtend(a: string, b: string, i: nat, p: char -> bool)
    requires i <= |a| && SkipRun(a, i, p) < |a|
    ensures SkipRun(a + b, i, p) == SkipRun(a, i, p)
    decreases |a| - i
  {
    assert (a + b)[i] == a[i];
    if p(a[i]) {
      SkipRunExtend(a, b, i + 1, p);
    }
  }

  /** Cutting the text after the place a run stops does not move it. */
  lemma {:induction false} SkipRunTruncate(t: string, m: nat, i: nat, p: char -> bool)
    requires i <= |t| && SkipRun(t, i, p) < m <= |t|
    ensures SkipRun(t[..m], i, p) == SkipRun(t, i, p)
    decreases |t| - i
  {
    assert t[..m][i] == t[i];
    if p(t[i]) {
      SkipRunTruncate(t, m, i + 1, p);
    }
  }

  /** One past the closing `;` of a non-empty run from `start` to `j`, or 0 when it is not closed. */
  function Closed(t: string, start: nat, j: nat): nat
  {
    if start < j < |t| && t[j] == ';' then j + 1 else 0
  }

  /** The length of the character reference (`&name;`, `&#digits;` or `&#xhex;`) that
      opens `t`, or 0 when `t` does not open with one. */
  function EntityLength(t: string): (n: nat)
    ensures n > 0 ==> 3 <= n <= |t| && t[0] == '&' && t[n - 1] == ';'
    ensures n > 0 ==> forall k :: 1 <= k < n - 1 ==> IsAlnumChar(t[k]) || t[k] == '#'
  {
    if |t| < 3 || t[0] != '&' then 0
    else if t[1] == '#' then
      if t[2] == 'x' || t[2] == 'X' then Closed(t, 3, SkipRun(t, 3, IsHexDigit))
      else Closed(t, 2, SkipRun(t, 2, IsDigit))
    else if IsLetter(t[1]) then Closed(t, 1, SkipRun(t, 2, IsAlnumChar))
    else 0
  }

  /** A character reference holds no character the escape encodes, other than its `&`. */
  lemma EntityQuiet(t: string)
    ensures forall k :: 0 <= k < EntityLength(t) ==> t[k] != '<' && t[k] != '>' && t[k] != '"' && t[k] != '\''
  {
  }

  /** What follows a character reference does not change it. */
  lemma EntityExtend(a: string, b: string)
    requires EntityLength(a) > 0
    ensures EntityLength(a + b) == EntityLength(a)
  {
    var t := a + b;
    assert t[0] == a[0] && t[1] == a[1] && t[2] == a[2];
    if a[1] == '#' {
      if a[2] == 'x' || a[2] == 'X' {
        SkipRunExtend(a, b, 3, IsHexDigit);
      } else {
        SkipRunExtend(a, b, 2, IsDigit);
      }
    } else {
      SkipRunExtend(a, b, 2, IsAlnumChar);
    }
  }

  /** A character reference stands on its own. */
  lemma EntityTruncate(t: string)
    requires EntityLength(t) > 0
    ensures EntityLength(t[..EntityLength(t)]) == EntityLength(t)
  {
    var n := EntityLength(t);
    var a := t[..n];
    assert a[0] == t[0] && a[1] == t[1] && a[2] == t[2];
    if t[1] == '#' {
      if t[2] == 'x' || t[2] == 'X' {
        SkipRunTruncate(t, n, 3, IsHexDigit);
      } else {
        SkipRunTruncate(t, n, 2, IsDigit);
      }
    } else {
      SkipRunTruncate(t, n, 2, IsAlnumChar);
    }
  }

  /** `Str::escape($s, ENT_QUOTES, false)`: as `Escape`, except that an `&` opening a
      character reference is kept, so entities already in the text are not encoded again. */
  function EscapeKeepingEntities(s: string): (r: string)
    ensures forall i :: 0 <= i < |r| ==> r[i] != '<' && r[i] != '>' && r[i] != '"' && r[i] != '\''
    decreases |s|
  {
    if |s| == 0 then ""
    else
      var n := EntityLength(s);
      EntityQuiet(s);
      if n > 0 then s[..n] + EscapeKeepingEntities(s[n..])
      else EscapeChar(s[0]) + EscapeKeepingEntities(s[1..])
  }

  /** Without an `&` in the text both escapes agree. */
  lemma {:induction false} EscapeKeepingPlain(s: string)
    requires forall i :: 0 <= i < |s| ==> s[i] != '&'
    ensures EscapeKeepingEntities(s) == Escape(s)
    decreases |s|
  {
    if |s| > 0 {
      EscapeKeepingPlain(s[1..]);
    }
  }

  /** Text as the escape leaves it: every special character is an `&` opening a reference. */
  predicate Settled(t: string)
  {
    forall i :: 0 <= i < |t| ==> !IsSpecial(t[i]) || (t[i] == '&' && EntityLength(t[i..]) > 0)
  }

  /** Settled text is left as it is. */
  lemma {:induction false} EscapeKeepingSettled(t: string)
    requires Settled(t)
    ensures EscapeKeepingEntities(t) == t
    decreases |t|
  {
    if |t| > 0 {
      assert t[0..] == t;
      var n := EntityLength(t);
      var m := if n > 0 then n else 1;
      assert Settled(t[m..]) by {
        forall i | 0 <= i < |t[m..]|
          ensures !IsSpecial(t[m..][i]) || (t[m..][i] == '&' && EntityLength(t[m..][i..]) > 0)
        {
          assert t[m..][i..] == t[m + i..];
        }
      }
      EscapeKeepingSettled(t[m..]);
      assert t == t[..m] + t[m..];
    }
  }

  /** A settled piece in front of settled text keeps it settled. */
  lemma SettledConcat(piece: string, rest: string)
    requires |piece| > 0 && Settled(rest)
    requires EntityLength(piece) == |piece| || (|piece| == 1 && !IsSpecial(piece[0]))
    ensures Settled(piece + rest)
  {
    var t := piece + rest;
    forall i | 0 <= i < |t|
      ensures !IsSpecial(t[i]) || (t[i] == '&' && EntityLength(t[i..]) > 0)
    {
      if i == 0 && EntityLength(piece) == |piece| {
        assert t[0..] == piece + rest;
        EntityExtend(piece, rest);
      } else if i >= |piece| {
        assert t[i..] == rest[i - |piece|..];
        assert t[i] == rest[i - |piece|];
      }
    }
  }

  /** The five replacements are themselves character references. */
  lemma EscapeCharSettled(c: char)
    ensures EntityLength(EscapeChar(c)) == |EscapeChar(c)| || (|EscapeChar(c)| == 1 && !IsSpecial(c))
  {
    if c == '&' {
      assert SkipRun("&amp;", 2, IsAlnumChar) == 4;
    } else if c == '"' {
      assert SkipRun("&quot;", 2, IsAlnumChar) == 5;
    } else if c == '\'' {
      assert SkipRun("&#039;", 2, IsDigit) == 5;
    } else if c == '<' {
      assert SkipRun("&lt;", 2, IsAlnumChar) == 3;
    } else if c == '>' {
      assert SkipRun("&gt;", 2, IsAlnumChar) == 3;
    }
  }

  /** The escape's result is settled. */
  lemma {:induction false} EscapeKeepingSettles(s: string)
    ensures Settled(EscapeKeepingEntities(s))
    decreases |s|
  {
    if |s| > 0 {
      var n := EntityLength(s);
      if n > 0 {
        EscapeKeepingSettles(s[n..]);
        EntityTruncate(s);
        SettledConcat(s[..n], EscapeKeepingEntities(s[n..]));
      } else {
        EscapeKeepingSettles(s[1..]);
        EscapeCharSettled(s[0]);
        SettledConcat(EscapeChar(s[0]), EscapeKeepingEntities(s[1..]));
      }
    }
  }

  /** Without double encoding the escape is idempotent. */
  lemma EscapeKeepingIdempotent(s: string)
    ensures EscapeKeepingEntities(EscapeKeepingEntities(s)) == EscapeKeepingEntities(s)
  {
    EscapeKeepingSettles(s);
    EscapeKeepingSettled(EscapeKeepingEntities(s));
  }

  /* ---------------------------------------------------------------
   * toAscii and slug
   * --------------------------------------------------------------- */

  predicate IsPrintable(c: char)
  {
    ' ' <= c <= '~'
  }

  /** `Str::toAscii`: the replacement table is applied by `transliterate`, then every
      character outside 0x20-0x7E is dropped. */
  function ToAscii(s: string, transliterate: string -> string): (r: string)
    ensures forall i :: 0 <= i < |r| ==> IsPrintable(r[i])
    ensures (forall i :: 0 <= i < |transliterate(s)| ==> IsPrintable(transliterate(s)[i])) ==> r == transliterate(s)
  {
    KeepAll(transliterate(s), IsPrintable);
    Keep(transliterate(s), IsPrintable)
  }

  /** The characters the slug keeps as they are. */
  predicate IsSlugChar(c: char)
  {
    IsLetter(c) || IsDigit(c) || c == '-'
  }

  /** A delimiter the regular expressions of `slug` read literally: printable ASCII, neither a
      letter nor a pattern metacharacter nor the pattern's `~` fence. */
  predicate PlainDelimiter(d: char)
  {
    && IsPrintable(d) && !IsLetter(d)
    && d !in "\\^$.|?*+()[]{}~"
  }

  /** `preg_replace('/[^A-Za-z0-9-]+/', d, s)`: every maximal run of other characters becomes `d`. */
  function ReplaceRuns(s: string, d: char): (r: string)
    ensures forall i :: 0 <= i < |r| ==> IsSlugChar(r[i]) || r[i] == d
    ensures (forall i :: 0 <= i < |s| ==> IsSlugChar(s[i])) ==> r == s
    decreases |s|
  {
    if |s| == 0 then ""
    else if IsSlugChar(s[0]) then [s[0]] + ReplaceRuns(s[1..], d)
    else [d] + ReplaceRuns(DropWhile(s[1..], (c: char) => !IsSlugChar(c)), d)
  }

  /** Position `i` holds the second of two delimiters in a row. */
  predicate DoubledAt(s: string, d: char, i: int)
  {
    0 < i < |s| && s[i - 1] == d && s[i] == d
  }

  /** The shape of a slug: lower-case letters, digits, hyphens and the delimiter, which
      neither starts nor ends the text and never comes twice in a row. */
  predicate SlugShaped(r: string, d: char)
  {
    && (forall i :: 0 <= i < |r| ==> IsLower(r[i]) || IsDigit(r[i]) || r[i] == '-' || r[i] == d)
    && (|r| > 0 ==> r[0] != d && r[|r| - 1] != d)
    && (forall i :: 0 <= i <= |r| ==> !DoubledAt(r, d, i))
  }

  /** `preg_replace('~d+~', d, s)`: every run of `d` becomes a single `d`. */
  function Collapse(s: string, d: char): (r: string)
    ensures |r| <= |s|
    ensures forall c :: c in r ==> c in s
    ensures forall i :: !DoubledAt(r, d, i)
    ensures |s| > 0 ==> |r| > 0 && r[0] == s[0] && r[|r| - 1] == s[|s| - 1]
    decreases |s|
  {
    if |s| <= 1 then s
    else if s[0] == d && s[1] == d then
      Collapse(s[1..], d)
    else
      var t := Collapse(s[1..], d);
      var r := [s[0]] + t;
      assert r[1..] == t;
      assert !DoubledAt(r, d, 1);
      assert forall i :: DoubledAt(r, d, i) && i > 1 ==> DoubledAt(t, d, i - 1);
      r
  }

  /** Collapsing leaves text without doubled delimiters as it is. */
  lemma {:induction false} CollapseSingle(s: string, d: char)
    requires forall i :: !DoubledAt(s, d, i)
    ensures Collapse(s, d) == s
    decreases |s|
  {
    if |s| > 1 {
      DoubledShift(s, d);
      CollapseSingle(s[1..], d);
      assert !DoubledAt(s, d, 1);
      ConsTail(s);
    }
  }

  lemma DoubledShift(s: string, d: char)
    requires |s| > 0
    ensures forall i :: DoubledAt(s[1..], d, i) ==> DoubledAt(s, d, i + 1)
  {
    forall i | DoubledAt(s[1..], d, i)
      ensures DoubledAt(s, d, i + 1)
    {
      assert s[1..][i - 1] == s[i] && s[1..][i] == s[i + 1];
    }
  }

  lemma ConsTail<T>(s: seq<T>)
    requires |s| > 0
    ensures s == [s[0]] + s[1..]
  {
  }

  /** `trim(s, d)`: `d` removed from both ends. */
  function TrimChar(s: string, d: char): (r: string)
    ensures |r| > 0 ==> r[0] != d && r[|r| - 1] != d
    ensures forall c :: c in r ==> c in s
    ensures (|s| > 0 ==> s[0] != d && s[|s| - 1] != d) ==> r == s
  {
    var a := DropWhile(s, (c: char) => c == d);
    var b := DropWhileEnd(a, (c: char) => c == d);
    SuffixChars(a, s);
    PrefixChars(b, a);
    assert |b| > 0 ==> b[0] == a[0];
    b
  }

  lemma SuffixChars(r: string, s: string)
    requires IsSuffix(r, s)
    ensures forall c :: c in r ==> c in s
  {
    forall c | c in r
      ensures c in s
    {
      var i :| 0 <= i < |r| && r[i] == c;
      assert s[|s| - |r| + i] == c;
    }
  }

  lemma PrefixChars(r: string, s: string)
    requires r <= s
    ensures forall c :: c in r ==> c in s
  {
    forall c | c in r
      ensures c in s
    {
      var i :| 0 <= i < |r| && r[i] == c;
      assert s[i] == c;
    }
  }

  /** Every character is kept by the slug or is the delimiter. */
  predicate SlugText(s: string, d: char)
  {
    forall i :: 0 <= i < |s| ==> IsSlugChar(s[i]) || s[i] == d
  }

  lemma CharsCarry(a: string, b: string, d: char)
    requires forall c :: c in a ==> c in b
    requires SlugText(b, d)
    ensures SlugText(a, d)
  {
    forall i | 0 <= i < |a|
      ensures IsSlugChar(a[i]) || a[i] == d
    {
      assert a[i] in b;
    }
  }

  /** Lower-casing a text of slug characters and a non-letter delimiter leaves lower-case
      letters, digits and hyphens, and the delimiter exactly where it was. */
  lemma LowerSlugText(s: string, d: char)
    requires !IsLetter(d)
    requires SlugText(s, d)
    requires |s| > 0 ==> s[0] != d && s[|s| - 1] != d
    requires forall i :: !DoubledAt(s, d, i)
    ensures SlugShaped(Lower(s), d)
  {
    var r := Lower(s);
    assert forall i :: 0 <= i < |s| ==> (r[i] == d <==> s[i] == d);
    assert forall i :: DoubledAt(r, d, i) ==> DoubledAt(s, d, i);
  }

  /** The steps of `slug` after transliteration keep the slug characters and the delimiter,
      which ends up neither at an end nor doubled. */
  lemma SlugSteps(ascii: string, d: char)
    requires PlainDelimiter(d)
    ensures SlugShaped(Lower(Collapse(TrimChar(ReplaceRuns(ascii, d), d), d)), d)
  {
    var replaced := ReplaceRuns(ascii, d);
    var trimmed := TrimChar(replaced, d);
    CharsCarry(trimmed, replaced, d);
    CollapseSlug(trimmed, d);
  }

  lemma CollapseSlug(trimmed: string, d: char)
    requires PlainDelimiter(d)
    requires SlugText(trimmed, d)
    requires |trimmed| > 0 ==> trimmed[0] != d && trimmed[|trimmed| - 1] != d
    ensures SlugShaped(Lower(Collapse(trimmed, d)), d)
  {
    var collapsed := Collapse(trimmed, d);
    CharsCarry(collapsed, trimmed, d);
    LowerSlugText(collapsed, d);
  }

  /** `Str::slug`: transliterate, turn runs of other characters into the delimiter, trim it,
      collapse its runs, lower-case. */
  function Slug(s: string, d: char, transliterate: string -> string): (r: string)
    requires PlainDelimiter(d)
    ensures SlugShaped(r, d)
  {
    var ascii := ToAscii(s, transliterate);
    SlugSteps(ascii, d);
    Lower(Collapse(TrimChar(ReplaceRuns(ascii, d), d), d))
  }

  function Identity(t: string): string { t }

  /** A text that is already a slug of lower-case letters, digits and single inner hyphens
      comes back unchanged. */
  lemma SlugOfSlug(s: string)
    requires forall i :: 0 <= i < |s| ==> IsLower(s[i]) || IsDigit(s[i]) || s[i] == '-'
    requires |s| > 0 ==> s[0] != '-' && s[|s| - 1] != '-'
    requires forall i :: !DoubledAt(s, '-', i)
    ensures Slug(s, '-', Identity) == s
  {
    LowerNoUpper(s);
    CollapseSingle(s, '-');
    SlugFrontUnchanged(s);
    var ascii := ToAscii(s, Identity);
    assert Collapse(TrimChar(ReplaceRuns(ascii, '-'), '-'), '-') == s;
  }

  lemma SlugFrontUnchanged(s: string)
    requires forall i :: 0 <= i < |s| ==> IsLower(s[i]) || IsDigit(s[i]) || s[i] == '-'
    requires |s| > 0 ==> s[0] != '-' && s[|s| - 1] != '-'
    ensures TrimChar(ReplaceRuns(ToAscii(s, Identity), '-'), '-') == s
  {
    assert forall i :: 0 <= i < |s| ==> IsPrintable(s[i]);
    assert ToAscii(s, Identity) == s;
    assert ReplaceRuns(s, '-') == s;
  }

  lemma LowerNoUpper(s: string)
    requires forall i :: 0 <= i < |s| ==> !IsUpper(s[i])
    ensures Lower(s) == s
  {
    assert forall i :: 0 <= i < |s| ==> Lower(s)[i] == s[i];
  }

  /** With the default delimiter a slug is made of `[a-z0-9-]`, neither starts nor ends with
      `-`, and never holds `--`. */
  lemma SlugDefault(s: string, transliterate: string -> string)
    ensures var r := Slug(s, '-', transliterate);
      && (forall i :: 0 <= i < |r| ==> IsLower(r[i]) || IsDigit(r[i]) || r[i] == '-')
      && (|r| > 0 ==> r[0] != '-' && r[|r| - 1] != '-')
      && !Occurs(r, "--")
  {
    var r := Slug(s, '-', transliterate);
    forall i | 0 <= i <= |r|
      ensures !OccursAt(r, "--", i)
    {
      if i + 2 <= |r| {
        assert r[i..i + 2][0] == r[i] && r[i..i + 2][1] == r[i + 1];
        assert !DoubledAt(r, '-', i + 1);
      }
    }
  }
}
