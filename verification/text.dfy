/** Character classes, ASCII case mapping, explode/implode and decimal
    integer text shared by the string, array and math helpers. */
module Text {
  import opened Wrappers

  predicate IsDigit(c: char) { '0' <= c <= '9' }
  predicate IsUpper(c: char) { 'A' <= c <= 'Z' }
  predicate IsLower(c: char) { 'a' <= c <= 'z' }
  predicate IsLetter(c: char) { IsUpper(c) || IsLower(c) }

  /** The whitespace set of PHP's `trim`/`rtrim` default character list. */
  predicate IsTrimSpace(c: char)
  {
    c == ' ' || c == '\t' || c == '\n' || c == '\r' || c == '\0' || c == '\U{B}'
  }

  /** The ASCII whitespace class `\s`: space, tab, newline, vertical tab, form feed, return. */
  predicate IsSpace(c: char)
  {
    c == ' ' || c == '\t' || c == '\n' || c == '\U{B}' || c == '\U{C}' || c == '\r'
  }

  predicate AllDigits(s: string)
  {
    forall i :: 0 <= i < |s| ==> IsDigit(s[i])
  }

  function LowerChar(c: char): char
  {
    if IsUpper(c) then (c as int + 32) as char else c
  }

  function UpperChar(c: char): char
  {
    if IsLower(c) then (c as int - 32) as char else c
  }

  /** ASCII lower-casing (PHP's `strtolower`; `mb_strtolower` on ASCII text). */
  function Lower(s: string): (r: string)
    ensures |r| == |s| && forall i :: 0 <= i < |s| ==> r[i] == LowerChar(s[i])
  {
    seq(|s|, i requires 0 <= i < |s| => LowerChar(s[i]))
  }

  /** ASCII upper-casing (PHP's `strtoupper`). */
  function Upper(s: string): (r: string)
    ensures |r| == |s| && forall i :: 0 <= i < |s| ==> r[i] == UpperChar(s[i])
  {
    seq(|s|, i requires 0 <= i < |s| => UpperChar(s[i]))
  }

  /** The characters of `s` that satisfy `p`, in order. */
  function Keep(s: string, p: char -> bool): (r: string)
    ensures |r| <= |s|
    ensures forall i :: 0 <= i < |r| ==> p(r[i])
    decreases |s|
  {
    if |s| == 0 then ""
    else (if p(s[0]) then [s[0]] else []) + Keep(s[1..], p)
  }

  /** Every qualifying character is kept. */
  lemma {:induction false} KeepComplete(s: string, p: char -> bool)
    ensures forall i :: 0 <= i < |s| && p(s[i]) ==> s[i] in Keep(s, p)
    decreases |s|
  {
    if |s| > 0 {
      KeepComplete(s[1..], p);
      forall i | 1 <= i < |s| && p(s[i])
        ensures s[i] in Keep(s, p)
      {
        assert s[i] == s[1..][i - 1];
      }
    }
  }

  /** `Keep` distributes over concatenation: it filters each part independently. */
  lemma {:induction false} KeepAppend(a: string, b: string, p: char -> bool)
    ensures Keep(a + b, p) == Keep(a, p) + Keep(b, p)
    decreases |a|
  {
    if |a| == 0 {
      assert a + b == b;
    } else {
      assert (a + b)[1..] == a[1..] + b;
      KeepAppend(a[1..], b, p);
    }
  }

  /** Nothing is kept when no character qualifies. */
  lemma {:induction false} KeepNone(s: string, p: char -> bool)
    requires forall i :: 0 <= i < |s| ==> !p(s[i])
    ensures Keep(s, p) == ""
    decreases |s|
  {
    if |s| > 0 {
      KeepNone(s[1..], p);
    }
  }

  /** Everything is kept when every character qualifies. */
  lemma {:induction false} KeepAll(s: string, p: char -> bool)
    ensures (forall i :: 0 <= i < |s| ==> p(s[i])) ==> Keep(s, p) == s
    decreases |s|
  {
    if |s| > 0 {
      KeepAll(s[1..], p);
      assert s == [s[0]] + s[1..];
    }
  }

  /** Filtering twice is filtering once by both tests. */
  lemma {:induction false} KeepKeep(s: string, p: char -> bool, q: char -> bool, both: char -> bool)
    requires forall c :: both(c) == (p(c) && q(c))
    ensures Keep(Keep(s, p), q) == Keep(s, both)
    decreases |s|
  {
    if |s| > 0 {
      KeepKeep(s[1..], p, q, both);
      var head := if p(s[0]) then [s[0]] else [];
      KeepAppend(head, Keep(s[1..], p), q);
    }
  }

  /* ---------------------------------------------------------------
   * Substring search, explode and implode
   * --------------------------------------------------------------- */

  predicate OccursAt(s: string, p: string, i: int)
  {
    0 <= i && i + |p| <= |s| && s[i..i + |p|] == p
  }

  predicate Occurs(s: string, p: string)
  {
    exists i :: 0 <= i <= |s| && OccursAt(s, p, i)
  }

  predicate IsSuffix(p: string, s: string)
  {
    |p| <= |s| && s[|s| - |p|..] == p
  }

  /** The leftmost occurrence of `p` in `s` at or after `i`. */
  function IndexFrom(s: string, p: string, i: nat): (r: Option<nat>)
    requires |p| > 0
    ensures r.Some? ==> i <= r.value && OccursAt(s, p, r.value)
    ensures r.Some? ==> forall j :: i <= j < r.value ==> !OccursAt(s, p, j)
    ensures r.None? ==> forall j :: i <= j ==> !OccursAt(s, p, j)
    decreases |s| - i
  {
    if i + |p| > |s| then None
    else if s[i..i + |p|] == p then Some(i)
    else IndexFrom(s, p, i + 1)
  }

  /** PHP's `explode(sep, s)`: the pieces between leftmost non-overlapping occurrences. */
  function Split(s: string, sep: string): (parts: seq<string>)
    requires |sep| > 0
    ensures |parts| >= 1
    decreases |s|
  {
    match IndexFrom(s, sep, 0)
    case None => [s]
    case Some(i) => [s[..i]] + Split(s[i + |sep|..], sep)
  }

  /** PHP's `implode(sep, parts)`. */
  function Join(parts: seq<string>, sep: string): string
    decreases |parts|
  {
    if |parts| == 0 then ""
    else if |parts| == 1 then parts[0]
    else parts[0] + sep + Join(parts[1..], sep)
  }

  /** Imploding the pieces of an explode with the same separator gives back the input. */
  lemma {:induction false} JoinOfSplit(s: string, sep: string)
    requires |sep| > 0
    ensures Join(Split(s, sep), sep) == s
    decreases |s|
  {
    var r := IndexFrom(s, sep, 0);
    if r.Some? {
      var i := r.value;
      var rest := s[i + |sep|..];
      var tail := Split(rest, sep);
      JoinOfSplit(rest, sep);
      var parts := [s[..i]] + tail;
      assert Split(s, sep) == parts;
      assert parts[1..] == tail;
      assert Join(parts, sep) == s[..i] + sep + Join(tail, sep);
      assert s[i..i + |sep|] == sep;
      SplitAround(s, i, i + |sep|);
    }
  }

  lemma SplitAround(s: string, i: nat, j: nat)
    requires i <= j <= |s|
    ensures s == s[..i] + s[i..j] + s[j..]
  {
  }

  /** No piece of an explode contains the separator. */
  lemma {:induction false} SplitPartsFree(s: string, sep: string)
    requires |sep| > 0
    ensures forall k :: 0 <= k < |Split(s, sep)| ==> !Occurs(Split(s, sep)[k], sep)
    decreases |s|
  {
    match IndexFrom(s, sep, 0)
    case None =>
      assert Split(s, sep) == [s];
    case Some(i) =>
      var rest := s[i + |sep|..];
      SplitPartsFree(rest, sep);
      var tail := Split(rest, sep);
      assert Split(s, sep) == [s[..i]] + tail;
      forall j | OccursAt(s[..i], sep, j)
        ensures false
      {
        PrefixOccurs(s, sep, i, j);
      }
      forall k | 0 <= k < 1 + |tail|
        ensures !Occurs(([s[..i]] + tail)[k], sep)
      {
        ConsIndex(s[..i], tail, k);
      }
  }

  /** An occurrence inside a prefix is an occurrence in the whole text. */
  lemma PrefixOccurs(s: string, p: string, i: nat, j: int)
    requires |p| > 0 && i <= |s| && OccursAt(s[..i], p, j)
    ensures OccursAt(s, p, j) && j < i
  {
    assert s[..i][j..j + |p|] == s[j..j + |p|];
  }

  lemma ConsIndex<T>(x: T, xs: seq<T>, k: nat)
    requires k < 1 + |xs|
    ensures ([x] + xs)[k] == if k == 0 then x else xs[k - 1]
  {
  }

  /** A string without the separator character explodes to itself alone. */
  lemma SplitWithoutSeparator(s: string, c: char)
    requires c !in s
    ensures Split(s, [c]) == [s]
  {
    forall j | 0 <= j < |s|
      ensures !OccursAt(s, [c], j)
    {
      assert s[j..j + 1][0] == s[j];
    }
    assert IndexFrom(s, [c], 0).None?;
  }

  /** Exploding on a character yields several pieces only when the character occurs. */
  lemma SplitManyHasSeparator(s: string, c: char)
    requires |Split(s, [c])| > 1
    ensures c in s
  {
    if c !in s {
      SplitWithoutSeparator(s, c);
    }
  }

  /** Exploding an implode on a separator character that no piece contains gives back the pieces. */
  lemma {:induction false} SplitOfJoin(parts: seq<string>, c: char)
    requires |parts| >= 1
    requires forall k :: 0 <= k < |parts| ==> c !in parts[k]
    ensures Split(Join(parts, [c]), [c]) == parts
    decreases |parts|
  {
    if |parts| == 1 {
      SplitWithoutSeparator(parts[0], c);
    } else {
      var s := Join(parts, [c]);
      var a := parts[0];
      var rest := Join(parts[1..], [c]);
      assert s == a + [c] + rest;
      assert OccursAt(s, [c], |a|) by {
        assert s[|a|..|a| + 1] == [c];
      }
      forall j | 0 <= j < |a|
        ensures !OccursAt(s, [c], j)
      {
        assert s[j] == a[j];
        assert s[j..j + 1][0] == s[j];
      }
      assert IndexFrom(s, [c], 0) == Some(|a|);
      assert s[..|a|] == a;
      assert s[|a| + 1..] == rest;
      SplitOfJoin(parts[1..], c);
      assert Split(s, [c]) == [a] + parts[1..];
    }
  }

  /** PHP's `str_replace(search, rep, s)` for one search string: explode then implode. */
  function StrReplace(s: string, search: string, rep: string): string
    requires |search| > 0
  {
    Join(Split(s, search), rep)
  }

  /** Replacing a string that does not occur changes nothing. */
  lemma StrReplaceAbsent(s: string, search: string, rep: string)
    requires |search| > 0
    requires !Occurs(s, search)
    ensures StrReplace(s, search, rep) == s
  {
    assert IndexFrom(s, search, 0).None?;
  }

  /** Replacing a character by nothing deletes every occurrence of it. */
  lemma {:induction false} StrReplaceDelete(s: string, c: char)
    ensures StrReplace(s, [c], "") == Keep(s, (x: char) => x != c)
    decreases |s|
  {
    var p := (x: char) => x != c;
    match IndexFrom(s, [c], 0)
    case None =>
      NoCharBefore(s, c, |s|);
      KeepAll(s, p);
    case Some(i) =>
      StrReplaceDelete(s[i + 1..], c);
      DeleteStep(s, c, i);
  }

  /** Before the first occurrence of `c` there is no `c`. */
  lemma NoCharBefore(s: string, c: char, i: nat)
    requires i <= |s|
    requires forall j :: 0 <= j < i ==> !OccursAt(s, [c], j)
    ensures forall j :: 0 <= j < i ==> s[j] != c
  {
    forall j | 0 <= j < i
      ensures s[j] != c
    {
      assert !OccursAt(s, [c], j);
      assert s[j..j + 1][0] == s[j];
    }
  }

  lemma DeleteStep(s: string, c: char, i: nat)
    requires IndexFrom(s, [c], 0) == Some(i)
    requires StrReplace(s[i + 1..], [c], "") == Keep(s[i + 1..], (x: char) => x != c)
    ensures StrReplace(s, [c], "") == Keep(s, (x: char) => x != c)
  {
    var p := (x: char) => x != c;
    var rest := s[i + 1..];
    assert Split(s, [c]) == [s[..i]] + Split(rest, [c]);
    JoinCons(s[..i], Split(rest, [c]), "");
    EmptyRight(s[..i]);
    NoCharBefore(s, c, i);
    assert s[i..i + 1][0] == s[i];
    KeepAround(s, i, p);
  }

  /** Keeping from a text whose first rejected character is at `i`. */
  lemma KeepAround(s: string, i: nat, p: char -> bool)
    requires i < |s| && !p(s[i])
    requires forall j :: 0 <= j < i ==> p(s[j])
    ensures Keep(s, p) == s[..i] + Keep(s[i + 1..], p)
  {
    var a, b, rest := s[..i], [s[i]], s[i + 1..];
    KeepAllOf(a, p);
    assert Keep(b, p) == "" by {
      assert b[1..] == "";
    }
    Around(s, i);
    KeepAppend(a + b, rest, p);
    KeepAppend(a, b, p);
    EmptyRight(a);
  }

  lemma Around<T>(s: seq<T>, i: nat)
    requires i < |s|
    ensures s == (s[..i] + [s[i]]) + s[i + 1..]
  {
  }

  lemma EmptyRight<T>(s: seq<T>)
    ensures s + [] == s
  {
  }

  lemma ButLast<T>(s: seq<T>)
    requires |s| > 0
    ensures s[..|s| - 1] + [s[|s| - 1]] == s
  {
  }

  lemma KeepAllOf(s: string, p: char -> bool)
    requires forall i :: 0 <= i < |s| ==> p(s[i])
    ensures Keep(s, p) == s
  {
    KeepAll(s, p);
  }

  /** Replacing a string by itself changes nothing. */
  lemma StrReplaceIdentity(s: string, search: string)
    requires |search| > 0
    ensures StrReplace(s, search, search) == s
  {
    JoinOfSplit(s, search);
  }

  /** The search finds the first occurrence at or after the start. */
  lemma IndexFromFirst(s: string, p: string, i: nat, k: nat)
    requires |p| > 0 && i <= k && OccursAt(s, p, k)
    requires forall j :: i <= j < k ==> !OccursAt(s, p, j)
    ensures IndexFrom(s, p, i) == Some(k)
  {
  }

  lemma NotStartingHere(s: string, p: string, j: nat)
    requires |p| > 0 && j < |s| && s[j] != p[0]
    ensures !OccursAt(s, p, j)
  {
    if j + |p| <= |s| {
      assert s[j..j + |p|][0] == s[j];
    }
  }

  /** A string in which no character starts the pattern holds no occurrence of it. */
  lemma IndexFromAbsent(s: string, p: string)
    requires |p| > 0 && p[0] !in s
    ensures IndexFrom(s, p, 0).None?
  {
  }

  /** A string with no separator-start character around one separator explodes into the two
      sides. */
  lemma SplitOnce(a: string, sep: string, b: string)
    requires |sep| > 0 && sep[0] !in a && sep[0] !in b
    ensures Split(a + sep + b, sep) == [a, b]
  {
    var s := a + sep + b;
    assert s[|a|..|a| + |sep|] == sep;
    forall j | 0 <= j < |a|
      ensures !OccursAt(s, sep, j)
    {
      assert s[j] == a[j];
      NotStartingHere(s, sep, j);
    }
    IndexFromFirst(s, sep, 0, |a|);
    assert s[..|a|] == a;
    assert s[|a| + |sep|..] == b;
    IndexFromAbsent(b, sep);
    assert Split(b, sep) == [b];
    assert Split(s, sep) == [s[..|a|]] + Split(s[|a| + |sep|..], sep);
  }

  /** Every character `c` turned into `d`. */
  function MapChar(s: string, c: char, d: char): (r: string)
    ensures |r| == |s|
    ensures forall i :: 0 <= i < |s| ==> r[i] == if s[i] == c then d else s[i]
  {
    seq(|s|, i requires 0 <= i < |s| => if s[i] == c then d else s[i])
  }

  lemma MapCharAppend(a: string, b: string, c: char, d: char)
    ensures MapChar(a + b, c, d) == MapChar(a, c, d) + MapChar(b, c, d)
  {
  }

  lemma MapCharNone(s: string, c: char, d: char)
    requires c !in s
    ensures MapChar(s, c, d) == s
  {
  }

  /** `str_replace` of one character by another is a character-wise map. */
  lemma {:induction false} StrReplaceChar(s: string, c: char, d: char)
    ensures StrReplace(s, [c], [d]) == MapChar(s, c, d)
    decreases |s|
  {
    if c !in s {
      SplitWithoutSeparator(s, c);
      assert MapChar(s, c, d) == s;
    } else {
      var i := FirstIndexOf(s, c);
      var rest := s[i + 1..];
      StrReplaceChar(rest, c, d);
      SplitAtFirst(s, c, i);
      var tail := Split(rest, [c]);
      JoinCons(s[..i], tail, [d]);
      MapCharSplit(s, c, d, i);
    }
  }

  /** The position of the first `c` in `s`. */
  function FirstIndexOf(s: string, c: char): (i: nat)
    requires c in s
    ensures i < |s| && s[i] == c && c !in s[..i]
  {
    if s[0] == c then 0 else
      assert c in s[1..] by { assert s == [s[0]] + s[1..]; }
      var j := FirstIndexOf(s[1..], c);
      assert s[..j + 1] == [s[0]] + s[1..][..j];
      j + 1
  }

  lemma SplitAtFirst(s: string, c: char, i: nat)
    requires i < |s| && s[i] == c && c !in s[..i]
    ensures Split(s, [c]) == [s[..i]] + Split(s[i + 1..], [c])
  {
    assert s[i..i + 1] == [c];
    forall j | 0 <= j < i
      ensures !OccursAt(s, [c], j)
    {
      assert s[j] == s[..i][j];
      NotStartingHere(s, [c], j);
    }
    IndexFromFirst(s, [c], 0, i);
  }

  lemma MapCharSplit(s: string, c: char, d: char, i: nat)
    requires i < |s| && s[i] == c && c !in s[..i]
    ensures MapChar(s, c, d) == s[..i] + [d] + MapChar(s[i + 1..], c, d)
  {
    forall j | 0 <= j < i
      ensures s[j] != c
    {
      assert s[j] == s[..i][j];
    }
  }

  /** Imploding a piece in front of a non-empty list puts the separator after the piece. */
  lemma JoinCons(x: string, xs: seq<string>, sep: string)
    requires |xs| >= 1
    ensures Join([x] + xs, sep) == x + sep + Join(xs, sep)
  {
    assert ([x] + xs)[1..] == xs;
  }

  /* ---------------------------------------------------------------
   * Trimming
   * --------------------------------------------------------------- */

  /** PHP's `rtrim` with its default character list. */
  function RTrim(s: string): (r: string)
    ensures r <= s
    ensures |r| > 0 ==> !IsTrimSpace(r[|r| - 1])
    ensures forall i :: |r| <= i < |s| ==> IsTrimSpace(s[i])
    decreases |s|
  {
    if |s| > 0 && IsTrimSpace(s[|s| - 1]) then RTrim(s[..|s| - 1]) else s
  }

  /** Leading characters of `s` satisfying `p` removed. */
  function DropWhile(s: string, p: char -> bool): (r: string)
    ensures IsSuffix(r, s)
    ensures |r| > 0 ==> !p(r[0])
    decreases |s|
  {
    if |s| > 0 && p(s[0]) then DropWhile(s[1..], p) else s
  }

  /** Trailing characters of `s` satisfying `p` removed. */
  function DropWhileEnd(s: string, p: char -> bool): (r: string)
    ensures r <= s
    ensures |r| > 0 ==> !p(r[|r| - 1])
    decreases |s|
  {
    if |s| > 0 && p(s[|s| - 1]) then DropWhileEnd(s[..|s| - 1], p) else s
  }

  /* ---------------------------------------------------------------
   * Decimal integer text
   * --------------------------------------------------------------- */

  function DigitValue(c: char): nat
    requires IsDigit(c)
  {
    c as int - '0' as int
  }

  function DigitChar(d: nat): char
    requires d < 10
  {
    ('0' as int + d) as char
  }

  /** The value of a run of decimal digits. */
  function DigitsValue(s: string): nat
    requires AllDigits(s)
    decreases |s|
  {
    if |s| == 0 then 0 else 10 * DigitsValue(s[..|s| - 1]) + DigitValue(s[|s| - 1])
  }

  function NatToString(n: nat): (r: string)
    ensures |r| >= 1
    decreases n
  {
    if n < 10 then [DigitChar(n)] else NatToString(n / 10) + [DigitChar(n % 10)]
  }

  /** PHP's `(string)` of an integer. */
  function IntToString(i: int): (r: string)
    ensures |r| >= 1
  {
    if i < 0 then "-" + NatToString(-i) else NatToString(i)
  }

  /** A canonical decimal integer: no sign but `-`, no leading zero, no `-0`, no blanks. */
  predicate IsCanonicalInt(s: string)
  {
    || s == "0"
    || (|s| >= 1 && AllDigits(s) && s[0] != '0')
    || (|s| >= 2 && s[0] == '-' && AllDigits(s[1..]) && s[1] != '0')
  }

  function ParseCanonical(s: string): int
    requires IsCanonicalInt(s)
  {
    if s[0] == '-' then -(DigitsValue(s[1..]) as int) else DigitsValue(s)
  }

  lemma {:induction false} NatToStringFacts(n: nat)
    ensures |NatToString(n)| >= 1
    ensures AllDigits(NatToString(n))
    ensures n > 0 ==> NatToString(n)[0] != '0'
    ensures DigitsValue(NatToString(n)) == n
    decreases n
  {
    if n >= 10 {
      NatToStringFacts(n / 10);
      var t := NatToString(n / 10);
      var s := t + [DigitChar(n % 10)];
      assert s[..|s| - 1] == t;
    }
  }

  lemma {:induction false} DigitsValuePositive(s: string)
    requires |s| >= 1 && AllDigits(s) && s[0] != '0'
    ensures DigitsValue(s) > 0
    decreases |s|
  {
    if |s| > 1 {
      DigitsValuePositive(s[..|s| - 1]);
    }
  }

  lemma {:induction false} DigitsRoundTrip(s: string)
    requires |s| >= 1 && AllDigits(s) && (s[0] != '0' || s == "0")
    ensures NatToString(DigitsValue(s)) == s
    decreases |s|
  {
    if |s| > 1 {
      var t := s[..|s| - 1];
      DigitsValuePositive(t);
      DigitsRoundTrip(t);
      var n := DigitsValue(s);
      assert n / 10 == DigitsValue(t);
      assert n % 10 == DigitValue(s[|s| - 1]);
      assert s == t + [s[|s| - 1]];
    }
  }

  /** Every integer prints as a canonical decimal integer that parses back to it. */
  lemma IntToStringCanonical(i: int)
    ensures IsCanonicalInt(IntToString(i))
    ensures ParseCanonical(IntToString(i)) == i
  {
    if i < 0 {
      NatToStringFacts(-i);
      var s := IntToString(i);
      assert s[1..] == NatToString(-i);
    } else {
      NatToStringFacts(i);
      if i == 0 {
        assert NatToString(0) == "0";
      }
    }
  }

  /** A canonical decimal integer is the printed form of its value. */
  lemma CanonicalRoundTrip(s: string)
    requires IsCanonicalInt(s)
    ensures IntToString(ParseCanonical(s)) == s
  {
    if s[0] == '-' {
      DigitsValuePositive(s[1..]);
      DigitsRoundTrip(s[1..]);
      assert s == "-" + s[1..];
    } else {
      DigitsRoundTrip(s);
    }
  }
}
