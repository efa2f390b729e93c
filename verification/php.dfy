/** The PHP values the helpers work on: array keys, scalars and ordered
    arrays, with the engine rules the helpers rely on (numeric-string key
    normalisation, `$a[] = …` indexing, string conversion, truthiness and
    `is_numeric`). */
module Php {
  import opened Wrappers
  import opened Text

  /** An array key. The engine stores canonical decimal strings as integers. */
  datatype Key = IntKey(i: int) | StrKey(s: string)

  /** A PHP value. Floats, objects and resources are not part of this model. */
  datatype Value = Null | Bool(b: bool) | Int(i: int) | Str(s: string) | Arr(entries: seq<Entry>)

  /** One key/value pair of an ordered array. */
  datatype Entry = Entry(key: Key, val: Value)

  /** The engine errors the helpers can raise (strict types are on throughout). */
  datatype Error =
    | TypeError       // an argument or offset of the wrong type
    | ScalarAsArray   // writing through an offset of a value that is neither null, false nor an array
    | CannotUnset     // unsetting an offset of a value that is neither null, false nor an array

  const IntMin: int := -0x8000_0000_0000_0000
  const IntMax: int := 0x7FFF_FFFF_FFFF_FFFF

  /** A string the engine stores as an integer key: a canonical decimal integer within the
      64-bit range. A longer one stays a string key. */
  predicate IsIntKeyText(s: string)
  {
    IsCanonicalInt(s) && IntMin <= ParseCanonical(s) <= IntMax
  }

  /** A key as the engine stores it: a string key never looks like an integer key. */
  predicate Normal(k: Key)
  {
    k.StrKey? ==> !IsIntKeyText(k.s)
  }

  /** The text of a key, as `(string)$key` gives it. */
  function KeyText(k: Key): string
  {
    match k
    case IntKey(i) => IntToString(i)
    case StrKey(s) => s
  }

  /** The key a string offset designates (`$a["12"]` is `$a[12]`, while
      `$a["9223372036854775808"]` keeps its string key). */
  function KeyOf(s: string): (k: Key)
    ensures k.IntKey? <==> IsCanonicalInt(s) && IntMin <= ParseCanonical(s) <= IntMax
    ensures k.IntKey? ==> IntMin <= k.i <= IntMax
    ensures Normal(k)
    ensures KeyText(k) == s
  {
    if IsIntKeyText(s) then
      CanonicalRoundTrip(s);
      IntKey(ParseCanonical(s))
    else StrKey(s)
  }

  /** Every stored key is designated by its own text. */
  lemma KeyOfKeyText(k: Key)
    requires Normal(k) && (k.IntKey? ==> IntMin <= k.i <= IntMax)
    ensures KeyOf(KeyText(k)) == k
  {
    if k.IntKey? {
      IntToStringCanonical(k.i);
    }
  }

  /** Distinct strings designate distinct keys. */
  lemma KeyOfInjective(s: string, t: string)
    requires KeyOf(s) == KeyOf(t)
    ensures s == t
  {
    assert KeyText(KeyOf(s)) == s;
  }

  /* ---------------------------------------------------------------
   * Ordered arrays
   * --------------------------------------------------------------- */

  predicate HasKey(es: seq<Entry>, k: Key)
  {
    exists i :: 0 <= i < |es| && es[i].key == k
  }

  /** Keys pairwise distinct and stored in normal form, as in every array the engine builds. */
  predicate WellFormed(es: seq<Entry>)
  {
    && (forall i, j :: 0 <= i < j < |es| ==> es[i].key != es[j].key)
    && (forall i :: 0 <= i < |es| ==> Normal(es[i].key))
  }

  /** `$a[$k]` when `array_key_exists($k, $a)`, else `None`. */
  function Lookup(es: seq<Entry>, k: Key): (r: Option<Value>)
    ensures r.Some? <==> HasKey(es, k)
    ensures r.Some? ==> exists i :: 0 <= i < |es| && es[i] == Entry(k, r.value)
    decreases |es|
  {
    if |es| == 0 then None
    else if es[0].key == k then Some(es[0].val)
    else
      var r := Lookup(es[1..], k);
      assert forall i :: 0 < i < |es| ==> es[i] == es[1..][i - 1];
      r
  }

  /** In a well-formed array the entry at a position is what a lookup of its key finds. */
  lemma LookupAt(es: seq<Entry>, i: nat)
    requires WellFormed(es) && i < |es|
    ensures Lookup(es, es[i].key) == Some(es[i].val)
    decreases i
  {
    if i > 0 {
      assert WellFormed(es[1..]);
      LookupAt(es[1..], i - 1);
    }
  }

  /** `$a[$k] = $v`: an existing key keeps its position, a new key goes last. */
  function Put(es: seq<Entry>, k: Key, v: Value): (r: seq<Entry>)
    ensures Lookup(r, k) == Some(v)
    ensures forall k' :: k' != k ==> Lookup(r, k') == Lookup(es, k')
    ensures !HasKey(es, k) ==> r == es + [Entry(k, v)]
    ensures HasKey(es, k) ==> |r| == |es| && forall i :: 0 <= i < |es| ==> r[i].key == es[i].key
    decreases |es|
  {
    if |es| == 0 then [Entry(k, v)]
    else if es[0].key == k then
      var r := [Entry(k, v)] + es[1..];
      assert r[1..] == es[1..];
      r
    else
      var rest := Put(es[1..], k, v);
      var r := [es[0]] + rest;
      assert r[0] == es[0] && r[1..] == rest;
      HasKeyTail(es, k);
      ConsFacts(es, rest, Entry(k, v));
      r
  }

  lemma ConsFacts(es: seq<Entry>, rest: seq<Entry>, e: Entry)
    requires |es| > 0
    ensures rest == es[1..] + [e] ==> [es[0]] + rest == es + [e]
    ensures (|rest| == |es| - 1 && forall i :: 0 <= i < |rest| ==> rest[i].key == es[1..][i].key) ==>
              forall i :: 0 <= i < |es| ==> ([es[0]] + rest)[i].key == es[i].key
  {
    if |rest| == |es| - 1 && forall i :: 0 <= i < |rest| ==> rest[i].key == es[1..][i].key {
      forall i | 0 < i < |es|
        ensures ([es[0]] + rest)[i].key == es[i].key
      {
        assert ([es[0]] + rest)[i] == rest[i - 1];
        assert es[1..][i - 1] == es[i];
      }
    }
  }

  /** A key other than the first is in the array exactly when it is in the tail. */
  lemma HasKeyTail(es: seq<Entry>, k: Key)
    requires |es| > 0 && es[0].key != k
    ensures HasKey(es, k) <==> HasKey(es[1..], k)
  {
    if HasKey(es, k) {
      var i :| 0 <= i < |es| && es[i].key == k;
      assert es[1..][i - 1].key == k;
    }
    if HasKey(es[1..], k) {
      var i :| 0 <= i < |es[1..]| && es[1..][i].key == k;
      assert es[i + 1].key == k;
    }
  }

  /** Writing back the value a key already holds changes nothing. */
  lemma {:induction false} PutSame(es: seq<Entry>, k: Key, v: Value)
    requires Lookup(es, k) == Some(v)
    ensures Put(es, k, v) == es
    decreases |es|
  {
    if es[0].key != k {
      PutSame(es[1..], k, v);
    }
  }

  /** `unset($a[$k])`. */
  function Remove(es: seq<Entry>, k: Key): (r: seq<Entry>)
    ensures Lookup(r, k).None?
    ensures forall k' :: k' != k ==> Lookup(r, k') == Lookup(es, k')
    ensures !HasKey(es, k) ==> r == es
    ensures |r| <= |es|
    decreases |es|
  {
    if |es| == 0 then []
    else if es[0].key == k then Remove(es[1..], k)
    else [es[0]] + Remove(es[1..], k)
  }

  /** Writing and removing keep an array well formed. */
  lemma {:induction false} PutWellFormed(es: seq<Entry>, k: Key, v: Value)
    requires WellFormed(es) && Normal(k)
    ensures WellFormed(Put(es, k, v))
    decreases |es|
  {
    if |es| > 0 && es[0].key == k {
      SameKeysWellFormed(es, Put(es, k, v));
    } else if |es| > 0 {
      TailWellFormed(es);
      PutWellFormed(es[1..], k, v);
      var tail := Put(es[1..], k, v);
      HeadFresh(es);
      PutKeepsAbsent(es[1..], k, v, es[0].key);
      ConsWellFormed(es[0], tail);
    }
  }

  lemma PutKeepsAbsent(es: seq<Entry>, k: Key, v: Value, other: Key)
    requires other != k && !HasKey(es, other)
    ensures !HasKey(Put(es, k, v), other)
  {
    assert Lookup(Put(es, k, v), other) == Lookup(es, other);
  }

  lemma TailWellFormed(es: seq<Entry>)
    requires WellFormed(es) && |es| > 0
    ensures WellFormed(es[1..])
  {
  }

  /** Replacing values and keeping the keys keeps an array well formed. */
  lemma SameKeysWellFormed(es: seq<Entry>, r: seq<Entry>)
    requires WellFormed(es) && |r| == |es|
    requires forall i :: 0 <= i < |es| ==> r[i].key == es[i].key
    ensures WellFormed(r)
  {
  }

  /** A fresh, normal key in front of a well-formed array. */
  lemma ConsWellFormed(e: Entry, tail: seq<Entry>)
    requires WellFormed(tail) && Normal(e.key) && !HasKey(tail, e.key)
    ensures WellFormed([e] + tail)
  {
    var r := [e] + tail;
    forall i, j | 0 <= i < j < |r|
      ensures r[i].key != r[j].key
    {
      assert r[j] == tail[j - 1];
      if i > 0 {
        assert r[i] == tail[i - 1];
      }
    }
    forall i | 0 <= i < |r|
      ensures Normal(r[i].key)
    {
      if i > 0 {
        assert r[i] == tail[i - 1];
      }
    }
  }

  /** In a well-formed array the first key does not occur again. */
  lemma HeadFresh(es: seq<Entry>)
    requires WellFormed(es) && |es| > 0
    ensures !HasKey(es[1..], es[0].key)
  {
    forall i | 0 <= i < |es[1..]|
      ensures es[1..][i].key != es[0].key
    {
      assert es[1..][i] == es[i + 1];
    }
  }

  lemma {:induction false} RemoveWellFormed(es: seq<Entry>, k: Key)
    requires WellFormed(es)
    ensures WellFormed(Remove(es, k))
    decreases |es|
  {
    if |es| > 0 {
      assert WellFormed(es[1..]);
      RemoveWellFormed(es[1..], k);
      if es[0].key != k {
        var tail := Remove(es[1..], k);
        var r := Remove(es, k);
        assert r == [es[0]] + tail;
        HeadFresh(es);
        assert Lookup(tail, es[0].key).None?;
        forall j | 0 < j < |r|
          ensures r[0].key != r[j].key
        {
          assert r[j] == tail[j - 1];
        }
        forall j | 0 <= j < |r|
          ensures Normal(r[j].key)
        {
          if j > 0 {
            assert r[j] == tail[j - 1];
          }
        }
      }
    }
  }

  /** The integer key `$a[] = …` uses: one past the largest integer key, or 0. */
  function NextIndex(es: seq<Entry>): (r: int)
    ensures forall i :: 0 <= i < |es| && es[i].key.IntKey? ==> es[i].key.i < r
    ensures HasAnyInt(es) ==> HasKey(es, IntKey(r - 1))
    ensures !HasAnyInt(es) ==> r == 0
    decreases |es|
  {
    if |es| == 0 then 0
    else
      var n := NextIndex(es[1..]);
      assert forall i :: 1 <= i < |es| ==> es[i] == es[1..][i - 1];
      assert HasKey(es[1..], IntKey(n - 1)) ==> HasKey(es, IntKey(n - 1)) by {
        if HasKey(es[1..], IntKey(n - 1)) {
          var i :| 0 <= i < |es[1..]| && es[1..][i].key == IntKey(n - 1);
          assert es[i + 1].key == IntKey(n - 1);
        }
      }
      if es[0].key.IntKey? && (es[0].key.i + 1 > n || !HasAnyInt(es[1..])) then es[0].key.i + 1
      else n
  }

  predicate HasAnyInt(es: seq<Entry>)
  {
    exists i :: 0 <= i < |es| && es[i].key.IntKey?
  }

  /** `$a[] = $v`: the value is appended under a fresh integer key. */
  function Push(es: seq<Entry>, v: Value): (r: seq<Entry>)
    ensures !HasKey(es, IntKey(NextIndex(es)))
    ensures r == es + [Entry(IntKey(NextIndex(es)), v)]
  {
    Put(es, IntKey(NextIndex(es)), v)
  }

  /** A PHP list `[v0, v1, …]`: keys 0, 1, … in order. */
  function List(vs: seq<Value>): (r: seq<Entry>)
    ensures |r| == |vs|
    ensures forall i :: 0 <= i < |vs| ==> r[i] == Entry(IntKey(i), vs[i])
  {
    seq(|vs|, i requires 0 <= i < |vs| => Entry(IntKey(i), vs[i]))
  }

  function Values(es: seq<Entry>): (r: seq<Value>)
    ensures |r| == |es|
    ensures forall i :: 0 <= i < |es| ==> r[i] == es[i].val
  {
    seq(|es|, i requires 0 <= i < |es| => es[i].val)
  }

  /** `array_reverse($a, true)`: reverse order, keys kept. */
  function Reverse(es: seq<Entry>): (r: seq<Entry>)
    ensures |r| == |es|
    ensures forall i :: 0 <= i < |es| ==> r[i] == es[|es| - 1 - i]
  {
    seq(|es|, i requires 0 <= i < |es| => es[|es| - 1 - i])
  }

  /* ---------------------------------------------------------------
   * Conversions
   * --------------------------------------------------------------- */

  /** `(string)$v`; an array converts to "Array" (with a warning). */
  function ToStr(v: Value): string
  {
    match v
    case Null => ""
    case Bool(b) => if b then "1" else ""
    case Int(i) => IntToString(i)
    case Str(s) => s
    case Arr(_) => "Array"
  }

  /** `(bool)$v`: null, false, 0, "", "0" and the empty array are false. */
  predicate Truthy(v: Value)
  {
    match v
    case Null => false
    case Bool(b) => b
    case Int(i) => i != 0
    case Str(s) => s != "" && s != "0"
    case Arr(es) => |es| > 0
  }

  /* ---------------------------------------------------------------
   * Numeric strings
   * --------------------------------------------------------------- */

  /** The end of the run of digits starting at `i`. */
  function SkipDigits(s: string, i: nat): (j: nat)
    requires i <= |s|
    ensures i <= j <= |s|
    ensures forall k :: i <= k < j ==> IsDigit(s[k])
    ensures j == |s| || !IsDigit(s[j])
    decreases |s| - i
  {
    if i < |s| && IsDigit(s[i]) then SkipDigits(s, i + 1) else i
  }

  /** Past an optional `+` or `-` at `i`. */
  function SkipSign(s: string, i: nat): (j: nat)
    requires i <= |s|
    ensures j == i || (j == i + 1 && i < |s| && (s[i] == '+' || s[i] == '-'))
  {
    if i < |s| && (s[i] == '+' || s[i] == '-') then i + 1 else i
  }

  /** The end of an exponent `[eE][+-]?[0-9]+` starting at `i`, or `i` when there is none. */
  function ExponentEnd(s: string, i: nat): (j: nat)
    requires i <= |s|
    ensures i <= j <= |s|
  {
    if i < |s| && (s[i] == 'e' || s[i] == 'E') then
      var d := SkipSign(s, i + 1);
      var e := SkipDigits(s, d);
      if e > d then e else i
    else i
  }

  /** The end of the mantissa `[0-9]+ | [0-9]*\.[0-9]+ | [0-9]+\.[0-9]*` after an optional sign,
      or `None` when the text does not start with one. */
  function MantissaEnd(s: string): (r: Option<nat>)
    ensures r.Some? ==> r.value <= |s|
  {
    var a := SkipSign(s, 0);
    var b := SkipDigits(s, a);
    var c := if b < |s| && s[b] == '.' then SkipDigits(s, b + 1) else b;
    if b > a || c > b + 1 then Some(c) else None
  }

  /** The whole text is `[+-]?(D+|D*\.D+|D+\.D*)([eE][+-]?D+)?` with `D = [0-9]`. */
  predicate FloatSyntax(s: string)
  {
    MantissaEnd(s).Some? && ExponentEnd(s, MantissaEnd(s).value) == |s|
  }

  /** Leading and trailing ASCII whitespace removed. */
  function TrimSpace(s: string): string
  {
    DropWhileEnd(DropWhile(s, IsSpace), IsSpace)
  }

  /** `is_numeric` on a string (PHP 8: surrounding whitespace allowed). */
  predicate IsNumeric(s: string)
  {
    FloatSyntax(TrimSpace(s))
  }

  /** A number always holds a digit. */
  lemma FloatSyntaxHasDigit(s: string)
    requires FloatSyntax(s)
    ensures exists i :: 0 <= i < |s| && IsDigit(s[i])
  {
    var a := SkipSign(s, 0);
    var b := SkipDigits(s, a);
    if b > a {
      assert IsDigit(s[a]);
    } else {
      assert b < |s| && s[b] == '.';
      var c := SkipDigits(s, b + 1);
      assert c > b + 1;
      assert IsDigit(s[b + 1]);
    }
  }

  /** The decimal text of every integer is a number. */
  lemma IntTextIsNumber(i: int)
    ensures FloatSyntax(IntToString(i))
  {
    IntToStringCanonical(i);
    var s := IntToString(i);
    var a := SkipSign(s, 0);
    var start := if s[0] == '-' then 1 else 0;
    assert a == start;
    assert forall k :: start <= k < |s| ==> IsDigit(s[k]) by {
      if s[0] == '-' {
        assert forall k :: 1 <= k < |s| ==> s[k] == s[1..][k - 1];
      }
    }
    SkipDigitsToEnd(s, start);
  }

  lemma {:induction false} SkipDigitsToEnd(s: string, i: nat)
    requires i <= |s|
    requires forall k :: i <= k < |s| ==> IsDigit(s[k])
    ensures SkipDigits(s, i) == |s|
    decreases |s| - i
  {
    if i < |s| {
      SkipDigitsToEnd(s, i + 1);
    }
  }

  /** A canonical integer text is numeric: `is_numeric` accepts what `(string)` of an int produces. */
  lemma IntTextIsNumeric(i: int)
    ensures IsNumeric(IntToString(i))
  {
    IntTextIsNumber(i);
    var s := IntToString(i);
    IntToStringCanonical(i);
    assert !IsSpace(s[0]);
    assert DropWhile(s, IsSpace) == s;
    assert !IsSpace(s[|s| - 1]) by {
      if s[0] == '-' {
        assert s[|s| - 1] == s[1..][|s| - 2];
      }
    }
    assert DropWhileEnd(s, IsSpace) == s;
  }
}
