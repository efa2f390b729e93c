/** The HTML attribute helpers (`HTML`): one `key="value"` element per array entry,
    joined with blanks behind a leading blank. */
module Html {
  import opened Wrappers
  import opened Text
  import opened Php
  import Str

  /** `is_numeric($key)`: integer keys and numeric string keys. */
  predicate IsNumericKey(k: Key)
  {
    k.IntKey? || IsNumeric(k.s)
  }

  /** The texts of an array's values, as `implode` converts them. */
  function Texts(es: seq<Entry>): (r: seq<string>)
    ensures |r| == |es|
    ensures forall i :: 0 <= i < |es| ==> r[i] == ToStr(es[i].val)
  {
    seq(|es|, i requires 0 <= i < |es| => ToStr(es[i].val))
  }

  /** `key="text"` with the text escaped. */
  function Quoted(key: string, text: string): string
  {
    key + "=\"" + Str.Escape(text) + "\""
  }

  /** `HTML::attributeElement`. A numeric key hands the value back as it is; the declared
      `?string` return type under strict types makes any value other than a string or null
      a type error. A boolean under any key but `value` gives the bare key or nothing, an
      array under `class` gives its values separated by blanks, and any other non-null
      value gives `key="…"` with the value escaped. A null value gives null. */
  function AttributeElement(k: Key, v: Value): (r: Result<Option<string>, Error>)
    ensures r == Success(None) <==> v.Null?
    ensures r.Failure? <==> IsNumericKey(k) && !v.Null? && !v.Str?
    ensures r.Failure? ==> r.error == TypeError
    ensures IsNumericKey(k) && v.Str? ==> r == Success(Some(v.s))
    ensures !IsNumericKey(k) && v.Bool? && k.s != "value" ==>
              r == Success(Some(if v.b then k.s else ""))
    ensures !IsNumericKey(k) && v.Arr? && k.s == "class" ==>
              r == Success(Some("class=\"" + Join(Texts(v.entries), " ") + "\""))
  {
    if IsNumericKey(k) then
      match v
      case Null => Success(None)
      case Str(s) => Success(Some(s))
      case _ => Failure(TypeError)
    else if v.Bool? && k.s != "value" then
      Success(Some(if v.b then k.s else ""))
    else if v.Arr? && k.s == "class" then
      Success(Some("class=\"" + Join(Texts(v.entries), " ") + "\""))
    else if !v.Null? then
      Success(Some(Quoted(k.s, ToStr(v))))
    else
      Success(None)
  }

  /** An element written as `key="…"` keeps the value inside the quotes: the quoted text
      holds no double quote, and decoding it gives back the value's text. */
  lemma ElementQuoted(k: Key, v: Value)
    requires !IsNumericKey(k) && !v.Null?
    requires !(v.Bool? && k.s != "value") && !(v.Arr? && k.s == "class")
    ensures exists q ::
              Quoted(k.s, ToStr(v)) == k.s + "=\"" + q + "\"" &&
              AttributeElement(k, v) == Success(Some(k.s + "=\"" + q + "\"")) &&
              (forall i :: 0 <= i < |q| ==> q[i] != '"') &&
              Str.Unescape(q) == ToStr(v)
  {
    var q := Str.Escape(ToStr(v));
    Str.UnescapeEscape(ToStr(v));
    assert AttributeElement(k, v) == Success(Some(k.s + "=\"" + q + "\""));
  }

  /** An entry whose element is not a type error: a numeric key must hold a string or null. */
  predicate ElementOk(e: Entry)
  {
    IsNumericKey(e.key) ==> e.val.Null? || e.val.Str?
  }

  /** The elements of all entries in order, null elements skipped; the first type error
      ends the walk, as the exception leaves the loop. */
  function Elements(es: seq<Entry>): (r: Result<seq<string>, Error>)
    ensures r.Success? <==> forall i :: 0 <= i < |es| ==> ElementOk(es[i])
    ensures r.Success? ==> |r.value| <= |es|
    decreases |es|
  {
    if |es| == 0 then Success([])
    else
      match AttributeElement(es[0].key, es[0].val)
      case Failure(e) => Failure(e)
      case Success(head) =>
        match Elements(es[1..])
        case Failure(e) => Failure(e)
        case Success(tail) =>
          assert forall i :: 1 <= i < |es| ==> es[i] == es[1..][i - 1];
          Success(if head.Some? then [head.value] + tail else tail)
  }

  /** Each element behind a blank: what the attribute string amounts to. */
  function Spaced(xs: seq<string>): string
    decreases |xs|
  {
    if |xs| == 0 then "" else " " + xs[0] + Spaced(xs[1..])
  }

  /** `HTML::attributes`: nothing when no element is kept, otherwise a blank followed
      by the elements joined with blanks. */
  function Attributes(es: seq<Entry>): (r: Result<string, Error>)
    ensures r.Success? <==> forall i :: 0 <= i < |es| ==> ElementOk(es[i])
    ensures r.Success? ==> r.value == Spaced(Elements(es).value)
    ensures r.Success? ==> (r.value == "" <==> Elements(es).value == [])
  {
    match Elements(es)
    case Failure(e) => Failure(e)
    case Success(xs) =>
      JoinSpaced(xs);
      SpacedEmpty(xs);
      Success(if |xs| > 0 then " " + Join(xs, " ") else "")
  }

  lemma {:induction false} JoinSpaced(xs: seq<string>)
    ensures |xs| > 0 ==> " " + Join(xs, " ") == Spaced(xs)
    decreases |xs|
  {
    if |xs| > 1 {
      JoinSpaced(xs[1..]);
      assert Spaced(xs[1..]) == " " + Join(xs[1..], " ");
    }
  }

  lemma SpacedEmpty(xs: seq<string>)
    ensures Spaced(xs) == "" <==> xs == []
  {
    if |xs| > 0 {
      assert |Spaced(xs)| > 0;
    }
  }

  lemma {:induction false} SpacedAppend(xs: seq<string>, ys: seq<string>)
    ensures Spaced(xs + ys) == Spaced(xs) + Spaced(ys)
    decreases |xs|
  {
    if |xs| == 0 {
      assert xs + ys == ys;
    } else {
      assert (xs + ys)[0] == xs[0];
      assert (xs + ys)[1..] == xs[1..] + ys;
      SpacedAppend(xs[1..], ys);
    }
  }

  /** What one well-typed entry contributes: its element, or nothing when it is null. */
  function Piece(e: Entry): (r: seq<string>)
    requires ElementOk(e)
    ensures |r| <= 1
  {
    match AttributeElement(e.key, e.val)
    case Success(Some(x)) => [x]
    case _ => []
  }

  lemma ElementsStep(es: seq<Entry>)
    requires |es| > 0 && Elements(es).Success?
    ensures ElementOk(es[0]) && Elements(es[1..]).Success?
    ensures Elements(es) == Success(Piece(es[0]) + Elements(es[1..]).value)
  {
    var h := AttributeElement(es[0].key, es[0].val);
    assert h.Success? && Elements(es[1..]).Success?;
    var tail := Elements(es[1..]).value;
    assert Elements(es) == Success(if h.value.Some? then [h.value.value] + tail else tail);
    if h.value.None? {
      assert Piece(es[0]) == [];
      assert [] + tail == tail;
    } else {
      assert Piece(es[0]) == [h.value.value];
    }
  }

  /** Walking two arrays one after the other yields the elements of the first, then those
      of the second. */
  lemma {:induction false} ElementsAppend(a: seq<Entry>, b: seq<Entry>)
    requires Elements(a).Success? && Elements(b).Success?
    ensures Elements(a + b) == Success(Elements(a).value + Elements(b).value)
    decreases |a|
  {
    if |a| == 0 {
      assert a + b == b;
      assert Elements(a).value + Elements(b).value == Elements(b).value;
    } else {
      ElementsStep(a);
      ElementsAppend(a[1..], b);
      ElementsCons(a, b);
    }
  }

  /** The step of `ElementsAppend`: the first entry of `a` leads the walk over `a + b`. */
  lemma ElementsCons(a: seq<Entry>, b: seq<Entry>)
    requires |a| > 0 && Elements(a).Success? && Elements(b).Success?
    requires ElementOk(a[0]) && Elements(a[1..]).Success?
    requires Elements(a) == Success(Piece(a[0]) + Elements(a[1..]).value)
    requires Elements(a[1..] + b) == Success(Elements(a[1..]).value + Elements(b).value)
    ensures Elements(a + b) == Success(Elements(a).value + Elements(b).value)
  {
    var ab := a + b;
    SplitHead(a, b);
    assert Elements(ab).Success?;
    ElementsStep(ab);
    Associate(Piece(a[0]), Elements(a[1..]).value, Elements(b).value);
  }

  lemma SplitHead<T>(a: seq<T>, b: seq<T>)
    requires |a| > 0
    ensures (a + b)[0] == a[0] && (a + b)[1..] == a[1..] + b
  {
  }

  lemma Associate<T>(x: seq<T>, y: seq<T>, z: seq<T>)
    ensures x + (y + z) == (x + y) + z
  {
  }

  /** The attribute string of a concatenation is the concatenation of the attribute strings. */
  lemma AttributesAppend(a: seq<Entry>, b: seq<Entry>)
    requires Attributes(a).Success? && Attributes(b).Success?
    ensures Attributes(a + b) == Success(Attributes(a).value + Attributes(b).value)
  {
    ElementsAppend(a, b);
    SpacedAppend(Elements(a).value, Elements(b).value);
  }

  /** An entry whose value is null adds nothing, wherever it stands. */
  lemma NullEntryIgnored(a: seq<Entry>, k: Key, b: seq<Entry>)
    requires Attributes(a).Success? && Attributes(b).Success?
    ensures Attributes(a + [Entry(k, Null)] + b) == Attributes(a + b)
  {
    var n := [Entry(k, Null)];
    assert Elements(n[1..]) == Success([]);
    assert Elements(n) == Success([]);
    assert Attributes(n) == Success("");
    AttributesAppend(a, n);
    assert Attributes(a).value + "" == Attributes(a).value;
    assert Attributes(a + n) == Attributes(a);
    AttributesAppend(a + n, b);
    AttributesAppend(a, b);
  }

  /** An entry in front adds its element in front. */
  lemma ElementsPrepend(e: Entry, es: seq<Entry>)
    requires AttributeElement(e.key, e.val).Success? && Elements(es).Success?
    ensures Elements([e] + es) == Success(match AttributeElement(e.key, e.val).value
                                          case Some(x) => [x] + Elements(es).value
                                          case None => Elements(es).value)
  {
    SplitHead([e], es);
  }

  /** One entry on its own: its element behind a blank, or nothing for null. */
  lemma AttributesSingle(e: Entry)
    requires AttributeElement(e.key, e.val).Success?
    ensures Attributes([e]) == Success(match AttributeElement(e.key, e.val).value
                                       case Some(x) => " " + x
                                       case None => "")
  {
    assert [e][1..] == [];
    assert Elements([e][1..]) == Success([]);
  }

  /** A key that does not open like a number (no blank, digit, sign or point in front) is
      not numeric. */
  lemma WordKeyNotNumeric(s: string)
    requires |s| > 0 && !IsSpace(s[0]) && !IsDigit(s[0]) && s[0] != '+' && s[0] != '-' && s[0] != '.'
    ensures !IsNumeric(s)
  {
    var t := DropWhile(s, IsSpace);
    assert t == s;
    var u := DropWhileEnd(t, IsSpace);
    if |u| > 0 {
      assert u[0] == s[0];
      assert SkipSign(u, 0) == 0;
      assert SkipDigits(u, 0) == 0;
    }
  }
}
