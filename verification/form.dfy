/** The pure decision rules of the form builder (`Form`). The static label registry becomes
    explicit state: a `Labels` value goes into every call that reads it and comes out of
    every call that changes it. */
module Form {
  import opened Wrappers
  import opened Text
  import opened Php
  import Arr
  import Html
  import Str

  /** The names `label` has registered since the last `close`. */
  datatype Labels = Labels(names: seq<string>)

  /** The option keys `open` never copies into the form's attributes. */
  const Reserved: seq<string> := ["method", "action", "files"]

  /** The methods a hidden `_method` field stands in for. */
  const SpoofedMethods: seq<string> := ["DELETE", "PATCH", "PUT"]

  /* ---------------------------------------------------------------
   * array_merge
   * --------------------------------------------------------------- */

  /** One step of `array_merge`: a string key is written in place or last, an integer key is
      renumbered by appending. */
  function MergeEntry(acc: seq<Entry>, e: Entry): seq<Entry>
  {
    match e.key
    case StrKey(_) => Put(acc, e.key, e.val)
    case IntKey(_) => Push(acc, e.val)
  }

  function MergeInto(acc: seq<Entry>, es: seq<Entry>): seq<Entry>
    decreases |es|
  {
    if |es| == 0 then acc else MergeInto(MergeEntry(acc, es[0]), es[1..])
  }

  /** `array_merge($a, $b)`: both arrays walked in order into an empty one. */
  function Merge(a: seq<Entry>, b: seq<Entry>): seq<Entry>
  {
    MergeInto(MergeInto([], a), b)
  }

  /** A string key the merged entries do not hold keeps its value. */
  lemma {:induction false} MergeIntoAbsent(acc: seq<Entry>, es: seq<Entry>, k: Key)
    requires k.StrKey? && !HasKey(es, k)
    ensures Lookup(MergeInto(acc, es), k) == Lookup(acc, k)
    decreases |es|
  {
    if |es| > 0 {
      assert es[0].key != k;
      MergeIntoAbsent(MergeEntry(acc, es[0]), es[1..], k);
    }
  }

  /** A string key's last entry decides its merged value. */
  lemma {:induction false} MergeIntoLast(acc: seq<Entry>, es: seq<Entry>, i: nat)
    requires i < |es| && es[i].key.StrKey?
    requires forall j :: i < j < |es| ==> es[j].key != es[i].key
    ensures Lookup(MergeInto(acc, es), es[i].key) == Some(es[i].val)
    decreases |es|
  {
    var next := MergeEntry(acc, es[0]);
    if i == 0 {
      MergeIntoAbsent(next, es[1..], es[0].key);
    } else {
      assert es[1..][i - 1] == es[i];
      MergeIntoLast(next, es[1..], i - 1);
    }
  }

  /** `array_merge` on string keys: the second array's value wins, otherwise the first's. */
  lemma MergeLookup(a: seq<Entry>, b: seq<Entry>, k: Key)
    requires WellFormed(a) && WellFormed(b) && k.StrKey?
    ensures Lookup(Merge(a, b), k) == if HasKey(b, k) then Lookup(b, k) else Lookup(a, k)
  {
    if HasKey(b, k) {
      var i :| 0 <= i < |b| && b[i].key == k;
      LookupAt(b, i);
      MergeIntoLast(MergeInto([], a), b, i);
    } else {
      MergeIntoAbsent(MergeInto([], a), b, k);
      if HasKey(a, k) {
        var i :| 0 <= i < |a| && a[i].key == k;
        LookupAt(a, i);
        MergeIntoLast([], a, i);
      } else {
        MergeIntoAbsent([], a, k);
      }
    }
  }

  /* ---------------------------------------------------------------
   * Methods
   * --------------------------------------------------------------- */

  /** `Form::getMethod`: `GET` when the upper-cased method is `GET`, `POST` for anything else. */
  function GetMethod(verb: string): (r: string)
    ensures r == "GET" <==> Upper(verb) == "GET"
    ensures r == "GET" || r == "POST"
  {
    if Upper(verb) != "GET" then "POST" else "GET"
  }

  /** The method does not depend on letter case, and a method already decided stays as it is. */
  lemma GetMethodNormal(verb: string)
    ensures GetMethod(Lower(verb)) == GetMethod(verb)
    ensures GetMethod(GetMethod(verb)) == GetMethod(verb)
  {
    UpperLower(verb);
    assert Upper("GET") == "GET";
    assert Upper("POST") == "POST";
  }

  lemma UpperLower(s: string)
    ensures Upper(Lower(s)) == Upper(s)
  {
  }

  predicate IsSpoofed(verb: string)
  {
    Upper(verb) in SpoofedMethods
  }

  /* ---------------------------------------------------------------
   * Ids and inputs
   * --------------------------------------------------------------- */

  /** A string or null as a PHP value. */
  function OptStr(s: Option<string>): Value
  {
    match s
    case Some(x) => Str(x)
    case None => Null
  }

  /** `isset($options[k])`: present and not null. */
  predicate IsSet(es: seq<Entry>, k: Key)
  {
    Lookup(es, k).Some? && !Lookup(es, k).value.Null?
  }

  /** `Form::getIdAttribute`: an `id` option wins, even when null; otherwise the name, when a
      label was issued for it. The declared `?string` return type makes an `id` option that is
      neither a string nor null a type error. */
  function GetIdAttribute(labels: Labels, name: Option<string>, options: seq<Entry>): (r: Result<Option<string>, Error>)
    ensures r.Failure? <==> Lookup(options, StrKey("id")).Some? && !Lookup(options, StrKey("id")).value.Null? && !Lookup(options, StrKey("id")).value.Str?
    ensures Lookup(options, StrKey("id")) == Some(Null) ==> r == Success(None)
    ensures forall s :: Lookup(options, StrKey("id")) == Some(Str(s)) ==> r == Success(Some(s))
    ensures !HasKey(options, StrKey("id")) ==>
              r == Success(if name.Some? && name.value in labels.names then name else None)
  {
    match Lookup(options, StrKey("id"))
    case Some(Null) => Success(None)
    case Some(Str(s)) => Success(Some(s))
    case Some(_) => Failure(TypeError)
    case None => if name.Some? && name.value in labels.names then Success(name) else Success(None)
  }

  /** `Form::input`: the name goes in unless the options set one, then `type`, `value` and
      `id` are merged over the options. */
  function Input(labels: Labels, inputType: string, name: Option<string>, value: Value, options: seq<Entry>): (r: Result<string, Error>)
    ensures r.Success? ==> |r.value| >= 7 && r.value[..6] == "<input" && r.value[|r.value| - 1] == '>'
  {
    var named := if IsSet(options, StrKey("name")) then options else Put(options, StrKey("name"), OptStr(name));
    var id :- GetIdAttribute(labels, name, named);
    var merged := Merge(named, [Entry(StrKey("type"), Str(inputType)), Entry(StrKey("value"), value), Entry(StrKey("id"), OptStr(id))]);
    var html :- Html.Attributes(merged);
    InputTag(html);
    Success("<input" + html + ">")
  }

  lemma InputTag(html: string)
    ensures var s := "<input" + html + ">"; |s| >= 7 && s[..6] == "<input" && s[|s| - 1] == '>'
  {
    Tag("<input", html + ">");
    assert "<input" + html + ">" == "<input" + (html + ">");
  }

  /** `Form::hidden`. */
  function Hidden(labels: Labels, name: string, value: Option<string>, options: seq<Entry>): (r: Result<string, Error>)
    ensures r.Success? ==> |r.value| >= 7 && r.value[..6] == "<input"
  {
    Input(labels, "hidden", Some(name), OptStr(value), options)
  }

  /** `Form::getAppendage`: a hidden `_method` field for the methods a form cannot send. */
  function Appendage(labels: Labels, verb: string): (r: Result<string, Error>)
    ensures r == Success("") <==> !IsSpoofed(verb)
  {
    if IsSpoofed(verb) then Hidden(labels, "_method", Some(Upper(verb)), []) else Success("")
  }

  /** Entries under fresh, distinct string keys are merged by appending them. */
  lemma {:induction false} MergeFresh(acc: seq<Entry>, es: seq<Entry>)
    requires forall i :: 0 <= i < |es| ==> es[i].key.StrKey? && !HasKey(acc, es[i].key)
    requires forall i, j :: 0 <= i < j < |es| ==> es[i].key != es[j].key
    ensures MergeInto(acc, es) == acc + es
    decreases |es|
  {
    if |es| == 0 {
      assert acc + es == acc;
    } else {
      var next := acc + [es[0]];
      assert MergeEntry(acc, es[0]) == next;
      assert forall i :: 0 <= i < |es[1..]| ==> es[1..][i] == es[i + 1];
      assert forall i :: 0 <= i < |es[1..]| ==> !HasKey(next, es[1..][i].key) by {
        forall i | 0 <= i < |es[1..]|
          ensures !HasKey(next, es[1..][i].key)
        {
          assert es[1..][i].key != es[0].key;
          assert !HasKey(acc, es[i + 1].key);
        }
      }
      MergeFresh(next, es[1..]);
      ShiftHead(acc, es);
    }
  }

  lemma ShiftHead<T>(acc: seq<T>, es: seq<T>)
    requires |es| > 0
    ensures (acc + [es[0]]) + es[1..] == acc + es
  {
  }

  /** `Form::hidden` spelled out: name, type and value in that order, then the id when a
      label was issued for the name. */
  lemma HiddenField(labels: Labels, name: string, v: string)
    ensures Hidden(labels, name, Some(v), []) ==
      Success("<input" + Html.Spaced([Html.Quoted("name", name), Html.Quoted("type", "hidden"), Html.Quoted("value", v)]
                                     + (if name in labels.names then [Html.Quoted("id", name)] else [])) + ">")
  {
    var named := [Entry(StrKey("name"), Str(name))];
    assert Put([], StrKey("name"), Str(name)) == named;
    var id := if name in labels.names then Some(name) else None;
    assert GetIdAttribute(labels, Some(name), named) == Success(id);
    var e2 := Entry(StrKey("type"), Str("hidden"));
    var e3 := Entry(StrKey("value"), Str(v));
    var e4 := Entry(StrKey("id"), OptStr(id));
    HiddenArray(named[0], e2, e3, e4);
    HiddenAttributes(name, v, id);
  }

  lemma HiddenArray(e1: Entry, e2: Entry, e3: Entry, e4: Entry)
    requires e1.key.StrKey? && e2.key.StrKey? && e3.key.StrKey? && e4.key.StrKey?
    requires e1.key != e2.key && e1.key != e3.key && e1.key != e4.key
    requires e2.key != e3.key && e2.key != e4.key && e3.key != e4.key
    ensures Merge([e1], [e2, e3, e4]) == [e1, e2, e3, e4]
  {
    FreshThree(e1, e2, e3, e4);
    MergeOfFresh([e1], [e2, e3, e4]);
    assert [e1] + [e2, e3, e4] == [e1, e2, e3, e4];
  }

  /** A single string-keyed entry merged with fresh, distinct string keys: the two side by side. */
  lemma MergeOfFresh(a: seq<Entry>, b: seq<Entry>)
    requires |a| == 1 && a[0].key.StrKey?
    requires forall i :: 0 <= i < |b| ==> b[i].key.StrKey? && !HasKey(a, b[i].key)
    requires forall i, j :: 0 <= i < j < |b| ==> b[i].key != b[j].key
    ensures Merge(a, b) == a + b
  {
    MergeSingle(a[0]);
    assert a == [a[0]];
    MergeFresh(a, b);
  }

  lemma MergeSingle(e: Entry)
    requires e.key.StrKey?
    ensures MergeInto([], [e]) == [e]
  {
    assert [e][1..] == [];
  }

  lemma FreshThree(e1: Entry, e2: Entry, e3: Entry, e4: Entry)
    requires e1.key.StrKey? && e2.key.StrKey? && e3.key.StrKey? && e4.key.StrKey?
    requires e1.key != e2.key && e1.key != e3.key && e1.key != e4.key
    requires e2.key != e3.key && e2.key != e4.key && e3.key != e4.key
    ensures forall i :: 0 <= i < |[e2, e3, e4]| ==> [e2, e3, e4][i].key.StrKey? && !HasKey([e1], [e2, e3, e4][i].key)
    ensures forall i, j :: 0 <= i < j < |[e2, e3, e4]| ==> [e2, e3, e4][i].key != [e2, e3, e4][j].key
  {
  }

  /** Four elements, the last possibly null, behind blanks. */
  lemma FourAttributes(e1: Entry, e2: Entry, e3: Entry, e4: Entry, x1: string, x2: string, x3: string, tail: seq<string>)
    requires Html.AttributeElement(e1.key, e1.val) == Success(Some(x1))
    requires Html.AttributeElement(e2.key, e2.val) == Success(Some(x2))
    requires Html.AttributeElement(e3.key, e3.val) == Success(Some(x3))
    requires Html.AttributeElement(e4.key, e4.val) == Success(if tail == [] then None else Some(tail[0]))
    requires |tail| <= 1
    ensures Html.Attributes([e1, e2, e3, e4]) == Success(Html.Spaced([x1, x2, x3] + tail))
  {
    FourElements(e1, e2, e3, e4, x1, x2, x3, tail);
  }

  lemma FourElements(e1: Entry, e2: Entry, e3: Entry, e4: Entry, x1: string, x2: string, x3: string, tail: seq<string>)
    requires Html.AttributeElement(e1.key, e1.val) == Success(Some(x1))
    requires Html.AttributeElement(e2.key, e2.val) == Success(Some(x2))
    requires Html.AttributeElement(e3.key, e3.val) == Success(Some(x3))
    requires Html.AttributeElement(e4.key, e4.val) == Success(if tail == [] then None else Some(tail[0]))
    requires |tail| <= 1
    ensures Html.Elements([e1, e2, e3, e4]) == Success([x1, x2, x3] + tail)
  {
    assert Html.Elements([]) == Success([]);
    Html.ElementsPrepend(e4, []);
    assert [e4] + [] == [e4];
    if tail != [] {
      assert [tail[0]] + [] == tail;
    }
    assert Html.Elements([e4]) == Success(tail);
    PrependSome(e3, [e4], x3, tail);
    PrependSome(e2, [e3] + [e4], x2, [x3] + tail);
    PrependSome(e1, [e2] + ([e3] + [e4]), x1, [x2] + ([x3] + tail));
    assert [e1] + ([e2] + ([e3] + [e4])) == [e1, e2, e3, e4];
    assert [x1] + ([x2] + ([x3] + tail)) == [x1, x2, x3] + tail;
  }

  lemma PrependSome(e: Entry, es: seq<Entry>, x: string, xs: seq<string>)
    requires Html.AttributeElement(e.key, e.val) == Success(Some(x)) && Html.Elements(es) == Success(xs)
    ensures Html.Elements([e] + es) == Success([x] + xs)
  {
    Html.ElementsPrepend(e, es);
  }

  lemma HiddenAttributes(name: string, v: string, id: Option<string>)
    ensures Html.Attributes([Entry(StrKey("name"), Str(name)), Entry(StrKey("type"), Str("hidden")), Entry(StrKey("value"), Str(v)), Entry(StrKey("id"), OptStr(id))])
         == Success(Html.Spaced([Html.Quoted("name", name), Html.Quoted("type", "hidden"), Html.Quoted("value", v)]
                                + (if id.Some? then [Html.Quoted("id", id.value)] else [])))
  {
    QuotedElement("name", name);
    QuotedElement("type", "hidden");
    QuotedElement("value", v);
    IdElement(id);
    var tail := if id.Some? then [Html.Quoted("id", id.value)] else [];
    FourAttributes(Entry(StrKey("name"), Str(name)), Entry(StrKey("type"), Str("hidden")), Entry(StrKey("value"), Str(v)),
                   Entry(StrKey("id"), OptStr(id)), Html.Quoted("name", name), Html.Quoted("type", "hidden"), Html.Quoted("value", v), tail);
  }

  /** A string under a word key is written `key="escaped text"`. */
  lemma QuotedElement(key: string, v: string)
    requires key == "name" || key == "type" || key == "value" || key == "id"
    ensures Html.AttributeElement(StrKey(key), Str(v)) == Success(Some(Html.Quoted(key, v)))
  {
    Html.WordKeyNotNumeric(key);
  }

  lemma IdElement(id: Option<string>)
    ensures Html.AttributeElement(StrKey("id"), OptStr(id)) ==
      Success(if id.Some? then Some(Html.Quoted("id", id.value)) else None)
  {
    Html.WordKeyNotNumeric("id");
  }

  /** A spoofed method gets its hidden field, named `_method` and holding the upper-cased
      method, unless a label named `_method` was issued (then it also carries that id). */
  lemma AppendageSpoofed(labels: Labels, verb: string)
    requires IsSpoofed(verb) && "_method" !in labels.names
    ensures Appendage(labels, verb) ==
      Success("<input" + Html.Spaced([Html.Quoted("name", "_method"), Html.Quoted("type", "hidden"), Html.Quoted("value", Upper(verb))]) + ">")
  {
    HiddenField(labels, "_method", Upper(verb));
    assert [Html.Quoted("name", "_method"), Html.Quoted("type", "hidden"), Html.Quoted("value", Upper(verb))] + []
        == [Html.Quoted("name", "_method"), Html.Quoted("type", "hidden"), Html.Quoted("value", Upper(verb))];
  }

  /* ---------------------------------------------------------------
   * open
   * --------------------------------------------------------------- */

  /** A key that opens with a letter is stored as a string key. */
  lemma WordKeyOf(s: string)
    requires |s| > 0 && IsLetter(s[0])
    ensures KeyOf(s) == StrKey(s) && Normal(StrKey(s))
  {
    assert !IsDigit(s[0]);
  }

  /** Forgetting a key without a dot unsets that top-level key and nothing else. */
  lemma ForgetOneDotFree(root: seq<Entry>, key: string)
    requires '.' !in key
    ensures Arr.ForgetOne(root, key) == Success(Remove(root, KeyOf(key)))
  {
    Arr.SegmentsWithoutDot(key);
    var segs := Arr.Segments(key);
    assert segs[..|segs| - 1] == [];
  }

  /** `Arr::except($options, ['method', 'action', 'files'])`. */
  lemma ExceptReserved(options: seq<Entry>)
    ensures Arr.Except(options, Reserved) ==
      Success(Remove(Remove(Remove(options, StrKey("method")), StrKey("action")), StrKey("files")))
  {
    WordKeyOf("method");
    WordKeyOf("action");
    WordKeyOf("files");
    var r1 := Remove(options, StrKey("method"));
    var r2 := Remove(r1, StrKey("action"));
    Arr.ForgetAgreesWithoutDots(options, Reserved);
    ForgetOneDotFree(options, "method");
    ForgetOneDotFree(r1, "action");
    ForgetOneDotFree(r2, "files");
    assert Reserved[1..] == ["action", "files"];
    assert Reserved[1..][1..] == ["files"];
  }

  /** The `method` option, `post` when absent; `getMethod` takes a string only. */
  function MethodOption(options: seq<Entry>): (r: Result<string, Error>)
    ensures r.Success? <==> !HasKey(options, StrKey("method")) || Lookup(options, StrKey("method")).value.Str?
    ensures !HasKey(options, StrKey("method")) ==> r == Success("post")
    ensures HasKey(options, StrKey("method")) && Lookup(options, StrKey("method")).value.Str? ==>
              r == Success(Lookup(options, StrKey("method")).value.s)
  {
    GetMethodOption(options);
    match Arr.Get(options, Some("method"), Str("post"))
    case Str(verb) => Success(verb)
    case _ => Failure(TypeError)
  }

  lemma GetMethodOption(options: seq<Entry>)
    ensures Arr.Get(options, Some("method"), Str("post")) == Lookup(options, StrKey("method")).GetOr(Str("post"))
  {
    WordKeyOf("method");
    assert '.' !in "method";
  }

  /** The `action` option as `getAction` hands it back: null when absent, a type error when
      neither a string nor null. */
  function ActionOption(options: seq<Entry>): (r: Result<Value, Error>)
    ensures r.Success? ==> r.value.Null? || r.value.Str?
    ensures r.Success? <==> !HasKey(options, StrKey("action")) || Lookup(options, StrKey("action")).value.Null? || Lookup(options, StrKey("action")).value.Str?
    ensures r.Success? ==> r.value == Lookup(options, StrKey("action")).GetOr(Null)
  {
    var action := Lookup(options, StrKey("action")).GetOr(Null);
    if action.Null? || action.Str? then Success(action) else Failure(TypeError)
  }

  /** Whether `files` is set and truthy. */
  predicate WantsFiles(options: seq<Entry>)
  {
    IsSet(options, StrKey("files")) && Truthy(Lookup(options, StrKey("files")).value)
  }

  /** The attributes `open` sets itself: the charset, the decided method and, when truthy,
      the action. */
  function Leading(verb: string, action: Value): seq<Entry>
  {
    var base := [Entry(StrKey("accept-charset"), Str("UTF-8")), Entry(StrKey("method"), Str(GetMethod(verb)))];
    if Truthy(action) then base + [Entry(StrKey("action"), action)] else base
  }

  /** The options with `enctype` set when files are wanted. */
  function Enctyped(options: seq<Entry>): seq<Entry>
  {
    if WantsFiles(options) then Put(options, StrKey("enctype"), Str("multipart/form-data")) else options
  }

  /** The options `open` copies: `Arr::except` of the reserved keys, which for these
      dot-free keys unsets each of them at the top level. */
  function Copied(options: seq<Entry>): (r: seq<Entry>)
    ensures r == Remove(Remove(Remove(Enctyped(options), StrKey("method")), StrKey("action")), StrKey("files"))
  {
    ExceptReserved(Enctyped(options));
    Arr.Except(Enctyped(options), Reserved).value
  }

  /** The attribute array `open` hands to `HTML::attributes`: its own attributes with the
      copied options merged over them. */
  function FormAttributes(options: seq<Entry>): (r: Result<seq<Entry>, Error>)
    ensures r.Success? <==> MethodOption(options).Success? && ActionOption(options).Success?
  {
    var verb :- MethodOption(options);
    var action :- ActionOption(options);
    Success(Merge(Leading(verb, action), Copied(options)))
  }

  /** `Form::open`. */
  function Open(labels: Labels, options: seq<Entry>): (r: Result<string, Error>)
    ensures r.Success? ==> |r.value| >= 6 && r.value[..5] == "<form"
  {
    match FormAttributes(options)
    case Failure(e) => Failure(e)
    case Success(attrs) =>
      match Html.Attributes(attrs)
      case Failure(e) => Failure(e)
      case Success(html) =>
        match Appendage(labels, MethodOption(options).value)
        case Failure(e) => Failure(e)
        case Success(append) =>
          Tag("<form", html + ">" + append);
          Success("<form" + (html + ">" + append))
  }

  lemma Tag(open: string, rest: string)
    ensures (open + rest)[..|open|] == open
  {
  }

  /** What `open` sets itself, key by key. */
  lemma LeadingLookup(verb: string, action: Value, k: Key)
    requires action.Null? || action.Str?
    ensures WellFormed(Leading(verb, action))
    ensures Lookup(Leading(verb, action), k) ==
      if k == StrKey("accept-charset") then Some(Str("UTF-8"))
      else if k == StrKey("method") then Some(Str(GetMethod(verb)))
      else if k == StrKey("action") && Truthy(action) then Some(action)
      else None
  {
    WordKeyOf("accept-charset");
    WordKeyOf("method");
    WordKeyOf("action");
    var a := Entry(StrKey("accept-charset"), Str("UTF-8"));
    var m := Entry(StrKey("method"), Str(GetMethod(verb)));
    if Truthy(action) {
      var c := Entry(StrKey("action"), action);
      assert Leading(verb, action) == [a, m, c];
      LookupThree(a, m, c, k);
      WellFormedThree(a, m, c);
    } else {
      assert Leading(verb, action) == [a, m];
      LookupThree(a, m, m, k);
      WellFormedTwo(a, m);
    }
  }

  /** Looking up in a short array finds the first entry under the key. */
  lemma LookupThree(a: Entry, b: Entry, c: Entry, k: Key)
    ensures Lookup([a, b, c], k) ==
      if k == a.key then Some(a.val) else if k == b.key then Some(b.val) else if k == c.key then Some(c.val) else None
    ensures Lookup([a, b], k) == if k == a.key then Some(a.val) else if k == b.key then Some(b.val) else None
  {
    assert [a, b, c][1..] == [b, c] && [b, c][1..] == [c] && [c][1..] == [];
    assert [a, b][1..] == [b] && [b][1..] == [];
    assert Lookup([c], k) == if k == c.key then Some(c.val) else None;
    assert Lookup([b], k) == if k == b.key then Some(b.val) else None;
    assert Lookup([b, c], k) == if k == b.key then Some(b.val) else Lookup([c], k);
  }

  lemma WellFormedTwo(a: Entry, b: Entry)
    requires Normal(a.key) && Normal(b.key) && a.key != b.key
    ensures WellFormed([a, b])
  {
  }

  lemma WellFormedThree(a: Entry, b: Entry, c: Entry)
    requires Normal(a.key) && Normal(b.key) && Normal(c.key)
    requires a.key != b.key && a.key != c.key && b.key != c.key
    ensures WellFormed([a, b, c])
  {
  }

  /** The options `open` copies: every key but the reserved ones, as the options hold it. */
  lemma CopiedLookup(options: seq<Entry>, k: Key)
    ensures WellFormed(options) ==> WellFormed(Copied(options))
    ensures Lookup(Copied(options), k) ==
      if k == StrKey("method") || k == StrKey("action") || k == StrKey("files") then None
      else Lookup(Enctyped(options), k)
  {
    var o := Enctyped(options);
    WordKeyOf("enctype");
    if WellFormed(options) {
      if WantsFiles(options) {
        PutWellFormed(options, StrKey("enctype"), Str("multipart/form-data"));
      }
      var r1 := Remove(o, StrKey("method"));
      var r2 := Remove(r1, StrKey("action"));
      RemoveWellFormed(o, StrKey("method"));
      RemoveWellFormed(r1, StrKey("action"));
      RemoveWellFormed(r2, StrKey("files"));
    }
  }

  /** `open` on one string key: a copied option wins over what `open` sets itself. */
  lemma FormAttributesLookup(options: seq<Entry>, k: Key)
    requires WellFormed(options) && k.StrKey?
    requires FormAttributes(options).Success?
    ensures var copied := Copied(options);
            var leading := Leading(MethodOption(options).value, ActionOption(options).value);
            Lookup(FormAttributes(options).value, k) == if HasKey(copied, k) then Lookup(copied, k) else Lookup(leading, k)
  {
    var copied := Copied(options);
    var leading := Leading(MethodOption(options).value, ActionOption(options).value);
    CopiedLookup(options, k);
    LeadingLookup(MethodOption(options).value, ActionOption(options).value, k);
    MergeLookup(leading, copied, k);
  }

  /** `method`, `action` and `files` are never copied raw: the method is the decided one, the
      action is there only when truthy, and `files` never appears. */
  lemma OpenReserved(options: seq<Entry>)
    requires WellFormed(options) && FormAttributes(options).Success?
    ensures var a := FormAttributes(options).value;
            && Lookup(a, StrKey("method")) == Some(Str(GetMethod(MethodOption(options).value)))
            && Lookup(a, StrKey("files")).None?
            && Lookup(a, StrKey("action")) ==
                 (if Truthy(ActionOption(options).value) then Some(ActionOption(options).value) else None)
  {
    var verb := MethodOption(options).value;
    var action := ActionOption(options).value;
    FormAttributesLookup(options, StrKey("method"));
    CopiedLookup(options, StrKey("method"));
    LeadingLookup(verb, action, StrKey("method"));
    FormAttributesLookup(options, StrKey("files"));
    CopiedLookup(options, StrKey("files"));
    LeadingLookup(verb, action, StrKey("files"));
    FormAttributesLookup(options, StrKey("action"));
    CopiedLookup(options, StrKey("action"));
    LeadingLookup(verb, action, StrKey("action"));
  }

  /** A truthy `files` option adds the multipart encoding. */
  lemma OpenFiles(options: seq<Entry>)
    requires WellFormed(options) && FormAttributes(options).Success? && WantsFiles(options)
    ensures Lookup(FormAttributes(options).value, StrKey("enctype")) == Some(Str("multipart/form-data"))
  {
    FormAttributesLookup(options, StrKey("enctype"));
    CopiedLookup(options, StrKey("enctype"));
  }

  /** The charset is UTF-8 unless the options give one. */
  lemma OpenCharset(options: seq<Entry>)
    requires WellFormed(options) && FormAttributes(options).Success?
    ensures Lookup(FormAttributes(options).value, StrKey("accept-charset")) ==
      Some(Lookup(options, StrKey("accept-charset")).GetOr(Str("UTF-8")))
  {
    var k := StrKey("accept-charset");
    FormAttributesLookup(options, k);
    CopiedLookup(options, k);
    assert Lookup(Enctyped(options), k) == Lookup(options, k);
    if !HasKey(options, k) {
      LeadingLookup(MethodOption(options).value, ActionOption(options).value, k);
    }
  }

  /** Every other option is passed through as it is. */
  lemma OpenCopies(options: seq<Entry>, k: Key)
    requires WellFormed(options) && FormAttributes(options).Success? && k.StrKey?
    requires k.s != "method" && k.s != "action" && k.s != "files" && k.s != "accept-charset" && k.s != "enctype"
    ensures Lookup(FormAttributes(options).value, k) == Lookup(options, k)
  {
    FormAttributesLookup(options, k);
    CopiedLookup(options, k);
    LeadingLookup(MethodOption(options).value, ActionOption(options).value, k);
  }

  /* ---------------------------------------------------------------
   * Labels
   * --------------------------------------------------------------- */

  /** `str_replace(['_', '-'], ' ', $name)`. */
  function Unhyphen(s: string): (r: string)
    ensures |r| == |s|
    ensures forall i :: 0 <= i < |s| ==> r[i] == if s[i] == '_' || s[i] == '-' then ' ' else s[i]
  {
    seq(|s|, i requires 0 <= i < |s| => if s[i] == '_' || s[i] == '-' then ' ' else s[i])
  }

  /** Where `ucwords` upper-cases: the first character and every one after whitespace. */
  predicate WordStart(s: string, i: int)
    requires 0 <= i < |s|
  {
    i == 0 || IsSpace(s[i - 1])
  }

  /** `ucwords` with its default delimiters (blank, tab, line breaks, form feed, vertical tab). */
  function UcWords(s: string): (r: string)
    ensures |r| == |s|
    ensures forall i :: 0 <= i < |s| ==> r[i] == if WordStart(s, i) then UpperChar(s[i]) else s[i]
  {
    seq(|s|, i requires 0 <= i < |s| => if WordStart(s, i) then UpperChar(s[i]) else s[i])
  }

  /** `Form::formatLabel`: a truthy value as it is, otherwise the name with `_` and `-` turned
      into blanks and every word capitalised. */
  function FormatLabel(name: string, value: Option<string>): (r: string)
    ensures value.Some? && Truthy(Str(value.value)) ==> r == value.value
  {
    if value.Some? && Truthy(Str(value.value)) then value.value else UcWords(Unhyphen(name))
  }

  /** Capitalising keeps each character up to case, so blanks, `_` and `-` stay where they are. */
  lemma UcWordsCase(s: string)
    ensures Lower(UcWords(s)) == Lower(s)
    ensures forall i :: 0 <= i < |s| ==> (UcWords(s)[i] == s[i] || (IsLower(s[i]) && UcWords(s)[i] == UpperChar(s[i])))
  {
    var r := UcWords(s);
    forall i | 0 <= i < |s|
      ensures LowerChar(r[i]) == LowerChar(s[i])
    {
      LowerOfUpper(s[i]);
    }
  }

  lemma LowerOfUpper(c: char)
    ensures LowerChar(UpperChar(c)) == LowerChar(c)
  {
  }

  /** After capitalising, no word starts with a lower-case letter. */
  lemma UcWordsStarts(s: string)
    ensures forall i :: 0 <= i < |s| && WordStart(UcWords(s), i) ==> !IsLower(UcWords(s)[i])
  {
    var r := UcWords(s);
    forall i | 0 <= i < |s| && WordStart(r, i)
      ensures !IsLower(r[i])
    {
      if i > 0 {
        UcWordsCase(s);
        assert IsSpace(s[i - 1]);
      }
    }
  }

  /** The label made from a name: no `_` or `-` is left, the letters are the name's up to case,
      and no word starts with a lower-case letter. */
  lemma FormatLabelFromName(name: string, value: Option<string>)
    requires value.None? || !Truthy(Str(value.value))
    ensures var r := FormatLabel(name, value);
            && |r| == |name|
            && (forall i :: 0 <= i < |r| ==> r[i] != '_' && r[i] != '-')
            && Lower(r) == Lower(Unhyphen(name))
            && (forall i :: 0 <= i < |r| && WordStart(r, i) ==> !IsLower(r[i]))
  {
    var u := Unhyphen(name);
    UcWordsCase(u);
    UcWordsStarts(u);
  }

  /** Capitalising words twice is capitalising them once. */
  lemma UcWordsIdempotent(s: string)
    ensures UcWords(UcWords(s)) == UcWords(s)
  {
    var r := UcWords(s);
    forall i | 0 <= i < |s|
      ensures WordStart(r, i) == WordStart(s, i)
    {
      if i > 0 {
        assert IsSpace(r[i - 1]) == IsSpace(s[i - 1]);
      }
    }
  }

  /** A label made from a name is its own label: formatting it again changes nothing. */
  lemma FormatLabelIdempotent(name: string)
    ensures FormatLabel(FormatLabel(name, None), None) == FormatLabel(name, None)
  {
    var r := FormatLabel(name, None);
    FormatLabelFromName(name, None);
    assert Unhyphen(r) == r;
    UcWordsIdempotent(Unhyphen(name));
  }

  /** What a call that touches the registry leaves: the registry and the markup. */
  datatype Issued = Issued(labels: Labels, html: Result<string, Error>)

  /** `Form::label`. The name is registered first, so it stays registered even when building
      the attributes fails. The text is escaped without double encoding. */
  function Label(labels: Labels, name: string, value: Option<string>, options: seq<Entry>, escapeHtml: bool): (r: Issued)
    ensures r.labels.names == labels.names + [name]
    ensures r.html.Success? <==> Html.Attributes(options).Success?
  {
    var registered := Labels(labels.names + [name]);
    match Html.Attributes(options)
    case Failure(e) => Issued(registered, Failure(e))
    case Success(attrs) =>
      var text := FormatLabel(name, value);
      var shown := if escapeHtml then Str.EscapeKeepingEntities(text) else text;
      Issued(registered, Success("<label for=\"" + name + "\"" + attrs + ">" + shown + "</label>"))
  }

  /** `Form::close`: the registry is emptied. */
  function Close(labels: Labels): (r: Issued)
    ensures r.html == Success("</form>")
    ensures r.labels.names == []
  {
    Issued(Labels([]), Success("</form>"))
  }

  /** After `close` no name takes its id from the registry, whatever was labelled before. */
  lemma CloseForgetsLabels(labels: Labels, name: string, fieldOptions: seq<Entry>)
    requires !HasKey(fieldOptions, StrKey("id"))
    ensures GetIdAttribute(Close(labels).labels, Some(name), fieldOptions) == Success(None)
    ensures GetIdAttribute(Close(labels).labels, Some(name), fieldOptions) ==
            GetIdAttribute(Labels([]), Some(name), fieldOptions)
  {
  }

  /** A label makes its name the id of a later field without an `id` option, until `close`. */
  lemma LabelGivesId(labels: Labels, name: string, value: Option<string>, options: seq<Entry>, escapeHtml: bool, fieldOptions: seq<Entry>)
    requires !HasKey(fieldOptions, StrKey("id"))
    ensures GetIdAttribute(Label(labels, name, value, options, escapeHtml).labels, Some(name), fieldOptions) == Success(Some(name))
    ensures GetIdAttribute(Close(Label(labels, name, value, options, escapeHtml).labels).labels, Some(name), fieldOptions) == Success(None)
  {
    assert name == (labels.names + [name])[|labels.names|];
  }

  /** An explicit `id` option always wins over the registry. */
  lemma ExplicitIdWins(labels: Labels, name: Option<string>, options: seq<Entry>, id: string)
    requires Lookup(options, StrKey("id")) == Some(Str(id))
    ensures GetIdAttribute(labels, name, options) == Success(Some(id))
  {
  }

  /* ---------------------------------------------------------------
   * Textarea
   * --------------------------------------------------------------- */

  /** The options with the field's name put in unless they set one. */
  function Named(options: seq<Entry>, name: string): (r: seq<Entry>)
    ensures IsSet(options, StrKey("name")) ==> r == options
    ensures !IsSet(options, StrKey("name")) ==> Lookup(r, StrKey("name")) == Some(Str(name))
    ensures forall k :: k != StrKey("name") ==> Lookup(r, k) == Lookup(options, k)
    ensures WellFormed(options) ==> WellFormed(r)
  {
    if IsSet(options, StrKey("name")) then options
    else
      PutNameWellFormed(options, name);
      Put(options, StrKey("name"), Str(name))
  }

  lemma PutNameWellFormed(options: seq<Entry>, name: string)
    ensures WellFormed(options) ==> WellFormed(Put(options, StrKey("name"), Str(name)))
  {
    WordKeyOf("name");
    if WellFormed(options) {
      PutWellFormed(options, StrKey("name"), Str(name));
    }
  }

  /** `compact('cols', 'rows')`. */
  function SizeEntries(cols: Value, rows: Value): (r: seq<Entry>)
    ensures WellFormed(r)
    ensures HasKey(r, StrKey("cols")) && HasKey(r, StrKey("rows"))
  {
    WordKeyOf("cols");
    WordKeyOf("rows");
    assert [Entry(StrKey("cols"), cols), Entry(StrKey("rows"), rows)][0].key == StrKey("cols");
    assert [Entry(StrKey("cols"), cols), Entry(StrKey("rows"), rows)][1].key == StrKey("rows");
    [Entry(StrKey("cols"), cols), Entry(StrKey("rows"), rows)]
  }

  /** Merging the sizes in sets cols and rows and leaves every other string key alone. */
  lemma SizedLookup(options: seq<Entry>, cols: Value, rows: Value, k: Key)
    requires WellFormed(options) && k.StrKey?
    ensures Lookup(Merge(options, SizeEntries(cols, rows)), k) ==
              if k == StrKey("cols") then Some(cols)
              else if k == StrKey("rows") then Some(rows)
              else Lookup(options, k)
  {
    var sz := SizeEntries(cols, rows);
    MergeLookup(options, sz, k);
    LookupAt(sz, 0);
    LookupAt(sz, 1);
  }

  /** `Form::setQuickTextareaSize`: `size` split at `x` gives cols and rows; a missing second
      part reads as null. `explode` takes a string only. */
  function QuickTextareaSize(options: seq<Entry>): (r: Result<seq<Entry>, Error>)
    requires HasKey(options, StrKey("size"))
    ensures r.Success? <==> Lookup(options, StrKey("size")).value.Str?
  {
    match Lookup(options, StrKey("size")).value
    case Str(size) =>
      var segs := Split(size, "x");
      Success(Merge(options, SizeEntries(Str(segs[0]), if |segs| > 1 then Str(segs[1]) else Null)))
    case _ => Failure(TypeError)
  }

  /** `Form::setTextareaSizes`: the quick size when `size` is set, otherwise cols 50 and
      rows 10 unless the options give them. */
  function TextareaSizes(options: seq<Entry>): (r: Result<seq<Entry>, Error>)
    ensures !IsSet(options, StrKey("size")) ==> r.Success?
  {
    if IsSet(options, StrKey("size")) then QuickTextareaSize(options)
    else
      WordKeyOf("cols");
      WordKeyOf("rows");
      var cols := Arr.Get(options, Some("cols"), Int(50));
      var rows := Arr.Get(options, Some("rows"), Int(10));
      Success(Merge(options, SizeEntries(cols, rows)))
  }

  /** The attribute array of `Form::textarea`: the name unless set, the sizes, the id, and
      never `size` itself. */
  function TextareaAttributes(labels: Labels, name: string, options: seq<Entry>): (r: Result<seq<Entry>, Error>)
    ensures r.Success? <==> TextareaSizes(Named(options, name)).Success? &&
                            GetIdAttribute(labels, Some(name), TextareaSizes(Named(options, name)).value).Success?
    ensures r.Success? ==> Lookup(r.value, StrKey("size")).None?
    ensures r.Success? ==> Lookup(r.value, StrKey("id")) == Some(OptStr(GetIdAttribute(labels, Some(name), TextareaSizes(Named(options, name)).value).value))
    ensures r.Success? ==> forall k :: k != StrKey("id") && k != StrKey("size") ==>
              Lookup(r.value, k) == Lookup(TextareaSizes(Named(options, name)).value, k)
  {
    var sized :- TextareaSizes(Named(options, name));
    var id :- GetIdAttribute(labels, Some(name), sized);
    Success(Remove(Put(sized, StrKey("id"), OptStr(id)), StrKey("size")))
  }

  /** `Form::textarea`. A null value shows as nothing; the text is escaped without double
      encoding unless asked not to. */
  function Textarea(labels: Labels, name: string, value: Option<string>, options: seq<Entry>, escapeHtml: bool): (r: Result<string, Error>)
    ensures r.Success? <==> TextareaAttributes(labels, name, options).Success? && Html.Attributes(TextareaAttributes(labels, name, options).value).Success?
    ensures r.Success? ==> Enclosing(r.value, "textarea")
  {
    var attrs :- TextareaAttributes(labels, name, options);
    var html :- Html.Attributes(attrs);
    var text := value.GetOr("");
    Success(Enclose("textarea", html, if escapeHtml then Str.EscapeKeepingEntities(text) else text))
  }

  /** Markup that opens with `<tag` and closes with `</tag>`. */
  predicate Enclosing(s: string, tag: string)
  {
    |s| >= 2 * |tag| + 4 && s[..|tag| + 1] == "<" + tag && s[|s| - |tag| - 3..] == "</" + tag + ">"
  }

  /** `<tag attrs>body</tag>`. */
  function Enclose(tag: string, attrs: string, body: string): (r: string)
    ensures Enclosing(r, tag)
  {
    var open := "<" + tag + attrs + ">";
    var close := "</" + tag + ">";
    assert (open + body + close)[..|tag| + 1] == "<" + tag;
    assert (open + body + close)[|open + body|..] == close;
    open + body + close
  }

  /** An `id` option, if any, holds a string or null. */
  predicate IdUsable(options: seq<Entry>)
  {
    !HasKey(options, StrKey("id")) || Lookup(options, StrKey("id")).value.Null? || Lookup(options, StrKey("id")).value.Str?
  }

  /** With a usable `id` option and sizes computed, the textarea attributes are built. */
  lemma TextareaAttributesBuilt(labels: Labels, name: string, options: seq<Entry>, cols: Value, rows: Value)
    requires WellFormed(options) && IdUsable(options)
    requires TextareaSizes(Named(options, name)) == Success(Merge(Named(options, name), SizeEntries(cols, rows)))
    ensures TextareaAttributes(labels, name, options).Success?
    ensures var a := TextareaAttributes(labels, name, options).value;
            Lookup(a, StrKey("cols")) == Some(cols) && Lookup(a, StrKey("rows")) == Some(rows)
  {
    SizedFacts(options, name, cols, rows);
    AttributesOfSized(labels, name, options, Merge(Named(options, name), SizeEntries(cols, rows)));
  }

  lemma SizedFacts(options: seq<Entry>, name: string, cols: Value, rows: Value)
    requires WellFormed(options) && IdUsable(options)
    ensures var sized := Merge(Named(options, name), SizeEntries(cols, rows));
            IdUsable(sized) && Lookup(sized, StrKey("cols")) == Some(cols) && Lookup(sized, StrKey("rows")) == Some(rows)
  {
    var named := Named(options, name);
    SizedLookup(named, cols, rows, StrKey("id"));
    SizedLookup(named, cols, rows, StrKey("cols"));
    SizedLookup(named, cols, rows, StrKey("rows"));
  }

  /** Once the sizes are known and the id is usable, the attributes are the sized options
      apart from `id` and `size`. */
  lemma AttributesOfSized(labels: Labels, name: string, options: seq<Entry>, sized: seq<Entry>)
    requires TextareaSizes(Named(options, name)) == Success(sized) && IdUsable(sized)
    ensures TextareaAttributes(labels, name, options).Success?
    ensures forall k :: k != StrKey("id") && k != StrKey("size") ==>
              Lookup(TextareaAttributes(labels, name, options).value, k) == Lookup(sized, k)
  {
  }

  /** A `size` of `CxR` makes cols C and rows R (and `size` itself is dropped). */
  lemma TextareaQuickSize(labels: Labels, name: string, options: seq<Entry>, c: string, r: string)
    requires WellFormed(options) && IdUsable(options)
    requires Lookup(options, StrKey("size")) == Some(Str(c + "x" + r))
    requires 'x' !in c && 'x' !in r
    ensures TextareaAttributes(labels, name, options).Success?
    ensures var a := TextareaAttributes(labels, name, options).value;
            Lookup(a, StrKey("cols")) == Some(Str(c)) && Lookup(a, StrKey("rows")) == Some(Str(r))
  {
    var named := Named(options, name);
    QuickSizeOf(named, c, r);
    TextareaAttributesBuilt(labels, name, options, Str(c), Str(r));
  }

  lemma QuickSizeOf(named: seq<Entry>, c: string, r: string)
    requires Lookup(named, StrKey("size")) == Some(Str(c + "x" + r))
    requires 'x' !in c && 'x' !in r
    ensures TextareaSizes(named) == Success(Merge(named, SizeEntries(Str(c), Str(r))))
  {
    SplitOnce(c, "x", r);
    var segs := Split(c + "x" + r, "x");
    assert segs[0] == c && |segs| > 1 && segs[1] == r;
    assert IsSet(named, StrKey("size"));
    assert QuickTextareaSize(named) == Success(Merge(named, SizeEntries(Str(c), Str(r))));
  }

  /** Without `size`, cols default to 50 and rows to 10. */
  lemma TextareaDefaultSize(labels: Labels, name: string, options: seq<Entry>)
    requires WellFormed(options) && IdUsable(options)
    requires !IsSet(options, StrKey("size"))
    ensures TextareaAttributes(labels, name, options).Success?
    ensures var a := TextareaAttributes(labels, name, options).value;
            && Lookup(a, StrKey("cols")) == Some(Lookup(options, StrKey("cols")).GetOr(Int(50)))
            && Lookup(a, StrKey("rows")) == Some(Lookup(options, StrKey("rows")).GetOr(Int(10)))
  {
    var named := Named(options, name);
    var cols := Lookup(options, StrKey("cols")).GetOr(Int(50));
    var rows := Lookup(options, StrKey("rows")).GetOr(Int(10));
    DefaultSizeOf(named, cols, rows);
    TextareaAttributesBuilt(labels, name, options, cols, rows);
  }

  lemma DefaultSizeOf(named: seq<Entry>, cols: Value, rows: Value)
    requires !IsSet(named, StrKey("size"))
    requires cols == Lookup(named, StrKey("cols")).GetOr(Int(50))
    requires rows == Lookup(named, StrKey("rows")).GetOr(Int(10))
    ensures TextareaSizes(named) == Success(Merge(named, SizeEntries(cols, rows)))
  {
    WordKeyOf("cols");
    WordKeyOf("rows");
    assert '.' !in "cols" && '.' !in "rows";
    assert Arr.Get(named, Some("cols"), Int(50)) == cols;
    assert Arr.Get(named, Some("rows"), Int(10)) == rows;
  }

  /* ---------------------------------------------------------------
   * Selection
   * --------------------------------------------------------------- */

  /** `Form::getSelectedValue`: against an array, `selected` when the value is a strict
      member; an int against a bool compares truthiness; anything else compares string forms. */
  function GetSelectedValue(value: Value, selected: Value): (r: Value)
    ensures selected.Arr? ==> (r == Str("selected") || r == Null) && (r == Str("selected") <==> value in Values(selected.entries))
    ensures !selected.Arr? && value.Int? && selected.Bool? ==> r == Bool(Truthy(value) == selected.b)
    ensures !selected.Arr? && !(value.Int? && selected.Bool?) ==>
              (r == Str("selected") || r == Null) && (r == Str("selected") <==> ToStr(value) == ToStr(selected))
  {
    if selected.Arr? then (if value in Values(selected.entries) then Str("selected") else Null)
    else if value.Int? && selected.Bool? then Bool(Truthy(value) == selected.b)
    else if ToStr(value) == ToStr(selected) then Str("selected") else Null
  }

  /** Comparing string forms does not depend on the order of the two. */
  lemma SelectedSymmetric(a: Value, b: Value)
    requires !a.Arr? && !b.Arr? && !(a.Int? && b.Bool?) && !(b.Int? && a.Bool?)
    ensures GetSelectedValue(a, b) == GetSelectedValue(b, a)
  {
  }

  /** The placeholder option (value null) is selected exactly when nothing, or the empty
      string, or false is selected. */
  lemma PlaceholderSelected(selected: Value)
    requires !selected.Arr?
    ensures GetSelectedValue(Null, selected) == Str("selected") <==> ToStr(selected) == ""
  {
  }

  /** `Form::isAssocArray`: the array differs from its own `array_values`. */
  function IsAssocArray(es: seq<Entry>): (r: bool)
    ensures r <==> exists i :: 0 <= i < |es| && es[i].key != IntKey(i)
  {
    if List(Values(es)) == es then
      assert forall i :: 0 <= i < |es| ==> es[i].key == List(Values(es))[i].key;
      false
    else
      true
  }
}
