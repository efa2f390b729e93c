/** Templates (`Template`): `%name%` placeholders in a file's text replaced by escaped data
    values, one data entry after the other. Reading the file is left to the caller: the file's
    contents come in as an optional string, absent when there is no such file. */
module Template {
  import opened Wrappers
  import opened Text
  import opened Php
  import Str

  /** The `UtilsException`s `Template::render` throws, with what their messages name. */
  datatype RenderError =
    | TemplateNotFound(template: string)   // the template file does not exist or cannot be read
    | DataNotString(name: string)          // a data value is not a string

  /** `'%' . $name . '%'` for a data key. */
  function Placeholder(k: Key): (p: string)
    ensures |p| >= 2 && p[0] == '%' && p[|p| - 1] == '%'
  {
    "%" + KeyText(k) + "%"
  }

  /** Data entries before position `n` all hold strings. */
  predicate StringsUpTo(data: seq<Entry>, n: int)
    requires 0 <= n <= |data|
  {
    forall i :: 0 <= i < n ==> data[i].val.Str?
  }

  /** The replacement loop of `Template::render`: each entry in turn, the first value that is
      not a string stopping the walk with its name. */
  function Substitute(code: string, data: seq<Entry>): (r: Result<string, RenderError>)
    ensures r.Success? <==> StringsUpTo(data, |data|)
    ensures r.Failure? ==> exists i :: 0 <= i < |data| && StringsUpTo(data, i) && !data[i].val.Str? &&
                                       r.error == DataNotString(KeyText(data[i].key))
    decreases |data|
  {
    if |data| == 0 then Success(code)
    else
      match data[0].val
      case Str(v) =>
        var r := Substitute(StrReplace(code, Placeholder(data[0].key), Str.Escape(v)), data[1..]);
        assert forall i :: 1 <= i < |data| ==> data[i] == data[1..][i - 1];
        if r.Failure? then
          var j :| 0 <= j < |data[1..]| && StringsUpTo(data[1..], j) && !data[1..][j].val.Str? &&
                   r.error == DataNotString(KeyText(data[1..][j].key));
          assert StringsUpTo(data, j + 1);
          r
        else r
      case _ =>
        assert StringsUpTo(data, 0);
        Failure(DataNotString(KeyText(data[0].key)))
  }

  /** `Template::render`: a missing template fails; no data leaves the text as it is;
      otherwise every placeholder of every entry is replaced by the escaped value. */
  function Render(template: string, contents: Option<string>, data: seq<Entry>): (r: Result<string, RenderError>)
    ensures contents.None? ==> r == Failure(TemplateNotFound(template))
    ensures contents.Some? && |data| == 0 ==> r == Success(contents.value)
    ensures contents.Some? ==> (r.Success? <==> forall i :: 0 <= i < |data| ==> data[i].val.Str?)
    ensures r.Failure? && contents.Some? ==>
              exists i :: 0 <= i < |data| && StringsUpTo(data, i) && !data[i].val.Str? &&
                          r.error == DataNotString(KeyText(data[i].key))
  {
    match contents
    case None => Failure(TemplateNotFound(template))
    case Some(code) => if |data| > 0 then Substitute(code, data) else Success(code)
  }

  /** Substitution runs in data order: the entries of `a`, then those of `b`. */
  lemma {:induction false} SubstituteAppend(code: string, a: seq<Entry>, b: seq<Entry>)
    requires Substitute(code, a).Success?
    ensures Substitute(code, a + b) == Substitute(Substitute(code, a).value, b)
    decreases |a|
  {
    if |a| == 0 {
      assert a + b == b;
    } else {
      assert (a + b)[0] == a[0];
      assert (a + b)[1..] == a[1..] + b;
      var next := StrReplace(code, Placeholder(a[0].key), Str.Escape(a[0].val.s));
      assert Substitute(code, a) == Substitute(next, a[1..]);
      SubstituteAppend(next, a[1..], b);
    }
  }

  /** Text without a `%` holds no placeholder, so replacing one leaves it alone. */
  lemma ReplaceWithoutPercent(code: string, k: Key, rep: string)
    requires '%' !in code
    ensures StrReplace(code, Placeholder(k), rep) == code
  {
    IndexFromAbsent(code, Placeholder(k));
    assert Split(code, Placeholder(k)) == [code];
  }

  /** A template without `%` renders to itself, whatever string data is given. */
  lemma {:induction false} RenderWithoutPlaceholders(template: string, code: string, data: seq<Entry>)
    requires '%' !in code
    requires forall i :: 0 <= i < |data| ==> data[i].val.Str?
    ensures Render(template, Some(code), data) == Success(code)
    decreases |data|
  {
    if |data| > 0 {
      ReplaceWithoutPercent(code, data[0].key, Str.Escape(data[0].val.s));
      RenderWithoutPlaceholders(template, code, data[1..]);
      assert Substitute(code, data) == Substitute(code, data[1..]);
    }
  }

  /** One placeholder in text without other `%` signs is replaced by the escaped value. */
  lemma RenderOnePlaceholder(template: string, before: string, name: string, after: string, v: string)
    requires '%' !in before && '%' !in after
    ensures Render(template, Some(before + Placeholder(StrKey(name)) + after), [Entry(StrKey(name), Str(v))]) ==
              Success(before + Str.Escape(v) + after)
  {
    var p := Placeholder(StrKey(name));
    SplitOnce(before, p, after);
    var code := before + p + after;
    var data := [Entry(StrKey(name), Str(v))];
    assert Join([before, after], Str.Escape(v)) == before + Str.Escape(v) + after;
    assert data[1..] == [];
    assert Substitute(code, data) == Substitute(StrReplace(code, p, Str.Escape(v)), []);
  }
}
