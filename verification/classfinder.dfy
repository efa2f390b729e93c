/** Class names (`ClassFinder::getClassBasename`): PHP's `basename` applied to a class or file
    name once namespace backslashes have become slashes, with a `.php` suffix dropped. */
module ClassFinder {
  import opened Text

  /** The text without its trailing slashes. */
  function TrimSlashes(s: string): (r: string)
    ensures r <= s && (|r| > 0 ==> r[|r| - 1] != '/')
    ensures forall i :: |r| <= i < |s| ==> s[i] == '/'
    decreases |s|
  {
    if |s| > 0 && s[|s| - 1] == '/' then TrimSlashes(s[..|s| - 1]) else s
  }

  /** The characters after the last slash: a slash-free suffix that is the whole text or
      sits right behind a slash. */
  function LastComponent(t: string): (r: string)
    ensures IsSuffix(r, t) && '/' !in r
    ensures |r| == |t| || t[|t| - |r| - 1] == '/'
    decreases |t|
  {
    if |t| == 0 || t[|t| - 1] == '/' then ""
    else
      var r := LastComponent(t[..|t| - 1]) + [t[|t| - 1]];
      assert t[|t| - |r|..] == t[..|t| - 1][|t| - |r|..] + [t[|t| - 1]];
      r
  }

  /** The suffix cut off when the text ends with it and is longer than it. */
  function StripSuffix(c: string, suffix: string): (r: string)
    ensures r <= c
    ensures r == c || (|r| > 0 && c == r + suffix)
    ensures IsSuffix(suffix, c) && |suffix| < |c| ==> r + suffix == c
  {
    if |suffix| < |c| && IsSuffix(suffix, c) then
      assert c == c[..|c| - |suffix|] + c[|c| - |suffix|..];
      c[..|c| - |suffix|]
    else c
  }

  /** PHP's `basename($path, $suffix)`: trailing slashes ignored, the last component kept,
      and the suffix cut off when the component ends with it and is longer than it. */
  function Basename(path: string, suffix: string): (r: string)
  {
    StripSuffix(LastComponent(TrimSlashes(path)), suffix)
  }

  /** The base name holds no slash and is taken from the path itself. */
  lemma BasenameIn(path: string, suffix: string)
    ensures '/' !in Basename(path, suffix)
    ensures forall i :: 0 <= i < |Basename(path, suffix)| ==> Basename(path, suffix)[i] in path
  {
    var t := TrimSlashes(path);
    var c := LastComponent(t);
    var r := Basename(path, suffix);
    forall i | 0 <= i < |r|
      ensures r[i] in path && r[i] != '/'
    {
      assert r[i] == c[i];
      assert c[i] == t[|t| - |c| + i];
      assert t[|t| - |c| + i] == path[|t| - |c| + i];
    }
  }

  /** `ClassFinder::getClassBasename` on a class or file name given as a string (an object is
      passed by its class name). */
  function ClassBasename(name: string): (r: string)
    ensures '/' !in r && '\\' !in r
  {
    var slashed := StrReplace(name, "\\", "/");
    StrReplaceChar(name, '\\', '/');
    BasenameIn(slashed, ".php");
    Basename(slashed, ".php")
  }

  /** The last name of a namespaced class, or of a file path, without `.php`. */
  lemma ClassBasenameOfQualified(prefix: string, sep: char, name: string, ext: bool)
    requires sep == '\\' || sep == '/'
    requires |name| > 0 && '/' !in name && '\\' !in name
    requires !ext ==> !IsSuffix(".php", name)
    ensures ClassBasename(prefix + [sep] + name + (if ext then ".php" else "")) == name
  {
    var last := name + (if ext then ".php" else "");
    assert prefix + [sep] + name + (if ext then ".php" else "") == prefix + [sep] + last;
    BasenameAfterSeparator(prefix, sep, last);
    if ext {
      assert last == name + ".php";
      assert IsSuffix(".php", last);
      assert last[..|last| - 4] == name;
      assert StripSuffix(last, ".php") == name;
    } else {
      assert last == name;
    }
  }

  /** Behind a separator, a slash-free last part is the component `.php` is stripped from. */
  lemma BasenameAfterSeparator(prefix: string, sep: char, last: string)
    requires sep == '\\' || sep == '/'
    requires |last| > 0 && '/' !in last && '\\' !in last
    ensures ClassBasename(prefix + [sep] + last) == StripSuffix(last, ".php")
  {
    var mp := MapChar(prefix, '\\', '/');
    SlashedQualified(prefix, sep, last);
    var m := mp + "/" + last;
    assert m[|m| - 1] == last[|last| - 1];
    assert TrimSlashes(m) == m;
    LastComponentAfter(mp, last);
  }

  lemma SlashedQualified(prefix: string, sep: char, last: string)
    requires sep == '\\' || sep == '/'
    requires '\\' !in last
    ensures StrReplace(prefix + [sep] + last, "\\", "/") == MapChar(prefix, '\\', '/') + "/" + last
  {
    var s := prefix + [sep] + last;
    assert s == prefix + ([sep] + last);
    StrReplaceChar(s, '\\', '/');
    MapCharAppend(prefix, [sep] + last, '\\', '/');
    MapCharAppend([sep], last, '\\', '/');
    MapCharNone(last, '\\', '/');
  }

  /** The last component of text ending in a slash and a slash-free part is that part. */
  lemma {:induction false} LastComponentAfter(a: string, b: string)
    requires '/' !in b
    ensures LastComponent(a + "/" + b) == b
    decreases |b|
  {
    if |b| == 0 {
      assert a + "/" + b == a + "/";
    } else {
      var t := a + "/" + b;
      assert t[..|t| - 1] == a + "/" + b[..|b| - 1];
      LastComponentAfter(a, b[..|b| - 1]);
      assert b == b[..|b| - 1] + [b[|b| - 1]];
    }
  }

  /** A name without separators is its own base name, less a `.php` suffix when something
      stands in front of it: `Foo` stays `Foo` and `Foo.php` gives `Foo`. */
  lemma ClassBasenameBare(name: string)
    requires '/' !in name && '\\' !in name
    ensures IsSuffix(".php", name) && |name| > 4 ==> ClassBasename(name) + ".php" == name
    ensures !(IsSuffix(".php", name) && |name| > 4) ==> ClassBasename(name) == name
  {
    StrReplaceChar(name, '\\', '/');
    MapCharNone(name, '\\', '/');
    if |name| > 0 {
      assert name[|name| - 1] in name;
    }
    assert TrimSlashes(name) == name;
    LastComponentWhole(name);
  }

  /** A slash-free text is its own last component. */
  lemma {:induction false} LastComponentWhole(t: string)
    requires '/' !in t
    ensures LastComponent(t) == t
    decreases |t|
  {
    if |t| > 0 {
      assert t[|t| - 1] in t;
      var init := t[..|t| - 1];
      assert '/' !in init by {
        forall i | 0 <= i < |init|
          ensures init[i] != '/'
        {
          assert init[i] == t[i];
          assert t[i] in t;
        }
      }
      LastComponentWhole(init);
      assert t == init + [t[|t| - 1]];
    }
  }

  /** Trailing separators of either kind do not change the base name. */
  lemma ClassBasenameTrailing(name: string, sep: char)
    requires sep == '\\' || sep == '/'
    ensures ClassBasename(name + [sep]) == ClassBasename(name)
  {
    StrReplaceChar(name + [sep], '\\', '/');
    StrReplaceChar(name, '\\', '/');
    var m := MapChar(name, '\\', '/');
    assert MapChar(name + [sep], '\\', '/') == m + "/";
    assert (m + "/")[..|m + "/"| - 1] == m;
  }

  /** A name made of separators only has the empty base name. */
  lemma {:induction false} ClassBasenameSeparatorsOnly(name: string)
    requires forall i :: 0 <= i < |name| ==> name[i] == '\\' || name[i] == '/'
    ensures ClassBasename(name) == ""
    decreases |name|
  {
    StrReplaceChar(name, '\\', '/');
    if |name| > 0 {
      var init := name[..|name| - 1];
      ClassBasenameSeparatorsOnly(init);
      assert name == init + [name[|name| - 1]];
      ClassBasenameTrailing(init, name[|name| - 1]);
    }
  }
}
