/** The dot-path accessor over nested arrays (`Arr`). A path such as
    "user.name" addresses `$a['user']['name']`; a key that exists literally
    at the top level wins over splitting it at the dots. Operations that
    mutate by reference in PHP return the new array here. */
module Arr {
  import opened Wrappers
  import opened Text
  import opened Php

  /** `Arr::accessible`: only arrays are accessible here. */
  predicate Accessible(v: Value)
  {
    v.Arr?
  }

  /** `Arr::exists`: `array_key_exists`. */
  function Exists(es: seq<Entry>, k: Key): (r: bool)
    ensures r <==> Lookup(es, k).Some?
    ensures r ==> exists i :: 0 <= i < |es| && es[i].key == k
  {
    HasKey(es, k)
  }

  /** The keys a dotted path designates: `explode('.', $path)`, each piece as an offset. */
  function Segments(path: string): (segs: seq<Key>)
    ensures |segs| == |Split(path, ".")| >= 1
    ensures forall i :: 0 <= i < |segs| ==> segs[i] == KeyOf(Split(path, ".")[i])
  {
    var parts := Split(path, ".");
    seq(|parts|, i requires 0 <= i < |parts| => KeyOf(parts[i]))
  }

  /** A path without a dot is a single segment, the key the path itself designates. */
  lemma SegmentsWithoutDot(path: string)
    ensures '.' !in path ==> Segments(path) == [KeyOf(path)]
  {
    if '.' !in path {
      SplitWithoutSeparator(path, '.');
    }
  }

  /** A path with several segments differs from its first segment. */
  lemma SegmentsHeadDiffers(path: string)
    requires |Segments(path)| > 1
    ensures Segments(path)[0] != KeyOf(path)
  {
    var parts := Split(path, ".");
    JoinOfSplit(path, ".");
    assert path == parts[0] + "." + Join(parts[1..], ".");
    if Segments(path)[0] == KeyOf(path) {
      KeyOfInjective(parts[0], path);
    }
  }

  /** Follows the segments from `v`: each step needs an accessible value holding the key. */
  function Walk(v: Value, segs: seq<Key>): (r: Option<Value>)
    ensures |segs| > 0 && r.Some? ==> v.Arr? && HasKey(v.entries, segs[0])
    decreases |segs|
  {
    if |segs| == 0 then Some(v)
    else if Accessible(v) && Exists(v.entries, segs[0]) then
      Walk(Lookup(v.entries, segs[0]).value, segs[1..])
    else None
  }

  /** Walking a concatenated path is walking its parts one after the other. */
  lemma {:induction false} WalkAppend(v: Value, a: seq<Key>, b: seq<Key>)
    ensures Walk(v, a + b) == (if Walk(v, a).Some? then Walk(Walk(v, a).value, b) else None)
    decreases |a|
  {
    if |a| > 0 {
      assert (a + b)[0] == a[0];
      assert (a + b)[1..] == a[1..] + b;
      if v.Arr? && HasKey(v.entries, a[0]) {
        WalkAppend(Lookup(v.entries, a[0]).value, a[1..], b);
      }
    } else {
      assert a + b == b;
    }
  }

  /* ---------------------------------------------------------------
   * get / has
   * --------------------------------------------------------------- */

  /** The value a dotted key reaches: the literal entry if there is one, else the segment walk. */
  function Find(es: seq<Entry>, key: string): (r: Option<Value>)
    ensures HasKey(es, KeyOf(key)) ==> r == Lookup(es, KeyOf(key))
    ensures !HasKey(es, KeyOf(key)) ==> r == Walk(Arr(es), Segments(key))
  {
    if Exists(es, KeyOf(key)) then Lookup(es, KeyOf(key))
    else Walk(Arr(es), Segments(key))
  }

  /** `Arr::get`: no key gives the whole array; a missing path gives the default. */
  function Get(es: seq<Entry>, key: Option<string>, default: Value): (r: Value)
    ensures key.None? ==> r == Arr(es)
    ensures key.Some? && '.' !in key.value ==> r == Lookup(es, KeyOf(key.value)).GetOr(default)
    ensures key.Some? && HasKey(es, KeyOf(key.value)) ==> Some(r) == Lookup(es, KeyOf(key.value))
    ensures key.Some? && !HasKey(es, KeyOf(key.value)) ==> r == Walk(Arr(es), Segments(key.value)).GetOr(default)
  {
    match key
    case None => Arr(es)
    case Some(k) =>
      SegmentsWithoutDot(k);
      Find(es, k).GetOr(default)
  }

  /** Whether one key resolves, literally or by its segment walk. */
  predicate Resolves(es: seq<Entry>, key: string)
  {
    Find(es, key).Some?
  }

  /** The loop of `Arr::has` over the given keys. */
  function HasAll(es: seq<Entry>, keys: seq<string>): (r: bool)
    ensures r <==> forall i :: 0 <= i < |keys| ==> Resolves(es, keys[i])
    decreases |keys|
  {
    if |keys| == 0 then true
    else if !Resolves(es, keys[0]) then false
    else
      assert forall i :: 1 <= i < |keys| ==> keys[i] == keys[1..][i - 1];
      HasAll(es, keys[1..])
  }

  /** `Arr::has`: false for no keys, otherwise true iff every key resolves. */
  function Has(es: seq<Entry>, keys: seq<string>): (r: bool)
    ensures r <==> |keys| > 0 && forall i :: 0 <= i < |keys| ==> Resolves(es, keys[i])
  {
    if |keys| == 0 then false else HasAll(es, keys)
  }

  /** `has` and `get` agree: an unresolved key yields the default, a resolved one ignores it. */
  lemma GetHasAgree(es: seq<Entry>, key: string, d1: Value, d2: Value)
    ensures !Has(es, [key]) ==> Get(es, Some(key), d1) == d1
    ensures Has(es, [key]) ==> Get(es, Some(key), d1) == Get(es, Some(key), d2)
  {
  }

  /** Checking several keys at once is checking each of them. */
  lemma {:induction false} HasConcat(es: seq<Entry>, a: seq<string>, b: seq<string>)
    requires |a| > 0 && |b| > 0
    ensures Has(es, a + b) == (Has(es, a) && Has(es, b))
  {
    assert forall i :: 0 <= i < |a| ==> (a + b)[i] == a[i];
    assert forall i :: 0 <= i < |b| ==> (a + b)[|a| + i] == b[i];
    if Has(es, a) && Has(es, b) {
      forall i | 0 <= i < |a + b|
        ensures Resolves(es, (a + b)[i])
      {
        if i >= |a| {
          assert (a + b)[i] == b[i - |a|];
        }
      }
    }
  }

  /* ---------------------------------------------------------------
   * set / add
   * --------------------------------------------------------------- */

  /** The key argument of `set` and `add`: a dotted path, or an array whose values are the keys. */
  datatype SetKey = Path(path: string) | Keys(entries: seq<Entry>)

  /** What `set` leaves behind: the new top-level array, and the array it returns,
      which is the innermost container written to. */
  datatype SetResult = SetResult(root: seq<Entry>, returned: seq<Entry>)

  /** The last step of `set`: assign under a key, or append (`$a[] = …`). */
  datatype WriteOp = Assign(v: Value) | Append(item: Value)

  /** The array a write through an offset of `c` works on: null and false become empty arrays. */
  function Container(c: Value): (r: Result<seq<Entry>, Error>)
    ensures r.Success? <==> c.Null? || c == Bool(false) || c.Arr?
    ensures c.Arr? ==> r == Success(c.entries)
    ensures r.Success? && !c.Arr? ==> r.value == []
  {
    match c
    case Null => Success([])
    case Bool(b) => if b then Failure(ScalarAsArray) else Success([])
    case Arr(es) => Success(es)
    case _ => Failure(ScalarAsArray)
  }

  /** The key an offset value designates; an array offset is illegal. */
  function Offset(o: Value): (r: Result<Key, Error>)
    ensures r.Success? <==> !o.Arr?
    ensures o.Str? ==> r == Success(KeyOf(o.s))
    ensures r.Success? ==> Normal(r.value)
  {
    match o
    case Null => Success(StrKey(""))
    case Bool(b) => Success(IntKey(if b then 1 else 0))
    case Int(i) => Success(IntKey(i))
    case Str(s) => Success(KeyOf(s))
    case Arr(_) => Failure(TypeError)
  }

  /** The last step applied to the innermost container. */
  function Final(es: seq<Entry>, k: Key, op: WriteOp): seq<Entry>
  {
    match op
    case Append(item) => Push(es, item)
    case Assign(v) => Put(es, k, v)
  }

  /** The loop of `set`: bind a reference one offset deeper while more than one offset is left,
      creating missing entries, then apply the last step. */
  function Write(c: Value, offs: seq<Value>, op: WriteOp): Result<SetResult, Error>
    decreases |offs|
  {
    match Container(c)
    case Failure(e) => Failure(e)
    case Success(es) =>
      if |offs| > 1 then
        match Offset(offs[0])
        case Failure(e) => Failure(e)
        case Success(k) =>
          match Write(Lookup(es, k).GetOr(Null), offs[1..], op)
          case Failure(e) => Failure(e)
          case Success(sr) => Success(SetResult(Put(es, k, Arr(sr.root)), sr.returned))
      else if op.Append? then
        var es' := Push(es, op.item);
        Success(SetResult(es', es'))
      else
        match (if |offs| == 0 then Success(StrKey("")) else Offset(offs[0]))
        case Failure(e) => Failure(e)
        case Success(k) =>
          var es' := Put(es, k, op.v);
          Success(SetResult(es', es'))
  }

  /** The offsets `explode('.', $path)` produces. */
  function PathOffsets(path: string): (offs: seq<Value>)
    ensures |offs| == |Segments(path)|
    ensures forall i :: 0 <= i < |offs| ==> Offset(offs[i]) == Success(Segments(path)[i])
  {
    var parts := Split(path, ".");
    seq(|parts|, i requires 0 <= i < |parts| => Str(parts[i]))
  }

  /** `Arr::set`. With a null value an array key replaces the whole array and a path
      appends the path string itself to the innermost container. */
  function Set(root: seq<Entry>, key: SetKey, value: Value): (r: Result<SetResult, Error>)
    ensures value.Null? && key.Keys? ==> r == Success(SetResult(key.entries, key.entries))
    ensures key.Path? ==> (r.Success? <==> Clear(Arr(root), Segments(key.path)))
    ensures key.Path? && r.Success? ==>
      var segs := Segments(key.path);
      Walk(Arr(r.value.root), segs[..|segs| - 1]) == Some(Arr(r.value.returned))
    ensures key.Path? && r.Success? && !value.Null? ==>
      var segs := Segments(key.path);
      && Lookup(r.value.returned, segs[|segs| - 1]) == Some(value)
      && forall k :: k != segs[|segs| - 1] ==> Lookup(r.value.returned, k) == Lookup(Prior(root, segs), k)
    ensures key.Path? && r.Success? && value.Null? ==>
      r.value.returned == Push(Prior(root, Segments(key.path)), Str(key.path))
    ensures key.Path? && r.Success? ==>
      forall k :: k != Segments(key.path)[0] && HasKey(root, k) ==> Lookup(r.value.root, k) == Lookup(root, k)
  {
    if value.Null? && key.Keys? then Success(SetResult(key.entries, key.entries))
    else if key.Keys? then Write(Arr(root), Values(key.entries), Assign(value))
    else
      SetPath(root, key.path, value);
      Write(Arr(root), PathOffsets(key.path), if value.Null? then Append(Str(key.path)) else Assign(value))
  }

  /** What the path write of `set` achieves, gathered from the write lemmas. */
  lemma SetPath(root: seq<Entry>, path: string, value: Value)
    ensures var segs := Segments(path);
            var w := Write(Arr(root), PathOffsets(path), if value.Null? then Append(Str(path)) else Assign(value));
            && (w.Success? <==> Clear(Arr(root), segs))
            && (w.Success? ==> Walk(Arr(w.value.root), segs[..|segs| - 1]) == Some(Arr(w.value.returned)))
            && (w.Success? && !value.Null? ==>
                  && Lookup(w.value.returned, segs[|segs| - 1]) == Some(value)
                  && forall k :: k != segs[|segs| - 1] ==> Lookup(w.value.returned, k) == Lookup(Prior(root, segs), k))
            && (w.Success? && value.Null? ==> w.value.returned == Push(Prior(root, segs), Str(path)))
            && (w.Success? ==> forall k :: k != segs[0] && HasKey(root, k) ==> Lookup(w.value.root, k) == Lookup(root, k))
  {
    var segs := Segments(path);
    var op := if value.Null? then Append(Str(path)) else Assign(value);
    WriteSucceeds(Arr(root), PathOffsets(path), segs, op);
    WriteReaches(Arr(root), PathOffsets(path), segs, op);
    WriteSiblings(root, PathOffsets(path), segs, op);
  }

  /** The value the reference of `set` is bound to after following `k` from `c`:
      a missing entry, or a null or false container, reads as null. */
  function Step(c: Value, k: Key): Value
  {
    if c.Arr? then Lookup(c.entries, k).GetOr(Null) else Null
  }

  function Along(c: Value, segs: seq<Key>): Value
    decreases |segs|
  {
    if |segs| == 0 then c else Along(Step(c, segs[0]), segs[1..])
  }

  /** The innermost container a path write works on, as it is before the write. */
  function Prior(root: seq<Entry>, segs: seq<Key>): seq<Entry>
    requires |segs| >= 1
  {
    match Container(Along(Arr(root), segs[..|segs| - 1]))
    case Success(es) => es
    case Failure(_) => []
  }

  /** Every value the write passes through is null, false or an array. */
  predicate Clear(c: Value, segs: seq<Key>)
    decreases |segs|
  {
    Container(c).Success? && (|segs| > 1 ==> Clear(Step(c, segs[0]), segs[1..]))
  }

  predicate Designates(offs: seq<Value>, segs: seq<Key>)
  {
    |offs| == |segs| && forall i :: 0 <= i < |offs| ==> Offset(offs[i]) == Success(segs[i])
  }

  /** A path write succeeds exactly when its path is clear. */
  lemma {:induction false} WriteSucceeds(c: Value, offs: seq<Value>, segs: seq<Key>, op: WriteOp)
    requires Designates(offs, segs) && |segs| >= 1
    ensures Write(c, offs, op).Success? <==> Clear(c, segs)
    decreases |segs|
  {
    if |segs| > 1 && Container(c).Success? {
      var es := Container(c).value;
      assert Offset(offs[0]) == Success(segs[0]);
      assert Designates(offs[1..], segs[1..]) by {
        forall i | 0 <= i < |offs[1..]|
          ensures Offset(offs[1..][i]) == Success(segs[1..][i])
        {
          assert offs[1..][i] == offs[i + 1];
        }
      }
      assert Lookup(es, segs[0]).GetOr(Null) == Step(c, segs[0]);
      WriteSucceeds(Lookup(es, segs[0]).GetOr(Null), offs[1..], segs[1..], op);
    } else if |segs| == 1 {
      assert Offset(offs[0]) == Success(segs[0]);
    }
  }

  /** A successful path write leaves the innermost container, reachable along the path,
      holding the last step applied to what was there before. */
  lemma WriteReaches(c: Value, offs: seq<Value>, segs: seq<Key>, op: WriteOp)
    requires Designates(offs, segs) && |segs| >= 1
    ensures Write(c, offs, op).Success? ==>
      var sr := Write(c, offs, op).value;
      var pre := segs[..|segs| - 1];
      && Walk(Arr(sr.root), pre) == Some(Arr(sr.returned))
      && Container(Along(c, pre)).Success?
      && sr.returned == Final(Container(Along(c, pre)).value, segs[|segs| - 1], op)
  {
    if Write(c, offs, op).Success? {
      WriteReachesWalk(c, offs, segs, op);
      WriteReachesFinal(c, offs, segs, op);
    }
  }

  lemma {:induction false} WriteReachesWalk(c: Value, offs: seq<Value>, segs: seq<Key>, op: WriteOp)
    requires Designates(offs, segs) && |segs| >= 1
    requires Write(c, offs, op).Success?
    ensures Walk(Arr(Write(c, offs, op).value.root), segs[..|segs| - 1]) == Some(Arr(Write(c, offs, op).value.returned))
    decreases |segs|
  {
    if |segs| == 1 {
      WriteLast(c, offs, segs, op);
    } else {
      DesignatesTail(offs, segs);
      WriteStep(c, offs, op);
      assert Offset(offs[0]).value == segs[0];
      var child := Lookup(Container(c).value, segs[0]).GetOr(Null);
      WriteReachesWalk(child, offs[1..], segs[1..], op);
      InitCons(segs);
      WalkThroughPut(Container(c).value, segs[0], Arr(Write(child, offs[1..], op).value.root), segs[1..][..|segs[1..]| - 1]);
    }
  }

  lemma {:induction false} WriteReachesFinal(c: Value, offs: seq<Value>, segs: seq<Key>, op: WriteOp)
    requires Designates(offs, segs) && |segs| >= 1
    requires Write(c, offs, op).Success?
    ensures Container(Along(c, segs[..|segs| - 1])).Success?
    ensures Write(c, offs, op).value.returned == Final(Container(Along(c, segs[..|segs| - 1])).value, segs[|segs| - 1], op)
    decreases |segs|
  {
    if |segs| == 1 {
      WriteLast(c, offs, segs, op);
    } else {
      DesignatesTail(offs, segs);
      WriteStep(c, offs, op);
      assert Offset(offs[0]).value == segs[0];
      var child := Lookup(Container(c).value, segs[0]).GetOr(Null);
      WriteReachesFinal(child, offs[1..], segs[1..], op);
      InitCons(segs);
      StepOfContainer(c, segs[0]);
      AlongCons(c, segs[0], segs[1..][..|segs[1..]| - 1]);
    }
  }

  lemma AlongCons(c: Value, k: Key, rest: seq<Key>)
    ensures Along(c, [k] + rest) == Along(Step(c, k), rest)
  {
    assert ([k] + rest)[0] == k && ([k] + rest)[1..] == rest;
  }

  lemma StepOfContainer(c: Value, k: Key)
    requires Container(c).Success?
    ensures Step(c, k) == Lookup(Container(c).value, k).GetOr(Null)
  {
  }

  lemma InitCons(segs: seq<Key>)
    requires |segs| > 1
    ensures segs[..|segs| - 1] == [segs[0]] + segs[1..][..|segs[1..]| - 1]
    ensures segs[|segs| - 1] == segs[1..][|segs[1..]| - 1]
  {
  }

  lemma DesignatesTail(offs: seq<Value>, segs: seq<Key>)
    requires Designates(offs, segs) && |segs| >= 1
    ensures Designates(offs[1..], segs[1..])
  {
    forall i | 0 <= i < |offs[1..]|
      ensures Offset(offs[1..][i]) == Success(segs[1..][i])
    {
      assert offs[1..][i] == offs[i + 1];
    }
  }

  /** One step of the write: the container gets the rewritten child under the first key. */
  lemma WriteStep(c: Value, offs: seq<Value>, op: WriteOp)
    requires |offs| > 1 && Write(c, offs, op).Success?
    ensures Container(c).Success? && Offset(offs[0]).Success?
    ensures var es := Container(c).value;
      var k := Offset(offs[0]).value;
      var child := Lookup(es, k).GetOr(Null);
      && Write(child, offs[1..], op).Success?
      && Write(c, offs, op).value == SetResult(Put(es, k, Arr(Write(child, offs[1..], op).value.root)),
                                               Write(child, offs[1..], op).value.returned)
  {
  }

  /** The write with a single offset left. */
  lemma WriteLast(c: Value, offs: seq<Value>, segs: seq<Key>, op: WriteOp)
    requires Designates(offs, segs) && |segs| == 1
    requires Write(c, offs, op).Success?
    ensures var sr := Write(c, offs, op).value;
      && Walk(Arr(sr.root), segs[..0]) == Some(Arr(sr.returned))
      && Container(Along(c, segs[..0])).Success?
      && sr.returned == Final(Container(Along(c, segs[..0])).value, segs[0], op)
  {
    assert Offset(offs[0]) == Success(segs[0]);
    assert segs[..0] == [];
  }

  /** Walking into a key just written reaches what was written there. */
  lemma WalkThroughPut(es: seq<Entry>, k: Key, child: Value, rest: seq<Key>)
    ensures Walk(Arr(Put(es, k, child)), [k] + rest) == Walk(child, rest)
  {
    assert ([k] + rest)[0] == k;
    assert ([k] + rest)[1..] == rest;
  }

  /** A path write changes no existing top-level entry other than the one under its first segment. */
  lemma WriteSiblings(root: seq<Entry>, offs: seq<Value>, segs: seq<Key>, op: WriteOp)
    requires Designates(offs, segs) && |segs| >= 1
    ensures Write(Arr(root), offs, op).Success? ==>
      forall k :: k != segs[0] && HasKey(root, k) ==> Lookup(Write(Arr(root), offs, op).value.root, k) == Lookup(root, k)
  {
    if Write(Arr(root), offs, op).Success? {
      assert Offset(offs[0]) == Success(segs[0]);
      if |segs| == 1 && op.Append? {
        var r := Push(root, op.item);
        forall k | k != segs[0] && HasKey(root, k)
          ensures Lookup(r, k) == Lookup(root, k)
        {
          assert k != IntKey(NextIndex(root));
        }
      }
    }
  }

  /** Walking part of a path that ends at an array passes only through arrays. */
  lemma WalkPrefixArr(v: Value, s: seq<Key>, i: nat)
    requires Walk(v, s).Some? && Walk(v, s).value.Arr? && i <= |s|
    ensures Walk(v, s[..i]).Some? && Walk(v, s[..i]).value.Arr?
  {
    WalkAppend(v, s[..i], s[i..]);
    assert s[..i] + s[i..] == s;
  }

  /** After a successful path write every proper prefix of the path leads to an array. */
  lemma SetVivifies(root: seq<Entry>, path: string, value: Value, sr: SetResult)
    requires Set(root, Path(path), value) == Success(sr)
    ensures forall i :: 0 <= i < |Segments(path)| ==>
      Walk(Arr(sr.root), Segments(path)[..i]).Some? && Walk(Arr(sr.root), Segments(path)[..i]).value.Arr?
  {
    PrefixesArr(Arr(sr.root), Segments(path));
  }

  /** When the path without its last key leads to an array, so does every shorter prefix. */
  lemma PrefixesArr(v: Value, segs: seq<Key>)
    requires |segs| >= 1
    requires Walk(v, segs[..|segs| - 1]).Some? && Walk(v, segs[..|segs| - 1]).value.Arr?
    ensures forall i :: 0 <= i < |segs| ==> Walk(v, segs[..i]).Some? && Walk(v, segs[..i]).value.Arr?
  {
    var pre := segs[..|segs| - 1];
    forall i | 0 <= i < |segs|
      ensures Walk(v, segs[..i]).Some? && Walk(v, segs[..i]).value.Arr?
    {
      WalkPrefixArr(v, pre, i);
      assert pre[..i] == segs[..i];
    }
  }

  /** Reading a path back after writing a non-null value to it gives that value, provided the
      path is clear and no literal top-level key spelled like the dotted path shadows it. */
  lemma SetThenGet(root: seq<Entry>, path: string, value: Value, default: Value)
    requires !value.Null?
    requires Clear(Arr(root), Segments(path))
    requires |Segments(path)| == 1 || !HasKey(root, KeyOf(path))
    ensures Set(root, Path(path), value).Success?
    ensures Get(Set(root, Path(path), value).value.root, Some(path), default) == value
  {
    SetWalks(root, path, value);
    var segs := Segments(path);
    var sr := Set(root, Path(path), value).value;
    if |segs| == 1 {
      SingleSegment(path);
    } else {
      SegmentsHeadDiffers(path);
      assert Lookup(sr.root, KeyOf(path)) == Lookup(root, KeyOf(path));
    }
  }

  /** A path of one segment designates the key the whole path spells. */
  lemma SingleSegment(path: string)
    requires |Segments(path)| == 1
    ensures Segments(path) == [KeyOf(path)]
  {
    var parts := Split(path, ".");
    JoinOfSplit(path, ".");
    assert parts == [path];
  }

  /** After a successful non-null path write, walking the whole path reaches the value. */
  lemma SetWalks(root: seq<Entry>, path: string, value: Value)
    requires !value.Null?
    requires Clear(Arr(root), Segments(path))
    ensures Set(root, Path(path), value).Success?
    ensures Walk(Arr(Set(root, Path(path), value).value.root), Segments(path)) == Some(value)
  {
    var segs := Segments(path);
    var pre := segs[..|segs| - 1];
    var sr := Set(root, Path(path), value).value;
    assert Walk(Arr(sr.root), pre) == Some(Arr(sr.returned));
    assert Lookup(sr.returned, segs[|segs| - 1]) == Some(value);
    WalkAppend(Arr(sr.root), pre, [segs[|segs| - 1]]);
    ButLast(segs);
  }

  /** `Arr::has` over an arbitrary key array: a string is looked up literally or walked, an
      integer only literally (otherwise splitting it at dots is a type error), anything else
      is a type error. The first unresolved string key stops the loop with false. */
  function HasOffsets(es: seq<Entry>, keys: seq<Value>): (r: Result<bool, Error>)
    ensures (forall i :: 0 <= i < |keys| ==> keys[i].Str?) ==>
      r == Success(forall i :: 0 <= i < |keys| ==> Resolves(es, keys[i].s))
    decreases |keys|
  {
    if |keys| == 0 then Success(true)
    else
      assert forall i :: 1 <= i < |keys| ==> keys[i] == keys[1..][i - 1];
      match keys[0]
      case Str(s) => if Resolves(es, s) then HasOffsets(es, keys[1..]) else Success(false)
      case Int(i) => if HasKey(es, IntKey(i)) then HasOffsets(es, keys[1..]) else Failure(TypeError)
      case _ => Failure(TypeError)
  }

  function RootOf(r: Result<SetResult, Error>): Result<seq<Entry>, Error>
  {
    match r
    case Success(sr) => Success(sr.root)
    case Failure(e) => Failure(e)
  }

  /** `Arr::add`: nothing changes when the key already resolves, otherwise it is `set`. */
  function Add(root: seq<Entry>, key: SetKey, value: Value): (r: Result<seq<Entry>, Error>)
    ensures key.Path? && Has(root, [key.path]) ==> r == Success(root)
    ensures key.Path? && !Has(root, [key.path]) ==>
      (r.Success? <==> Set(root, key, value).Success?) &&
      (r.Success? ==> r.value == Set(root, key, value).value.root)
  {
    var keys := if key.Path? then [Str(key.path)] else Values(key.entries);
    var found := if |keys| == 0 then Success(false) else HasOffsets(root, keys);
    match found
    case Failure(e) => Failure(e)
    case Success(true) => Success(root)
    case Success(false) => RootOf(Set(root, key, value))
  }

  /** Adding the same non-null value at a clear, unshadowed path twice is adding it once. */
  lemma AddIdempotent(root: seq<Entry>, path: string, value: Value)
    requires !value.Null?
    requires Clear(Arr(root), Segments(path))
    requires |Segments(path)| == 1 || !HasKey(root, KeyOf(path))
    ensures Add(root, Path(path), value).Success?
    ensures Add(Add(root, Path(path), value).value, Path(path), value) == Add(root, Path(path), value)
  {
    var r := Add(root, Path(path), value).value;
    if !Has(root, [path]) {
      SetThenGet(root, path, value, Null);
      assert r == Set(root, Path(path), value).value.root;
      GetHasAgree(r, path, Null, Null);
      assert Has(r, [path]);
    }
  }

  /* ---------------------------------------------------------------
   * forget / except
   * --------------------------------------------------------------- */

  /** `unset($t[$k])` on the value a walk reached: an array loses the key, null and false
      stay as they are (false only draws a deprecation notice), and any other value cannot
      have an offset unset. */
  function UnsetIn(t: Value, k: Key): (r: Result<Value, Error>)
    ensures r.Success? <==> t.Arr? || t.Null? || t == Bool(false)
    ensures t.Arr? ==> r == Success(Arr(Remove(t.entries, k)))
    ensures !t.Arr? && r.Success? ==> r == Success(t)
  {
    match t
    case Arr(es) => Success(Arr(Remove(es, k)))
    case Null => Success(Null)
    case Bool(b) => if b then Failure(CannotUnset) else Success(t)
    case _ => Failure(CannotUnset)
  }

  /** The value `c` becomes when the value at the end of `path` is replaced by `nv`
      (an assignment through the reference a walk bound). */
  function ReplaceAt(c: Value, path: seq<Key>, nv: Value): (r: Value)
    requires Walk(c, path).Some?
    ensures Walk(r, path) == Some(nv)
    ensures |path| > 0 ==> r.Arr? && forall k :: k != path[0] ==> Lookup(r.entries, k) == Lookup(c.entries, k)
    decreases |path|
  {
    if |path| == 0 then nv
    else
      var inner := ReplaceAt(Lookup(c.entries, path[0]).value, path[1..], nv);
      var r := Arr(Put(c.entries, path[0], inner));
      assert Walk(r, path) == Walk(inner, path[1..]);
      r
  }

  /** Writing back what a walk reached changes nothing. */
  lemma {:induction false} ReplaceSame(c: Value, path: seq<Key>)
    requires Walk(c, path).Some?
    ensures ReplaceAt(c, path, Walk(c, path).value) == c
    decreases |path|
  {
    if |path| > 0 {
      var inner := Lookup(c.entries, path[0]).value;
      ReplaceSame(inner, path[1..]);
      PutSame(c.entries, path[0], inner);
    }
  }

  /** Removing one key: a literal top-level key is unset; otherwise the path is walked up to
      its last segment, a missing step makes it a no-op, and the last segment is unset in
      what the walk reached. */
  function ForgetOne(root: seq<Entry>, key: string): (r: Result<seq<Entry>, Error>)
    ensures HasKey(root, KeyOf(key)) ==>
      && r.Success?
      && Lookup(r.value, KeyOf(key)).None?
      && forall k :: k != KeyOf(key) ==> Lookup(r.value, k) == Lookup(root, k)
    ensures !HasKey(root, KeyOf(key)) ==>
      var segs := Segments(key);
      var pre := segs[..|segs| - 1];
      && (Walk(Arr(root), pre).None? ==> r == Success(root))
      && (Walk(Arr(root), pre).Some? ==>
            (r.Success? <==> Walk(Arr(root), pre).value.Arr? || Walk(Arr(root), pre).value.Null? ||
                             Walk(Arr(root), pre).value == Bool(false)))
      && (Walk(Arr(root), pre).Some? && (Walk(Arr(root), pre).value.Null? || Walk(Arr(root), pre).value == Bool(false)) ==>
            r == Success(root))
      && (Walk(Arr(root), pre).Some? && Walk(Arr(root), pre).value.Arr? ==>
            && r.Success?
            && Walk(Arr(r.value), pre) == Some(Arr(Remove(Walk(Arr(root), pre).value.entries, segs[|segs| - 1])))
            && (|pre| > 0 ==> forall k :: k != segs[0] ==> Lookup(r.value, k) == Lookup(root, k)))
  {
    var k := KeyOf(key);
    if Exists(root, k) then Success(Remove(root, k))
    else
      var segs := Segments(key);
      var pre := segs[..|segs| - 1];
      match Walk(Arr(root), pre)
      case None => Success(root)
      case Some(t) =>
        match UnsetIn(t, segs[|segs| - 1])
        case Failure(e) => Failure(e)
        case Success(t') =>
          ReplaceSame(Arr(root), pre);
          Success(ReplaceAt(Arr(root), pre, t').entries)
  }

  /** `Arr::forget`, with every key's literal check made against the top-level array. */
  function Forget(root: seq<Entry>, keys: seq<string>): (r: Result<seq<Entry>, Error>)
    ensures |keys| == 0 ==> r == Success(root)
    ensures |keys| == 1 ==> r == ForgetOne(root, keys[0])
    decreases |keys|
  {
    if |keys| == 0 then Success(root)
    else
      match ForgetOne(root, keys[0])
      case Failure(e) => Failure(e)
      case Success(r) => Forget(r, keys[1..])
  }

  /** Forgetting dot-free keys leaves none of them behind. */
  lemma {:induction false} ForgetDotFree(root: seq<Entry>, keys: seq<string>)
    ensures Forget(root, keys).Success? ==>
      forall i :: 0 <= i < |keys| && '.' !in keys[i] ==> Lookup(Forget(root, keys).value, KeyOf(keys[i])).None?
    decreases |keys|
  {
    if |keys| > 0 && ForgetOne(root, keys[0]).Success? {
      var r1 := ForgetOne(root, keys[0]).value;
      ForgetDotFree(r1, keys[1..]);
      if '.' !in keys[0] {
        FirstForgotten(root, keys[0], r1, keys[1..]);
      }
      if Forget(root, keys).Success? {
        assert Forget(root, keys) == Forget(r1, keys[1..]);
        AllGone(keys, Forget(root, keys).value);
      }
    }
  }

  /** A dot-free key, once forgotten, stays gone whatever is forgotten after it. */
  lemma FirstForgotten(root: seq<Entry>, key: string, r1: seq<Entry>, rest: seq<string>)
    requires '.' !in key && ForgetOne(root, key) == Success(r1)
    ensures Forget(r1, rest).Success? ==> Lookup(Forget(r1, rest).value, KeyOf(key)).None?
  {
    ForgetOneRemoves(root, key);
    assert Lookup(r1, KeyOf(key)).None?;
    ForgetKeepsAbsent(r1, rest, KeyOf(key));
  }

  lemma AllGone(keys: seq<string>, out: seq<Entry>)
    requires |keys| > 0
    requires forall i :: 0 <= i < |keys[1..]| && '.' !in keys[1..][i] ==> Lookup(out, KeyOf(keys[1..][i])).None?
    requires '.' !in keys[0] ==> Lookup(out, KeyOf(keys[0])).None?
    ensures forall i :: 0 <= i < |keys| && '.' !in keys[i] ==> Lookup(out, KeyOf(keys[i])).None?
  {
    forall i | 1 <= i < |keys| && '.' !in keys[i]
      ensures Lookup(out, KeyOf(keys[i])).None?
    {
      assert keys[i] == keys[1..][i - 1];
    }
  }

  /** After forgetting a key it no longer resolves, unless a literal dotted key shadowed
      the path it spells (then only the literal entry goes). */
  lemma ForgetOneRemoves(root: seq<Entry>, key: string)
    requires '.' !in key || !HasKey(root, KeyOf(key))
    ensures ForgetOne(root, key).Success? ==> !Resolves(ForgetOne(root, key).value, key)
  {
    var segs := Segments(key);
    var pre := segs[..|segs| - 1];
    SegmentsWithoutDot(key);
    if ForgetOne(root, key).Success? {
      if HasKey(root, KeyOf(key)) {
        assert segs == [KeyOf(key)];
      } else if Walk(Arr(root), pre).Some? {
        RemovesThroughWalk(root, key);
      } else {
        WalkAppend(Arr(root), pre, [segs[|segs| - 1]]);
        ButLast(segs);
      }
    }
  }

  /** The walk case of `ForgetOneRemoves`: the last segment is gone from what the walk reaches. */
  lemma RemovesThroughWalk(root: seq<Entry>, key: string)
    requires !HasKey(root, KeyOf(key)) && ForgetOne(root, key).Success?
    requires Walk(Arr(root), Segments(key)[..|Segments(key)| - 1]).Some?
    ensures !Resolves(ForgetOne(root, key).value, key)
  {
    var segs := Segments(key);
    var pre := segs[..|segs| - 1];
    var last := segs[|segs| - 1];
    var t := Walk(Arr(root), pre).value;
    var t' := UnsetIn(t, last).value;
    ForgetOneThrough(root, key, pre, last, t, t');
    var r := ForgetOne(root, key).value;
    ReplacedWalk(root, pre, t', r);
    UnsetGone(t, last);
    WalkAppend(Arr(r), pre, [last]);
    ButLast(segs);
    LiteralStillAbsent(root, key, r);
  }

  lemma ReplacedWalk(root: seq<Entry>, pre: seq<Key>, t': Value, r: seq<Entry>)
    requires Walk(Arr(root), pre).Some? && (|pre| == 0 ==> t'.Arr?)
    requires r == ReplaceAt(Arr(root), pre, t').entries
    ensures Walk(Arr(r), pre) == Some(t')
  {
  }

  /** After an unset, stepping to the unset key finds nothing. */
  lemma UnsetGone(t: Value, k: Key)
    requires UnsetIn(t, k).Success?
    ensures Walk(UnsetIn(t, k).value, [k]).None?
  {
  }

  /** Forgetting through a walk leaves the literal key as absent as it was. */
  lemma LiteralStillAbsent(root: seq<Entry>, key: string, r: seq<Entry>)
    requires !HasKey(root, KeyOf(key))
    requires var segs := Segments(key);
             Walk(Arr(root), segs[..|segs| - 1]).Some? &&
             UnsetIn(Walk(Arr(root), segs[..|segs| - 1]).value, segs[|segs| - 1]).Success? &&
             r == ReplaceAt(Arr(root), segs[..|segs| - 1], UnsetIn(Walk(Arr(root), segs[..|segs| - 1]).value, segs[|segs| - 1]).value).entries
    ensures !HasKey(r, KeyOf(key))
  {
    var segs := Segments(key);
    if |segs| > 1 {
      SegmentsHeadDiffers(key);
      assert segs[..|segs| - 1][0] == segs[0];
    } else {
      assert segs == [KeyOf(key)];
    }
  }

  /** Forgetting never brings a missing top-level key back. */
  lemma {:induction false} ForgetKeepsAbsent(root: seq<Entry>, keys: seq<string>, k: Key)
    requires Lookup(root, k).None?
    ensures Forget(root, keys).Success? ==> Lookup(Forget(root, keys).value, k).None?
    decreases |keys|
  {
    if |keys| > 0 && ForgetOne(root, keys[0]).Success? {
      ForgetOneKeepsAbsent(root, keys[0], k);
      ForgetKeepsAbsent(ForgetOne(root, keys[0]).value, keys[1..], k);
    }
  }

  lemma ForgetOneKeepsAbsent(root: seq<Entry>, key: string, k: Key)
    requires Lookup(root, k).None?
    ensures ForgetOne(root, key).Success? ==> Lookup(ForgetOne(root, key).value, k).None?
  {
    var segs := Segments(key);
    var pre := segs[..|segs| - 1];
    if ForgetOne(root, key).Success? && !HasKey(root, KeyOf(key)) && Walk(Arr(root), pre).Some? {
      var r := ForgetOne(root, key).value;
      var t := Walk(Arr(root), pre).value;
      if |pre| == 0 {
        assert t == Arr(root);
        assert Walk(Arr(r), pre) == Some(Arr(r));
        assert r == Remove(root, segs[|segs| - 1]);
      } else {
        assert HasKey(root, pre[0]);
        assert pre[0] == segs[0];
        assert k != segs[0];
      }
    }
  }

  /** Forgetting a key twice is forgetting it once, unless a literal dotted key shadows its path. */
  lemma ForgetOneIdempotent(root: seq<Entry>, key: string)
    requires '.' !in key || !HasKey(root, KeyOf(key))
    requires ForgetOne(root, key).Success?
    ensures ForgetOne(ForgetOne(root, key).value, key) == ForgetOne(root, key)
  {
    var segs := Segments(key);
    var pre := segs[..|segs| - 1];
    var last := segs[|segs| - 1];
    var r := ForgetOne(root, key).value;
    ForgetOneRemoves(root, key);
    SegmentsWithoutDot(key);
    assert !HasKey(r, KeyOf(key));
    if Walk(Arr(r), pre).Some? {
      var t1 := Walk(Arr(r), pre).value;
      if HasKey(root, KeyOf(key)) {
        assert segs == [KeyOf(key)];
        assert t1 == Arr(r);
        assert Remove(r, last) == r;
        assert ForgetOne(r, key) == Success(ReplaceAt(Arr(r), pre, t1).entries);
        ReplaceSame(Arr(r), pre);
      } else {
        var t := Walk(Arr(root), pre).value;
        var t' := UnsetIn(t, last).value;
        assert Walk(Arr(r), pre) == Some(t');
        assert t'.Arr? ==> Remove(t'.entries, last) == t'.entries;
        assert UnsetIn(t1, last) == Success(t1);
        ReplaceSame(Arr(r), pre);
      }
    }
  }

  /* ---------------------------------------------------------------
   * forget as written: the literal check follows the last binding
   * --------------------------------------------------------------- */

  /** How many segments a walk gets through before a step fails. */
  function Reach(v: Value, segs: seq<Key>): (n: nat)
    ensures n <= |segs|
    ensures Walk(v, segs[..n]).Some?
    ensures n < |segs| ==> Walk(v, segs[..n + 1]).None?
    decreases |segs|
  {
    if |segs| > 0 && Accessible(v) && Exists(v.entries, segs[0]) then
      var n := 1 + Reach(Lookup(v.entries, segs[0]).value, segs[1..]);
      assert segs[..n][1..] == segs[1..][..n - 1];
      assert n < |segs| ==> segs[..n + 1][1..] == segs[1..][..n];
      n
    else
      assert segs[..0] == [];
      0
  }

  /** The loop of `Arr::forget` as the source writes it. `cursor` is the path of the array
      the reference `$array` is bound to: it starts at the top level, the literal check of
      each key runs against it, a path walk rebinds it from the top level, and a walk that
      stops early leaves it where it stopped. */
  function ForgetLoop(root: seq<Entry>, cursor: seq<Key>, keys: seq<string>): Result<seq<Entry>, Error>
    requires Walk(Arr(root), cursor).Some?
    decreases |keys|
  {
    if |keys| == 0 then Success(root)
    else
      var here := Walk(Arr(root), cursor).value;
      var k := KeyOf(keys[0]);
      if !here.Arr? then Failure(TypeError)
      else if Exists(here.entries, k) then
        ForgetLoop(ReplaceAt(Arr(root), cursor, Arr(Remove(here.entries, k))).entries, cursor, keys[1..])
      else
        var segs := Segments(keys[0]);
        var pre := segs[..|segs| - 1];
        var n := Reach(Arr(root), pre);
        if n < |pre| then ForgetLoop(root, pre[..n], keys[1..])
        else
          assert pre[..n] == pre;
          match UnsetIn(Walk(Arr(root), pre).value, segs[|segs| - 1])
          case Failure(e) => Failure(e)
          case Success(t') => ForgetLoop(ReplaceAt(Arr(root), pre, t').entries, pre, keys[1..])
  }

  /** `Arr::forget` as written. */
  function ForgetAsWritten(root: seq<Entry>, keys: seq<string>): (r: Result<seq<Entry>, Error>)
    ensures |keys| == 0 ==> r == Success(root)
  {
    ForgetLoop(root, [], keys)
  }

  /** With dot-free keys the binding never leaves the top level, and the source agrees with
      the top-level reading. */
  lemma {:induction false} ForgetAgreesWithoutDots(root: seq<Entry>, keys: seq<string>)
    requires forall i :: 0 <= i < |keys| ==> '.' !in keys[i]
    ensures ForgetAsWritten(root, keys) == Forget(root, keys)
    decreases |keys|
  {
    if |keys| > 0 {
      var k := KeyOf(keys[0]);
      SegmentsWithoutDot(keys[0]);
      var segs := Segments(keys[0]);
      assert segs[..|segs| - 1] == [];
      assert Reach(Arr(root), []) == 0;
      assert forall i :: 1 <= i < |keys| ==> keys[i] == keys[1..][i - 1];
      match ForgetOne(root, keys[0])
      case Success(r1) =>
        assert ForgetLoop(root, [], keys) == ForgetLoop(r1, [], keys[1..]);
        ForgetAgreesWithoutDots(r1, keys[1..]);
      case Failure(_) =>
    }
  }

  /** On a batch of dot-free keys the source's loop removes every key of the batch from the
      top level and brings no missing top-level key into existence. */
  lemma ForgetAsWrittenDotFree(root: seq<Entry>, keys: seq<string>, k: Key)
    requires forall i :: 0 <= i < |keys| ==> '.' !in keys[i]
    ensures ForgetAsWritten(root, keys).Success? ==>
      forall i :: 0 <= i < |keys| ==> Lookup(ForgetAsWritten(root, keys).value, KeyOf(keys[i])).None?
    ensures Lookup(root, k).None? && ForgetAsWritten(root, keys).Success? ==>
      Lookup(ForgetAsWritten(root, keys).value, k).None?
  {
    ForgetAgreesWithoutDots(root, keys);
    ForgetDotFree(root, keys);
    if Lookup(root, k).None? {
      ForgetKeepsAbsent(root, keys, k);
    }
  }

  /** `Arr::except`: `forget` as written, run on a copy; the argument itself is a value and
      stays as it was. A batch of dot-free keys is removed key by key from the top level. */
  function Except(root: seq<Entry>, keys: seq<string>): (r: Result<seq<Entry>, Error>)
    ensures |keys| == 0 ==> r == Success(root)
    ensures (forall i :: 0 <= i < |keys| ==> '.' !in keys[i]) ==>
      && r == Forget(root, keys)
      && (r.Success? ==> forall i :: 0 <= i < |keys| ==> Lookup(r.value, KeyOf(keys[i])).None?)
  {
    if forall i :: 0 <= i < |keys| ==> '.' !in keys[i] then
      ForgetAgreesWithoutDots(root, keys);
      ForgetAsWrittenDotFree(root, keys, StrKey(""));
      ForgetAsWritten(root, keys)
    else
      ForgetAsWritten(root, keys)
  }

  /** The binding leak: after "a.b" is forgotten, `$array` stays bound to `$root['a']`, so the
      next key "c" is found there instead of at the top level. */
  lemma ForgetLeaksBinding()
    ensures
      var inner := [Entry(StrKey("b"), Int(1)), Entry(StrKey("c"), Int(2))];
      var root := [Entry(StrKey("a"), Arr(inner)), Entry(StrKey("c"), Int(3))];
      && ForgetAsWritten(root, ["a.b", "c"]) == Success([Entry(StrKey("a"), Arr([])), Entry(StrKey("c"), Int(3))])
      && Forget(root, ["a.b", "c"]) == Success([Entry(StrKey("a"), Arr([Entry(StrKey("c"), Int(2))]))])
  {
    LeakFirstKey();
    LeakSecondKeyAsWritten();
    LeakSecondKeyTopLevel();
  }

  lemma SegmentsAB()
    ensures Segments("a.b") == [StrKey("a"), StrKey("b")]
    ensures KeyOf("a.b") == StrKey("a.b")
  {
    SplitOfJoin(["a", "b"], '.');
    assert Join(["a", "b"], ".") == "a.b";
    assert !IsIntKeyText("a") && !IsIntKeyText("b") && !IsIntKeyText("a.b");
  }

  /** Both readings treat the first key "a.b" alike: `$root['a']['b']` goes and `$array`
      is left bound to `$root['a']`. */
  lemma LeakFirstKey()
    ensures
      var inner := [Entry(StrKey("b"), Int(1)), Entry(StrKey("c"), Int(2))];
      var root := [Entry(StrKey("a"), Arr(inner)), Entry(StrKey("c"), Int(3))];
      var root1 := [Entry(StrKey("a"), Arr([Entry(StrKey("c"), Int(2))])), Entry(StrKey("c"), Int(3))];
      && ForgetLoop(root, [], ["a.b", "c"]) == ForgetLoop(root1, [StrKey("a")], ["c"])
      && Forget(root, ["a.b", "c"]) == Forget(root1, ["c"])
  {
    var inner := [Entry(StrKey("b"), Int(1)), Entry(StrKey("c"), Int(2))];
    var root := [Entry(StrKey("a"), Arr(inner)), Entry(StrKey("c"), Int(3))];
    var inner1 := [Entry(StrKey("c"), Int(2))];
    var root1 := [Entry(StrKey("a"), Arr(inner1)), Entry(StrKey("c"), Int(3))];
    LeakFirstLoop(root, inner, root1, inner1);
    LeakFirstForget(root, inner, root1, inner1);
  }

  lemma LeakFirstLoop(root: seq<Entry>, inner: seq<Entry>, root1: seq<Entry>, inner1: seq<Entry>)
    requires inner == [Entry(StrKey("b"), Int(1)), Entry(StrKey("c"), Int(2))]
    requires root == [Entry(StrKey("a"), Arr(inner)), Entry(StrKey("c"), Int(3))]
    requires inner1 == [Entry(StrKey("c"), Int(2))]
    requires root1 == [Entry(StrKey("a"), Arr(inner1)), Entry(StrKey("c"), Int(3))]
    ensures ForgetLoop(root, [], ["a.b", "c"]) == ForgetLoop(root1, [StrKey("a")], ["c"])
  {
    LeakFirstSteps(root, inner, root1, inner1);
    assert ["a.b", "c"][1..] == ["c"];
    ForgetLoopPathStep(root, [], ["a.b", "c"], Arr(inner1));
  }

  /** One turn of the loop for a key that is not a literal key of the bound array and whose
      path can be walked to its end. */
  lemma ForgetLoopPathStep(root: seq<Entry>, cursor: seq<Key>, keys: seq<string>, t': Value)
    requires Walk(Arr(root), cursor).Some? && |keys| > 0
    requires Walk(Arr(root), cursor).value.Arr?
    requires !Exists(Walk(Arr(root), cursor).value.entries, KeyOf(keys[0]))
    requires var segs := Segments(keys[0]);
             && Reach(Arr(root), segs[..|segs| - 1]) == |segs| - 1
             && Walk(Arr(root), segs[..|segs| - 1]).Some?
             && UnsetIn(Walk(Arr(root), segs[..|segs| - 1]).value, segs[|segs| - 1]) == Success(t')
    ensures var segs := Segments(keys[0]);
            ForgetLoop(root, cursor, keys) == ForgetLoop(ReplaceAt(Arr(root), segs[..|segs| - 1], t').entries, segs[..|segs| - 1], keys[1..])
  {
  }

  lemma LeakFirstForget(root: seq<Entry>, inner: seq<Entry>, root1: seq<Entry>, inner1: seq<Entry>)
    requires inner == [Entry(StrKey("b"), Int(1)), Entry(StrKey("c"), Int(2))]
    requires root == [Entry(StrKey("a"), Arr(inner)), Entry(StrKey("c"), Int(3))]
    requires inner1 == [Entry(StrKey("c"), Int(2))]
    requires root1 == [Entry(StrKey("a"), Arr(inner1)), Entry(StrKey("c"), Int(3))]
    ensures Forget(root, ["a.b", "c"]) == Forget(root1, ["c"])
  {
    LeakFirstSteps(root, inner, root1, inner1);
    ForgetOneThrough(root, "a.b", [StrKey("a")], StrKey("b"), Arr(inner), Arr(inner1));
    assert ForgetOne(root, "a.b") == Success(root1);
    assert ["a.b", "c"][1..] == ["c"];
  }

  /** `ForgetOne` on a key with no literal entry, once the walk and the unset are known. */
  lemma ForgetOneThrough(root: seq<Entry>, key: string, pre: seq<Key>, last: Key, t: Value, t': Value)
    requires !HasKey(root, KeyOf(key))
    requires Segments(key)[..|Segments(key)| - 1] == pre && Segments(key)[|Segments(key)| - 1] == last
    requires Walk(Arr(root), pre) == Some(t) && UnsetIn(t, last) == Success(t')
    ensures ForgetOne(root, key) == Success(ReplaceAt(Arr(root), pre, t').entries)
  {
  }

  lemma LeakFirstSteps(root: seq<Entry>, inner: seq<Entry>, root1: seq<Entry>, inner1: seq<Entry>)
    requires inner == [Entry(StrKey("b"), Int(1)), Entry(StrKey("c"), Int(2))]
    requires root == [Entry(StrKey("a"), Arr(inner)), Entry(StrKey("c"), Int(3))]
    requires inner1 == [Entry(StrKey("c"), Int(2))]
    requires root1 == [Entry(StrKey("a"), Arr(inner1)), Entry(StrKey("c"), Int(3))]
    ensures !HasKey(root, KeyOf("a.b"))
    ensures Segments("a.b")[..1] == [StrKey("a")] && Segments("a.b")[1] == StrKey("b")
    ensures Walk(Arr(root), [StrKey("a")]) == Some(Arr(inner))
    ensures Reach(Arr(root), [StrKey("a")]) == 1
    ensures Remove(inner, StrKey("b")) == inner1
    ensures ReplaceAt(Arr(root), [StrKey("a")], Arr(inner1)) == Arr(root1)
  {
    SegmentsAB();
    assert inner[1..] == [Entry(StrKey("c"), Int(2))];
    assert Remove(inner[1..], StrKey("b")) == inner1;
    assert Lookup(root, StrKey("a")) == Some(Arr(inner));
    assert Put(root, StrKey("a"), Arr(inner1)) == root1;
  }

  /** As written, "c" is then looked up in `$root['a']` and removed there. */
  lemma LeakSecondKeyAsWritten()
    ensures
      var root1 := [Entry(StrKey("a"), Arr([Entry(StrKey("c"), Int(2))])), Entry(StrKey("c"), Int(3))];
      ForgetLoop(root1, [StrKey("a")], ["c"]) == Success([Entry(StrKey("a"), Arr([])), Entry(StrKey("c"), Int(3))])
  {
    var a := StrKey("a");
    var c := StrKey("c");
    var inner1 := [Entry(c, Int(2))];
    var root1 := [Entry(a, Arr(inner1)), Entry(c, Int(3))];
    assert !IsIntKeyText("c");
    assert KeyOf("c") == c;
    assert Walk(Arr(root1), [a]) == Some(Arr(inner1));
    assert Remove(inner1, c) == [];
    var root2 := [Entry(a, Arr([])), Entry(c, Int(3))];
    assert ReplaceAt(Arr(root1), [a], Arr([])) == Arr(root2);
    assert ForgetLoop(root1, [a], ["c"]) == ForgetLoop(root2, [a], []);
  }

  /** Read at the top level, "c" is the top-level entry. */
  lemma LeakSecondKeyTopLevel()
    ensures
      var root1 := [Entry(StrKey("a"), Arr([Entry(StrKey("c"), Int(2))])), Entry(StrKey("c"), Int(3))];
      Forget(root1, ["c"]) == Success([Entry(StrKey("a"), Arr([Entry(StrKey("c"), Int(2))]))])
  {
    var a := StrKey("a");
    var c := StrKey("c");
    var inner1 := [Entry(c, Int(2))];
    var root1 := [Entry(a, Arr(inner1)), Entry(c, Int(3))];
    assert !IsIntKeyText("c");
    assert KeyOf("c") == c;
    assert root1[1].key == c;
    assert root1[1..] == [Entry(c, Int(3))];
    assert Remove(root1[1..], c) == [];
    assert Remove(root1, c) == [Entry(a, Arr(inner1))];
  }

  /* ---------------------------------------------------------------
   * first / last / where / only
   * --------------------------------------------------------------- */

  /** A callback `($value, $key) => bool`; side effects are not modelled. */
  type Callback = (Value, Key) -> bool

  predicate Accepts(f: Callback, e: Entry)
  {
    f(e.val, e.key)
  }

  /** The position of the first entry the callback accepts. */
  function FirstMatch(es: seq<Entry>, f: Callback): (r: Option<nat>)
    ensures r.Some? ==> r.value < |es| && Accepts(f, es[r.value])
    ensures r.Some? ==> forall j :: 0 <= j < r.value ==> !Accepts(f, es[j])
    ensures r.None? ==> forall j :: 0 <= j < |es| ==> !Accepts(f, es[j])
    decreases |es|
  {
    if |es| == 0 then None
    else if Accepts(f, es[0]) then Some(0)
    else
      assert forall j :: 1 <= j < |es| ==> es[j] == es[1..][j - 1];
      match FirstMatch(es[1..], f)
      case None => None
      case Some(i) => Some(i + 1)
  }

  /** `Arr::first`: without a callback the first value, with one the first accepted value;
      the default when there is none. */
  function First(es: seq<Entry>, callback: Option<Callback>, default: Value): (r: Value)
    ensures callback.None? && |es| == 0 ==> r == default
    ensures callback.None? && |es| > 0 ==> r == es[0].val
    ensures callback.Some? && (forall j :: 0 <= j < |es| ==> !Accepts(callback.value, es[j])) ==> r == default
    ensures callback.Some? ==> forall i ::
      (0 <= i < |es| && Accepts(callback.value, es[i]) && forall j :: 0 <= j < i ==> !Accepts(callback.value, es[j]))
      ==> r == es[i].val
  {
    match callback
    case None => if |es| == 0 then default else es[0].val
    case Some(f) =>
      match FirstMatch(es, f)
      case None => default
      case Some(i) => es[i].val
  }

  /** `Arr::last`: `first` over the array reversed with its keys kept, so with a callback
      the last accepted value. */
  function Last(es: seq<Entry>, callback: Option<Callback>, default: Value): (r: Value)
    ensures callback.None? && |es| == 0 ==> r == default
    ensures callback.None? && |es| > 0 ==> r == es[|es| - 1].val
    ensures callback.Some? ==> r == First(Reverse(es), callback, default)
    ensures callback.Some? && (forall j :: 0 <= j < |es| ==> !Accepts(callback.value, es[j])) ==> r == default
    ensures callback.Some? ==> forall i ::
      (0 <= i < |es| && Accepts(callback.value, es[i]) && forall j :: i < j < |es| ==> !Accepts(callback.value, es[j]))
      ==> r == es[i].val
  {
    match callback
    case None => if |es| == 0 then default else es[|es| - 1].val
    case Some(f) =>
      var rev := Reverse(es);
      assert forall j :: 0 <= j < |rev| ==> rev[j] == es[|es| - 1 - j];
      assert forall i :: 0 <= i < |es| && Accepts(f, es[i]) && (forall j :: i < j < |es| ==> !Accepts(f, es[j])) ==>
        Accepts(f, rev[|es| - 1 - i]) && forall j :: 0 <= j < |es| - 1 - i ==> !Accepts(f, rev[j]) by {
        forall i | 0 <= i < |es| && Accepts(f, es[i]) && (forall j :: i < j < |es| ==> !Accepts(f, es[j]))
          ensures forall j :: 0 <= j < |es| - 1 - i ==> !Accepts(f, rev[j])
        {
          forall j | 0 <= j < |es| - 1 - i
            ensures !Accepts(f, rev[j])
          {
            assert rev[j] == es[|es| - 1 - j];
          }
        }
      }
      First(rev, callback, default)
  }

  /** The entries satisfying `p`, in order and with their keys. */
  function Filter(es: seq<Entry>, p: Entry -> bool): (r: seq<Entry>)
    ensures |r| <= |es|
    ensures forall i :: 0 <= i < |r| ==> p(r[i]) && r[i] in es
    ensures forall i :: 0 <= i < |es| && p(es[i]) ==> es[i] in r
    decreases |es|
  {
    if |es| == 0 then []
    else
      assert forall i :: 1 <= i < |es| ==> es[i] == es[1..][i - 1];
      (if p(es[0]) then [es[0]] else []) + Filter(es[1..], p)
  }

  /** A filter keeps an array well formed. */
  lemma {:induction false} FilterWellFormed(es: seq<Entry>, p: Entry -> bool)
    requires WellFormed(es)
    ensures WellFormed(Filter(es, p))
    decreases |es|
  {
    if |es| > 0 {
      TailWellFormed(es);
      FilterWellFormed(es[1..], p);
      var tail := Filter(es[1..], p);
      if p(es[0]) {
        HeadFresh(es);
        FilterKeepsAbsent(es[1..], p, es[0].key);
        ConsWellFormed(es[0], tail);
        assert Filter(es, p) == [es[0]] + tail;
      } else {
        assert Filter(es, p) == [] + tail;
        EmptyLeft(tail);
      }
    }
  }

  lemma EmptyLeft<T>(s: seq<T>)
    ensures [] + s == s
  {
  }

  /** A filter brings no key in that the array lacks. */
  lemma FilterKeepsAbsent(es: seq<Entry>, p: Entry -> bool, k: Key)
    requires !HasKey(es, k)
    ensures !HasKey(Filter(es, p), k)
  {
    var r := Filter(es, p);
    forall i | 0 <= i < |r|
      ensures r[i].key != k
    {
      assert r[i] in es;
    }
  }

  /** On a well-formed array a filter keeps exactly the accepted entries, under their keys. */
  lemma {:induction false} FilterLookup(es: seq<Entry>, p: Entry -> bool, k: Key)
    requires WellFormed(es)
    ensures Lookup(Filter(es, p), k) ==
      (if Lookup(es, k).Some? && p(Entry(k, Lookup(es, k).value)) then Lookup(es, k) else None)
    decreases |es|
  {
    if |es| > 0 {
      assert WellFormed(es[1..]);
      FilterLookup(es[1..], p, k);
      var tail := Filter(es[1..], p);
      if p(es[0]) {
        assert Filter(es, p) == [es[0]] + tail;
        LookupCons(es[0], tail, k);
      } else {
        assert Filter(es, p) == tail;
      }
      if es[0].key == k {
        HeadFresh(es);
        assert Lookup(es[1..], k).None?;
      }
    }
  }

  lemma LookupCons(e: Entry, tail: seq<Entry>, k: Key)
    ensures Lookup([e] + tail, k) == if e.key == k then Some(e.val) else Lookup(tail, k)
  {
    assert ([e] + tail)[1..] == tail;
  }

  /** A filter keeps order: the parts of a concatenation are filtered independently and a
      single entry is kept exactly when it is accepted, which together fix the result. */
  lemma {:induction false} FilterInOrder(a: seq<Entry>, b: seq<Entry>, p: Entry -> bool)
    ensures Filter(a + b, p) == Filter(a, p) + Filter(b, p)
    decreases |a|
  {
    if |a| == 0 {
      assert a + b == b;
      EmptyLeft(Filter(b, p));
    } else {
      SplitHead(a, b);
      FilterInOrder(a[1..], b, p);
      Associate((if p(a[0]) then [a[0]] else []), Filter(a[1..], p), Filter(b, p));
    }
  }

  lemma SplitHead<T>(a: seq<T>, b: seq<T>)
    requires |a| > 0
    ensures (a + b)[0] == a[0] && (a + b)[1..] == a[1..] + b
  {
  }

  lemma Associate<T>(x: seq<T>, y: seq<T>, z: seq<T>)
    ensures x + (y + z) == (x + y) + z
  {
  }

  /** A single entry is kept exactly when it is accepted. */
  lemma FilterSingle(e: Entry, p: Entry -> bool)
    ensures Filter([e], p) == (if p(e) then [e] else [])
  {
    assert [e][1..] == [];
  }

  /** `Arr::where`: the entries the callback accepts, keys kept. */
  function Where(es: seq<Entry>, f: Callback): (r: seq<Entry>)
    ensures forall i :: 0 <= i < |r| ==> Accepts(f, r[i]) && r[i] in es
    ensures forall i :: 0 <= i < |es| && Accepts(f, es[i]) ==> es[i] in r
  {
    Filter(es, (e: Entry) => Accepts(f, e))
  }

  /** The keys `array_flip` makes of a list of key strings. */
  function Wanted(keys: seq<string>): (ks: set<Key>)
    ensures forall k :: k in ks <==> exists i :: 0 <= i < |keys| && k == KeyOf(keys[i])
  {
    set i | 0 <= i < |keys| :: KeyOf(keys[i])
  }

  /** `Arr::only`: the entries whose key is among the given ones, in the array's order. */
  function Only(es: seq<Entry>, keys: seq<string>): (r: seq<Entry>)
    ensures forall i :: 0 <= i < |r| ==> r[i].key in Wanted(keys) && r[i] in es
    ensures forall i :: 0 <= i < |es| && es[i].key in Wanted(keys) ==> es[i] in r
  {
    var ks := Wanted(keys);
    Filter(es, (e: Entry) => e.key in ks)
  }

  /** `where` and `only` keep the array's order, entry by entry. */
  lemma WhereOnlyInOrder(a: seq<Entry>, b: seq<Entry>, f: Callback, keys: seq<string>, x: Entry)
    ensures Where(a + b, f) == Where(a, f) + Where(b, f)
    ensures Where([x], f) == (if Accepts(f, x) then [x] else [])
    ensures Only(a + b, keys) == Only(a, keys) + Only(b, keys)
    ensures Only([x], keys) == (if x.key in Wanted(keys) then [x] else [])
  {
    var ks := Wanted(keys);
    FilterInOrder(a, b, (e: Entry) => Accepts(f, e));
    FilterSingle(x, (e: Entry) => Accepts(f, e));
    FilterInOrder(a, b, (e: Entry) => e.key in ks);
    FilterSingle(x, (e: Entry) => e.key in ks);
  }

  /** On a well-formed array `where` keeps each accepted entry under its key and drops the rest. */
  lemma WhereLookup(es: seq<Entry>, f: Callback, k: Key)
    requires WellFormed(es)
    ensures Lookup(Where(es, f), k) == (if Lookup(es, k).Some? && f(Lookup(es, k).value, k) then Lookup(es, k) else None)
  {
    FilterLookup(es, (e: Entry) => Accepts(f, e), k);
  }

  /** On a well-formed array `only` answers a lookup of a given key as the array does, and
      of any other key with nothing. */
  lemma OnlyLookup(es: seq<Entry>, keys: seq<string>, k: Key)
    requires WellFormed(es)
    ensures Lookup(Only(es, keys), k) == (if k in Wanted(keys) then Lookup(es, k) else None)
  {
    var ks := Wanted(keys);
    FilterLookup(es, (e: Entry) => e.key in ks, k);
  }
}
