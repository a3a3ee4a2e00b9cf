/**
  The comparison of schema fingerprints: JSON documents are brought into a canonical form,
  with every list sorted by the serialization of its items, and then compared.

  Only one property of the serialization matters to the canonical form: that it is injective.
  The theorems hold for every injective `key`, and `Dumps` is one.
  */
module SchemaFingerprint {
  import opened StringOrder
  import opened Prelude
  import opened JsonText

  // ------------------------------------------------------------------------------
  // Stable sorting by key
  // ------------------------------------------------------------------------------

  function Insert(s: seq<Json>, x: Json, key: Json -> string): seq<Json> {
    if s == [] then [x] else
      var last := s[|s| - 1];
      if Less(key(x), key(last)) then Insert(s[..|s| - 1], x, key) + [last] else s + [x]
  }

  function Sort(s: seq<Json>, key: Json -> string): seq<Json> {
    if s == [] then [] else Insert(Sort(s[..|s| - 1], key), s[|s| - 1], key)
  }

  ghost predicate Sorted(s: seq<Json>, key: Json -> string) {
    forall i, j :: 0 <= i < j < |s| ==> !Less(key(s[j]), key(s[i]))
  }

  ghost predicate Injective(key: Json -> string) {
    forall a, b :: key(a) == key(b) ==> a == b
  }

  lemma {:induction false} InsertContents(s: seq<Json>, x: Json, key: Json -> string)
    ensures multiset(Insert(s, x, key)) == multiset(s) + multiset{x}
  {
    if s != [] && Less(key(x), key(s[|s| - 1])) {
      InsertContents(s[..|s| - 1], x, key);
      assert s == s[..|s| - 1] + [s[|s| - 1]];
    }
  }

  lemma {:induction false} SortContents(s: seq<Json>, key: Json -> string)
    ensures multiset(Sort(s, key)) == multiset(s)
  {
    if s != [] {
      SortContents(s[..|s| - 1], key);
      InsertContents(Sort(s[..|s| - 1], key), s[|s| - 1], key);
      assert s == s[..|s| - 1] + [s[|s| - 1]];
    }
  }

  lemma NotLessIsTransitive(a: string, b: string, c: string)
    requires !Less(b, a) && !Less(c, b)
    ensures !Less(c, a)
  {
  }

  lemma {:induction false} InsertSorts(s: seq<Json>, x: Json, key: Json -> string)
    requires Sorted(s, key)
    ensures Sorted(Insert(s, x, key), key)
  {
    if s != [] {
      var most, last := s[..|s| - 1], s[|s| - 1];
      if Less(key(x), key(last)) {
        InsertSorts(most, x, key);
        InsertContents(most, x, key);
        var r := Insert(most, x, key);
        forall i | 0 <= i < |r|
          ensures !Less(key(last), key(r[i]))
        {
          assert r[i] in multiset(r);
          assert r[i] == x || r[i] in most;
          if r[i] == x && Less(key(last), key(x)) {
            LessIsTransitive(key(x), key(last), key(x));
            LessIsIrreflexive(key(x));
          }
        }
      } else {
        forall i | 0 <= i < |s|
          ensures !Less(key(x), key(s[i]))
        {
          if i < |s| - 1 {
            NotLessIsTransitive(key(s[i]), key(last), key(x));
          }
        }
      }
    }
  }

  lemma {:induction false} SortSorts(s: seq<Json>, key: Json -> string)
    ensures Sorted(Sort(s, key), key)
  {
    if s != [] {
      SortSorts(s[..|s| - 1], key);
      InsertSorts(Sort(s[..|s| - 1], key), s[|s| - 1], key);
    }
  }

  lemma BagSplit(s: seq<Json>, j: nat)
    requires j < |s|
    ensures multiset(s) == multiset(Without(s, j)) + multiset{s[j]}
  {
    assert s == s[..j] + [s[j]] + s[j + 1..];
  }

  lemma BagCancel(a: multiset<Json>, b: multiset<Json>, x: Json)
    requires a + multiset{x} == b + multiset{x}
    ensures a == b
  {
    assert a == (a + multiset{x}) - multiset{x};
    assert b == (b + multiset{x}) - multiset{x};
  }

  lemma SameBagSameLength(s: seq<Json>, t: seq<Json>)
    requires multiset(s) == multiset(t)
    ensures |s| == |t|
  {
    assert |s| == |multiset(s)| && |t| == |multiset(t)|;
  }

  /** The last item of a sorted list is greatest. */
  lemma SameLast(s: seq<Json>, t: seq<Json>, key: Json -> string)
    requires Injective(key) && Sorted(s, key) && Sorted(t, key) && multiset(s) == multiset(t) && s != [] && t != []
    ensures s[|s| - 1] == t[|t| - 1]
  {
    var x, y := s[|s| - 1], t[|t| - 1];
    assert x in multiset(s) && y in multiset(t);
    assert x in t && y in s;
    var i :| 0 <= i < |t| && t[i] == x;
    var j :| 0 <= j < |s| && s[j] == y;
    LessIsTotal(key(x), key(y));
    LessIsIrreflexive(key(x));
  }

  /** A bag of items has one sorted arrangement. */
  lemma {:induction false} SortedIsUnique(s: seq<Json>, t: seq<Json>, key: Json -> string)
    requires Injective(key) && Sorted(s, key) && Sorted(t, key) && multiset(s) == multiset(t)
    ensures s == t
  {
    SameBagSameLength(s, t);
    if s != [] {
      SameLast(s, t, key);
      BagSplit(s, |s| - 1);
      BagSplit(t, |t| - 1);
      assert Without(s, |s| - 1) == s[..|s| - 1] && Without(t, |t| - 1) == t[..|t| - 1];
      BagCancel(multiset(s[..|s| - 1]), multiset(t[..|t| - 1]), s[|s| - 1]);
      SortedIsUnique(s[..|s| - 1], t[..|t| - 1], key);
      assert s == s[..|s| - 1] + [s[|s| - 1]];
    }
  }

  function Without(s: seq<Json>, j: nat): seq<Json>
    requires j < |s|
  {
    s[..j] + s[j + 1..]
  }

  // ------------------------------------------------------------------------------
  // Normalization
  // ------------------------------------------------------------------------------

  function Normalize(j: Json, key: Json -> string): Json {
    match j
    case Obj(fields) => Obj(map k | k in fields :: Normalize(fields[k], key))
    case Arr(items) => Arr(Sort(NormalizeAll(items, key), key))
    case _ => j
  }

  function NormalizeAll(items: seq<Json>, key: Json -> string): (r: seq<Json>)
    ensures |r| == |items| && forall i :: 0 <= i < |items| ==> r[i] == Normalize(items[i], key)
  {
    if items == [] then [] else [Normalize(items[0], key)] + NormalizeAll(items[1..], key)
  }

  /** Equal up to the order of list items, at any depth. */
  ghost predicate Alike(a: Json, b: Json)
    decreases a, 1
  {
    match a
    case Arr(xs) => b.Arr? && AlikeLists(xs, b.items)
    case Obj(f) => b.Obj? && f.Keys == b.fields.Keys && forall k :: k in f ==> Alike(f[k], b.fields[k])
    case _ => a == b
  }

  /** Some reordering of `ys` is item by item alike to `xs`. */
  ghost predicate AlikeLists(xs: seq<Json>, ys: seq<Json>)
    decreases xs, 0
  {
    if xs == [] then ys == []
    else exists j :: 0 <= j < |ys| && Alike(xs[0], ys[j]) && AlikeLists(xs[1..], Without(ys, j))
  }

  lemma {:induction false} NormalizedWithout(ys: seq<Json>, j: nat, key: Json -> string)
    requires j < |ys|
    ensures multiset(NormalizeAll(ys, key)) == multiset(NormalizeAll(Without(ys, j), key)) + multiset{Normalize(ys[j], key)}
  {
    var n := NormalizeAll(ys, key);
    var m := NormalizeAll(Without(ys, j), key);
    forall i | 0 <= i < |m|
      ensures m[i] == Without(n, j)[i]
    {
      assert Without(ys, j)[i] == if i < j then ys[i] else ys[i + 1];
    }
    assert m == Without(n, j);
    BagSplit(n, j);
  }

  lemma {:induction false} AlikeNormalizesEqual(a: Json, b: Json, key: Json -> string)
    requires Injective(key) && Alike(a, b)
    ensures Normalize(a, key) == Normalize(b, key)
    decreases a, 1
  {
    match a
    case Arr(xs) =>
      AlikeListsSameBag(xs, b.items, key);
      SameBagSortsEqual(NormalizeAll(xs, key), NormalizeAll(b.items, key), key);
    case Obj(f) =>
      forall k | k in f
        ensures Normalize(f[k], key) == Normalize(b.fields[k], key)
      {
        AlikeNormalizesEqual(f[k], b.fields[k], key);
      }
    case _ =>
  }

  lemma {:induction false} AlikeListsSameBag(xs: seq<Json>, ys: seq<Json>, key: Json -> string)
    requires Injective(key) && AlikeLists(xs, ys)
    ensures multiset(NormalizeAll(xs, key)) == multiset(NormalizeAll(ys, key))
    decreases xs, 0
  {
    if xs != [] {
      var j :| 0 <= j < |ys| && Alike(xs[0], ys[j]) && AlikeLists(xs[1..], Without(ys, j));
      AlikeNormalizesEqual(xs[0], ys[j], key);
      AlikeListsSameBag(xs[1..], Without(ys, j), key);
      NormalizedWithout(ys, j, key);
      NormalizedWithout(xs, 0, key);
      assert Without(xs, 0) == xs[1..];
    }
  }

  lemma SameBagSortsEqual(s: seq<Json>, t: seq<Json>, key: Json -> string)
    requires Injective(key)
    ensures Sort(s, key) == Sort(t, key) <==> multiset(s) == multiset(t)
  {
    SortContents(s, key);
    SortContents(t, key);
    SortSorts(s, key);
    SortSorts(t, key);
    if multiset(s) == multiset(t) {
      SortedIsUnique(Sort(s, key), Sort(t, key), key);
    }
  }

  lemma {:induction false} EqualNormalizesAlike(a: Json, b: Json, key: Json -> string)
    requires Injective(key) && Normalize(a, key) == Normalize(b, key)
    ensures Alike(a, b)
    decreases a, 1
  {
    match a
    case Arr(xs) =>
      SameBagSortsEqual(NormalizeAll(xs, key), NormalizeAll(b.items, key), key);
      SameBagAlikeLists(xs, b.items, key);
    case Obj(f) =>
      var m, n := Normalize(a, key).fields, Normalize(b, key).fields;
      assert f.Keys == m.Keys == n.Keys == b.fields.Keys;
      forall k | k in f
        ensures Alike(f[k], b.fields[k])
      {
        assert m[k] == Normalize(f[k], key) && n[k] == Normalize(b.fields[k], key);
        EqualNormalizesAlike(f[k], b.fields[k], key);
      }
    case _ =>
  }

  lemma Partner(xs: seq<Json>, ys: seq<Json>, key: Json -> string) returns (j: nat)
    requires xs != [] && multiset(NormalizeAll(xs, key)) == multiset(NormalizeAll(ys, key))
    ensures j < |ys| && Normalize(xs[0], key) == Normalize(ys[j], key)
  {
    var m, n := NormalizeAll(xs, key), NormalizeAll(ys, key);
    assert m[0] in multiset(m) && m[0] in multiset(n);
    j :| 0 <= j < |n| && n[j] == m[0];
  }

  lemma {:induction false} SameBagAlikeLists(xs: seq<Json>, ys: seq<Json>, key: Json -> string)
    requires Injective(key) && multiset(NormalizeAll(xs, key)) == multiset(NormalizeAll(ys, key))
    ensures AlikeLists(xs, ys)
    decreases xs, 0
  {
    SameBagSameLength(NormalizeAll(xs, key), NormalizeAll(ys, key));
    if xs != [] {
      var j := Partner(xs, ys, key);
      EqualNormalizesAlike(xs[0], ys[j], key);
      NormalizedWithout(ys, j, key);
      NormalizedWithout(xs, 0, key);
      assert Without(xs, 0) == xs[1..];
      BagCancel(multiset(NormalizeAll(xs[1..], key)), multiset(NormalizeAll(Without(ys, j), key)), Normalize(ys[j], key));
      SameBagAlikeLists(xs[1..], Without(ys, j), key);
    }
  }

  /** Normalization is a canonical form for equality up to reordering. */
  lemma NormalizeIsCanonical(a: Json, b: Json, key: Json -> string)
    requires Injective(key)
    ensures Normalize(a, key) == Normalize(b, key) <==> Alike(a, b)
  {
    if Alike(a, b) {
      AlikeNormalizesEqual(a, b, key);
    } else if Normalize(a, key) == Normalize(b, key) {
      EqualNormalizesAlike(a, b, key);
    }
  }

  /** Sorting items that are in normal form gives a list in normal form. */
  lemma {:induction false} SortedListIsNormal(n: seq<Json>, key: Json -> string)
    requires Injective(key) && forall i :: 0 <= i < |n| ==> Normalize(n[i], key) == n[i]
    ensures Normalize(Arr(Sort(n, key)), key) == Arr(Sort(n, key))
  {
    var s := Sort(n, key);
    SortContents(n, key);
    SortSorts(n, key);
    forall i | 0 <= i < |s|
      ensures Normalize(s[i], key) == s[i]
    {
      assert s[i] in multiset(s) && s[i] in multiset(n);
    }
    assert NormalizeAll(s, key) == s;
    SortContents(s, key);
    SortSorts(s, key);
    SortedIsUnique(Sort(s, key), s, key);
  }

  lemma {:induction false} NormalizeIsIdempotent(j: Json, key: Json -> string)
    requires Injective(key)
    ensures Normalize(Normalize(j, key), key) == Normalize(j, key)
  {
    match j
    case Arr(items) =>
      forall i | 0 <= i < |items|
        ensures Normalize(Normalize(items[i], key), key) == Normalize(items[i], key)
      {
        NormalizeIsIdempotent(items[i], key);
      }
      SortedListIsNormal(NormalizeAll(items, key), key);
    case Obj(fields) =>
      forall k | k in fields
        ensures Normalize(Normalize(fields[k], key), key) == Normalize(fields[k], key)
      {
        NormalizeIsIdempotent(fields[k], key);
      }
    case _ =>
  }

  // ------------------------------------------------------------------------------
  // Differences
  // ------------------------------------------------------------------------------

  /** The value a number has for Python's `==`, in which true is 1 and integers equal floats. */
  function Number(j: Json): Option<Finite> {
    match j
    case Bool(b) => Some(Scaled(if b then 1 else 0, 0))
    case Int(i) => Some(Scaled(i, 0))
    case Float(x) => Some(x)
    case _ => None
  }

  /** Two numbers are equal exactly when their values are. */
  lemma {:induction false} NumbersCompareByValue(a: Json, b: Json)
    requires Number(a).Some? && Number(b).Some?
    ensures PythonEqual(a, b) <==> Number(a).value.Value() == Number(b).value.Value()
  {
    ValueIsInjective(Number(a).value, Number(b).value);
  }

  predicate PythonEqual(a: Json, b: Json) {
    if Number(a).Some? then Number(a) == Number(b)
    else match a
      case Arr(xs) => b.Arr? && |xs| == |b.items| && forall i :: 0 <= i < |xs| ==> PythonEqual(xs[i], b.items[i])
      case Obj(f) => b.Obj? && f.Keys == b.fields.Keys && forall k :: k in f ==> PythonEqual(f[k], b.fields[k])
      case _ => a == b
  }

  predicate SameType(a: Json, b: Json) {
    match a
    case Null => b.Null?
    case Bool(_) => b.Bool?
    case Int(_) => b.Int?
    case Float(_) => b.Float?
    case Str(_) => b.Str?
    case Arr(_) => b.Arr?
    case Obj(_) => b.Obj?
  }

  /** Numbers below a list lose their type. */
  function Blur(j: Json): Json {
    match j
    case Arr(_) => BlurNumbers(j)
    case Obj(f) => Obj(map k | k in f :: Blur(f[k]))
    case _ => j
  }

  function BlurNumbers(j: Json): Json {
    if Number(j).Some? then Float(Number(j).value)
    else match j
      case Arr(xs) => Arr(seq(|xs|, i requires 0 <= i < |xs| => BlurNumbers(xs[i])))
      case Obj(f) => Obj(map k | k in f :: BlurNumbers(f[k]))
      case _ => j
  }

  lemma {:induction false} PythonEqualIsBlurred(a: Json, b: Json)
    ensures PythonEqual(a, b) <==> BlurNumbers(a) == BlurNumbers(b)
  {
    if a.Arr? && b.Arr? {
      var x, y := BlurNumbers(a).items, BlurNumbers(b).items;
      forall i | 0 <= i < |a.items| && i < |b.items|
        ensures PythonEqual(a.items[i], b.items[i]) <==> x[i] == y[i]
      {
        PythonEqualIsBlurred(a.items[i], b.items[i]);
      }
    } else if a.Obj? && b.Obj? {
      var x, y := BlurNumbers(a).fields, BlurNumbers(b).fields;
      assert x.Keys == a.fields.Keys && y.Keys == b.fields.Keys;
      forall k | k in a.fields && k in b.fields
        ensures PythonEqual(a.fields[k], b.fields[k]) <==> x[k] == y[k]
      {
        PythonEqualIsBlurred(a.fields[k], b.fields[k]);
      }
    }
  }

  function Child(path: string, k: string): string {
    if path != [] then path + "." + k else k
  }

  function Here(path: string): string {
    if path != [] then path else "$"
  }

  /** What the keys lead to. */
  function Lookup(j: Json, keys: seq<string>): Option<Json> {
    if keys == [] then Some(j)
    else if j.Obj? && keys[0] in j.fields then Lookup(j.fields[keys[0]], keys[1..])
    else None
  }

  ghost predicate IsObject(j: Option<Json>) {
    j.Some? && j.value.Obj?
  }

  /** The keys lead to values that are not both objects and differ, or out of one of two objects only. */
  ghost predicate DifferAt(left: Json, right: Json, keys: seq<string>) {
    var a, b := Lookup(left, keys), Lookup(right, keys);
    if a.Some? && b.Some? then !(a.value.Obj? && b.value.Obj?) && Blur(a.value) != Blur(b.value)
    else
      && (a.Some? || b.Some?) && keys != []
      && IsObject(Lookup(left, keys[..|keys| - 1])) && IsObject(Lookup(right, keys[..|keys| - 1]))
  }

  function PathOf(path: string, keys: seq<string>): string
    decreases |keys|
  {
    if keys == [] then path else PathOf(Child(path, keys[0]), keys[1..])
  }

  /** How the place is reported. */
  function ReportAt(left: Json, right: Json, path: string, keys: seq<string>): string {
    if Lookup(left, keys).Some? && Lookup(right, keys).Some? then Here(PathOf(path, keys)) else PathOf(path, keys)
  }

  ghost predicate Reported(left: Json, right: Json, path: string, d: string) {
    exists keys :: DifferAt(left, right, keys) && d == ReportAt(left, right, path, keys)
  }

  /** Below two objects. */
  ghost predicate ReportedBelow(left: Json, right: Json, path: string, k: string, d: string)
    requires left.Obj? && right.Obj?
  {
    if k in left.fields && k in right.fields then Reported(left.fields[k], right.fields[k], Child(path, k), d)
    else (k in left.fields || k in right.fields) && d == Child(path, k)
  }

  lemma DifferAtRoot(left: Json, right: Json, keys: seq<string>)
    requires !(left.Obj? && right.Obj?) && DifferAt(left, right, keys)
    ensures keys == [] && Blur(left) != Blur(right)
  {
    if keys != [] {
      RootIsObject(left, keys);
      RootIsObject(right, keys);
    }
  }

  /** Both the keys and the keys without the last one lead through the root. */
  lemma RootIsObject(j: Json, keys: seq<string>)
    requires keys != [] && (Lookup(j, keys).Some? || IsObject(Lookup(j, keys[..|keys| - 1])))
    ensures j.Obj?
  {
    if |keys| > 1 {
      assert keys[..|keys| - 1][0] == keys[0];
    } else {
      assert keys[..0] == [];
    }
  }

  lemma LookupBelow(j: Json, k: string, keys: seq<string>)
    requires j.Obj?
    ensures Lookup(j, [k] + keys) == if k in j.fields then Lookup(j.fields[k], keys) else None
  {
    assert ([k] + keys)[1..] == keys;
  }

  lemma DifferBelow(left: Json, right: Json, path: string, k: string, keys: seq<string>)
    requires left.Obj? && right.Obj?
    ensures DifferAt(left, right, [k] + keys)
       <==> if k in left.fields && k in right.fields then DifferAt(left.fields[k], right.fields[k], keys)
            else keys == [] && (k in left.fields || k in right.fields)
    ensures ReportAt(left, right, path, [k] + keys)
         == if k in left.fields && k in right.fields then ReportAt(left.fields[k], right.fields[k], Child(path, k), keys)
            else PathOf(Child(path, k), keys)
  {
    var all := [k] + keys;
    assert all[1..] == keys;
    LookupBelow(left, k, keys);
    LookupBelow(right, k, keys);
    if keys == [] {
      assert all[..|all| - 1] == [];
    } else {
      var init := keys[..|keys| - 1];
      assert all[..|all| - 1] == [k] + init;
      LookupBelow(left, k, init);
      LookupBelow(right, k, init);
    }
  }

  lemma ReportedObjects(left: Json, right: Json, path: string, d: string)
    requires left.Obj? && right.Obj?
    ensures Reported(left, right, path, d) <==>
              exists k :: k in left.fields.Keys + right.fields.Keys && ReportedBelow(left, right, path, k, d)
  {
    if keys :| DifferAt(left, right, keys) && d == ReportAt(left, right, path, keys) {
      assert keys != [];
      var k, rest := keys[0], keys[1..];
      assert keys == [k] + rest;
      DifferBelow(left, right, path, k, rest);
      assert k in left.fields.Keys + right.fields.Keys && ReportedBelow(left, right, path, k, d);
    }
    if k :| k in left.fields.Keys + right.fields.Keys && ReportedBelow(left, right, path, k, d) {
      if k in left.fields && k in right.fields {
        var rest :| DifferAt(left.fields[k], right.fields[k], rest) && d == ReportAt(left.fields[k], right.fields[k], Child(path, k), rest);
        DifferBelow(left, right, path, k, rest);
      } else {
        DifferBelow(left, right, path, k, []);
      }
    }
  }

  lemma ReportedRoot(left: Json, right: Json, path: string, d: string)
    requires !(left.Obj? && right.Obj?)
    ensures Reported(left, right, path, d) <==> Blur(left) != Blur(right) && d == Here(path)
  {
    if keys :| DifferAt(left, right, keys) && d == ReportAt(left, right, path, keys) {
      DifferAtRoot(left, right, keys);
    }
    if Blur(left) != Blur(right) && d == Here(path) {
      assert DifferAt(left, right, []) && d == ReportAt(left, right, path, []);
    }
  }

  /**
    Reports exactly the places at which two trees differ: none exactly when they agree up to
    the types of numbers in lists.
    */
  method Diff(left: Json, right: Json, path: string) returns (differences: seq<string>)
    ensures differences == [] <==> Blur(left) == Blur(right)
    ensures forall d :: d in differences <==> Reported(left, right, path, d)
    decreases left, 2
  {
    forall d | !(left.Obj? && right.Obj?)
      ensures Reported(left, right, path, d) <==> Blur(left) != Blur(right) && d == Here(path)
    {
      ReportedRoot(left, right, path, d);
    }
    if !SameType(left, right) {
      return [Here(path)];
    }
    if left.Obj? {
      differences := DiffFields(left, right, path);
      return;
    }
    if left.Arr? {
      PythonEqualIsBlurred(left, right);
      if PythonEqual(left, right) {
        return [];
      }
      return [Here(path)];
    }
    if left == right {
      return [];
    }
    return [Here(path)];
  }

  ghost predicate FieldsAgree(f: map<string, Json>, g: map<string, Json>, k: string) {
    k in f && k in g && Blur(f[k]) == Blur(g[k])
  }

  lemma FieldsAgreeMeansSame(f: map<string, Json>, g: map<string, Json>)
    ensures (forall k :: k in f.Keys + g.Keys ==> FieldsAgree(f, g, k)) <==> Blur(Obj(f)) == Blur(Obj(g))
  {
    var m, n := Blur(Obj(f)).fields, Blur(Obj(g)).fields;
    assert m.Keys == f.Keys && n.Keys == g.Keys;
    if Blur(Obj(f)) == Blur(Obj(g)) {
      forall k | k in f.Keys + g.Keys
        ensures FieldsAgree(f, g, k)
      {
        assert k in m.Keys && k in n.Keys;
        assert m[k] == Blur(f[k]) && n[k] == Blur(g[k]);
      }
    }
    if forall k :: k in f.Keys + g.Keys ==> FieldsAgree(f, g, k) {
      assert forall k :: k in f.Keys + g.Keys ==> k in f && k in g;
      assert f.Keys == g.Keys;
      assert forall k :: k in m ==> FieldsAgree(f, g, k) && m[k] == n[k];
      assert m == n;
    }
  }

  method DiffField(left: Json, right: Json, path: string, k: string) returns (below: seq<string>)
    requires left.Obj? && right.Obj? && (k in left.fields || k in right.fields)
    ensures below == [] <==> FieldsAgree(left.fields, right.fields, k)
    ensures forall d :: d in below <==> ReportedBelow(left, right, path, k, d)
    decreases left, 0
  {
    var child := Child(path, k);
    if k !in left.fields || k !in right.fields {
      below := [child];
    } else {
      below := Diff(left.fields[k], right.fields[k], child);
    }
  }

  /** The keys are visited in their order. */
  method DiffFields(left: Json, right: Json, path: string) returns (differences: seq<string>)
    requires left.Obj? && right.Obj?
    ensures differences == [] <==> Blur(left) == Blur(right)
    ensures forall d :: d in differences <==> Reported(left, right, path, d)
    decreases left, 1
  {
    differences := [];
    var keys := SortedKeys(left.fields.Keys + right.fields.Keys);
    assert keys[..0] == [];
    for i := 0 to |keys|
      invariant Visited(left, right, path, keys[..i], differences)
    {
      assert keys[i] in keys;
      var below := DiffField(left, right, path, keys[i]);
      OneMoreVisited(left, right, path, keys[..i], keys[i], differences, below);
      assert keys[..i + 1] == keys[..i] + [keys[i]];
      differences := differences + below;
    }
    assert keys[..|keys|] == keys;
    AllKeysVisited(left, right, path, keys, differences);
  }

  /** What the fields visited so far have been found to be. */
  ghost predicate Visited(left: Json, right: Json, path: string, keys: seq<string>, differences: seq<string>)
    requires left.Obj? && right.Obj?
  {
    && (differences == [] <==> forall k :: k in keys ==> FieldsAgree(left.fields, right.fields, k))
    && forall d :: d in differences <==> exists k :: k in keys && ReportedBelow(left, right, path, k, d)
  }

  lemma OneMoreVisited(left: Json, right: Json, path: string, keys: seq<string>, k: string, differences: seq<string>, below: seq<string>)
    requires left.Obj? && right.Obj? && Visited(left, right, path, keys, differences)
    requires below == [] <==> FieldsAgree(left.fields, right.fields, k)
    requires forall d :: d in below <==> ReportedBelow(left, right, path, k, d)
    ensures Visited(left, right, path, keys + [k], differences + below)
  {
    assert forall x :: x in keys + [k] <==> x in keys || x == k;
    forall d
      ensures d in differences + below <==> exists x :: x in keys + [k] && ReportedBelow(left, right, path, x, d)
    {
      if d in below {
        assert k in keys + [k];
      }
    }
  }

  lemma AllKeysVisited(left: Json, right: Json, path: string, keys: seq<string>, differences: seq<string>)
    requires left.Obj? && right.Obj? && forall k :: k in keys <==> k in left.fields.Keys + right.fields.Keys
    requires Visited(left, right, path, keys, differences)
    ensures differences == [] <==> Blur(left) == Blur(right)
    ensures forall d :: d in differences <==> Reported(left, right, path, d)
  {
    FieldsAgreeMeansSame(left.fields, right.fields);
    assert forall k :: k in left.fields.Keys + right.fields.Keys <==> k in keys;
    forall d
      ensures d in differences <==> Reported(left, right, path, d)
    {
      ReportedObjects(left, right, path, d);
      if k :| k in left.fields.Keys + right.fields.Keys && ReportedBelow(left, right, path, k, d) {
        assert k in keys;
      }
    }
  }

  /** Below lists there are no booleans, and every floating-point number has a fraction. */
  predicate PlainLists(j: Json) {
    match j
    case Arr(_) => PlainNumbers(j)
    case Obj(f) => forall k :: k in f ==> PlainLists(f[k])
    case _ => true
  }

  predicate PlainNumbers(j: Json) {
    match j
    case Bool(_) => false
    case Float(x) => x.scale > 0
    case Arr(xs) => forall i :: 0 <= i < |xs| ==> PlainNumbers(xs[i])
    case Obj(f) => forall k :: k in f ==> PlainNumbers(f[k])
    case _ => true
  }

  lemma {:induction false} PlainNumbersNotConfused(a: Json, b: Json)
    requires PlainNumbers(a) && PlainNumbers(b) && BlurNumbers(a) == BlurNumbers(b)
    ensures a == b
  {
    if a.Arr? && b.Arr? {
      var x, y := BlurNumbers(a).items, BlurNumbers(b).items;
      forall i | 0 <= i < |a.items|
        ensures a.items[i] == b.items[i]
      {
        assert x[i] == y[i];
        PlainNumbersNotConfused(a.items[i], b.items[i]);
      }
    } else if a.Obj? && b.Obj? {
      var x, y := BlurNumbers(a).fields, BlurNumbers(b).fields;
      assert x.Keys == a.fields.Keys && y.Keys == b.fields.Keys;
      forall k | k in a.fields
        ensures a.fields[k] == b.fields[k]
      {
        assert x[k] == y[k];
        PlainNumbersNotConfused(a.fields[k], b.fields[k]);
      }
    }
  }

  lemma {:induction false} PlainListsNotConfused(a: Json, b: Json)
    requires PlainLists(a) && PlainLists(b) && Blur(a) == Blur(b)
    ensures a == b
  {
    if a.Arr? {
      PlainNumbersNotConfused(a, b);
    } else if a.Obj? && b.Obj? {
      var x, y := Blur(a).fields, Blur(b).fields;
      assert x.Keys == a.fields.Keys && y.Keys == b.fields.Keys;
      forall k | k in a.fields
        ensures a.fields[k] == b.fields[k]
      {
        assert x[k] == y[k];
        PlainListsNotConfused(a.fields[k], b.fields[k]);
      }
    }
  }

  lemma {:induction false} NormalizeKeepsPlainNumbers(j: Json, key: Json -> string)
    requires PlainNumbers(j)
    ensures PlainNumbers(Normalize(j, key))
  {
    match j
    case Arr(items) =>
      var n := NormalizeAll(items, key);
      var sorted := Sort(n, key);
      SortContents(n, key);
      forall i | 0 <= i < |sorted|
        ensures PlainNumbers(sorted[i])
      {
        assert sorted[i] in multiset(sorted) && sorted[i] in multiset(n);
        var k :| 0 <= k < |n| && n[k] == sorted[i];
        NormalizeKeepsPlainNumbers(items[k], key);
      }
    case Obj(f) =>
      forall k | k in f
        ensures PlainNumbers(Normalize(f[k], key))
      {
        NormalizeKeepsPlainNumbers(f[k], key);
      }
    case _ =>
  }

  lemma {:induction false} NormalizeKeepsPlain(j: Json, key: Json -> string)
    requires PlainLists(j)
    ensures PlainLists(Normalize(j, key))
  {
    match j
    case Arr(_) => NormalizeKeepsPlainNumbers(j, key);
    case Obj(f) =>
      forall k | k in f
        ensures PlainLists(Normalize(f[k], key))
      {
        NormalizeKeepsPlain(f[k], key);
      }
    case _ =>
  }

  lemma {:induction false} DumpsIsAKey()
    ensures Injective(Dumps)
  {
    forall a, b | Dumps(a) == Dumps(b)
      ensures a == b
    {
      DumpsIsInjective(a, b);
    }
  }

  /** With the serialization of the script, normal forms are equal exactly for documents that differ by reordering lists. */
  lemma {:induction false} DumpsNormalizeIsCanonical(a: Json, b: Json)
    ensures Normalize(a, Dumps) == Normalize(b, Dumps) <==> Alike(a, b)
    ensures Normalize(Normalize(a, Dumps), Dumps) == Normalize(a, Dumps)
  {
    DumpsIsAKey();
    NormalizeIsCanonical(a, b, Dumps);
    NormalizeIsIdempotent(a, Dumps);
  }

  /** Compares two documents as loaded and normalized. */
  method Compare(expected: Json, actual: Json) returns (differences: seq<string>)
    ensures differences == [] <==> Blur(Normalize(expected, Dumps)) == Blur(Normalize(actual, Dumps))
    ensures Alike(expected, actual) ==> differences == []
    ensures forall d :: d in differences <==> Reported(Normalize(expected, Dumps), Normalize(actual, Dumps), "", d)
    ensures PlainLists(expected) && PlainLists(actual) ==> (differences == [] <==> Alike(expected, actual))
  {
    var l, r := Normalize(expected, Dumps), Normalize(actual, Dumps);
    differences := Diff(l, r, "");
    DumpsNormalizeIsCanonical(expected, actual);
    if PlainLists(expected) && PlainLists(actual) && Blur(l) == Blur(r) {
      NormalizeKeepsPlain(expected, Dumps);
      NormalizeKeepsPlain(actual, Dumps);
      PlainListsNotConfused(l, r);
    }
  }

  function Normal(j: Json): Json {
    Normalize(j, Dumps)
  }

  ghost predicate Matching(a: Json, b: Json) {
    Blur(Normal(a)) == Blur(Normal(b))
  }

  /** The comparison tells the document from every other one that is not alike. */
  ghost predicate Decided(a: Json) {
    forall b :: Matching(a, b) ==> Alike(a, b)
  }

  /** A normal form that differs from the one of the document in the types of numbers in lists only. */
  ghost predicate Twin(n: Json, a: Json) {
    Normal(n) == n && Matching(a, n)
  }

  ghost predicate NoTwin(a: Json) {
    forall n :: Twin(n, a) ==> n == Normal(a)
  }

  /**
    A document is decided exactly when no number in a list of its normal form can be replaced by
    an equal one of another type without putting the list out of order.
    */
  lemma {:induction false} DecidedExactlyWhen(a: Json)
    ensures Decided(a) <==> NoTwin(a)
  {
    if Decided(a) {
      DecidedHasNoTwin(a);
    }
    if NoTwin(a) {
      NoTwinIsDecided(a);
    }
  }

  lemma {:induction false} DecidedHasNoTwin(a: Json)
    requires Decided(a)
    ensures NoTwin(a)
  {
    forall n | Twin(n, a)
      ensures n == Normal(a)
    {
      DumpsNormalizeIsCanonical(a, n);
    }
  }

  lemma {:induction false} NoTwinIsDecided(a: Json)
    requires NoTwin(a)
    ensures Decided(a)
  {
    forall b | Matching(a, b)
      ensures Alike(a, b)
    {
      DumpsNormalizeIsCanonical(b, b);
      assert Twin(Normal(b), a);
      DumpsNormalizeIsCanonical(a, b);
    }
  }

  /** The documents `[true]` and `[1]` are reported as matching. */
  lemma TrueMatchesOneInLists(key: Json -> string)
    ensures
      var a, b := Arr([Bool(true)]), Arr([Int(1)]);
      Blur(Normalize(a, key)) == Blur(Normalize(b, key)) && !Alike(a, b)
  {
    var a, b := Arr([Bool(true)]), Arr([Int(1)]);
    assert [Bool(true)][1..] == [] && [Bool(true)][..0] == [] && [Int(1)][..0] == [];
    assert NormalizeAll([Bool(true)], key) == [Bool(true)] && NormalizeAll([Int(1)], key) == [Int(1)];
    assert Sort([Bool(true)], key) == [Bool(true)] && Sort([Int(1)], key) == [Int(1)];
    assert BlurNumbers(a).items == [Float(Scaled(1, 0))] == BlurNumbers(b).items;
  }
}
