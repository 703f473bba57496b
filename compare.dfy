/** The renderer's comparison helpers: whether a release ships a build for this machine,
    the version comparators handed to table sorts, the difference of two string lists,
    and the two object comparisons. Object values are modelled as JSON-like values whose
    objects carry an identity, so that `===` on objects is identity and on everything
    else is equality of values. */
module Compare {
  import opened Wrappers
  import opened Strings
  import opened Semver

  // ---------------------------------------------------------------- checkSupportive

  /** The file-name fragment for a platform and architecture. */
  function SupportKey(platform: string, arch: string): (key: string)
    ensures platform == "darwin" ==> key == "osx-" + arch
    ensures platform == "win32" ==> key == "win-" + arch
    ensures platform != "darwin" && platform != "win32" ==> key == platform + "-" + arch
    ensures |key| > 0
  {
    if platform == "darwin" then "osx-" + arch
    else if platform == "win32" then "win-" + arch
    else platform + "-" + arch
  }

  /** Index of the first file containing `key` (`Array.prototype.find`), or the length. */
  function FindContaining(files: seq<string>, key: string): (k: nat)
    ensures k <= |files|
    ensures forall j :: 0 <= j < k ==> !Contains(files[j], key)
    ensures k < |files| ==> Contains(files[k], key)
    decreases |files|
  {
    if files == [] || Contains(files[0], key) then 0 else 1 + FindContaining(files[1..], key)
  }

  /** `!!files.find(...)`: a file was found and it is a non-empty (truthy) string. */
  function CheckSupportive(platform: string, arch: string, files: seq<string>): bool
  {
    var key := SupportKey(platform, arch);
    var k := FindContaining(files, key);
    k < |files| && files[k] != ""
  }

  /** A found file always contains the non-empty key, so it is truthy: the check holds
      exactly when some file contains the key. */
  lemma CheckSupportiveMeans(platform: string, arch: string, files: seq<string>)
    ensures CheckSupportive(platform, arch, files) <==>
      exists i :: 0 <= i < |files| && Contains(files[i], SupportKey(platform, arch))
  {
    var key := SupportKey(platform, arch);
    var k := FindContaining(files, key);
    if k < |files| {
      NonEmptyContainer(files[k], key);
    }
  }

  lemma NonEmptyContainer(s: string, key: string)
    requires |key| > 0 && Contains(s, key)
    ensures s != ""
  {
  }

  // ---------------------------------------------------------------- compareVersion

  /** The `semver` package's parse: an optional leading `v`, then a release version. */
  function JsParse(s: string): Option<Version>
  {
    Parse(if |s| > 0 && s[0] == 'v' then s[1..] else s)
  }

  /** `semver.gt(a, b)`: throws on an invalid version, `a` being checked first. */
  function JsGt(a: string, b: string): (r: Result<bool>)
    ensures r.Ok? <==> JsParse(a).Some? && JsParse(b).Some?
    ensures r.Ok? ==> r.value == Gt(JsParse(a).value, JsParse(b).value)
  {
    if JsParse(a).None? then Err("Invalid Version: " + a)
    else if JsParse(b).None? then Err("Invalid Version: " + b)
    else Ok(Gt(JsParse(a).value, JsParse(b).value))
  }

  /** `s.slice(1)`. */
  function Slice1(s: string): string
  {
    if |s| == 0 then s else s[1..]
  }

  /** `compareVersion` of `compare.ts`, `apply-theme.ts` and the renderer's `util.ts`:
      -1 when the second version is greater, otherwise 1. */
  function CompareVersion(version1: string, version2: string): (r: Result<int>)
  {
    var gt := JsGt(Slice1(version2), Slice1(version1));
    if gt.Err? then Err(gt.error) else Ok(if gt.value then -1 else 1)
  }

  /** The comparator never answers 0: equal versions compare as 1 both ways, and for
      different versions the two orders disagree, as a sort expects. */
  lemma CompareVersionSigns(version1: string, version2: string)
    requires JsParse(Slice1(version1)).Some? && JsParse(Slice1(version2)).Some?
    ensures var a := JsParse(Slice1(version1)).value; var b := JsParse(Slice1(version2)).value;
      && CompareVersion(version1, version2).Ok?
      && (CompareVersion(version1, version2).value == -1 <==> Lt(a, b))
      && CompareVersion(version1, version2).value != 0
      && (a == b ==> CompareVersion(version1, version2) == CompareVersion(version2, version1) == Ok(1))
      && (a != b ==> CompareVersion(version1, version2).value == -CompareVersion(version2, version1).value)
  {
    var a := JsParse(Slice1(version1)).value;
    var b := JsParse(Slice1(version2)).value;
    LtTotal(a, b);
    LtIrreflexive(a);
    if Lt(a, b) && Lt(b, a) { LtTransitive(a, b, a); }
  }

  /** The boolean `compareVersion` of the versions page: `semver.gt(v2, v1)` handed on as
      a number, so 1 when the second is greater and 0 otherwise, never negative. */
  function CompareVersionFlag(version1: string, version2: string): (r: Result<int>)
  {
    var gt := JsGt(Slice1(version2), Slice1(version1));
    if gt.Err? then Err(gt.error) else Ok(if gt.value then 1 else 0)
  }

  lemma CompareVersionFlagRange(version1: string, version2: string)
    requires JsParse(Slice1(version1)).Some? && JsParse(Slice1(version2)).Some?
    ensures var a := JsParse(Slice1(version1)).value; var b := JsParse(Slice1(version2)).value;
      && CompareVersionFlag(version1, version2).Ok?
      && (CompareVersionFlag(version1, version2).value == 1 <==> Lt(a, b))
      && (CompareVersionFlag(version1, version2).value == 0 <==> !Lt(a, b))
      && (a == b ==> CompareVersionFlag(version1, version2) == Ok(0))
  {
    LtIrreflexive(JsParse(Slice1(version1)).value);
  }

  /** Both comparators throw the same error on the same bad input. */
  lemma ComparatorsFailAlike(version1: string, version2: string)
    ensures CompareVersion(version1, version2).Err? <==> CompareVersionFlag(version1, version2).Err?
    ensures CompareVersion(version1, version2).Err? ==>
      CompareVersion(version1, version2).error == CompareVersionFlag(version1, version2).error
  {
  }

  // ---------------------------------------------------------------- compareArray

  /** `xs.filter(x => set.has(x) == keep)`. */
  function FilterIn(xs: seq<string>, s: set<string>, keep: bool): (r: seq<string>)
    ensures forall x :: x in r <==> x in xs && ((x in s) == keep)
    decreases |xs|
  {
    if xs == [] then []
    else (if (xs[0] in s) == keep then [xs[0]] else []) + FilterIn(xs[1..], s, keep)
  }

  function Added(a: seq<string>, b: seq<string>): seq<string> { FilterIn(b, set x | x in a, false) }
  function Removed(a: seq<string>, b: seq<string>): seq<string> { FilterIn(a, set x | x in b, false) }
  function Unchanged(a: seq<string>, b: seq<string>): seq<string> { FilterIn(a, set x | x in b, true) }

  lemma {:induction false} FilterSubsequence(xs: seq<string>, s: set<string>, keep: bool)
    ensures Subsequence(FilterIn(xs, s, keep), xs)
    decreases |xs|
  {
    if xs != [] {
      FilterSubsequence(xs[1..], s, keep);
      var rest := FilterIn(xs[1..], s, keep);
      if (xs[0] in s) == keep {
        assert FilterIn(xs, s, keep) == [xs[0]] + rest;
        assert ([xs[0]] + rest)[1..] == rest;
      } else {
        assert FilterIn(xs, s, keep) == rest;
      }
    }
  }

  lemma {:induction false} FilterSplits(xs: seq<string>, s: set<string>)
    ensures multiset(FilterIn(xs, s, false)) + multiset(FilterIn(xs, s, true)) == multiset(xs)
    decreases |xs|
  {
    if xs != [] {
      FilterSplits(xs[1..], s);
      assert xs == [xs[0]] + xs[1..];
    }
  }

  /** An element the filter keeps keeps all its occurrences. */
  lemma FilterKeepsCount(xs: seq<string>, s: set<string>, keep: bool, x: string)
    requires (x in s) == keep
    ensures multiset(FilterIn(xs, s, keep))[x] == multiset(xs)[x]
  {
    FilterSplits(xs, s);
    assert x !in FilterIn(xs, s, !keep);
    if keep {
      assert multiset(FilterIn(xs, s, false))[x] == 0;
    } else {
      assert multiset(FilterIn(xs, s, true))[x] == 0;
    }
  }

  /** `compareArray`: `added` is what only `b` has, `removed` what only `a` has, and
      `unchanged` what both have. */
  lemma CompareArrayMembers(a: seq<string>, b: seq<string>)
    ensures forall x :: x in Added(a, b) <==> x in b && x !in a
    ensures forall x :: x in Removed(a, b) <==> x in a && x !in b
    ensures forall x :: x in Unchanged(a, b) <==> x in a && x in b
  {
  }

  /** `removed` and `unchanged` split `a`; each of the three keeps its source's order,
      and `added` keeps `b`'s duplicates. */
  lemma CompareArrayParts(a: seq<string>, b: seq<string>)
    ensures multiset(Removed(a, b)) + multiset(Unchanged(a, b)) == multiset(a)
    ensures Subsequence(Added(a, b), b) && Subsequence(Removed(a, b), a) && Subsequence(Unchanged(a, b), a)
    ensures forall x :: x in b && x !in a ==> multiset(Added(a, b))[x] == multiset(b)[x]
  {
    var sa := set y | y in a;
    var sb := set y | y in b;
    FilterSplits(a, sb);
    FilterSubsequence(b, sa, false);
    FilterSubsequence(a, sb, false);
    FilterSubsequence(a, sb, true);
    forall x | x in b && x !in a ensures multiset(Added(a, b))[x] == multiset(b)[x] {
      FilterKeepsCount(b, sa, false, x);
    }
  }

  // ---------------------------------------------------------------- object comparisons

  /** A JavaScript value as the comparisons see it: each primitive type on its own, a
      number as its exact value (so `0` and `-0` coincide) or `NaN`, and objects (arrays
      included) with an identity and their own keys in order, one value per key. */
  datatype JsValue =
    | Undefined
    | Null
    | Bool(b: bool)
    | Num(x: real)
    | NaN
    | Str(s: string)
    | Obj(id: nat, keys: seq<string>, vals: seq<JsValue>)

  predicate WellFormed(v: JsValue)
  {
    v.Obj? ==> |v.keys| == |v.vals|
  }

  /** The value under the first occurrence of `key`, otherwise `undefined`. */
  function Lookup(keys: seq<string>, vals: seq<JsValue>, key: string): (v: JsValue)
    requires |keys| == |vals|
    ensures key !in keys ==> v == Undefined
    decreases |keys|
  {
    if keys == [] then Undefined
    else if keys[0] == key then vals[0]
    else Lookup(keys[1..], vals[1..], key)
  }

  /** With distinct keys, each key finds its own value. */
  lemma {:induction false} LookupDistinct(keys: seq<string>, vals: seq<JsValue>, i: nat)
    requires |keys| == |vals| && i < |keys|
    requires forall j, k :: 0 <= j < k < |keys| ==> keys[j] != keys[k]
    ensures Lookup(keys, vals, keys[i]) == vals[i]
    decreases |keys|
  {
    if i > 0 {
      assert keys[0] != keys[i];
      LookupDistinct(keys[1..], vals[1..], i - 1);
    }
  }

  /** `obj[key]`. */
  function Get(o: JsValue, key: string): (v: JsValue)
    requires o.Obj? && |o.keys| == |o.vals|
    ensures key !in o.keys ==> v == Undefined
  {
    Lookup(o.keys, o.vals, key)
  }

  /** `isObject`: `null` is not an object. */
  predicate IsObject(v: JsValue) { v.Obj? }

  /** `===`: identity on objects, never for `NaN`, otherwise the same type and value. */
  predicate StrictEq(a: JsValue, b: JsValue)
  {
    if a.Obj? && b.Obj? then a.id == b.id
    else if a.NaN? || b.NaN? then false
    else a == b
  }

  /** Values of different primitive types are never `===`, and `NaN` is not `===` to
      itself. */
  lemma StrictEqTyped()
    ensures !StrictEq(Num(1.0), Str("1")) && !StrictEq(Bool(true), Num(1.0)) && !StrictEq(Str(""), Bool(false))
    ensures !StrictEq(NaN, NaN)
    ensures StrictEq(Num(0.0), Num(-0.0))
  {
  }

  /** Every key of the object, read from both sides, compares as `shallowEqual` does:
      recursively when both values are objects, with `===` otherwise. */
  predicate ShallowEqual(o1: JsValue, o2: JsValue)
    requires o1.Obj? && o2.Obj?
    decreases o1
  {
    && |o1.keys| == |o2.keys|
    && |o1.keys| == |o1.vals|
    && |o2.keys| == |o2.vals|
    && forall i :: 0 <= i < |o1.keys| ==>
         var v1 := o1.vals[i];
         var v2 := Get(o2, o1.keys[i]);
         if IsObject(v1) && IsObject(v2) then ShallowEqual(v1, v2) else StrictEq(v1, v2)
  }

  /** Different key counts are never equal. */
  lemma ShallowEqualCounts(o1: JsValue, o2: JsValue)
    requires o1.Obj? && o2.Obj? && |o1.keys| != |o2.keys|
    ensures !ShallowEqual(o1, o2)
  {
  }

  /** Objects with distinct keys at every level and no `NaN` anywhere, the values that
      are shallow-equal to themselves. */
  predicate DistinctKeys(v: JsValue)
    decreases v
  {
    && !v.NaN?
    && (v.Obj? ==>
      && |v.keys| == |v.vals|
      && (forall i, j :: 0 <= i < j < |v.keys| ==> v.keys[i] != v.keys[j])
      && forall i :: 0 <= i < |v.vals| ==> DistinctKeys(v.vals[i]))
  }

  lemma {:induction false} ShallowEqualReflexive(o: JsValue)
    requires o.Obj? && DistinctKeys(o)
    ensures ShallowEqual(o, o)
    decreases o
  {
    forall i | 0 <= i < |o.keys|
      ensures var v1 := o.vals[i]; var v2 := Get(o, o.keys[i]);
        if IsObject(v1) && IsObject(v2) then ShallowEqual(v1, v2) else StrictEq(v1, v2)
    {
      LookupDistinct(o.keys, o.vals, i);
      if o.vals[i].Obj? {
        ShallowEqualReflexive(o.vals[i]);
      }
    }
  }

  /** An object holding `NaN` is not shallow-equal to itself. */
  lemma NaNNotReflexive(id: nat)
    ensures !ShallowEqual(Obj(id, ["a"], [NaN]), Obj(id, ["a"], [NaN]))
  {
    assert Get(Obj(id, ["a"], [NaN]), "a") == NaN;
  }

  /** Only the first object's keys are read, so the comparison is not symmetric:
      `{a: undefined}` equals `{b: 1}` but not the other way round. */
  lemma ShallowEqualAsymmetric()
    ensures var x := Obj(0, ["a"], [Undefined]); var y := Obj(1, ["b"], [Num(1.0)]);
      ShallowEqual(x, y) && !ShallowEqual(y, x)
  {
    var x := Obj(0, ["a"], [Undefined]);
    var y := Obj(1, ["b"], [Num(1.0)]);
    assert Get(y, "a") == Undefined;
    assert Get(x, "b") == Undefined;
  }

  /** `null` is compared with `===`, so it equals only `null`. */
  lemma NullComparedStrictly(o1: JsValue, o2: JsValue, i: nat)
    requires o1.Obj? && o2.Obj? && |o1.keys| == |o1.vals| && |o2.keys| == |o2.vals| && i < |o1.keys|
    requires o1.vals[i] == Null && Get(o2, o1.keys[i]) != Null
    ensures !ShallowEqual(o1, o2)
  {
  }

  /** `compareObject`'s verdict: every key of the first object has a `===` value in the
      second. */
  predicate AgreesOn(o1: JsValue, o2: JsValue)
    requires o1.Obj? && o2.Obj? && |o1.keys| == |o1.vals| && |o2.keys| == |o2.vals|
  {
    forall i :: 0 <= i < |o1.keys| ==> StrictEq(o1.vals[i], Get(o2, o1.keys[i]))
  }

  /** `compareObject` (the renderer's `util.ts`): the `for...in` loop clearing `ret`. */
  method CompareObject(o1: JsValue, o2: JsValue) returns (ret: bool)
    requires o1.Obj? && o2.Obj? && |o1.keys| == |o1.vals| && |o2.keys| == |o2.vals|
    ensures ret <==> AgreesOn(o1, o2)
  {
    ret := true;
    var i := 0;
    while i < |o1.keys|
      invariant 0 <= i <= |o1.keys|
      invariant ret <==> forall j :: 0 <= j < i ==> StrictEq(o1.vals[j], Get(o2, o1.keys[j]))
    {
      if !StrictEq(o1.vals[i], Get(o2, o1.keys[i])) {
        ret := false;
      }
      i := i + 1;
    }
  }

  /** `compareObject` tells a number from its text and `NaN` from itself. */
  lemma AgreesOnTyped(id1: nat, id2: nat)
    ensures !AgreesOn(Obj(id1, ["a"], [Num(1.0)]), Obj(id2, ["a"], [Str("1")]))
    ensures !AgreesOn(Obj(id1, ["a"], [NaN]), Obj(id2, ["a"], [NaN]))
    ensures AgreesOn(Obj(id1, ["a"], [Num(1.0)]), Obj(id2, ["a"], [Num(1.0)]))
  {
    assert Get(Obj(id2, ["a"], [Str("1")]), "a") == Str("1");
    assert Get(Obj(id2, ["a"], [NaN]), "a") == NaN;
    assert Get(Obj(id2, ["a"], [Num(1.0)]), "a") == Num(1.0);
  }

  /** Keys only the second object has are never looked at: the empty object agrees with
      any object, while the reverse fails as soon as the other has a defined value. */
  lemma AgreesOnOneSided(o: JsValue, id: nat)
    requires o.Obj? && |o.keys| == |o.vals| && |o.keys| > 0 && o.keys[0] != "" && o.vals[0] != Undefined
    ensures AgreesOn(Obj(id, [], []), o)
    ensures !AgreesOn(o, Obj(id, [], []))
  {
    assert Get(Obj(id, [], []), o.keys[0]) == Undefined;
  }
}
