/**
  Metadata defaults (meta-defaults.ts): a recursive merge of an override into a base, on any two JSON values.
  The merge spreads both, so a string or an array counts as an object with its indexes for keys.
 */
module MetaDefaults {
  import opened Outcomes
  import Decimal

  datatype Json =
    | Null
    | Bool(b: bool)
    | Num(n: real)
    | Str(s: string)
    | Arr(items: seq<Json>)
    | Obj(fields: map<string, Json>)
  {
    /** What JavaScript counts as true. */
    predicate Truthy() {
      match this
      case Null => false
      case Bool(b) => b
      case Num(n) => n != 0.0
      case Str(s) => s != ""
      case Arr(_) => true
      case Obj(_) => true
    }
  }

  function StrFields(s: string, n: nat): (m: map<string, Json>)
    requires n <= |s|
    ensures forall k :: k in m ==> m[k].Str?
  {
    if n == 0 then map[] else StrFields(s, n - 1)[Decimal.ToString(n - 1) := Str([s[n - 1]])]
  }

  function ArrFields(items: seq<Json>, n: nat): (m: map<string, Json>)
    requires n <= |items|
    ensures forall k :: k in m ==> m[k] in items
  {
    if n == 0 then map[] else ArrFields(items, n - 1)[Decimal.ToString(n - 1) := items[n - 1]]
  }

  /** The own enumerable properties, as `{...value}` copies them and Object.keys lists them. */
  function Spread(j: Json): (m: map<string, Json>)
    ensures forall k :: k in m && m[k].Obj? ==> m[k] < j
  {
    match j
    case Obj(fields) => fields
    case Str(s) => StrFields(s, |s|)
    case Arr(items) => ArrFields(items, |items|)
    case _ => map[]
  }

  /** `value ?? {}` for a property that may be absent. */
  function OrEmpty(m: map<string, Json>, k: string): Json {
    if k in m && m[k] != Null then m[k] else Obj(map[])
  }

  function Merge(base: Json, override: Json): Json
    decreases override
  {
    if !override.Truthy() then base
    else
      var b, o := Spread(base), Spread(override);
      Obj(map k | k in b.Keys + o.Keys ::
        if k !in o then b[k] else if o[k].Obj? then Merge(OrEmpty(b, k), o[k]) else o[k])
  }

  lemma SameOrEmpty(m: map<string, Json>, n: map<string, Json>, k: string)
    requires k in m <==> k in n
    requires k in m ==> m[k] == n[k]
    ensures OrEmpty(m, k) == OrEmpty(n, k)
  {
  }

  /** The value that the merge puts under a key of either. */
  function Merged(b: map<string, Json>, o: map<string, Json>, k: string): Json
    requires k in b || k in o
  {
    if k !in o then b[k] else if o[k].Obj? then Merge(OrEmpty(b, k), o[k]) else o[k]
  }

  lemma NothingToMerge(base: Json, override: Json)
    requires !override.Truthy()
    ensures Merge(base, override) == base
  {
  }

  lemma MergeIsMerged(base: Json, override: Json, result: map<string, Json>)
    requires override.Truthy() && result.Keys == Spread(base).Keys + Spread(override).Keys
    requires forall k :: k in result ==> result[k] == Merged(Spread(base), Spread(override), k)
    ensures Merge(base, override) == Obj(result)
  {
    hide Spread, OrEmpty;
    var b, o := Spread(base), Spread(override);
    var m := Merge(base, override).fields;
    assert m.Keys == result.Keys;
    forall k | k in result ensures m[k] == result[k] { assert result[k] == Merged(b, o, k); }
  }

  method DeepMergeMeta(base: Json, override: Json) returns (merged: Json)
    ensures merged == Merge(base, override)
    decreases override
  {
    hide Spread, OrEmpty, Merge;
    if !override.Truthy() {
      NothingToMerge(base, override);
      return base;
    }
    var b, o := Spread(base), Spread(override);
    var result := b;
    var keys := o.Keys;
    while keys != {}
      invariant keys <= o.Keys && result.Keys == b.Keys + (o.Keys - keys)
      invariant forall k :: k in result && k !in keys ==> result[k] == Merged(b, o, k)
      invariant forall k :: k in b && k in keys ==> result[k] == b[k]
      decreases keys
    {
      var key :| key in keys;
      if o[key].Obj? {
        SameOrEmpty(result, b, key);
        var inner := DeepMergeMeta(OrEmpty(result, key), o[key]);
        result := result[key := inner];
      } else {
        result := result[key := o[key]];
      }
      keys := keys - {key};
    }
    MergeIsMerged(base, override, result);
    merged := Obj(result);
  }

  const DEFAULT_META: Json := Obj(map[
    "color" := Str("#6A4BBC"), "visible" := Bool(true), "locked" := Bool(false),
    "spacing" := Num(50.0), "radius" := Num(120.0), "shape" := Str("circle")])

  function PrepareMeta(input: Json): Json {
    Merge(DEFAULT_META, input)
  }

  // ---------- What counts as nothing, what has keys, and what is filled in

  lemma FalsyValues(j: Json)
    ensures !j.Truthy() <==> j in {Null, Bool(false), Num(0.0), Str("")}
  {
  }

  /** The key is the numeral of a number below n. */
  ghost predicate IsIndex(k: string, n: nat) {
    exists i: nat :: i < n && Decimal.ToString(i) == k
  }

  lemma OneMoreIndex(k: string, n: nat)
    ensures IsIndex(k, n + 1) <==> IsIndex(k, n) || k == Decimal.ToString(n)
    ensures !IsIndex(k, 0)
  {
    if IsIndex(k, n) { var i: nat :| i < n && Decimal.ToString(i) == k; }
  }

  lemma OtherNumeral(i: nat, j: nat)
    requires i != j
    ensures Decimal.ToString(i) != Decimal.ToString(j)
  {
    Decimal.RoundTrip(i);
    Decimal.RoundTrip(j);
  }

  lemma {:induction false} StringKeys(s: string, n: nat)
    requires n <= |s|
    ensures forall k :: k in StrFields(s, n) <==> IsIndex(k, n)
  {
    hide IsIndex, Decimal.ToString;
    if n == 0 {
      forall k ensures !IsIndex(k, 0) { OneMoreIndex(k, 0); }
    } else {
      StringKeys(s, n - 1);
      forall k ensures k in StrFields(s, n) <==> IsIndex(k, n) { OneMoreIndex(k, n - 1); }
    }
  }

  lemma {:induction false} StringValue(s: string, n: nat, i: nat)
    requires i < n <= |s|
    ensures Decimal.ToString(i) in StrFields(s, n) && StrFields(s, n)[Decimal.ToString(i)] == Str([s[i]])
  {
    hide Decimal.ToString;
    if i < n - 1 {
      StringValue(s, n - 1, i);
      OtherNumeral(i, n - 1);
    }
  }

  lemma {:induction false} ArrayKeys(items: seq<Json>, n: nat)
    requires n <= |items|
    ensures forall k :: k in ArrFields(items, n) <==> IsIndex(k, n)
  {
    hide IsIndex, Decimal.ToString;
    if n == 0 {
      forall k ensures !IsIndex(k, 0) { OneMoreIndex(k, 0); }
    } else {
      ArrayKeys(items, n - 1);
      forall k ensures k in ArrFields(items, n) <==> IsIndex(k, n) { OneMoreIndex(k, n - 1); }
    }
  }

  lemma {:induction false} ArrayValue(items: seq<Json>, n: nat, i: nat)
    requires i < n <= |items|
    ensures Decimal.ToString(i) in ArrFields(items, n) && ArrFields(items, n)[Decimal.ToString(i)] == items[i]
  {
    hide Decimal.ToString;
    if i < n - 1 {
      ArrayValue(items, n - 1, i);
      OtherNumeral(i, n - 1);
    }
  }

  /** A string has its characters under its indexes, an array its items, an object its fields, nothing else a key. */
  lemma SpreadMeans(j: Json, i: nat)
    ensures j.Str? ==> forall k :: k in Spread(j) <==> IsIndex(k, |j.s|)
    ensures j.Str? && i < |j.s| ==> Decimal.ToString(i) in Spread(j) && Spread(j)[Decimal.ToString(i)] == Str([j.s[i]])
    ensures j.Arr? ==> forall k :: k in Spread(j) <==> IsIndex(k, |j.items|)
    ensures j.Arr? && i < |j.items| ==> Decimal.ToString(i) in Spread(j) && Spread(j)[Decimal.ToString(i)] == j.items[i]
    ensures j.Obj? ==> Spread(j) == j.fields
    ensures j.Null? || j.Bool? || j.Num? ==> Spread(j) == map[]
  {
    hide IsIndex, Decimal.ToString, StrFields, ArrFields;
    if j.Str? {
      StringKeys(j.s, |j.s|);
      if i < |j.s| { StringValue(j.s, |j.s|, i); }
    }
    if j.Arr? {
      ArrayKeys(j.items, |j.items|);
      if i < |j.items| { ArrayValue(j.items, |j.items|, i); }
    }
  }

  /** The default of a key. */
  function Default(k: string): Option<Json> {
    if k == "color" then Some(Str("#6A4BBC"))
    else if k == "visible" then Some(Bool(true))
    else if k == "locked" then Some(Bool(false))
    else if k == "spacing" then Some(Num(50.0))
    else if k == "radius" then Some(Num(120.0))
    else if k == "shape" then Some(Str("circle"))
    else None
  }

  /** Prepared metadata: every default that the input does not name, and whatever else the input says. */
  lemma PrepareMeans(input: Json)
    ensures PrepareMeta(input).Obj?
    ensures var m, given := PrepareMeta(input).fields, if input.Truthy() then Spread(input) else map[];
      && (forall k :: k in m <==> k in given || Default(k).Some?)
      && (forall k :: k in m && k !in given ==> Some(m[k]) == Default(k))
      && (forall k :: k in given && !given[k].Obj? ==> m[k] == given[k])
      && (forall k :: k in given && given[k].Obj? ==>
            && m[k].Obj? && given[k].fields.Keys <= m[k].fields.Keys
            && (Default(k).None? ==> m[k] == Merge(Obj(map[]), given[k])))
  {
    hide Spread;
    DefaultsAre();
    assert Spread(DEFAULT_META) == DEFAULT_META.fields by { SpreadMeans(DEFAULT_META, 0); }
    var given := if input.Truthy() then Spread(input) else map[];
    forall k | k in given && given[k].Obj?
      ensures Merge(OrEmpty(DEFAULT_META.fields, k), given[k]).Obj?
      ensures given[k].fields.Keys <= Merge(OrEmpty(DEFAULT_META.fields, k), given[k]).fields.Keys
    {
      SpreadMeans(given[k], 0);
    }
  }

  lemma DefaultsAre()
    ensures forall k :: k in DEFAULT_META.fields <==> Default(k).Some?
    ensures forall k :: k in DEFAULT_META.fields ==> Some(DEFAULT_META.fields[k]) == Default(k)
  {
  }

  // ---------- Merging again

  /** An object merged into itself is itself. */
  lemma {:induction false} SelfMerge(x: Json)
    requires x.Obj?
    ensures Merge(x, x) == x
  {
    var f := x.fields;
    forall k | k in f && f[k].Obj? ensures Merge(OrEmpty(f, k), f[k]) == f[k] { SelfMerge(f[k]); }
    assert Merge(x, x).fields.Keys == f.Keys;
  }

  /** A truthy override: merging the result into the same base again changes nothing. */
  lemma {:induction false} MergeAgain(base: Json, override: Json)
    requires override.Truthy()
    ensures Merge(base, Merge(base, override)) == Merge(base, override)
    decreases override
  {
    var b, o, m := Spread(base), Spread(override), Merge(base, override).fields;
    forall k | k in m && m[k].Obj? ensures Merge(OrEmpty(b, k), m[k]) == m[k] {
      if k in o {
        assert o[k].Obj?;
        MergeAgain(OrEmpty(b, k), o[k]);
      } else {
        SelfMerge(b[k]);
      }
    }
    StaysMerged(base, override, m);
  }

  lemma StaysMerged(base: Json, override: Json, m: map<string, Json>)
    requires override.Truthy() && Merge(base, override) == Obj(m)
    requires forall k :: k in m && m[k].Obj? ==> Merge(OrEmpty(Spread(base), k), m[k]) == m[k]
    ensures Merge(base, Obj(m)) == Obj(m)
  {
    hide OrEmpty;
    assert m.Keys == Spread(base).Keys + Spread(override).Keys;
    hide Spread, Json.Truthy;
    MergeIsMerged(base, Obj(m), m);
  }

  /**
    The merge is idempotent exactly when the override says something, or the base is an object or itself falsy:
    a base that is a non-empty string, a non-zero number, true or an array comes back as an object the second time.
   */
  lemma {:induction false} MergeIdempotentWhen(base: Json, override: Json)
    ensures Merge(base, Merge(base, override)) == Merge(base, override) <==>
      override.Truthy() || base.Obj? || !base.Truthy()
  {
    if override.Truthy() {
      MergeAgain(base, override);
    } else if base.Obj? {
      SelfMerge(base);
    }
  }

  lemma MergeNotIdempotent()
    ensures Merge(Num(5.0), Merge(Num(5.0), Null)) == Obj(map[]) != Merge(Num(5.0), Null)
  {
  }

  /** Preparing metadata twice is preparing it once, whatever the input. */
  lemma PrepareIsIdempotent(input: Json)
    ensures PrepareMeta(PrepareMeta(input)) == PrepareMeta(input)
  {
    MergeIdempotentWhen(DEFAULT_META, input);
  }

  // ---------- What the merge means along a path of keys

  function Lookup(j: Json, path: seq<string>): Option<Json> {
    if path == [] then Some(j)
    else if j.Obj? && path[0] in j.fields then Lookup(j.fields[path[0]], path[1..])
    else None
  }

  /** Wherever an object override holds a value that is not an object, the result holds it too. */
  lemma {:induction false} OverrideWins(base: Json, override: Json, path: seq<string>)
    requires override.Obj? && Lookup(override, path).Some? && !Lookup(override, path).value.Obj?
    ensures Lookup(Merge(base, override), path) == Lookup(override, path)
    decreases override
  {
    var o, k := override.fields, path[0];
    if o[k].Obj? { OverrideWins(OrEmpty(Spread(base), k), o[k], path[1..]); }
  }

  /** The override leaves the path open, and both are objects as far as it goes along it. */
  predicate LeavesOpen(base: Json, override: Json, path: seq<string>)
    decreases override
  {
    path != [] && base.Obj? && override.Obj? &&
    var b, o, k := base.fields, override.fields, path[0];
    k in o ==> o[k].Obj? && (k in b ==> b[k].Obj?) && LeavesOpen(OrEmpty(b, k), o[k], path[1..])
  }

  /** Wherever the override says nothing, the result is as the base. */
  lemma {:induction false} BaseShinesThrough(base: Json, override: Json, path: seq<string>)
    requires LeavesOpen(base, override, path)
    ensures Lookup(Merge(base, override), path) == Lookup(base, path)
    decreases override
  {
    var b, o, k := base.fields, override.fields, path[0];
    if k in o { BaseShinesThrough(OrEmpty(b, k), o[k], path[1..]); }
  }

  /** The override is an object at every step of the path. */
  predicate ObjectsAlong(override: Json, path: seq<string>)
    decreases |path|
  {
    override.Obj? &&
    (path != [] ==> path[0] in override.fields && ObjectsAlong(override.fields[path[0]], path[1..]))
  }

  /** What the base contributes at the end of the path: an absent or null value counts as an empty object. */
  function BaseAt(base: Json, path: seq<string>): Json
    decreases |path|
  {
    if path == [] then base else BaseAt(OrEmpty(Spread(base), path[0]), path[1..])
  }

  /** At every level that the override reaches with an object, the keys are those of either. */
  lemma {:induction false} KeysAreUnion(base: Json, override: Json, path: seq<string>)
    requires ObjectsAlong(override, path)
    ensures Lookup(override, path).Some? && Lookup(override, path).value.Obj?
    ensures var merged := Lookup(Merge(base, override), path);
      && merged.Some? && merged.value.Obj?
      && merged.value.fields.Keys == Spread(BaseAt(base, path)).Keys + Lookup(override, path).value.fields.Keys
    decreases |path|
  {
    if path != [] {
      var k := path[0];
      KeysAreUnion(OrEmpty(Spread(base), k), override.fields[k], path[1..]);
    }
  }

  /** The whole merge at once: the result is the merge, at the end of the path, of what base and override have there. */
  lemma {:induction false} MergedAt(base: Json, override: Json, path: seq<string>)
    requires ObjectsAlong(override, path)
    ensures Lookup(override, path).Some?
    ensures Lookup(Merge(base, override), path) == Some(Merge(BaseAt(base, path), Lookup(override, path).value))
    decreases |path|
  {
    if path != [] {
      var k := path[0];
      MergedAt(OrEmpty(Spread(base), k), override.fields[k], path[1..]);
    }
  }
}
