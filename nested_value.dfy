/** `getNestedValue` (lib/csv-writer.js): a path split on "." and walked one property
    at a time. */
module NestedValue {
  import opened Text
  import opened Json

  /** The value reached by reading `keys` one after another from `cur`: null as soon as
      a null or undefined value is met with keys still left, otherwise the last read,
      which may be undefined. */
  function Walk(cur: Value, keys: seq<string>): Value
    decreases |keys|
  {
    if keys == [] then cur
    else if IsNullish(cur) then Null
    else Walk(Get(cur, keys[0]), keys[1..])
  }

  /** `getNestedValue(obj, path)` */
  function Resolve(obj: Value, path: string): Value {
    Walk(obj, Split(path, '.'))
  }

  /** The loop of `getNestedValue`: `current` is replaced by `current[key]` for each key. */
  method GetNestedValue(obj: Value, path: string) returns (r: Value)
    ensures r == Resolve(obj, path)
  {
    var keys := Split(path, '.');
    var current := obj;
    var i := 0;
    while i < |keys|
      invariant 0 <= i <= |keys|
      invariant Walk(current, keys[i..]) == Walk(obj, keys)
    {
      if IsNullish(current) {
        return Null;
      }
      current := Get(current, keys[i]);
      i := i + 1;
    }
    r := current;
  }

  /** Walking a longer path is walking its first part, then the rest from where it ended. */
  lemma {:induction false} WalkAppend(v: Value, a: seq<string>, b: seq<string>)
    ensures Walk(v, a + b) == Walk(Walk(v, a), b)
    decreases |a|
  {
    if a == [] {
      assert a + b == b;
    } else if IsNullish(v) {
      if b != [] {
        assert Walk(Null, b) == Null;
      }
    } else {
      assert (a + b)[1..] == a[1..] + b;
      WalkAppend(Get(v, a[0]), a[1..], b);
    }
  }

  /** A path of keys without dots joined with "." walks exactly those keys. */
  lemma DottedPath(obj: Value, keys: seq<string>)
    requires |keys| >= 1
    requires forall i :: 0 <= i < |keys| ==> '.' !in keys[i]
    ensures Resolve(obj, Join(keys, ".")) == Walk(obj, keys)
  {
    SplitJoin(keys, '.');
  }

  /** A path without a dot reads a single property. */
  lemma SingleKey(obj: Value, key: string)
    requires '.' !in key
    ensures Resolve(obj, key) == if IsNullish(obj) then Null else Get(obj, key)
  {
    SplitNoSeparator(key, '.');
    if !IsNullish(obj) {
      assert [key][1..] == [];
      assert Walk(obj, [key]) == Walk(Get(obj, key), []);
    }
  }

  /** `a.b`: null when `obj` or `obj.a` is null or undefined, otherwise `obj.a.b`
      (undefined when `b` is missing). */
  lemma TwoKeys(obj: Value, a: string, b: string)
    requires '.' !in a && '.' !in b
    ensures Resolve(obj, a + "." + b) ==
      if IsNullish(obj) || IsNullish(Get(obj, a)) then Null else Get(Get(obj, a), b)
  {
    assert Join([a, b], ".") == a + "." + b;
    DottedPath(obj, [a, b]);
    assert [a, b][1..] == [b];
    if !IsNullish(obj) {
      assert Walk(obj, [a, b]) == Walk(Get(obj, a), [b]);
      if !IsNullish(Get(obj, a)) {
        assert [b][1..] == [];
        assert Walk(Get(obj, a), [b]) == Walk(Get(Get(obj, a), b), []);
      }
    }
  }
}
