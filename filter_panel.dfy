/**
 * Toggling a facet filter (`handleFilter` in src/components/FilterPanel.tsx).
 * The active filters are URL query parameters: an ordered list of
 * (name, value) pairs in which a name may occur many times.
 */
module FilterPanel {
  import opened Lists

  type Param = (string, string)

  /** `URLSearchParams.getAll(key)`: the values of `key`, in order. */
  function GetAll(params: seq<Param>, key: string): seq<string>
  {
    if params == [] then []
    else (if params[0].0 == key then [params[0].1] else []) + GetAll(params[1..], key)
  }

  /** `URLSearchParams.delete(key)`: every pair named `key` removed, the others kept in order. */
  function Delete(params: seq<Param>, key: string): seq<Param>
  {
    if params == [] then []
    else (if params[0].0 == key then [] else [params[0]]) + Delete(params[1..], key)
  }

  /** The pairs `(key, v)` for the values `vs`, in order. */
  function Pairs(key: string, vs: seq<string>): seq<Param>
  {
    if vs == [] then [] else [(key, vs[0])] + Pairs(key, vs[1..])
  }

  lemma {:induction false} GetAllAppend(a: seq<Param>, b: seq<Param>, key: string)
    ensures GetAll(a + b, key) == GetAll(a, key) + GetAll(b, key)
  {
    if a == [] {
      assert a + b == b;
    } else {
      assert (a + b)[0] == a[0] && (a + b)[1..] == a[1..] + b;
      GetAllAppend(a[1..], b, key);
      AppendAssoc(if a[0].0 == key then [a[0].1] else [], GetAll(a[1..], key), GetAll(b, key));
    }
  }

  lemma {:induction false} GetAllDelete(params: seq<Param>, key: string, k: string)
    ensures GetAll(Delete(params, key), k) == if k == key then [] else GetAll(params, k)
  {
    if params != [] {
      GetAllDelete(params[1..], key, k);
      GetAllAppend(if params[0].0 == key then [] else [params[0]], Delete(params[1..], key), k);
    }
  }

  lemma {:induction false} GetAllPairs(key: string, vs: seq<string>, k: string)
    ensures GetAll(Pairs(key, vs), k) == if k == key then vs else []
  {
    if vs != [] {
      GetAllPairs(key, vs[1..], k);
      GetAllAppend([(key, vs[0])], Pairs(key, vs[1..]), k);
    }
  }

  lemma {:induction false} PairsAppend(key: string, a: seq<string>, b: seq<string>)
    ensures Pairs(key, a + b) == Pairs(key, a) + Pairs(key, b)
  {
    if a == [] {
      assert a + b == b;
    } else {
      assert (a + b)[1..] == a[1..] + b;
      PairsAppend(key, a[1..], b);
    }
  }

  /** One more value appends its one pair. */
  lemma PairsSnoc(key: string, vs: seq<string>, i: nat)
    requires i < |vs|
    ensures Pairs(key, vs[..i + 1]) == Pairs(key, vs[..i]) + [(key, vs[i])]
  {
    assert vs[..i + 1] == vs[..i] + [vs[i]];
    PairsAppend(key, vs[..i], [vs[i]]);
    assert Pairs(key, [vs[i]]) == [(key, vs[i])];
  }

  /** The values of `key` after toggling `value`: removed when active, appended otherwise. */
  function ToggledValues(values: seq<string>, value: string): (r: seq<string>)
    ensures value in r <==> value !in values
    ensures forall v :: v != value ==> (v in r <==> v in values)
  {
    if value in values then Without(values, value) else values + [value]
  }

  /**
   * The parameters `handleFilter(key, value)` builds: when `value` is active
   * for `key`, the pairs of `key` are deleted and its other values appended
   * again; otherwise `(key, value)` is appended.
   */
  function Toggled(activeFilters: seq<Param>, key: string, value: string): seq<Param>
  {
    var current := GetAll(activeFilters, key);
    if value in current then Delete(activeFilters, key) + Pairs(key, Without(current, value))
    else activeFilters + [(key, value)]
  }

  /**
   * `handleFilter(key, value)`: the parameters passed to `onFilterChange`.
   * `activeFilters` is a value here, so it is not changed.
   */
  method HandleFilter(activeFilters: seq<Param>, key: string, value: string) returns (newParams: seq<Param>)
    ensures newParams == Toggled(activeFilters, key, value)
  {
    var currentValues := GetAll(activeFilters, key);
    newParams := activeFilters;
    if value in currentValues {
      newParams := Delete(newParams, key);
      ghost var base := newParams;
      var kept := Without(currentValues, value);
      var i := 0;
      while i < |kept|
        invariant 0 <= i <= |kept|
        invariant newParams == base + Pairs(key, kept[..i])
      {
        PairsSnoc(key, kept, i);
        AppendAssoc(base, Pairs(key, kept[..i]), [(key, kept[i])]);
        newParams := newParams + [(key, kept[i])];
        i := i + 1;
      }
      assert kept[..i] == kept;
    } else {
      newParams := newParams + [(key, value)];
    }
  }

  /**
   * After a toggle, `getAll(key)` has `value` removed (every occurrence, the
   * others in order) or appended, and `getAll` of every other name is as before.
   */
  lemma ToggledGetAll(activeFilters: seq<Param>, key: string, value: string, k: string)
    ensures GetAll(Toggled(activeFilters, key, value), k) ==
      if k == key then ToggledValues(GetAll(activeFilters, key), value) else GetAll(activeFilters, k)
  {
    var current := GetAll(activeFilters, key);
    if value in current {
      GetAllAppend(Delete(activeFilters, key), Pairs(key, Without(current, value)), k);
      GetAllDelete(activeFilters, key, k);
      GetAllPairs(key, Without(current, value), k);
    } else {
      GetAllAppend(activeFilters, [(key, value)], k);
    }
  }

  /** Toggling an inactive value twice gives back the values of `key` it started from. */
  lemma ToggleTwiceRestores(values: seq<string>, value: string)
    requires value !in values
    ensures ToggledValues(ToggledValues(values, value), value) == values
  {
    assert value in values + [value];
    WithoutAppend(values, [value], value);
    assert Without([value], value) == [];
  }

  /** A toggle makes `value` active for `key` exactly when it was not. */
  lemma ToggleFlipsActive(activeFilters: seq<Param>, key: string, value: string)
    ensures value in GetAll(Toggled(activeFilters, key, value), key) <==> value !in GetAll(activeFilters, key)
  {
    ToggledGetAll(activeFilters, key, value, key);
  }
}
