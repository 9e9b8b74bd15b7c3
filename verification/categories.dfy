/** Category resolution during an import (books/views.py:168-185): a cache from
    lower-cased name to category, seeded from every stored category and extended,
    in row order, with one new category per name not seen before. */
module Categories {
  import opened Text
  import opened Models

  /** `categories_cache`: lower-cased name to the position of a category in the store. */
  type Cache = map<string, nat>

  /** Every entry points at a category whose lower-cased name is the entry's key. */
  predicate CacheOk(cache: Cache, cats: seq<Category>) {
    forall k :: k in cache ==> cache[k] < |cats| && Lower(cats[cache[k]].name) == k
  }

  /** The cache after one pass over the stored categories, keyed by lower-cased name.
      The stored name is lower-cased but not stripped, and when two stored names
      share a lower-cased form the later one wins. The stored categories are visited in
      store order, which the model takes to be creation order. */
  function Seed(cats: seq<Category>): (cache: Cache)
    ensures CacheOk(cache, cats)
    ensures forall i :: 0 <= i < |cats| ==> Lower(cats[i].name) in cache
  {
    if |cats| == 0 then map[]
    else
      var n := |cats| - 1;
      var prev := Seed(cats[..n]);
      var key := Lower(cats[n].name);
      var cache := prev[key := n];
      assert CacheOk(cache, cats) by {
        forall k | k in cache ensures cache[k] < |cats| && Lower(cats[cache[k]].name) == k {
          if k != key {
            assert cats[..n][prev[k]] == cats[prev[k]];
          }
        }
      }
      assert forall i :: 0 <= i < |cats| ==> Lower(cats[i].name) in cache by {
        forall i | 0 <= i < n ensures Lower(cats[i].name) in cache {
          assert cats[..n][i] == cats[i];
        }
      }
      cache
  }

  /** When stored names collide after lower-casing, the cache holds the last of them in
      store order. */
  lemma {:induction false} SeedKeepsLast(cats: seq<Category>, k: string, j: nat)
    requires k in Seed(cats) && Seed(cats)[k] < j < |cats|
    ensures Lower(cats[j].name) != k
  {
    var n := |cats| - 1;
    var prev := Seed(cats[..n]);
    if j < n && k != Lower(cats[n].name) {
      assert cats[..n][j] == cats[j];
      SeedKeepsLast(cats[..n], k, j);
    }
  }

  /** The cache, the category table and one category reference per row name. */
  datatype Resolution = Resolution(cache: Cache, categories: seq<Category>, refs: seq<nat>)

  /** The set of cache keys the row names produce. */
  function KeysOf(names: seq<string>): set<string> {
    if |names| == 0 then {} else KeysOf(names[..|names| - 1]) + {Lower(names[|names| - 1])}
  }

  /** No earlier name has the same lower-cased form as `names[i]`. */
  predicate FirstSeen(names: seq<string>, i: nat)
    requires i < |names|
  {
    forall i' :: 0 <= i' < i ==> Lower(names[i']) != Lower(names[i])
  }

  /** One pass of the loop body of books/views.py:178-185 for a row whose category
      cell reads `name` once stripped: a cached key reuses its category; any other key
      creates a category with the name as given and caches it. */
  function Step(prev: Resolution, name: string): (r: Resolution)
    ensures |r.refs| == |prev.refs| + 1 && r.refs[..|prev.refs|] == prev.refs
    ensures |prev.categories| <= |r.categories| <= |prev.categories| + 1
    ensures r.categories[..|prev.categories|] == prev.categories
    ensures forall k :: k in prev.cache ==> k in r.cache && r.cache[k] == prev.cache[k]
    ensures Lower(name) in r.cache && r.refs[|prev.refs|] == r.cache[Lower(name)]
    ensures CacheOk(prev.cache, prev.categories) ==> CacheOk(r.cache, r.categories)
  {
    var key := Lower(name);
    if key in prev.cache then
      assert prev.categories[..|prev.categories|] == prev.categories;
      Resolution(prev.cache, prev.categories, prev.refs + [prev.cache[key]])
    else
      var j := |prev.categories|;
      var cats := prev.categories + [Category(name)];
      assert forall k :: 0 <= k < j ==> cats[k] == prev.categories[k];
      Resolution(prev.cache[key := j], cats, prev.refs + [j])
  }

  /** The loop of books/views.py:177-185 over the rows' stripped category names, in order,
      starting from the seeded cache and the stored categories. */
  function Resolve(seed: Cache, cats: seq<Category>, names: seq<string>): (r: Resolution)
    ensures |r.refs| == |names|
    ensures |cats| <= |r.categories| && r.categories[..|cats|] == cats
    ensures CacheOk(seed, cats) ==> CacheOk(r.cache, r.categories)
    ensures CacheOk(seed, cats) ==> forall i :: 0 <= i < |names| ==>
              r.refs[i] < |r.categories| && Lower(r.categories[r.refs[i]].name) == Lower(names[i])
  {
    if |names| == 0 then
      assert cats[..|cats|] == cats;
      Resolution(seed, cats, [])
    else
      var n := |names| - 1;
      var prev := Resolve(seed, cats, names[..n]);
      var r := Step(prev, names[n]);
      PrefixTrans(r.categories, prev.categories, cats);
      if CacheOk(seed, cats) then
        StepKeepsRowKeys(names, prev, r);
        r
      else
        r
  }

  lemma PrefixTrans<T>(a: seq<T>, b: seq<T>, c: seq<T>)
    requires |b| <= |a| && a[..|b|] == b
    requires |c| <= |b| && b[..|c|] == c
    ensures a[..|c|] == c
  {
    assert forall k :: 0 <= k < |c| ==> a[k] == b[k];
  }

  /** One pass keeps every earlier row pointing at a category with its key, and the new
      row points at the cached category for its key. */
  lemma StepKeepsRowKeys(names: seq<string>, prev: Resolution, r: Resolution)
    requires |names| > 0 && |prev.refs| == |names| - 1 && |r.refs| == |names|
    requires forall i :: 0 <= i < |names| - 1 ==>
               prev.refs[i] < |prev.categories| && Lower(prev.categories[prev.refs[i]].name) == Lower(names[..|names| - 1][i])
    requires r.refs[..|prev.refs|] == prev.refs
    requires |prev.categories| <= |r.categories| && r.categories[..|prev.categories|] == prev.categories
    requires CacheOk(r.cache, r.categories)
    requires Lower(names[|names| - 1]) in r.cache && r.refs[|prev.refs|] == r.cache[Lower(names[|names| - 1])]
    ensures forall i :: 0 <= i < |names| ==>
              r.refs[i] < |r.categories| && Lower(r.categories[r.refs[i]].name) == Lower(names[i])
  {
    var n := |names| - 1;
    forall i | 0 <= i < |names|
      ensures r.refs[i] < |r.categories| && Lower(r.categories[r.refs[i]].name) == Lower(names[i])
    {
      if i < n {
        assert r.refs[i] == r.refs[..|prev.refs|][i];
        assert names[..n][i] == names[i];
        assert r.categories[prev.refs[i]] == r.categories[..|prev.categories|][prev.refs[i]];
      }
    }
  }

  /** The table part of the loop invariant: stored categories stay in place, the cache
      agrees with the table, seeded entries never move, and no created category shares
      its lower-cased name with a seeded entry. */
  predicate TableOk(seed: Cache, cats: seq<Category>, r: Resolution) {
    && |cats| <= |r.categories| && r.categories[..|cats|] == cats
    && CacheOk(r.cache, r.categories)
    && (forall k :: k in seed ==> k in r.cache && r.cache[k] == seed[k])
    && (forall j :: |cats| <= j < |r.categories| ==> Lower(r.categories[j].name) !in seed)
  }

  /** The key part: the cache holds the seeded keys and the rows' keys and nothing else,
      and one category was created per key the seed lacked. */
  predicate KeysOk(seed: Cache, cats: seq<Category>, names: seq<string>, r: Resolution) {
    && r.cache.Keys == seed.Keys + KeysOf(names)
    && |r.categories| - |cats| == |KeysOf(names) - seed.Keys|
  }

  /** The reference part: every row references the category cached for its key. */
  predicate RefsOk(names: seq<string>, r: Resolution) {
    && |r.refs| == |names|
    && forall i :: 0 <= i < |names| ==> Lower(names[i]) in r.cache && r.refs[i] == r.cache[Lower(names[i])]
  }

  /** The owner part: each created category is the one the cache holds for its key. */
  predicate OwnersOk(cats: seq<Category>, r: Resolution) {
    forall j :: |cats| <= j < |r.categories| ==>
      Lower(r.categories[j].name) in r.cache && r.cache[Lower(r.categories[j].name)] == j
  }

  /** The naming part: a row whose key neither the seed nor an earlier row holds
      references a category carrying exactly the row's name. */
  predicate NamesOk(seed: Cache, names: seq<string>, r: Resolution) {
    && |r.refs| == |names|
    && forall i :: 0 <= i < |names| && Lower(names[i]) !in seed && FirstSeen(names, i) ==>
         r.refs[i] < |r.categories| && r.categories[r.refs[i]].name == names[i]
  }

  /** What the resolution loop keeps true after the rows `names`. */
  predicate Inv(seed: Cache, cats: seq<Category>, names: seq<string>, r: Resolution) {
    && TableOk(seed, cats, r) && KeysOk(seed, cats, names, r) && RefsOk(names, r)
    && OwnersOk(cats, r) && NamesOk(seed, names, r)
  }

  lemma StepKeepsTable(seed: Cache, cats: seq<Category>, prev: Resolution, name: string)
    requires TableOk(seed, cats, prev)
    ensures TableOk(seed, cats, Step(prev, name))
  {
    var r := Step(prev, name);
    var key := Lower(name);
    if key !in prev.cache {
      var j := |prev.categories|;
      assert r.categories[..|cats|] == prev.categories[..|cats|];
      forall k | k in r.cache ensures r.cache[k] < |r.categories| && Lower(r.categories[r.cache[k]].name) == k {
        if k != key {
          assert r.categories[prev.cache[k]] == prev.categories[prev.cache[k]];
        }
      }
      forall j' | |cats| <= j' < |r.categories| ensures Lower(r.categories[j'].name) !in seed {
        if j' < j {
          assert r.categories[j'] == prev.categories[j'];
        }
      }
    }
  }

  lemma StepKeepsKeys(seed: Cache, cats: seq<Category>, names: seq<string>, prev: Resolution)
    requires |names| > 0
    requires KeysOk(seed, cats, names[..|names| - 1], prev)
    ensures KeysOk(seed, cats, names, Step(prev, names[|names| - 1]))
  {
    var n := |names| - 1;
    assert KeysOf(names) == KeysOf(names[..n]) + {Lower(names[n])};
    if Lower(names[n]) in prev.cache {
      StepHitKeys(seed, cats, KeysOf(names[..n]), prev, names[n]);
    } else {
      StepMissKeys(seed, cats, KeysOf(names[..n]), prev, names[n]);
    }
  }

  lemma StepHitKeys(seed: Cache, cats: seq<Category>, before: set<string>, prev: Resolution, name: string)
    requires prev.cache.Keys == seed.Keys + before && |prev.categories| - |cats| == |before - seed.Keys|
    requires Lower(name) in prev.cache
    ensures var r := Step(prev, name);
      r.cache.Keys == seed.Keys + (before + {Lower(name)})
      && |r.categories| - |cats| == |(before + {Lower(name)}) - seed.Keys|
  {
    KeysHit(seed.Keys, prev.cache.Keys, before, Lower(name));
  }

  lemma StepMissKeys(seed: Cache, cats: seq<Category>, before: set<string>, prev: Resolution, name: string)
    requires prev.cache.Keys == seed.Keys + before && |prev.categories| - |cats| == |before - seed.Keys|
    requires Lower(name) !in prev.cache
    ensures var r := Step(prev, name);
      r.cache.Keys == seed.Keys + (before + {Lower(name)})
      && |r.categories| - |cats| == |(before + {Lower(name)}) - seed.Keys|
  {
    var r := Step(prev, name);
    StepMiss(prev, name);
    MissCounts(seed.Keys, prev.cache.Keys, r.cache.Keys, before, Lower(name),
               |cats|, |prev.categories|, |r.categories|);
  }

  /** What one step does with an uncached name: one new key, one new category. */
  lemma StepMiss(prev: Resolution, name: string)
    requires Lower(name) !in prev.cache
    ensures Step(prev, name).cache.Keys == prev.cache.Keys + {Lower(name)}
    ensures |Step(prev, name).categories| == |prev.categories| + 1
  { }

  /** The key and count bookkeeping of a miss, over plain sets and lengths. */
  lemma MissCounts(seeded: set<string>, cached: set<string>, grown: set<string>, before: set<string>,
                   key: string, base: int, n: int, m: int)
    requires cached == seeded + before && key !in cached && grown == cached + {key}
    requires n - base == |before - seeded| && m == n + 1
    ensures grown == seeded + (before + {key})
    ensures m - base == |(before + {key}) - seeded|
  {
    KeysMiss(seeded, cached, before, key);
  }

  /** Set bookkeeping for a cached key: the new-key set does not grow. */
  lemma KeysHit(seeded: set<string>, cached: set<string>, before: set<string>, key: string)
    requires cached == seeded + before && key in cached
    ensures (before + {key}) - seeded == before - seeded
  {
  }

  /** Set bookkeeping for an uncached key: the new-key set grows by exactly that key. */
  lemma KeysMiss(seeded: set<string>, cached: set<string>, before: set<string>, key: string)
    requires cached == seeded + before && key !in cached
    ensures cached + {key} == seeded + (before + {key})
    ensures key !in seeded
    ensures |(before + {key}) - seeded| == |before - seeded| + 1
  {
    assert (before + {key}) - seeded == (before - seeded) + {key};
  }

  lemma StepKeepsRefs(names: seq<string>, prev: Resolution)
    requires |names| > 0
    requires RefsOk(names[..|names| - 1], prev)
    ensures RefsOk(names, Step(prev, names[|names| - 1]))
  {
    var n := |names| - 1;
    var r := Step(prev, names[n]);
    var key := Lower(names[n]);
    forall i | 0 <= i < |names| ensures Lower(names[i]) in r.cache && r.refs[i] == r.cache[Lower(names[i])] {
      if i < n {
        var ki := Lower(names[i]);
        assert names[..n][i] == names[i];
        assert ki in prev.cache && r.refs[i] == prev.refs[i] == prev.cache[ki];
        if key !in prev.cache {
          assert ki != key;
        }
      }
    }
  }

  lemma {:induction false} ResolveInvariant(seed: Cache, cats: seq<Category>, names: seq<string>)
    requires CacheOk(seed, cats)
    ensures Inv(seed, cats, names, Resolve(seed, cats, names))
  {
    if |names| == 0 {
      assert cats[..|cats|] == cats;
    } else {
      var n := |names| - 1;
      var prev := Resolve(seed, cats, names[..n]);
      ResolveInvariant(seed, cats, names[..n]);
      StepKeepsTable(seed, cats, prev, names[n]);
      StepKeepsKeys(seed, cats, names, prev);
      StepKeepsRefs(names, prev);
      StepKeepsOwners(cats, prev, names[n]);
      StepKeepsNames(seed, cats, names, prev);
    }
  }

  lemma StepKeepsOwners(cats: seq<Category>, prev: Resolution, name: string)
    requires |cats| <= |prev.categories| && OwnersOk(cats, prev)
    ensures OwnersOk(cats, Step(prev, name))
  {
    var r := Step(prev, name);
    var key := Lower(name);
    if key !in prev.cache {
      forall j | |cats| <= j < |r.categories|
        ensures Lower(r.categories[j].name) in r.cache && r.cache[Lower(r.categories[j].name)] == j
      {
        if j < |prev.categories| {
          assert r.categories[j] == prev.categories[j];
        }
      }
    }
  }

  lemma StepKeepsNames(seed: Cache, cats: seq<Category>, names: seq<string>, prev: Resolution)
    requires |names| > 0
    requires Inv(seed, cats, names[..|names| - 1], prev)
    ensures NamesOk(seed, names, Step(prev, names[|names| - 1]))
  {
    var n := |names| - 1;
    forall i | 0 <= i < |names| && Lower(names[i]) !in seed && FirstSeen(names, i)
      ensures Step(prev, names[n]).refs[i] < |Step(prev, names[n]).categories|
      ensures Step(prev, names[n]).categories[Step(prev, names[n]).refs[i]].name == names[i]
    {
      if i < n {
        StepNamesEarlier(seed, names, prev, i);
      } else {
        StepNamesLast(seed, names, prev);
      }
    }
  }

  lemma StepNamesEarlier(seed: Cache, names: seq<string>, prev: Resolution, i: nat)
    requires i < |names| - 1 && Lower(names[i]) !in seed && FirstSeen(names, i)
    requires NamesOk(seed, names[..|names| - 1], prev)
    ensures var r := Step(prev, names[|names| - 1]);
      r.refs[i] < |r.categories| && r.categories[r.refs[i]].name == names[i]
  {
    var n := |names| - 1;
    var r := Step(prev, names[n]);
    EarlierFirstSeen(names, n, i);
    assert names[..n][i] == names[i];
    assert r.refs[i] == prev.refs[i];
    assert r.categories[prev.refs[i]] == prev.categories[prev.refs[i]];
  }

  lemma StepNamesLast(seed: Cache, names: seq<string>, prev: Resolution)
    requires |names| > 0
    requires prev.cache.Keys == seed.Keys + KeysOf(names[..|names| - 1])
    requires Lower(names[|names| - 1]) !in seed && FirstSeen(names, |names| - 1)
    ensures var r := Step(prev, names[|names| - 1]);
      r.refs[|r.refs| - 1] == |prev.categories|
      && |prev.categories| < |r.categories| && r.categories[|prev.categories|].name == names[|names| - 1]
  {
    NewKeyUnseen(names, |names| - 1);
  }

  /** Being first among all rows implies being first among the rows before `n`. */
  lemma EarlierFirstSeen(names: seq<string>, n: nat, i: nat)
    requires i < n <= |names| && FirstSeen(names, i)
    ensures FirstSeen(names[..n], i)
  {
    forall i' | 0 <= i' < i ensures Lower(names[..n][i']) != Lower(names[..n][i]) {
      assert names[..n][i'] == names[i'];
    }
  }

  /** A row whose key no earlier row has contributes a key outside the earlier rows' keys. */
  lemma NewKeyUnseen(names: seq<string>, n: nat)
    requires n < |names| && FirstSeen(names, n)
    ensures Lower(names[n]) !in KeysOf(names[..n])
  {
    KeysOfMember(names[..n], Lower(names[n]));
    forall i | 0 <= i < n ensures Lower(names[..n][i]) != Lower(names[n]) {
      assert names[..n][i] == names[i];
    }
  }

  /** `KeysOf` is the set of lower-cased row names. */
  lemma {:induction false} KeysOfMember(names: seq<string>, k: string)
    ensures k in KeysOf(names) <==> exists i :: 0 <= i < |names| && Lower(names[i]) == k
  {
    if |names| > 0 {
      var n := |names| - 1;
      KeysOfMember(names[..n], k);
      assert forall i :: 0 <= i < n ==> names[..n][i] == names[i];
    }
  }

  /** The lower-cased names of the stored categories. */
  function NameKeys(cats: seq<Category>): set<string> {
    set j | 0 <= j < |cats| :: Lower(cats[j].name)
  }

  /** The seeded cache holds exactly the stored categories' lower-cased names. */
  lemma SeedKeys(cats: seq<Category>)
    ensures Seed(cats).Keys == NameKeys(cats)
  {
    var cache := Seed(cats);
    forall k | k in cache ensures k in NameKeys(cats) {
      assert Lower(cats[cache[k]].name) == k;
    }
  }

  /** The whole resolution of an import: seed the cache from the store's categories,
      then resolve every row's category name in order. Every row references a category
      whose lower-cased name is the row's key, and stored categories stay in place. */
  function Resolved(cats: seq<Category>, names: seq<string>): (r: Resolution)
    ensures |r.refs| == |names|
    ensures |cats| <= |r.categories| && r.categories[..|cats|] == cats
    ensures forall i :: 0 <= i < |names| ==>
              r.refs[i] < |r.categories| && Lower(r.categories[r.refs[i]].name) == Lower(names[i])
  {
    ResolveInvariant(Seed(cats), cats, names);
    Resolve(Seed(cats), cats, names)
  }

  /** A row whose key a stored category already has reuses a stored category: the last
      one with that key in store order. */
  lemma ResolvedReusesStored(cats: seq<Category>, names: seq<string>, i: nat)
    requires i < |names| && Lower(names[i]) in NameKeys(cats)
    ensures Resolved(cats, names).refs[i] < |cats|
    ensures forall j :: Resolved(cats, names).refs[i] < j < |cats| ==> Lower(cats[j].name) != Lower(names[i])
  {
    var seed := Seed(cats);
    var key := Lower(names[i]);
    SeedKeys(cats);
    ResolveInvariant(seed, cats, names);
    assert Resolved(cats, names).refs[i] == seed[key];
    forall j | seed[key] < j < |cats| ensures Lower(cats[j].name) != key {
      SeedKeepsLast(cats, key, j);
    }
  }

  /** The categories an import creates: one per lower-cased row name that no stored
      category has, each for such a name, and no two for the same name. */
  lemma ResolvedCreatesOnePerNewKey(cats: seq<Category>, names: seq<string>)
    ensures var r := Resolved(cats, names);
      && |r.categories| - |cats| == |KeysOf(names) - NameKeys(cats)|
      && (forall j :: |cats| <= j < |r.categories| ==>
            Lower(r.categories[j].name) in KeysOf(names) - NameKeys(cats))
      && (forall j1, j2 :: |cats| <= j1 < j2 < |r.categories| ==>
            Lower(r.categories[j1].name) != Lower(r.categories[j2].name))
  {
    var seed := Seed(cats);
    SeedKeys(cats);
    ResolveInvariant(seed, cats, names);
  }

  /** Rows whose names agree up to case reference the same category. */
  lemma ResolvedSameKeySameCategory(cats: seq<Category>, names: seq<string>, i1: nat, i2: nat)
    requires i1 < |names| && i2 < |names| && Lower(names[i1]) == Lower(names[i2])
    ensures Resolved(cats, names).refs[i1] == Resolved(cats, names).refs[i2]
  {
    ResolveInvariant(Seed(cats), cats, names);
  }

  /** The first row with a key no stored category has creates the category for that key,
      named exactly as that row spells it. */
  lemma ResolvedFirstSeenName(cats: seq<Category>, names: seq<string>, i: nat)
    requires i < |names| && Lower(names[i]) !in NameKeys(cats) && FirstSeen(names, i)
    ensures var r := Resolved(cats, names);
      |cats| <= r.refs[i] < |r.categories| && r.categories[r.refs[i]].name == names[i]
  {
    var seed := Seed(cats);
    SeedKeys(cats);
    ResolveInvariant(seed, cats, names);
    var r := Resolved(cats, names);
    assert NamesOk(seed, names, r);
    forall k | 0 <= k < |cats| ensures Lower(r.categories[k].name) in NameKeys(cats) {
      assert r.categories[k] == r.categories[..|cats|][k];
    }
  }

  /** Rows naming "Fiction" and then "fiction", imported into a store without categories,
      create one category, named "Fiction", and both rows reference it. */
  lemma FictionDeduplicated()
    ensures var r := Resolved([], ["Fiction", "fiction"]);
      r.categories == [Category("Fiction")] && r.refs == [0, 0]
  {
    var names := ["Fiction", "fiction"];
    FictionKeys();
    assert names[..1] == ["Fiction"] && names[..1][..0] == [];
    var r0 := Resolve(map[], [], names[..1][..0]);
    assert r0 == Resolution(map[], [], []);
    var r1 := Resolve(map[], [], names[..1]);
    assert r1 == Step(r0, "Fiction");
    assert r1 == Resolution(map["fiction" := 0], [Category("Fiction")], [0]);
  }

  lemma FictionKeys()
    ensures Lower("Fiction") == "fiction" && Lower("fiction") == "fiction"
  {
  }
}
