/** Combining per-segment maps: `merge_results` folds every later map into the
    first one, merging the records of names they share. */
module Merger {
  import opened Bytes
  import opened Statistics

  /** Folding map `m` into `acc`: every name of either map is kept, with its
      record in `acc` merged with its record in `m`; a name missing on one
      side contributes a default record, the identity of `merge`. */
  function MergeMaps(acc: StatsMap, m: StatsMap): StatsMap
  {
    map k | k in acc.Keys + m.Keys :: EntryOrDefault(acc, k).Merge(EntryOrDefault(m, k))
  }

  /** The merged map, one name at a time: it holds the names of both maps, and
      the record of a name is the merge of its two records. */
  lemma MergeMapsAt(acc: StatsMap, m: StatsMap, k: seq<Byte>)
    ensures k in MergeMaps(acc, m) <==> k in acc || k in m
    ensures EntryOrDefault(MergeMaps(acc, m), k) == EntryOrDefault(acc, k).Merge(EntryOrDefault(m, k))
  {
    if k !in acc && k !in m {
      DefaultIsIdentity(Default);
    }
  }

  /** What `merged[city].merge(stats)` does to each name: a name only in the
      accumulated map keeps its record, a name only in the new map gets that
      map's record as it is, and a name in both gets the merge of the two. */
  lemma MergeMapsEntries(acc: StatsMap, m: StatsMap)
    ensures MergeMaps(acc, m).Keys == acc.Keys + m.Keys
    ensures forall k :: k in acc && k !in m ==> MergeMaps(acc, m)[k] == acc[k]
    ensures forall k :: k !in acc && k in m ==> MergeMaps(acc, m)[k] == m[k]
    ensures forall k :: k in acc && k in m ==> MergeMaps(acc, m)[k] == acc[k].Merge(m[k])
  {
    forall k | k in acc && k !in m ensures MergeMaps(acc, m)[k] == acc[k] {
      DefaultIsIdentity(acc[k]);
    }
    forall k | k !in acc && k in m ensures MergeMaps(acc, m)[k] == m[k] {
      DefaultIsIdentity(m[k]);
    }
  }

  /** Two maps that agree on every key's presence and entry are equal. */
  lemma MapsEqualByEntries(m: StatsMap, n: StatsMap)
    requires forall k :: (k in m <==> k in n) && EntryOrDefault(m, k) == EntryOrDefault(n, k)
    ensures m == n
  {
    assert m.Keys == n.Keys;
    forall k | k in m ensures m[k] == n[k] {
      assert EntryOrDefault(m, k) == EntryOrDefault(n, k);
    }
  }

  /** Merging into an empty map and merging an empty map in change nothing. */
  lemma MergeMapsIdentity(m: StatsMap)
    ensures MergeMaps(map[], m) == m
    ensures MergeMaps(m, map[]) == m
  {
    MergeMapsEntries(map[], m);
    MergeMapsEntries(m, map[]);
  }

  /** The order in which two maps are merged does not matter. */
  lemma MergeMapsCommutative(a: StatsMap, b: StatsMap)
    ensures MergeMaps(a, b) == MergeMaps(b, a)
  {
    forall k | k in MergeMaps(a, b) ensures MergeMaps(a, b)[k] == MergeMaps(b, a)[k] {
      MergeCommutative(EntryOrDefault(a, k), EntryOrDefault(b, k));
    }
  }

  /** Nor does the grouping of three merges. */
  lemma MergeMapsAssociative(a: StatsMap, b: StatsMap, c: StatsMap)
    ensures MergeMaps(MergeMaps(a, b), c) == MergeMaps(a, MergeMaps(b, c))
  {
    var l, r := MergeMaps(MergeMaps(a, b), c), MergeMaps(a, MergeMaps(b, c));
    forall k ensures (k in l <==> k in r) && EntryOrDefault(l, k) == EntryOrDefault(r, k) {
      MergeMapsAt(a, b, k);
      MergeMapsAt(MergeMaps(a, b), c, k);
      MergeMapsAt(b, c, k);
      MergeMapsAt(a, MergeMaps(b, c), k);
      MergeAssociative(EntryOrDefault(a, k), EntryOrDefault(b, k), EntryOrDefault(c, k));
    }
    MapsEqualByEntries(l, r);
  }

  /** `merge_results(results)`: the first map with every later one folded in,
      in order. */
  function MergeAll(results: seq<StatsMap>): StatsMap
    requires |results| > 0
  {
    if |results| == 1 then results[0]
    else MergeMaps(MergeAll(results[..|results| - 1]), results[|results| - 1])
  }

  lemma MergeAllSnoc(results: seq<StatsMap>, r: StatsMap)
    requires |results| > 0
    ensures MergeAll(results + [r]) == MergeMaps(MergeAll(results), r)
  {
    assert (results + [r])[..|results|] == results;
  }

  /** Every name of some map of `results`. */
  function AllNames(results: seq<StatsMap>): set<seq<Byte>>
  {
    if results == [] then {} else AllNames(results[..|results| - 1]) + results[|results| - 1].Keys
  }

  /** Merging the per-name records of `results`, in order, from a default. */
  function MergeEntries(results: seq<StatsMap>, k: seq<Byte>): Stats
  {
    if results == [] then Default
    else MergeEntries(results[..|results| - 1], k).Merge(EntryOrDefault(results[|results| - 1], k))
  }

  /** The merged map has exactly the names of all the maps, and the record of a
      name is the merge of its records in every map, in order. */
  lemma {:induction false} MergeAllAt(results: seq<StatsMap>, k: seq<Byte>)
    requires |results| > 0
    ensures k in MergeAll(results) <==> k in AllNames(results)
    ensures EntryOrDefault(MergeAll(results), k) == MergeEntries(results, k)
  {
    if |results| == 1 {
      DefaultIsIdentity(EntryOrDefault(results[0], k));
      assert results[..0] == [];
    } else {
      var init, last := results[..|results| - 1], results[|results| - 1];
      MergeAllAt(init, k);
      MergeMapsAt(MergeAll(init), last, k);
    }
  }

  /** A name is among all the names when some map holds it. */
  lemma {:induction false} AllNamesAt(results: seq<StatsMap>, k: seq<Byte>)
    ensures k in AllNames(results) <==> exists i :: 0 <= i < |results| && k in results[i]
  {
    if results != [] {
      var init := results[..|results| - 1];
      AllNamesAt(init, k);
      if k in AllNames(results) && k !in results[|results| - 1] {
        var i :| 0 <= i < |init| && k in init[i];
        assert k in results[i];
      }
      if exists i :: 0 <= i < |results| && k in results[i] {
        var i :| 0 <= i < |results| && k in results[i];
        if i < |init| {
          assert k in init[i];
        }
      }
    }
  }

  /** The in-order merge of a concatenation is the merge of the two parts'
      merges. */
  lemma {:induction false} MergeEntriesAppend(a: seq<StatsMap>, b: seq<StatsMap>, k: seq<Byte>)
    ensures MergeEntries(a + b, k) == MergeEntries(a, k).Merge(MergeEntries(b, k))
    decreases |b|
  {
    if b == [] {
      assert a + b == a;
      DefaultIsIdentity(MergeEntries(a, k));
    } else {
      var init, last := b[..|b| - 1], b[|b| - 1];
      assert (a + b)[..|a + b| - 1] == a + init;
      MergeEntriesAppend(a, init, k);
      MergeAssociative(MergeEntries(a, k), MergeEntries(init, k), EntryOrDefault(last, k));
    }
  }

  /** A result taken out of the middle can be merged in last instead. */
  lemma MergeEntriesMoveLast(a: seq<StatsMap>, x: StatsMap, b: seq<StatsMap>, k: seq<Byte>)
    ensures MergeEntries(a + [x] + b, k) == MergeEntries(a + b, k).Merge(EntryOrDefault(x, k))
  {
    var ea, eb, ex := MergeEntries(a, k), MergeEntries(b, k), EntryOrDefault(x, k);
    MergeEntriesAppend(a + [x], b, k);
    assert (a + [x])[..|a|] == a;
    MergeEntriesAppend(a, b, k);
    MergeAssociative(ea, ex, eb);
    MergeCommutative(ex, eb);
    MergeAssociative(ea, eb, ex);
  }

  /** Taking the same result out of two equal multisets leaves equal
      multisets. */
  lemma MultisetRemove(init: seq<StatsMap>, x: StatsMap, a: seq<StatsMap>, b: seq<StatsMap>)
    requires multiset(init + [x]) == multiset(a + [x] + b)
    ensures multiset(init) == multiset(a + b)
  {
    assert multiset(init + [x]) == multiset(init) + multiset{x};
    assert multiset(a + [x] + b) == multiset(a) + multiset{x} + multiset(b);
    assert multiset(a + b) == multiset(a) + multiset(b);
    assert multiset(init) == multiset(init + [x]) - multiset{x};
    assert multiset(a + b) == multiset(a + [x] + b) - multiset{x};
  }

  /** The merged record of a name does not depend on the order of the
      results. */
  lemma {:induction false} MergeEntriesPermutation(rs: seq<StatsMap>, ps: seq<StatsMap>, k: seq<Byte>)
    requires multiset(rs) == multiset(ps)
    ensures MergeEntries(rs, k) == MergeEntries(ps, k)
    decreases |rs|
  {
    if rs == [] {
      assert |ps| == |multiset(ps)| == 0;
    } else {
      var init, x := rs[..|rs| - 1], rs[|rs| - 1];
      assert rs == init + [x];
      assert x in multiset(ps);
      var j :| 0 <= j < |ps| && ps[j] == x;
      var a, b := ps[..j], ps[j + 1..];
      assert ps == a + [x] + b;
      MultisetRemove(init, x, a, b);
      MergeEntriesPermutation(init, a + b, k);
      MergeEntriesMoveLast(a, x, b, k);
    }
  }

  /** Nor do the names. */
  lemma AllNamesPermutation(rs: seq<StatsMap>, ps: seq<StatsMap>, k: seq<Byte>)
    requires multiset(rs) == multiset(ps)
    ensures k in AllNames(rs) <==> k in AllNames(ps)
  {
    AllNamesAt(rs, k);
    AllNamesAt(ps, k);
    if k in AllNames(rs) {
      var i :| 0 <= i < |rs| && k in rs[i];
      assert rs[i] in multiset(ps);
      var j :| 0 <= j < |ps| && ps[j] == rs[i];
    }
    if k in AllNames(ps) {
      var j :| 0 <= j < |ps| && k in ps[j];
      assert ps[j] in multiset(rs);
      var i :| 0 <= i < |rs| && rs[i] == ps[j];
    }
  }

  /** Merging the results in any order gives the same map. */
  lemma MergeAllPermutation(rs: seq<StatsMap>, ps: seq<StatsMap>)
    requires |rs| > 0 && multiset(rs) == multiset(ps)
    ensures |ps| > 0
    ensures MergeAll(rs) == MergeAll(ps)
  {
    assert |ps| == |multiset(ps)| == |rs|;
    forall k ensures (k in MergeAll(rs) <==> k in MergeAll(ps)) && EntryOrDefault(MergeAll(rs), k) == EntryOrDefault(MergeAll(ps), k) {
      MergeAllAt(rs, k);
      MergeAllAt(ps, k);
      AllNamesPermutation(rs, ps, k);
      MergeEntriesPermutation(rs, ps, k);
    }
    MapsEqualByEntries(MergeAll(rs), MergeAll(ps));
  }

  /** One name after folding the record `v` of a new name `k` in. */
  lemma MergeMapsInsertAt(start: StatsMap, part: StatsMap, k: seq<Byte>, v: Stats, c: seq<Byte>)
    requires k !in part
    ensures var before := MergeMaps(start, part);
            var after := before[k := EntryOrDefault(before, k).Merge(v)];
            (c in after <==> c in MergeMaps(start, part[k := v]))
            && EntryOrDefault(after, c) == EntryOrDefault(MergeMaps(start, part[k := v]), c)
  {
    MergeMapsAt(start, part, c);
    MergeMapsAt(start, part[k := v], c);
    if c == k {
      DefaultIsIdentity(EntryOrDefault(start, k));
    }
  }

  /** One step of the inner loop: with the names `todo` of `cities` still to
      fold in, folding in the record of one more of them, `k`, leaves `todo`
      without `k` to fold in. */
  lemma MergeOneMore(start: StatsMap, cities: StatsMap, todo: set<seq<Byte>>, k: seq<Byte>)
    requires k in todo && k in cities
    ensures var before := MergeMaps(start, cities - todo);
            before[k := EntryOrDefault(before, k).Merge(cities[k])]
            == MergeMaps(start, cities - (todo - {k}))
  {
    var part := cities - todo;
    assert cities - (todo - {k}) == part[k := cities[k]];
    var before := MergeMaps(start, part);
    var l, r := before[k := EntryOrDefault(before, k).Merge(cities[k])], MergeMaps(start, part[k := cities[k]]);
    forall c ensures (c in l <==> c in r) && EntryOrDefault(l, c) == EntryOrDefault(r, c) {
      MergeMapsInsertAt(start, part, k, cities[k], c);
    }
    MapsEqualByEntries(l, r);
  }

  /** `merge_results`: move the first map out, then for every later map and
      every (name, record) in it, in the map's unspecified iteration order,
      merge the record into `merged[name]`, whose default record is inserted
      first when the name is new. */
  method MergeResults(results: seq<StatsMap>) returns (merged: StatsMap)
    requires |results| > 0
    ensures merged == MergeAll(results)
  {
    merged := results[0];
    assert results[..1] == [results[0]];
    for i := 1 to |results|
      invariant merged == MergeAll(results[..i])
    {
      var cities := results[i];
      ghost var start := merged;
      var todo := cities.Keys;
      MergeMapsIdentity(start);
      assert cities - todo == map[];
      while todo != {}
        invariant todo <= cities.Keys
        invariant merged == MergeMaps(start, cities - todo)
        decreases todo
      {
        var city :| city in todo;
        MergeOneMore(start, cities, todo, city);
        var entry := Default;
        if city in merged {
          entry := merged[city];
        }
        merged := merged[city := entry.Merge(cities[city])];
        todo := todo - {city};
      }
      assert cities - todo == cities;
      assert results[..i + 1][..i] == results[..i];
    }
    assert results[..|results|] == results;
  }
}
