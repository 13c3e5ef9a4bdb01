/**
 Recording of a fragment sequence into a transition model, `FillGrams`
 (words/main.go:48-61), and of a vowel-group split into the prefix, join and
 suffix tables (words/main.go:121-149).
 */
module Models {
  import opened Common

  /** The fragment that precedes position `i`: the start marker "" for the
      first fragment. */
  function Prev(grams: seq<Fragment>, i: nat): Fragment
    requires i < |grams|
  {
    if i == 0 then "" else grams[i - 1]
  }

  /** One increment of `m[p][g]`, creating the row and the entry as needed. */
  function Bump(m: GramMap, p: Fragment, g: Fragment): GramMap
  {
    m[p := Row(m, p)[g := Get(Row(m, p), g) + 1]]
  }

  /** The model after FillGrams has processed all of `grams`. */
  function Recorded(m: GramMap, grams: seq<Fragment>): GramMap
  {
    if grams == [] then m
    else Bump(Recorded(m, grams[..|grams| - 1]), Prev(grams, |grams| - 1), grams[|grams| - 1])
  }

  /** The transitions of `grams`, start marker included: the pairs
      (predecessor, fragment), in order. */
  function Transitions(grams: seq<Fragment>): (t: seq<(Fragment, Fragment)>)
    ensures |t| == |grams|
  {
    seq(|grams|, i requires 0 <= i < |grams| => (Prev(grams, i), grams[i]))
  }

  /** Every row is non-empty and every count positive: what FillGrams keeps,
      and why RandomKey on an existing row never returns "". */
  ghost predicate WellFormed(m: GramMap)
  {
    forall p :: p in m ==> m[p] != map[] && forall g :: g in m[p] ==> m[p][g] >= 1
  }

  /** FillGrams: `start` walks one fragment behind `gram`; each step bumps
      gramMap[start][gram]. Go's maps are shared by reference, so the model
      is an object whose table the method updates. */
  class TransitionModel {
    var table: GramMap

    constructor ()
      ensures table == map[]
    {
      table := map[];
    }
  }

  method FillGrams(gramList: seq<Fragment>, gramMap: TransitionModel)
    modifies gramMap
    ensures gramMap.table == Recorded(old(gramMap.table), gramList)
  {
    var start := "";
    for i := 0 to |gramList|
      invariant gramMap.table == Recorded(old(gramMap.table), gramList[..i])
      invariant start == if i == 0 then "" else gramList[i - 1]
    {
      var gram := gramList[i];
      var table := gramMap.table;
      if start !in table {
        table := table[start := map[]];
      }
      var row := table[start];
      assert row == Row(gramMap.table, start);
      if gram !in row {
        row := row[gram := 0];
      }
      row := row[gram := row[gram] + 1];
      assert row == Row(gramMap.table, start)[gram := Get(Row(gramMap.table, start), gram) + 1];
      assert table[start := row] == Bump(gramMap.table, start, gram);
      gramMap.table := table[start := row];
      RecordedStep(old(gramMap.table), gramList, i);
      start := gram;
    }
    assert gramList[..|gramList|] == gramList;
  }

  /** Recording one more fragment is one more bump. */
  lemma RecordedStep(m: GramMap, grams: seq<Fragment>, i: nat)
    requires i < |grams|
    ensures Recorded(m, grams[..i + 1]) == Bump(Recorded(m, grams[..i]), Prev(grams, i), grams[i])
  {
    assert grams[..i + 1][..i] == grams[..i];
  }

  lemma {:induction false} TransitionsSnoc(grams: seq<Fragment>)
    requires grams != []
    ensures Transitions(grams) == Transitions(grams[..|grams| - 1]) + [(Prev(grams, |grams| - 1), grams[|grams| - 1])]
  {
    var init := grams[..|grams| - 1];
    var a, b := Transitions(grams), Transitions(init) + [(Prev(grams, |grams| - 1), grams[|grams| - 1])];
    forall i | 0 <= i < |a| ensures a[i] == b[i] {
      if i < |init| {
        assert Prev(grams, i) == Prev(init, i);
      }
    }
  }

  /** Each count grows by the number of times its transition occurs. */
  lemma {:induction false} RecordedCount(m: GramMap, grams: seq<Fragment>, p: Fragment, g: Fragment)
    ensures Get(Row(Recorded(m, grams), p), g) == Get(Row(m, p), g) + multiset(Transitions(grams))[(p, g)]
  {
    if grams != [] {
      TransitionsSnoc(grams);
      RecordedCount(m, grams[..|grams| - 1], p, g);
    }
  }

  /** A row exists afterwards exactly when it existed before or some
      fragment was preceded by its key; an entry exists exactly when it
      existed before or its transition occurs. */
  lemma {:induction false} RecordedKeys(m: GramMap, grams: seq<Fragment>, p: Fragment, g: Fragment)
    ensures p in Recorded(m, grams) <==> p in m || exists h :: (p, h) in multiset(Transitions(grams))
    ensures g in Row(Recorded(m, grams), p) <==> g in Row(m, p) || (p, g) in multiset(Transitions(grams))
  {
    if grams != [] {
      var init := grams[..|grams| - 1];
      var t := (Prev(grams, |grams| - 1), grams[|grams| - 1]);
      TransitionsSnoc(grams);
      RecordedKeys(m, init, p, g);
      assert multiset(Transitions(grams)) == multiset(Transitions(init)) + multiset{t};
      if p in Recorded(m, grams) && p !in m && p !in Recorded(m, init) {
        assert t.0 == p && (p, t.1) in multiset(Transitions(grams));
      }
      if exists h :: (p, h) in multiset(Transitions(grams)) {
        var h :| (p, h) in multiset(Transitions(grams));
        if (p, h) != t {
          assert (p, h) in multiset(Transitions(init));
        }
      }
    }
  }

  lemma BumpWellFormed(m: GramMap, p: Fragment, g: Fragment)
    requires WellFormed(m)
    ensures WellFormed(Bump(m, p, g))
  {
    var row := Row(m, p)[g := Get(Row(m, p), g) + 1];
    assert g in row;
  }

  /** FillGrams keeps a model well formed. */
  lemma {:induction false} RecordedWellFormed(m: GramMap, grams: seq<Fragment>)
    requires WellFormed(m)
    ensures WellFormed(Recorded(m, grams))
  {
    if grams != [] {
      RecordedWellFormed(m, grams[..|grams| - 1]);
      BumpWellFormed(Recorded(m, grams[..|grams| - 1]), Prev(grams, |grams| - 1), grams[|grams| - 1]);
    }
  }

  lemma TotalsUpdate(m: GramMap, p: Fragment, row: Count)
    ensures Totals(m[p := row]) == Totals(m)[p := Total(row)]
  {
  }

  lemma BumpWeight(m: GramMap, p: Fragment, g: Fragment)
    ensures Weight(Bump(m, p, g)) == Weight(m) + 1
  {
    var row := Row(m, p);
    var totals := Totals(m);
    TotalUpdate(row, g, Get(row, g) + 1);
    TotalsUpdate(m, p, row[g := Get(row, g) + 1]);
    TotalUpdate(totals, p, Total(row[g := Get(row, g) + 1]));
    if p !in m {
      assert row == map[];
      assert Get(totals, p) == 0;
    } else {
      assert Get(totals, p) == Total(row);
    }
  }

  /** Every fragment adds exactly one to the model's total weight. */
  lemma {:induction false} RecordedWeight(m: GramMap, grams: seq<Fragment>)
    ensures Weight(Recorded(m, grams)) == Weight(m) + |grams|
  {
    if grams != [] {
      RecordedWeight(m, grams[..|grams| - 1]);
      BumpWeight(Recorded(m, grams[..|grams| - 1]), Prev(grams, |grams| - 1), grams[|grams| - 1]);
    }
  }

  /** One occurrence of `k`: `if !ok { c[k] = 1 } else { c[k]++ }`. */
  function Inc(c: Count, k: Fragment): (r: Count)
    ensures k in r && Total(r) == Total(c) + 1
    ensures forall j :: j != k ==> Get(r, j) == Get(c, j)
  {
    TotalUpdate(c, k, Get(c, k) + 1);
    c[k := Get(c, k) + 1]
  }

  /** One occurrence of each fragment of `ks`, in order. */
  function IncAll(c: Count, ks: seq<Fragment>): (r: Count)
    ensures Total(r) == Total(c) + |ks|
  {
    if ks == [] then c else Inc(IncAll(c, ks[..|ks| - 1]), ks[|ks| - 1])
  }

  lemma {:induction false} IncAllCount(c: Count, ks: seq<Fragment>, k: Fragment)
    ensures Get(IncAll(c, ks), k) == Get(c, k) + multiset(ks)[k]
  {
    if ks != [] {
      IncAllCount(c, ks[..|ks| - 1], k);
      assert ks == ks[..|ks| - 1] + [ks[|ks| - 1]];
    }
  }

  /** The three part tables of the parts generator. */
  datatype Parts = Parts(prefixes: Count, joins: Count, suffixes: Count)

  /** What lines 121-149 record for one non-empty split `vgs`: its first
      fragment is a prefix; when there is a second, the last is a suffix and
      everything in between a join. */
  function RecordedParts(t: Parts, vgs: seq<Fragment>): Parts
  {
    if vgs == [] then t
    else if |vgs| == 1 then t.(prefixes := Inc(t.prefixes, vgs[0]))
    else Parts(Inc(t.prefixes, vgs[0]), IncAll(t.joins, vgs[1..|vgs| - 1]), Inc(t.suffixes, vgs[|vgs| - 1]))
  }

  /** Every fragment of the split lands in exactly one of the three tables:
      one prefix for a non-empty split, one suffix when there are at least
      two fragments, and the rest as joins. */
  lemma RecordedPartsTotals(t: Parts, vgs: seq<Fragment>)
    ensures Total(RecordedParts(t, vgs).prefixes) == Total(t.prefixes) + (if |vgs| >= 1 then 1 else 0)
    ensures Total(RecordedParts(t, vgs).suffixes) == Total(t.suffixes) + (if |vgs| >= 2 then 1 else 0)
    ensures Total(RecordedParts(t, vgs).joins) == Total(t.joins) + (if |vgs| >= 2 then |vgs| - 2 else 0)
  {
  }

  /** The counts of each table: the first fragment is counted as a prefix,
      the last (of two or more) as a suffix, the inner ones as joins. */
  lemma RecordedPartsCounts(t: Parts, vgs: seq<Fragment>, k: Fragment)
    requires |vgs| >= 1
    ensures Get(RecordedParts(t, vgs).prefixes, k) == Get(t.prefixes, k) + (if k == vgs[0] then 1 else 0)
    ensures Get(RecordedParts(t, vgs).suffixes, k) == Get(t.suffixes, k) + (if |vgs| >= 2 && k == vgs[|vgs| - 1] then 1 else 0)
    ensures Get(RecordedParts(t, vgs).joins, k) == Get(t.joins, k) + (if |vgs| >= 2 then multiset(vgs[1..|vgs| - 1])[k] else 0)
  {
    if |vgs| >= 2 {
      IncAllCount(t.joins, vgs[1..|vgs| - 1], k);
    }
  }
}
