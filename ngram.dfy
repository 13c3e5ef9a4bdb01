/**
 The fixed-size segmenter `NGram` (words/main.go:35-46): a name is cut, rune
 by rune, into groups of `size` runes; a trailing partial group is dropped.
 The guard `index > 0` makes the first group of a 1-gram two runes long.
 */
module NGrams {
  import opened Common

  /** Where group `k` starts: k * size, by repeated addition so that the
      loop proof stays linear. */
  function Offset(k: nat, size: nat): nat
  {
    if k == 0 then 0 else Offset(k - 1, size) + size
  }

  lemma {:induction false} OffsetIsProduct(k: nat, size: nat)
    ensures Offset(k, size) == k * size
  {
    if k > 0 {
      OffsetIsProduct(k - 1, size);
      assert (k - 1) * size + size == k * size;
    }
  }

  lemma {:induction false} OffsetMono(a: nat, b: nat, size: nat)
    requires a <= b
    ensures Offset(a, size) <= Offset(b, size)
    decreases b
  {
    if a < b {
      OffsetMono(a, b - 1, size);
    }
  }

  lemma MulMono(a: nat, b: nat, s: nat)
    requires a <= b
    ensures a * s <= b * s
  {
  }

  lemma MulSucc(k: int, s: int)
    ensures (k + 1) * s == k * s + s
  {
  }

  lemma DivModProduct(x: int, q: nat, s: int, t: int)
    requires s >= 1 && 0 <= t < s && x == q * s + t
    ensures x / s == q && x % s == t
  {
    var q', t' := x / s, x % s;
    assert x == q' * s + t';
    assert q' >= 0;
    if q' > q {
      MulMono(q + 1, q', s);
      MulSucc(q, s);
    } else if q' < q {
      MulMono(q' + 1, q, s);
      MulSucc(q', s);
    }
  }

  lemma DivModUnique(x: int, q: nat, s: int, t: int)
    requires s >= 1 && 0 <= t < s && x == Offset(q, s) + t
    ensures x / s == q && x % s == t
  {
    OffsetIsProduct(q, s);
    DivModProduct(x, q, s, t);
  }

  /** The first `q` complete groups of `size` runes. */
  function FullGroups(name: string, size: nat, q: nat): (r: seq<Fragment>)
    requires Offset(q, size) <= |name|
    ensures |r| == q
  {
    seq(q, k requires 0 <= k < q =>
      OffsetMono(k + 1, q, size);
      name[Offset(k, size)..Offset(k, size) + size])
  }

  lemma FullGroupsSnoc(name: string, size: nat, q: nat)
    requires Offset(q, size) + size <= |name|
    ensures Offset(q + 1, size) <= |name|
    ensures FullGroups(name, size, q + 1) == FullGroups(name, size, q) + [name[Offset(q, size)..Offset(q, size) + size]]
  {
    var a, b := FullGroups(name, size, q + 1), FullGroups(name, size, q) + [name[Offset(q, size)..Offset(q, size) + size]];
    assert |a| == |b|;
    forall k | 0 <= k < |a| ensures a[k] == b[k] {
    }
  }

  /** What a 1-gram split yields: the index guard holds back the first rune,
      so the first fragment is two runes and the rest are single runes. */
  function UnitGrams(name: string): (r: seq<Fragment>)
  {
    if |name| < 2 then [] else seq(|name| - 1, k requires 0 <= k < |name| - 1 => if k == 0 then name[..2] else [name[k + 1]])
  }

  lemma UnitGramsSnoc(name: string, i: nat)
    requires 2 <= i < |name|
    ensures UnitGrams(name[..i + 1]) == UnitGrams(name[..i]) + [[name[i]]]
  {
    var a, b := UnitGrams(name[..i + 1]), UnitGrams(name[..i]) + [[name[i]]];
    assert |a| == |b|;
    forall k | 0 <= k < |a| ensures a[k] == b[k] {
      if k == 0 {
        assert a[0] == name[..2] == b[0];
      }
    }
  }

  /** Reference definition of `NGram(name, size)`. */
  function Grams(name: string, size: nat): (r: seq<Fragment>)
    requires size >= 1
  {
    if size == 1 then UnitGrams(name)
    else
      OffsetIsProduct(|name| / size, size);
      FullGroups(name, size, |name| / size)
  }

  /** One rune more for a group of `size >= 2`: it extends the group, and
      the group is complete exactly when the index guard fires. */
  lemma GroupStep(name: string, size: nat, q: nat, index: nat, tmp: string)
    requires size >= 2 && index < |name|
    requires Offset(q, size) + |tmp| == index && |tmp| < size && tmp == name[Offset(q, size)..index]
    ensures tmp + [name[index]] == name[Offset(q, size)..index + 1]
    ensures (index + 1) % size == 0 <==> |tmp| + 1 == size
    ensures |tmp| + 1 == size ==>
      (index > 0 && Offset(q + 1, size) == index + 1
       && FullGroups(name, size, q + 1) == FullGroups(name, size, q) + [tmp + [name[index]]])
  {
    if |tmp| + 1 < size {
      DivModUnique(index + 1, q, size, |tmp| + 1);
    } else {
      DivModUnique(index + 1, q + 1, size, 0);
      FullGroupsSnoc(name, size, q);
    }
  }

  /** The state of NGram after the first `index` runes: for `size >= 2`,
      `ret` holds the `q` complete groups and `tmp` the runes since; for
      `size == 1`, nothing is emitted before the second rune, and from then
      on `ret` holds the 1-grams of the runes read and `tmp` is empty. */
  ghost predicate Grouped(name: string, size: nat, index: nat, q: nat, tmp: string, ret: seq<Fragment>)
  {
    && 1 <= size && index <= |name|
    && (size >= 2 ==>
         && Offset(q, size) + |tmp| == index && |tmp| < size && tmp == name[Offset(q, size)..index]
         && ret == FullGroups(name, size, q))
    && (size == 1 && index <= 1 ==> ret == [] && tmp == name[..index])
    && (size == 1 && index >= 2 ==> ret == UnitGrams(name[..index]) && tmp == "")
  }

  /** One rune more for `size == 1`: the guard fires from the second rune
      on, first emitting the two runes read so far, then one rune at a time. */
  lemma UnitStep(name: string, index: nat, tmp: string, ret: seq<Fragment>)
    requires Grouped(name, 1, index, 0, tmp, ret) && index < |name|
    ensures (index + 1) % 1 == 0
    ensures index > 0 ==> Grouped(name, 1, index + 1, 0, "", ret + [tmp + [name[index]]])
    ensures index == 0 ==> Grouped(name, 1, index + 1, 0, tmp + [name[index]], ret)
  {
    DivModProduct(index + 1, index + 1, 1, 0);
    if index == 0 {
      assert tmp + [name[0]] == name[..1];
    } else if index == 1 {
      assert tmp + [name[index]] == name[..2];
      var u := UnitGrams(name[..2]);
      assert |u| == 1 && u[0] == name[..2][..2] == name[..2];
    } else {
      assert tmp + [name[index]] == [name[index]];
      UnitGramsSnoc(name, index);
    }
  }

  /** The guard of NGram's loop: rune `index` closes a group. */
  predicate Fires(index: nat, size: nat)
    requires size >= 1
  {
    index > 0 && (index + 1) % size == 0
  }

  /** A rune on which the guard fires completes a fragment. */
  lemma EmitStep(name: string, size: nat, index: nat, q: nat, tmp: string, ret: seq<Fragment>)
    requires Grouped(name, size, index, q, tmp, ret) && index < |name|
    requires Fires(index, size)
    ensures Grouped(name, size, index + 1, if size >= 2 then q + 1 else q, "", ret + [tmp + [name[index]]])
  {
    if size >= 2 {
      GroupStep(name, size, q, index, tmp);
    } else {
      UnitStep(name, index, tmp, ret);
    }
  }

  /** Any other rune extends the pending group. */
  lemma KeepStep(name: string, size: nat, index: nat, q: nat, tmp: string, ret: seq<Fragment>)
    requires Grouped(name, size, index, q, tmp, ret) && index < |name|
    requires !Fires(index, size)
    ensures Grouped(name, size, index + 1, q, tmp + [name[index]], ret)
  {
    if size >= 2 {
      GroupStep(name, size, q, index, tmp);
    } else {
      UnitStep(name, index, tmp, ret);
    }
  }

  lemma GroupedStart(name: string, size: nat)
    requires size >= 1
    ensures Grouped(name, size, 0, 0, "", [])
  {
    assert name[..0] == "";
    assert FullGroups(name, size, 0) == [];
  }

  /** After the last rune the state is the reference split. */
  lemma GroupedDone(name: string, size: nat, q: nat, tmp: string, ret: seq<Fragment>)
    requires Grouped(name, size, |name|, q, tmp, ret)
    ensures ret == Grams(name, size)
  {
    assert name[..|name|] == name;
    if size >= 2 {
      DivModUnique(|name|, q, size, |tmp|);
    }
  }

  /** NGram walks the runes, accumulating `tmp` and emitting it whenever
      `index > 0` and `index + 1` is a multiple of `size`. Go's `%` by zero
      panics, and every caller passes 2 or 3, hence `size >= 1`. */
  method NGram(name: string, size: nat) returns (ret: seq<Fragment>)
    requires size >= 1
    ensures ret == Grams(name, size)
  {
    var tmp := "";
    ret := [];
    ghost var q: nat := 0;
    GroupedStart(name, size);
    for index := 0 to |name|
      invariant Grouped(name, size, index, q, tmp, ret)
    {
      if Fires(index, size) {
        EmitStep(name, size, index, q, tmp, ret);
        tmp := tmp + [name[index]];
        ret := ret + [tmp];
        tmp := "";
        q := if size >= 2 then q + 1 else q;
      } else {
        KeepStep(name, size, index, q, tmp, ret);
        tmp := tmp + [name[index]];
      }
    }
    GroupedDone(name, size, q, tmp, ret);
  }

  /** One more group appends its runes to the concatenation. */
  lemma ConcatFullGroupsSnoc(name: string, size: nat, q: nat)
    requires Offset(q, size) + size <= |name|
    ensures Offset(q + 1, size) <= |name|
    ensures Concat(FullGroups(name, size, q + 1)) == Concat(FullGroups(name, size, q)) + name[Offset(q, size)..Offset(q, size) + size]
  {
    FullGroupsSnoc(name, size, q);
    ConcatSnoc(FullGroups(name, size, q), name[Offset(q, size)..Offset(q, size) + size]);
  }

  lemma {:induction false} ConcatFullGroups(name: string, size: nat, q: nat)
    requires Offset(q, size) <= |name|
    ensures Concat(FullGroups(name, size, q)) == name[..Offset(q, size)]
  {
    if q > 0 {
      var p := Offset(q - 1, size);
      ConcatFullGroupsSnoc(name, size, q - 1);
      ConcatFullGroups(name, size, q - 1);
      assert name[..p] + name[p..p + size] == name[..p + size];
    } else {
      assert FullGroups(name, size, 0) == [];
    }
  }

  /** For `size >= 2`: exactly |name| / size fragments, each of exactly `size`
      runes, which together spell the name's first size * (|name| / size)
      runes — a trailing partial group is dropped. */
  lemma GramsShape(name: string, size: nat)
    requires size >= 2
    ensures |Grams(name, size)| == |name| / size
    ensures forall k :: 0 <= k < |Grams(name, size)| ==> |Grams(name, size)[k]| == size
    ensures Concat(Grams(name, size)) == name[..size * (|name| / size)]
  {
    var q := |name| / size;
    OffsetIsProduct(q, size);
    assert Grams(name, size) == FullGroups(name, size, q);
    FullGroupsLengths(name, size, q);
    ConcatFullGroups(name, size, q);
  }

  lemma FullGroupsLengths(name: string, size: nat, q: nat)
    requires Offset(q, size) <= |name|
    ensures forall k :: 0 <= k < q ==> |FullGroups(name, size, q)[k]| == size
  {
    forall k | 0 <= k < q ensures |FullGroups(name, size, q)[k]| == size {
      OffsetMono(k + 1, q, size);
    }
  }

  /** Dropping the last rune drops the last 1-gram. */
  lemma UnitGramsLast(name: string)
    requires |name| > 2
    ensures UnitGrams(name) == UnitGrams(name[..|name| - 1]) + [[name[|name| - 1]]]
  {
    UnitGramsSnoc(name, |name| - 1);
    assert name[..|name|] == name;
  }

  lemma {:induction false} ConcatUnitGrams(name: string)
    requires |name| >= 2
    ensures Concat(UnitGrams(name)) == name
    decreases |name|
  {
    if |name| > 2 {
      var init, last := name[..|name| - 1], name[|name| - 1];
      UnitGramsLast(name);
      ConcatSnoc(UnitGrams(init), [last]);
      ConcatUnitGrams(init);
      assert init + [last] == name;
    } else {
      UnitGramsPair(name);
    }
  }

  lemma UnitGramsPair(name: string)
    requires |name| == 2
    ensures Concat(UnitGrams(name)) == name
  {
    var u := UnitGrams(name);
    assert u == [name[..2]];
    assert u[..0] == [];
    assert name[..2] == name;
  }

  /** For `size == 1`: a name of fewer than two runes yields nothing;
      otherwise the first fragment is the first two runes, every later
      fragment is one rune, and nothing is dropped. */
  lemma UnitGramsShape(name: string)
    ensures |name| < 2 ==> Grams(name, 1) == []
    ensures |name| >= 2 ==> |Grams(name, 1)| == |name| - 1 && Grams(name, 1)[0] == name[..2]
    ensures forall k :: 1 <= k < |Grams(name, 1)| ==> Grams(name, 1)[k] == [name[k + 1]]
    ensures |name| >= 2 ==> Concat(Grams(name, 1)) == name
  {
    if |name| >= 2 {
      ConcatUnitGrams(name);
    }
  }

  /** The 2-gram split of "anna" is ["an", "na"]. */
  method AnnaBigrams() returns (g: seq<Fragment>)
    ensures g == ["an", "na"]
  {
    g := NGram("anna", 2);
    var f := FullGroups("anna", 2, 2);
    assert Grams("anna", 2) == f;
    assert f[0] == "anna"[0..2] == "an";
    assert f[1] == "anna"[2..4] == "na";
  }
}
