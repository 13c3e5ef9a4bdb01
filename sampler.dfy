/**
 The weighted sampler `count.RandomKey` (words/main.go:18-33). Every key is
 written into an array once per occurrence, in the map's iteration order,
 and one slot is read at `rand.Intn(len - 1)`: with two or more slots the
 last one is never read.
 The iteration order and the random draw are parameters.
 */
module Sampler {
  import opened Common

  /** `rand.Intn(n)` for `n > 0`, driven by an explicit draw. Every value of
      [0, n) is the outcome of some draw. */
  function Intn(rnd: nat, n: nat): (r: nat)
    requires n > 0
    ensures r < n
    ensures rnd < n ==> r == rnd
  {
    rnd % n
  }

  /** `n` copies of `k`. */
  function Repeat(k: Fragment, n: nat): (r: seq<Fragment>)
    ensures |r| == n
    ensures forall i :: 0 <= i < n ==> r[i] == k
  {
    if n == 0 then [] else Repeat(k, n - 1) + [k]
  }

  /** The array after the first `n` keys of `order`: each key repeated as
      often as its count says. */
  function Slots(c: Count, order: seq<Fragment>, n: nat): seq<Fragment>
    requires n <= |order|
  {
    if n == 0 then [] else Slots(c, order, n - 1) + Repeat(order[n - 1], Get(c, order[n - 1]))
  }

  /** The array `arr` that RandomKey builds over the whole of `order`. */
  function Expand(c: Count, order: seq<Fragment>): seq<Fragment>
  {
    Slots(c, order, |order|)
  }

  /** The slot RandomKey reads from `arr`: nothing from an empty array, the
      only slot of a one-slot array, otherwise slot `Intn(rnd, |arr| - 1)`. */
  function Pick(arr: seq<Fragment>, rnd: nat): Fragment
  {
    if |arr| == 0 then "" else if |arr| == 1 then arr[0] else arr[Intn(rnd, |arr| - 1)]
  }

  /** What any call of RandomKey on `table` may return: the empty fragment
      when all counts are zero, otherwise a key with a positive count. */
  ghost predicate Drawn(table: Count, k: Fragment)
  {
    (Total(table) == 0 && k == "") || (k in table && table[k] >= 1)
  }

  lemma {:induction false} RepeatMultiset(j: Fragment, n: nat, k: Fragment)
    ensures multiset(Repeat(j, n))[k] == if j == k then n else 0
  {
    if n > 0 {
      RepeatMultiset(j, n - 1, k);
    }
  }

  /** The slots of the first `n` keys do not depend on what follows them. */
  lemma {:induction false} SlotsPrefix(c: Count, order: seq<Fragment>, m: nat, n: nat)
    requires n <= m <= |order|
    ensures Slots(c, order, n) == Slots(c, order[..m], n)
  {
    if n > 0 {
      SlotsPrefix(c, order, m, n - 1);
      assert order[..m][n - 1] == order[n - 1];
    }
  }

  lemma ExpandSnoc(c: Count, order: seq<Fragment>)
    requires order != []
    ensures Expand(c, order) == Expand(c, order[..|order| - 1]) + Repeat(order[|order| - 1], Get(c, order[|order| - 1]))
  {
    SlotsPrefix(c, order, |order| - 1, |order| - 1);
  }

  /** Every key occurs in the slots of the first `n` keys exactly as often
      as its count when it is one of them, and not at all otherwise. */
  lemma {:induction false} SlotsCount(c: Count, order: seq<Fragment>, n: nat, k: Fragment)
    requires Distinct(order) && n <= |order|
    ensures multiset(Slots(c, order, n))[k] == if k in order[..n] then Get(c, k) else 0
  {
    if n > 0 {
      var last := order[n - 1];
      assert order[..n] == order[..n - 1] + [last];
      SlotsCount(c, order, n - 1, k);
      RepeatMultiset(last, Get(c, last), k);
      if k == last {
        assert k !in order[..n - 1] by {
          forall i | 0 <= i < n - 1 ensures order[i] != k {
            assert order[i] != order[n - 1];
          }
        }
      }
    }
  }

  /** Every key occurs in the array exactly as often as its count. */
  lemma ExpandCount(c: Count, order: seq<Fragment>, k: Fragment)
    requires Distinct(order)
    ensures multiset(Expand(c, order))[k] == if k in order then Get(c, k) else 0
  {
    SlotsCount(c, order, |order|, k);
    assert order[..|order|] == order;
  }

  lemma {:induction false} SlotsAgree(c: Count, d: Count, order: seq<Fragment>, n: nat)
    requires n <= |order|
    requires forall k :: k in order ==> Get(c, k) == Get(d, k)
    ensures Slots(c, order, n) == Slots(d, order, n)
  {
    if n > 0 {
      SlotsAgree(c, d, order, n - 1);
      assert order[n - 1] in order;
    }
  }

  /** Over a key order the array has exactly Total(c) slots. */
  lemma {:induction false} ExpandLength(c: Count, order: seq<Fragment>)
    requires IsKeyOrder(order, c)
    ensures |Expand(c, order)| == Total(c)
    decreases |order|
  {
    if order == [] {
      assert c == map[];
    } else {
      var init, last := order[..|order| - 1], order[|order| - 1];
      var rest := c - {last};
      assert last in c;
      assert IsKeyOrder(init, rest) by {
        forall k ensures k in rest <==> k in init {
          if k in init {
            var i :| 0 <= i < |init| && init[i] == k;
            assert order[i] != order[|order| - 1];
          }
          if k in c && k != last {
            assert k in order;
            var i :| 0 <= i < |order| && order[i] == k;
            assert i < |order| - 1 && init[i] == k;
          }
        }
      }
      forall k | k in init ensures Get(c, k) == Get(rest, k) {
      }
      ExpandSnoc(c, order);
      SlotsAgree(c, rest, init, |init|);
      ExpandLength(rest, init);
      TotalRemove(c, last);
    }
  }

  /** The array built over a key order holds each key as often as the table
      counts it. */
  lemma ExpandIsKeyMultiset(c: Count, order: seq<Fragment>, k: Fragment)
    requires IsKeyOrder(order, c)
    ensures multiset(Expand(c, order))[k] == Get(c, k)
  {
    ExpandCount(c, order, k);
  }

  /** RandomKey iterates over `order` (one iteration order of the Go map),
      expands the counts into an array, and reads the slot `Pick` names. */
  method RandomKey(c: Count, order: seq<Fragment>, rnd: nat) returns (key: Fragment)
    ensures key == Pick(Expand(c, order), rnd)
    ensures IsKeyOrder(order, c) ==> Drawn(c, key)
  {
    var arr: seq<Fragment> := [];
    for i := 0 to |order|
      invariant arr == Slots(c, order, i)
    {
      var k := order[i];
      var val: nat := Get(c, k);
      while val > 0
        invariant val <= Get(c, k)
        invariant arr == Slots(c, order, i) + Repeat(k, Get(c, k) - val)
      {
        assert Repeat(k, Get(c, k) - val + 1) == Repeat(k, Get(c, k) - val) + [k];
        arr := arr + [k];
        val := val - 1;
      }
      assert arr == Slots(c, order, i + 1);
    }
    if |arr| == 0 {
      key := "";
    } else if |arr| == 1 {
      key := arr[0];
    } else {
      key := arr[Intn(rnd, |arr| - 1)];
    }
    if IsKeyOrder(order, c) {
      ExpandLength(c, order);
      if |arr| > 0 {
        assert key in multiset(arr);
        ExpandIsKeyMultiset(c, order, key);
      }
    }
  }

  /** The exact distribution: with N >= 2 slots the draw ranges over the
      first N - 1 slots, so every key is drawn from as many slots as its
      count, except the key in the last slot, which loses one. */
  lemma DrawWeights(c: Count, order: seq<Fragment>, k: Fragment)
    requires IsKeyOrder(order, c) && Total(c) >= 2
    ensures |Expand(c, order)| == Total(c)
    ensures multiset(Expand(c, order)[..Total(c) - 1])[k]
      == Get(c, k) - (if k == Expand(c, order)[Total(c) - 1] then 1 else 0)
  {
    var e := Expand(c, order);
    ExpandLength(c, order);
    ExpandIsKeyMultiset(c, order, k);
    assert e == e[..|e| - 1] + [e[|e| - 1]];
  }

  /** The reachable draws (rnd % (N - 1) for N >= 2 slots) are exactly the
      slots before the last one. */
  lemma PickSlot(arr: seq<Fragment>, rnd: nat)
    requires |arr| >= 2
    ensures exists j :: 0 <= j < |arr| - 1 && Pick(arr, rnd) == arr[j]
    ensures forall j :: 0 <= j < |arr| - 1 ==> Pick(arr, j) == arr[j]
  {
    var j := Intn(rnd, |arr| - 1);
    assert Pick(arr, rnd) == arr[j];
  }

  /** `order` without `k`. */
  function Without(order: seq<Fragment>, k: Fragment): (r: seq<Fragment>)
    ensures forall x :: x in r <==> x in order && x != k
  {
    if order == [] then []
    else if order[|order| - 1] == k then Without(order[..|order| - 1], k)
    else Without(order[..|order| - 1], k) + [order[|order| - 1]]
  }

  lemma {:induction false} WithoutDistinct(order: seq<Fragment>, k: Fragment)
    requires Distinct(order)
    ensures Distinct(Without(order, k))
  {
    if order != [] {
      var init, last := order[..|order| - 1], order[|order| - 1];
      WithoutDistinct(init, k);
      if last != k {
        assert last !in init by {
          forall i | 0 <= i < |init| ensures init[i] != last {
            assert order[i] != order[|order| - 1];
          }
        }
      }
    }
  }

  lemma {:induction false} ExpandFront(c: Count, k: Fragment, rest: seq<Fragment>)
    ensures Expand(c, [k] + rest) == Repeat(k, Get(c, k)) + Expand(c, rest)
  {
    if rest == [] {
      assert Slots(c, [k], 0) == [] && [k][0] == k;
      assert Expand(c, [k]) == [] + Repeat(k, Get(c, k));
      assert [k] + rest == [k] && Expand(c, rest) == [];
    } else {
      var init, last := rest[..|rest| - 1], rest[|rest| - 1];
      assert ([k] + rest)[..|rest|] == [k] + init;
      ExpandSnoc(c, [k] + rest);
      ExpandSnoc(c, rest);
      ExpandFront(c, k, init);
    }
  }

  /** Every key with a positive count is returned by some call: iterating
      over it first and drawing 0 reads its first slot. */
  lemma RandomKeyReaches(c: Count, order: seq<Fragment>, k: Fragment)
    requires IsKeyOrder(order, c) && k in c && c[k] >= 1
    ensures exists order', rnd: nat :: IsKeyOrder(order', c) && Pick(Expand(c, order'), rnd) == k
  {
    var order' := [k] + Without(order, k);
    WithoutDistinct(order, k);
    assert IsKeyOrder(order', c) by {
      forall i, j | 0 <= i < j < |order'| ensures order'[i] != order'[j] {
        if i == 0 {
          assert order'[j] in Without(order, k);
        } else {
          assert order'[i] == Without(order, k)[i - 1] && order'[j] == Without(order, k)[j - 1];
        }
      }
    }
    ExpandFront(c, k, Without(order, k));
    var e := Expand(c, order');
    assert e[0] == k;
    assert Pick(e, 0) == k;
  }

  /** With the table {"a": 1, "b": 1} iterated as a, b the array is
      ["a", "b"], the draw is rand.Intn(1) == 0, and "b" is never returned. */
  method NeverLastSlot(rnd: nat) returns (key: Fragment)
    ensures key == "a"
  {
    var c: Count := map["a" := 1, "b" := 1];
    var order := ["a", "b"];
    assert IsKeyOrder(order, c);
    key := RandomKey(c, order, rnd);
    assert Slots(c, order, 1) == Repeat("a", 1) == ["a"];
    assert Expand(c, order) == ["a"] + Repeat("b", 1) == ["a", "b"];
  }
}
