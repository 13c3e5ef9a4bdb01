/**
 Name generation: the Markov walk `GenerateMarkovName` (words/main.go:241-259),
 the parts picker `GeneratePartsName` (words/main.go:261-276) and the choice
 of algorithm by name (words/main.go:210-234). Map iteration orders and
 random draws are explicit parameters.
 */
module Generators {
  import opened Common
  import opened Sampler
  import opened Models
  import opened Corpus

  /** Call number `i` of RandomKey is given an iteration order for the row
      of every key of `markov`. */
  ghost predicate Covers(markov: GramMap, orders: seq<map<Fragment, seq<Fragment>>>)
  {
    forall i, p :: 0 <= i < |orders| && p in markov ==> p in orders[i]
  }

  /** Every order given is an iteration order of its row: each key of the
      row exactly once. */
  ghost predicate OrdersFor(markov: GramMap, orders: seq<map<Fragment, seq<Fragment>>>)
  {
    forall i, p :: 0 <= i < |orders| && p in markov ==> p in orders[i] && IsKeyOrder(orders[i][p], markov[p])
  }

  /** The number of loop iterations: `for i := 0; i < maxiter; i++`. */
  function Bound(maxiter: int): nat
  {
    if maxiter > 0 then maxiter else 0
  }

  /** The key RandomKey call number `i` returns on the row of `p` (the
      empty order stands in for a row that was given none; under Covers
      there is always one). */
  function DrawAt(markov: GramMap, orders: seq<map<Fragment, seq<Fragment>>>, draws: seq<nat>, i: nat, p: Fragment): Fragment
    requires i < |orders| && i < |draws| && p in markov
  {
    Pick(Expand(markov[p], if p in orders[i] then orders[i][p] else []), draws[i])
  }

  /** The keys the walk has produced after `n` iterations: the first key is
      drawn from the start row "" (or is "" when there is none); each
      iteration draws from the row of the last key, and the walk stops for
      good at a key that has no row. */
  function Walk(markov: GramMap, orders: seq<map<Fragment, seq<Fragment>>>, draws: seq<nat>, n: nat): (path: seq<Fragment>)
    requires n < |orders| && n < |draws|
    ensures 1 <= |path| <= n + 1
  {
    if n == 0 then [if "" in markov then DrawAt(markov, orders, draws, 0, "") else ""]
    else
      var p := Walk(markov, orders, draws, n - 1);
      var last := p[|p| - 1];
      if |p| == n && last in markov then p + [DrawAt(markov, orders, draws, n, last)] else p
  }

  /** A walk of at most `bound` steps through `markov`, stated without the
      draws: it starts with a key drawn from the start row, every next key
      is drawn from the row of the key before it, and it ends before
      `bound` steps only at a key with no row. */
  ghost predicate IsWalk(markov: GramMap, bound: nat, path: seq<Fragment>)
  {
    && 1 <= |path| <= bound + 1
    && ("" in markov ==> Drawn(markov[""], path[0]))
    && ("" !in markov ==> path == [""])
    && (forall j :: 0 <= j < |path| - 1 ==> path[j] in markov && Drawn(markov[path[j]], path[j + 1]))
    && (|path| <= bound ==> path[|path| - 1] !in markov)
  }

  /** `name` spells some walk of at most `bound` steps through `markov`. */
  ghost predicate SpellsWalk(markov: GramMap, bound: nat, name: string)
  {
    exists path :: IsWalk(markov, bound, path) && name == Concat(path)
  }

  lemma DrawAtDrawn(markov: GramMap, orders: seq<map<Fragment, seq<Fragment>>>, draws: seq<nat>, i: nat, p: Fragment)
    requires OrdersFor(markov, orders) && i < |orders| && i < |draws| && p in markov
    ensures Drawn(markov[p], DrawAt(markov, orders, draws, i, p))
  {
    var c, order := markov[p], orders[i][p];
    var e := Expand(c, order);
    ExpandLength(c, order);
    var k := Pick(e, draws[i]);
    if |e| > 0 {
      assert k in multiset(e);
      ExpandIsKeyMultiset(c, order, k);
    }
  }

  /** A walk that has taken all its steps so far extends by a key drawn
      from the row of its last key. */
  lemma IsWalkSnoc(markov: GramMap, n: nat, p: seq<Fragment>, x: Fragment)
    requires IsWalk(markov, n, p) && |p| == n + 1
    requires p[n] in markov && Drawn(markov[p[n]], x)
    ensures IsWalk(markov, n + 1, p + [x])
  {
    var q := p + [x];
    forall j | 0 <= j < |q| - 1 ensures q[j] in markov && Drawn(markov[q[j]], q[j + 1]) {
      if j < n {
        assert q[j] == p[j] && q[j + 1] == p[j + 1];
      }
    }
  }

  /** A walk that ended at a dead end is a walk for any larger bound. */
  lemma IsWalkStopped(markov: GramMap, n: nat, p: seq<Fragment>)
    requires IsWalk(markov, n, p) && (|p| <= n || p[|p| - 1] !in markov)
    ensures IsWalk(markov, n + 1, p)
  {
  }

  /** Every row of a well-formed model has a positive total. */
  lemma WellFormedRowTotal(m: GramMap, p: Fragment)
    requires WellFormed(m) && p in m
    ensures Total(m[p]) >= 1
  {
    var k :| k in m[p];
    TotalRemove(m[p], k);
  }

  /** Every step of `path` follows a transition with a positive count: the
      first key from the start row (when there is one), each later key from
      the row of the key before it. */
  ghost predicate Counted(markov: GramMap, path: seq<Fragment>)
    requires |path| >= 1
  {
    && ("" in markov ==> path[0] in markov[""] && markov[""][path[0]] >= 1)
    && (forall j :: 0 <= j < |path| - 1 ==>
          path[j] in markov && path[j + 1] in markov[path[j]] && markov[path[j]][path[j + 1]] >= 1)
  }

  /** In a well-formed model, which is what the analysis builds, a walk never
      draws the "" that RandomKey returns for an all-zero row: every step
      follows a recorded transition. */
  lemma WellFormedWalk(markov: GramMap, bound: nat, path: seq<Fragment>)
    requires WellFormed(markov) && IsWalk(markov, bound, path)
    ensures Counted(markov, path)
  {
    if "" in markov {
      WellFormedRowTotal(markov, "");
    }
    forall j | 0 <= j < |path| - 1
      ensures path[j] in markov && path[j + 1] in markov[path[j]] && markov[path[j]][path[j + 1]] >= 1
    {
      WellFormedRowTotal(markov, path[j]);
    }
  }

  /** A name that spells a walk through a well-formed model spells one
      whose every step has a positive count. */
  lemma WellFormedSpellsWalk(markov: GramMap, bound: nat, name: string)
    requires WellFormed(markov) && SpellsWalk(markov, bound, name)
    ensures exists path :: IsWalk(markov, bound, path) && Counted(markov, path) && name == Concat(path)
  {
    var path :| IsWalk(markov, bound, path) && name == Concat(path);
    WellFormedWalk(markov, bound, path);
  }

  /** With iteration orders for every row, the walk the draws produce is a
      walk in the sense of IsWalk. */
  lemma {:induction false} WalkIsWalk(markov: GramMap, orders: seq<map<Fragment, seq<Fragment>>>, draws: seq<nat>, n: nat)
    requires OrdersFor(markov, orders) && n < |orders| && n < |draws|
    ensures IsWalk(markov, n, Walk(markov, orders, draws, n))
  {
    if n == 0 {
      if "" in markov {
        DrawAtDrawn(markov, orders, draws, 0, "");
      }
    } else {
      WalkIsWalk(markov, orders, draws, n - 1);
      var p := Walk(markov, orders, draws, n - 1);
      var last := p[|p| - 1];
      if |p| == n && last in markov {
        DrawAtDrawn(markov, orders, draws, n, last);
        IsWalkSnoc(markov, n - 1, p, DrawAt(markov, orders, draws, n, last));
      } else {
        IsWalkStopped(markov, n - 1, p);
      }
    }
  }

  /** Once the walk has stopped it stays stopped. */
  lemma {:induction false} WalkStays(markov: GramMap, orders: seq<map<Fragment, seq<Fragment>>>, draws: seq<nat>, n: nat, m: nat)
    requires n <= m < |orders| && m < |draws|
    requires |Walk(markov, orders, draws, n)| == n + 1
    requires Walk(markov, orders, draws, n)[n] !in markov
    ensures Walk(markov, orders, draws, m) == Walk(markov, orders, draws, n)
    decreases m
  {
    if m > n {
      WalkStays(markov, orders, draws, n, m - 1);
      var p := Walk(markov, orders, draws, m - 1);
      assert p[|p| - 1] !in markov;
    }
  }

  /** Without a start row the walk spells the empty name. */
  lemma NoStartRow(markov: GramMap, orders: seq<map<Fragment, seq<Fragment>>>, draws: seq<nat>, n: nat)
    requires n < |orders| && n < |draws| && "" !in markov
    ensures Concat(Walk(markov, orders, draws, n)) == ""
  {
    WalkStays(markov, orders, draws, 0, n);
    assert Concat([""]) == Concat([]) + "" by {
      assert [""][..0] == [];
    }
  }

  /** The state of GenerateMarkovName after `i` iterations: the walk has
      not stopped yet, `key` is its last key and `ret` spells it. */
  ghost predicate Walked(markov: GramMap, orders: seq<map<Fragment, seq<Fragment>>>, draws: seq<nat>,
                         i: nat, key: Fragment, ret: string)
  {
    && i < |orders| && i < |draws|
    && |Walk(markov, orders, draws, i)| == i + 1
    && key == Walk(markov, orders, draws, i)[i]
    && ret == Concat(Walk(markov, orders, draws, i))
  }

  /** Before the loop: the first key is drawn from the start row by call
      number 0, or is "" when there is no start row. */
  lemma WalkStart(markov: GramMap, orders: seq<map<Fragment, seq<Fragment>>>, draws: seq<nat>)
    requires Covers(markov, orders) && 0 < |orders| && 0 < |draws|
    ensures "" in markov ==> "" in orders[0]
    ensures var first := if "" in markov then Pick(Expand(markov[""], orders[0][""]), draws[0]) else "";
      Walked(markov, orders, draws, 0, first, "" + first)
  {
    var first := if "" in markov then Pick(Expand(markov[""], orders[0][""]), draws[0]) else "";
    assert [first][..0] == [];
    assert Concat([first]) == "" + first;
  }

  /** One iteration that finds a row for `key`: the next key is drawn from
      it by RandomKey call number i + 1. */
  lemma WalkStep(markov: GramMap, orders: seq<map<Fragment, seq<Fragment>>>, draws: seq<nat>,
                 i: nat, key: Fragment, ret: string, next: Fragment)
    requires Walked(markov, orders, draws, i, key, ret)
    requires i + 1 < |orders| && i + 1 < |draws| && key in markov && key in orders[i + 1]
    requires next == Pick(Expand(markov[key], orders[i + 1][key]), draws[i + 1])
    ensures Walked(markov, orders, draws, i + 1, next, ret + next)
  {
    ConcatSnoc(Walk(markov, orders, draws, i), next);
  }

  /** An iteration that finds no row ends the walk for good. */
  lemma WalkEnd(markov: GramMap, orders: seq<map<Fragment, seq<Fragment>>>, draws: seq<nat>,
                i: nat, n: nat, key: Fragment, ret: string)
    requires Walked(markov, orders, draws, i, key, ret)
    requires i <= n < |orders| && n < |draws| && key !in markov
    ensures ret == Concat(Walk(markov, orders, draws, n))
  {
    WalkStays(markov, orders, draws, i, n);
  }

  /** What the spelled walk is: with iteration orders for every row, the
      spelling of a walk in the sense of IsWalk; without a start row, the
      empty name. */
  lemma WalkName(markov: GramMap, orders: seq<map<Fragment, seq<Fragment>>>, draws: seq<nat>, n: nat, ret: string)
    requires n < |orders| && n < |draws| && ret == Concat(Walk(markov, orders, draws, n))
    ensures OrdersFor(markov, orders) ==> SpellsWalk(markov, n, ret)
    ensures "" !in markov ==> ret == ""
  {
    if OrdersFor(markov, orders) {
      WalkIsWalk(markov, orders, draws, n);
    }
    if "" !in markov {
      NoStartRow(markov, orders, draws, n);
    }
  }

  /** The walk ends at iteration `i`, by a dead end or by the bound: the
      name built so far is the final one, with all it promises. */
  lemma WalkFinal(markov: GramMap, orders: seq<map<Fragment, seq<Fragment>>>, draws: seq<nat>,
                  i: nat, n: nat, key: Fragment, ret: string)
    requires Walked(markov, orders, draws, i, key, ret)
    requires i <= n < |orders| && n < |draws| && (i == n || key !in markov)
    ensures ret == Concat(Walk(markov, orders, draws, n))
    ensures OrdersFor(markov, orders) ==> SpellsWalk(markov, n, ret)
    ensures "" !in markov ==> ret == ""
  {
    if i < n {
      WalkEnd(markov, orders, draws, i, n, key, ret);
    }
    WalkName(markov, orders, draws, n, ret);
  }

  /** GenerateMarkovName: call number 0 of RandomKey draws the first key,
      call number i + 1 the key of iteration i. With iteration orders that
      list each row's keys the name spells a walk through the model. */
  method GenerateMarkovName(markov: GramMap, maxiter: int, orders: seq<map<Fragment, seq<Fragment>>>, draws: seq<nat>)
    returns (ret: string)
    requires Covers(markov, orders) && Bound(maxiter) < |orders| && Bound(maxiter) < |draws|
    ensures ret == Concat(Walk(markov, orders, draws, Bound(maxiter)))
    ensures OrdersFor(markov, orders) ==> SpellsWalk(markov, Bound(maxiter), ret)
    ensures "" !in markov ==> ret == ""
  {
    ghost var n := Bound(maxiter);
    WalkStart(markov, orders, draws);
    var key := "";
    ret := "";
    if ret in markov {
      key := RandomKey(markov[ret], orders[0][ret], draws[0]);
    }
    ret := ret + key;
    for i := 0 to Bound(maxiter)
      invariant Walked(markov, orders, draws, i, key, ret)
    {
      if key in markov {
        ghost var before := key;
        key := RandomKey(markov[key], orders[i + 1][key], draws[i + 1]);
        WalkStep(markov, orders, draws, i, before, ret, key);
        ret := ret + key;
      } else {
        WalkFinal(markov, orders, draws, i, n, key, ret);
        return;
      }
    }
    WalkFinal(markov, orders, draws, n, n, key, ret);
  }

  /** The keys GeneratePartsName picks: from each list the key at position
      Intn(draw, len - 1) of its iteration order. The counts play no part. */
  function Picks(orders: seq<seq<Fragment>>, draws: seq<nat>): (r: seq<Fragment>)
    requires |draws| == |orders|
    requires forall l :: 0 <= l < |orders| ==> |orders[l]| >= 2
    ensures |r| == |orders|
  {
    seq(|orders|, l requires 0 <= l < |orders| => orders[l][Intn(draws[l], |orders[l]| - 1)])
  }

  lemma {:induction false} DistinctCard(order: seq<Fragment>)
    requires Distinct(order)
    ensures |set x | x in order| == |order|
  {
    if order != [] {
      var init, last := order[..|order| - 1], order[|order| - 1];
      DistinctCard(init);
      assert (set x | x in order) == (set x | x in init) + {last} by {
        assert order == init + [last];
      }
      assert last !in init by {
        forall i | 0 <= i < |init| ensures init[i] != last {
          assert order[i] != order[|order| - 1];
        }
      }
    }
  }

  /** A key order is as long as the map has keys. */
  lemma KeyOrderLength(order: seq<Fragment>, c: Count)
    requires IsKeyOrder(order, c)
    ensures |order| == |c|
  {
    DistinctCard(order);
    assert c.Keys == set x | x in order;
  }

  const IntnPanic := "invalid argument to Intn"

  lemma PicksSnoc(orders: seq<seq<Fragment>>, draws: seq<nat>, l: nat)
    requires |draws| == |orders| && l < |orders|
    requires forall m :: 0 <= m <= l ==> |orders[m]| >= 2
    ensures Picks(orders[..l + 1], draws[..l + 1])
      == Picks(orders[..l], draws[..l]) + [orders[l][Intn(draws[l], |orders[l]| - 1)]]
  {
  }

  /** GeneratePartsName: for each list, `rand.Intn(len(list) - 1)` picks a
      position and the key at that position of the iteration is appended.
      `rand.Intn` panics for a list of fewer than two keys; that is the
      failure of the model. */
  method GeneratePartsName(lists: seq<Count>, orders: seq<seq<Fragment>>, draws: seq<nat>) returns (ret: Result<string>)
    requires |orders| == |lists| && |draws| == |lists|
    requires forall l :: 0 <= l < |lists| ==> |orders[l]| == |lists[l]|
    ensures ret.Fail? <==> exists l :: 0 <= l < |lists| && |lists[l]| < 2
    ensures ret.Fail? ==> ret.msg == IntnPanic
    ensures ret.Ok? ==> (forall l :: 0 <= l < |orders| ==> |orders[l]| >= 2) && ret.value == Concat(Picks(orders, draws))
  {
    var s := "";
    ghost var acc: seq<Fragment> := [];
    for l := 0 to |lists|
      invariant forall m :: 0 <= m < l ==> |lists[m]| >= 2 && |orders[m]| >= 2
      invariant acc == Picks(orders[..l], draws[..l])
      invariant s == Concat(acc)
    {
      var list := lists[l];
      if |list| - 1 <= 0 {
        return Fail(IntnPanic);
      }
      var j := Intn(draws[l], |list| - 1);
      PicksSnoc(orders, draws, l);
      ConcatSnoc(acc, orders[l][j]);
      var i := 0;
      for idx := 0 to |orders[l]|
        invariant i == idx <= j
      {
        var k := orders[l][idx];
        if i == j {
          s := s + k;
          break;
        }
        i := i + 1;
      }
      acc := acc + [orders[l][j]];
    }
    assert orders[..|lists|] == orders && draws[..|lists|] == draws;
    ret := Ok(s);
  }

  /** Every key picked belongs to its list, and is never the key the
      iteration visits last. */
  lemma PicksAreKeys(lists: seq<Count>, orders: seq<seq<Fragment>>, draws: seq<nat>, l: nat)
    requires |orders| == |lists| && |draws| == |lists|
    requires forall m :: 0 <= m < |lists| ==> IsKeyOrder(orders[m], lists[m]) && |orders[m]| >= 2
    requires l < |lists|
    ensures Picks(orders, draws)[l] in lists[l]
    ensures Picks(orders, draws)[l] != orders[l][|orders[l]| - 1]
  {
    var j := Intn(draws[l], |orders[l]| - 1);
    assert orders[l][j] in orders[l];
  }

  /** Every key but the last one of its order is picked by some draw. */
  lemma PicksReach(orders: seq<seq<Fragment>>, draws: seq<nat>, l: nat, j: nat)
    requires |draws| == |orders|
    requires forall m :: 0 <= m < |orders| ==> |orders[m]| >= 2
    requires l < |orders| && j < |orders[l]| - 1
    ensures Picks(orders, draws[l := j])[l] == orders[l][j]
  {
  }

  /** The generators the algorithm names select. */
  datatype Generator = Markov(model: GramMap, maxiter: int) | PartsOf(lists: seq<Count>)

  const UnknownAlgorithm := "Unknown name algorithm specified"

  /** The `switch algorithm` of `main`; any other name is fatal. */
  function SelectAlgorithm(algorithm: string, t: Tables): (r: Result<Generator>)
    ensures r.Fail? <==> algorithm !in {"vg3", "2gr", "3gr", "pt2", "pt3"}
    ensures r.Fail? ==> r.msg == UnknownAlgorithm
    ensures r.Ok? && r.value.Markov? ==> r.value.maxiter >= 3 && r.value.model in {t.vowelgroups, t.twograms, t.threegrams}
    ensures r.Ok? && r.value.PartsOf? ==>
      2 <= |r.value.lists| <= 3 && r.value.lists[0] == t.parts.prefixes && r.value.lists[|r.value.lists| - 1] == t.parts.suffixes
  {
    match algorithm
    case "vg3" => Ok(Markov(t.vowelgroups, 3))
    case "2gr" => Ok(Markov(t.twograms, 6))
    case "3gr" => Ok(Markov(t.threegrams, 4))
    case "pt2" => Ok(PartsOf([t.parts.prefixes, t.parts.suffixes]))
    case "pt3" => Ok(PartsOf([t.parts.prefixes, t.parts.joins, t.parts.suffixes]))
    case _ => Fail(UnknownAlgorithm)
  }
}
