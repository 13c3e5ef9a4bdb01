/**
 Shared vocabulary of the name generator: fragments, count tables and the
 helpers the other modules state their contracts with.
 */
module Common {

  /** The outcome of an operation that can fail, with the failure's message. */
  datatype Result<T> = Ok(value: T) | Fail(msg: string)

  /** A fragment of a name. One `char` stands for one rune (in the n-gram
      segmenter) or one byte (in the vowel-group segmenter); for ASCII names
      the two agree. */
  type Fragment = string

  /** Go's `count` type (`map[string]uint`): fragment -> occurrences. */
  type Count = map<Fragment, nat>

  /** The transition model: from-fragment -> (next fragment -> occurrences). */
  type GramMap = map<Fragment, Count>

  /** The count of `k`, zero when it has no entry (Go's zero value). */
  function Get(c: Count, k: Fragment): nat
  {
    if k in c then c[k] else 0
  }

  /** The inner table of `p`, empty when it has no entry. */
  function Row(m: GramMap, p: Fragment): Count
  {
    if p in m then m[p] else map[]
  }

  /** The sum of all counts of a table. */
  ghost function Total(c: Count): nat
    decreases |c|
  {
    if c == map[] then 0 else var k :| k in c; c[k] + Total(c - {k})
  }

  /** The row totals of a transition model. */
  ghost function Totals(m: GramMap): Count
  {
    map p | p in m :: Total(m[p])
  }

  /** The total of a whole transition model: the sum of its row totals. */
  ghost function Weight(m: GramMap): nat
  {
    Total(Totals(m))
  }

  /** Concatenation of fragments, as Go's repeated `ret = ret + key`. */
  function Concat(ss: seq<Fragment>): string
  {
    if ss == [] then "" else Concat(ss[..|ss| - 1]) + ss[|ss| - 1]
  }

  /** No key occurs twice in `order`. */
  ghost predicate Distinct(order: seq<Fragment>)
  {
    forall i, j :: 0 <= i < j < |order| ==> order[i] != order[j]
  }

  /** `order` lists every key of `c` exactly once: one iteration order of a
      Go map. */
  ghost predicate IsKeyOrder(order: seq<Fragment>, c: Count)
  {
    Distinct(order) && (forall k :: k in c <==> k in order)
  }

  lemma {:induction false} TotalRemove(c: Count, k: Fragment)
    requires k in c
    ensures Total(c) == c[k] + Total(c - {k})
    decreases |c|
  {
    var j :| j in c && Total(c) == c[j] + Total(c - {j});
    if j != k {
      TotalRemove(c - {j}, k);
      TotalRemove(c - {k}, j);
      assert c - {j} - {k} == c - {k} - {j};
    }
  }

  /** Setting one entry changes the total by the difference. */
  lemma TotalUpdate(c: Count, k: Fragment, v: nat)
    ensures Total(c[k := v]) + Get(c, k) == Total(c) + v
  {
    TotalRemove(c[k := v], k);
    assert c[k := v] - {k} == c - {k};
    if k in c {
      TotalRemove(c, k);
    } else {
      assert c - {k} == c;
    }
  }

  lemma ConcatSnoc(ss: seq<Fragment>, s: Fragment)
    ensures Concat(ss + [s]) == Concat(ss) + s
  {
    assert (ss + [s])[..|ss|] == ss;
  }
}
