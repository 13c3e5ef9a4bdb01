/**
 The vowel-group segmenter `SplitOnVowelGroups` (words/main.go:63-79).

 The regular expression `[AEIOUYaeiouy]+` is modelled directly: `VowelRuns`
 lists the maximal vowel runs of the name left to right, as Go's
 `FindAllStringIndex` does, each as a half-open byte span [lo, hi). The split
 then cuts after every run that does not start at byte 0, resumes one byte
 past the run (the byte after it is skipped), and keeps a trailing remainder
 only when it has at least two bytes.
 */
module VowelGroups {
  import opened Common

  /** `c` belongs to the class [AEIOUYaeiouy]. */
  predicate IsVowel(c: char)
  {
    || c == 'A' || c == 'E' || c == 'I' || c == 'O' || c == 'U' || c == 'Y'
    || c == 'a' || c == 'e' || c == 'i' || c == 'o' || c == 'u' || c == 'y'
  }

  /** A regular-expression match: the byte span [lo, hi). */
  datatype Span = Span(lo: nat, hi: nat)

  /** `sp` is a maximal run of vowels of `name`. */
  ghost predicate IsRun(name: string, sp: Span)
  {
    && sp.lo < sp.hi <= |name|
    && (forall j :: sp.lo <= j < sp.hi ==> IsVowel(name[j]))
    && (sp.lo == 0 || !IsVowel(name[sp.lo - 1]))
    && (sp.hi == |name| || !IsVowel(name[sp.hi]))
  }

  /** Byte `j` lies inside one of the spans. */
  predicate Covered(runs: seq<Span>, j: nat)
  {
    runs != [] && ((runs[0].lo <= j < runs[0].hi) || Covered(runs[1..], j))
  }

  /** Spans are non-empty and strictly left to right, with a gap between. */
  ghost predicate Ordered(runs: seq<Span>)
  {
    && (forall k :: 0 <= k < |runs| ==> runs[k].lo < runs[k].hi)
    && (forall k :: 0 <= k < |runs| - 1 ==> runs[k].hi < runs[k + 1].lo)
  }

  /** `runs` is exactly the list of matches of the vowel-run expression in
      name[from..]: every span is a maximal run, they are in order, and a
      byte at or after `from` is a vowel exactly when some span covers it. */
  ghost predicate Matches(name: string, runs: seq<Span>, from: nat)
  {
    && Ordered(runs)
    && (forall k :: 0 <= k < |runs| ==> IsRun(name, runs[k]) && from <= runs[k].lo)
    && (forall j :: from <= j < |name| ==> (IsVowel(name[j]) <==> Covered(runs, j)))
  }

  /** The first byte at or after `i` that is not a vowel (or the end). */
  function RunEnd(name: string, i: nat): (e: nat)
    requires i <= |name|
    ensures i <= e <= |name|
    ensures forall j :: i <= j < e ==> IsVowel(name[j])
    ensures e == |name| || !IsVowel(name[e])
    decreases |name| - i
  {
    if i == |name| || !IsVowel(name[i]) then i else RunEnd(name, i + 1)
  }

  lemma {:induction false} NotCoveredBelow(runs: seq<Span>, j: nat)
    requires forall k :: 0 <= k < |runs| ==> j < runs[k].lo
    ensures !Covered(runs, j)
  {
    if runs != [] {
      NotCoveredBelow(runs[1..], j);
    }
  }

  lemma MatchesSkip(name: string, i: nat, rest: seq<Span>)
    requires i < |name| && !IsVowel(name[i])
    requires Matches(name, rest, i + 1)
    ensures Matches(name, rest, i)
  {
    NotCoveredBelow(rest, i);
  }

  lemma CoveredCons(sp: Span, rest: seq<Span>, j: nat)
    ensures Covered([sp] + rest, j) <==> (sp.lo <= j < sp.hi || Covered(rest, j))
  {
    assert ([sp] + rest)[1..] == rest;
  }

  lemma MatchesCons(name: string, sp: Span, rest: seq<Span>)
    requires IsRun(name, sp)
    requires sp.hi == |name| ==> rest == []
    requires sp.hi < |name| ==> Matches(name, rest, sp.hi + 1)
    ensures Matches(name, [sp] + rest, sp.lo)
  {
    var runs := [sp] + rest;
    NotCoveredBelow(rest, sp.hi);
    forall k | 0 <= k < |runs| ensures IsRun(name, runs[k]) && sp.lo <= runs[k].lo {
      if k > 0 {
        assert runs[k] == rest[k - 1];
      }
    }
    forall k | 0 <= k < |runs| - 1 ensures runs[k].hi < runs[k + 1].lo {
      assert runs[k + 1] == rest[k];
      if k > 0 {
        assert runs[k] == rest[k - 1];
      }
    }
    forall j | sp.lo <= j < |name| ensures IsVowel(name[j]) <==> Covered(runs, j) {
      CoveredCons(sp, rest, j);
    }
  }

  /** The matches in name[i..], scanning left to right. */
  function RunsFrom(name: string, i: nat): (runs: seq<Span>)
    requires i <= |name|
    requires i == 0 || !IsVowel(name[i - 1])
    ensures Matches(name, runs, i)
    decreases |name| - i
  {
    if i == |name| then []
    else if !IsVowel(name[i]) then
      var rest := RunsFrom(name, i + 1);
      MatchesSkip(name, i, rest);
      rest
    else
      var e := RunEnd(name, i);
      var rest := if e == |name| then [] else RunsFrom(name, e + 1);
      MatchesCons(name, Span(i, e), rest);
      [Span(i, e)] + rest
  }

  /** Go's `vg.FindAllStringIndex(name, -1)`. */
  function VowelRuns(name: string): (runs: seq<Span>)
    ensures Matches(name, runs, 0)
  {
    RunsFrom(name, 0)
  }

  /** Where fragment `k` starts, given the cut positions `es`: byte 0 first,
      then one byte past the previous cut. */
  function From(es: seq<nat>, k: nat): nat
    requires k < |es|
  {
    if k == 0 then 0 else es[k - 1] + 1
  }

  /** Where scanning resumes after the cuts `es`. */
  function Resume(es: seq<nat>): nat
  {
    if es == [] then 0 else es[|es| - 1] + 1
  }

  /** The ends of the runs that do not start at byte 0, in order: the
      positions after which the split cuts. */
  function InnerEnds(runs: seq<Span>): (es: seq<nat>)
    requires Ordered(runs)
    ensures |es| <= |runs|
    ensures forall k :: 0 <= k < |es| ==> From(es, k) < es[k] <= runs[|runs| - 1].hi
  {
    if runs == [] then []
    else
      var init := runs[..|runs| - 1];
      var last := runs[|runs| - 1];
      assert Ordered(init);
      var es0 := InnerEnds(init);
      assert forall k :: 0 <= k < |es0| ==> es0[k] < last.lo;
      if 0 < last.lo then
        var es := es0 + [last.hi];
        assert forall k :: 0 <= k < |es0| ==> From(es, k) == From(es0, k) && es[k] == es0[k];
        es
      else es0
  }

  /** Every cut is the end of a run that does not start at byte 0 ... */
  lemma {:induction false} InnerEndsSound(runs: seq<Span>, k: nat)
    requires Ordered(runs) && k < |InnerEnds(runs)|
    ensures exists j :: 0 <= j < |runs| && 0 < runs[j].lo && runs[j].hi == InnerEnds(runs)[k]
  {
    var init := runs[..|runs| - 1];
    assert Ordered(init);
    if k < |InnerEnds(init)| {
      InnerEndsSound(init, k);
      var j :| 0 <= j < |init| && 0 < init[j].lo && init[j].hi == InnerEnds(init)[k];
      assert runs[j] == init[j];
    } else {
      assert runs[|runs| - 1].hi == InnerEnds(runs)[k];
    }
  }

  /** ... and every such run end is a cut. */
  lemma {:induction false} InnerEndsComplete(runs: seq<Span>, j: nat)
    requires Ordered(runs) && j < |runs| && 0 < runs[j].lo
    ensures runs[j].hi in InnerEnds(runs)
  {
    var init := runs[..|runs| - 1];
    assert Ordered(init);
    if j < |init| {
      InnerEndsComplete(init, j);
      assert runs[j] == init[j];
    }
  }

  /** Cut positions that slice `name` into non-empty, ordered fragments. */
  ghost predicate GoodEnds(name: string, es: seq<nat>)
  {
    forall k :: 0 <= k < |es| ==> From(es, k) < es[k] <= |name|
  }

  /** The fragments between consecutive cuts. */
  function Frags(name: string, es: seq<nat>): (r: seq<Fragment>)
    requires GoodEnds(name, es)
  {
    seq(|es|, k requires 0 <= k < |es| => name[From(es, k)..es[k]])
  }

  /** The fragments between the cuts `es`, then the remainder after the
      last cut when it has at least two bytes. */
  function Cut(name: string, es: seq<nat>): (r: seq<Fragment>)
    requires GoodEnds(name, es)
  {
    Frags(name, es) + if Resume(es) < |name| - 1 then [name[Resume(es)..]] else []
  }

  /** Reference definition of SplitOnVowelGroups(name). */
  function VowelSplit(name: string): (r: seq<Fragment>)
  {
    Cut(name, InnerEnds(VowelRuns(name)))
  }

  /** Cutting never yields an empty fragment, and the remainder, when there
      is one, has at least two bytes. */
  lemma CutNonEmpty(name: string, es: seq<nat>)
    requires GoodEnds(name, es)
    ensures forall k :: 0 <= k < |Cut(name, es)| ==> |Cut(name, es)[k]| >= 1
    ensures |Cut(name, es)| > |es| ==> |Cut(name, es)[|Cut(name, es)| - 1]| >= 2
  {
    var r, fs := Cut(name, es), Frags(name, es);
    forall k | 0 <= k < |r| ensures |r[k]| >= 1 {
      if k < |es| {
        assert r[k] == fs[k];
      }
    }
  }

  /** `e` ends a vowel run that does not start at byte 0. */
  ghost predicate InnerRunEnd(name: string, e: nat)
  {
    && 0 < e <= |name|
    && IsVowel(name[e - 1])
    && (e == |name| || !IsVowel(name[e]))
    && exists j :: 0 <= j < e && !IsVowel(name[j])
  }

  lemma FragsSnoc(name: string, es: seq<nat>, e: nat)
    requires GoodEnds(name, es + [e])
    ensures GoodEnds(name, es) && Resume(es) < e <= |name|
    ensures Frags(name, es + [e]) == Frags(name, es) + [name[Resume(es)..e]]
  {
    var es' := es + [e];
    forall k | 0 <= k < |es| ensures From(es, k) == From(es', k) && es[k] == es'[k] {
    }
    assert From(es', |es|) == Resume(es);
    var a, b := Frags(name, es'), Frags(name, es) + [name[Resume(es)..e]];
    assert |a| == |b|;
    forall k | 0 <= k < |a| ensures a[k] == b[k] {
      if k < |es| {
        assert From(es, k) == From(es', k) && es[k] == es'[k];
        assert a[k] == name[From(es', k)..es'[k]];
        assert b[k] == Frags(name, es)[k] == name[From(es, k)..es[k]];
      } else {
        assert k == |es| && es'[k] == e;
        assert a[k] == name[Resume(es)..e];
        assert b[k] == name[Resume(es)..e];
      }
    }
  }

  lemma OrderedPrefix(runs: seq<Span>, k: nat)
    requires Ordered(runs) && k <= |runs|
    ensures Ordered(runs[..k])
  {
  }

  lemma InnerEndsSnoc(runs: seq<Span>, k: nat)
    requires Ordered(runs) && k < |runs|
    ensures Ordered(runs[..k]) && Ordered(runs[..k + 1])
    ensures InnerEnds(runs[..k + 1]) == InnerEnds(runs[..k]) + if 0 < runs[k].lo then [runs[k].hi] else []
  {
    OrderedPrefix(runs, k);
    OrderedPrefix(runs, k + 1);
    assert runs[..k + 1][..k] == runs[..k];
  }

  /** The state of SplitOnVowelGroups after the first `k` matches: the cuts
      so far are the ends of those of them that do not start at byte 0, `ret`
      holds the fragments between the cuts, and `start` is where the next
      fragment begins. */
  ghost predicate Scanned(name: string, runs: seq<Span>, k: nat, es: seq<nat>, ret: seq<Fragment>, start: nat)
  {
    && k <= |runs|
    && Ordered(runs[..k]) && es == InnerEnds(runs[..k])
    && GoodEnds(name, es)
    && ret == Frags(name, es)
    && start == Resume(es)
    && (k > 0 ==> start <= runs[k - 1].hi + 1)
  }

  /** One match of the loop: a match that does not start at byte 0 adds its
      end as a cut and the fragment up to it; any other leaves all as is. */
  lemma CutStep(name: string, runs: seq<Span>, k: nat, es: seq<nat>, ret: seq<Fragment>, start: nat)
    requires Matches(name, runs, 0) && k < |runs|
    requires Scanned(name, runs, k, es, ret, start)
    ensures runs[k].lo == 0 ==> Scanned(name, runs, k + 1, es, ret, start)
    ensures 0 < runs[k].lo ==> (start <= runs[k].hi <= |name|
      && Scanned(name, runs, k + 1, es + [runs[k].hi], ret + [name[start..runs[k].hi]], runs[k].hi + 1))
  {
    InnerEndsSnoc(runs, k);
    assert IsRun(name, runs[k]);
    if runs[k].lo > 0 {
      assert k > 0 ==> runs[k - 1].hi < runs[k].lo;
      assert GoodEnds(name, es + [runs[k].hi]);
      FragsSnoc(name, es, runs[k].hi);
    }
  }

  /** SplitOnVowelGroups walks the matches, cutting after each one that does
      not start at byte 0 and resuming one byte past it. */
  method SplitOnVowelGroups(name: string) returns (ret: seq<Fragment>)
    ensures ret == VowelSplit(name)
  {
    var indexes := VowelRuns(name);
    ret := [];
    var start: nat := 0;
    ghost var es: seq<nat> := [];
    for k := 0 to |indexes|
      invariant Scanned(name, indexes, k, es, ret, start)
    {
      var index := indexes[k];
      CutStep(name, indexes, k, es, ret, start);
      if index.lo > 0 {
        ret := ret + [name[start..index.hi]];
        start := index.hi + 1;
        es := es + [index.hi];
      }
    }
    ScannedAll(name, es, ret, start);
    if start < |name| - 1 {
      ret := ret + [name[start..]];
    }
  }

  lemma ScannedAll(name: string, es: seq<nat>, ret: seq<Fragment>, start: nat)
    requires Scanned(name, VowelRuns(name), |VowelRuns(name)|, es, ret, start)
    ensures VowelSplit(name) == ret + if start < |name| - 1 then [name[start..]] else []
  {
    var runs := VowelRuns(name);
    assert runs[..|runs|] == runs;
  }

  lemma {:induction false} CoveredWitness(runs: seq<Span>, j: nat) returns (k: nat)
    requires Covered(runs, j)
    ensures k < |runs| && runs[k].lo <= j < runs[k].hi
  {
    if runs[0].lo <= j < runs[0].hi {
      k := 0;
    } else {
      var k' := CoveredWitness(runs[1..], j);
      k := k' + 1;
    }
  }

  /** The cut positions are exactly the ends of the vowel runs that do not
      start at byte 0. */
  lemma InnerEndsExact(name: string)
    ensures forall k :: 0 <= k < |InnerEnds(VowelRuns(name))| ==> InnerRunEnd(name, InnerEnds(VowelRuns(name))[k])
    ensures forall e :: InnerRunEnd(name, e) ==> e in InnerEnds(VowelRuns(name))
  {
    var runs := VowelRuns(name);
    var es := InnerEnds(runs);
    forall k | 0 <= k < |es| ensures InnerRunEnd(name, es[k]) {
      InnerEndsSound(runs, k);
      var j :| 0 <= j < |runs| && 0 < runs[j].lo && runs[j].hi == es[k];
      assert IsRun(name, runs[j]);
      assert !IsVowel(name[runs[j].lo - 1]);
    }
    forall e: nat | InnerRunEnd(name, e) ensures e in es {
      var v: nat := e - 1;
      assert IsVowel(name[v]);
      var j := CoveredWitness(runs, v);
      assert IsRun(name, runs[j]);
      var w :| 0 <= w < e && !IsVowel(name[w]);
      assert runs[j].hi == e;
      assert w < runs[j].lo;
      InnerEndsComplete(runs, j);
    }
  }

  /** Fragment k < |es| runs from From(es, k) — byte 0, or one byte past
      the previous cut, so the byte after each cut is dropped — to the k-th
      cut (a run end, by InnerEndsExact); a final remainder, present only
      when it would have at least two bytes, runs to the end of the name. */
  lemma VowelSplitPieces(name: string)
    ensures var es := InnerEnds(VowelRuns(name));
            && |VowelSplit(name)| == |es| + (if Resume(es) < |name| - 1 then 1 else 0)
            && (forall k :: 0 <= k < |es| ==> VowelSplit(name)[k] == name[From(es, k)..es[k]])
            && (Resume(es) < |name| - 1 ==> VowelSplit(name)[|es|] == name[Resume(es)..])
  {
    var runs := VowelRuns(name);
    var es := InnerEnds(runs);
    var r := VowelSplit(name);
    var fs := Frags(name, es);
    assert r == fs + if Resume(es) < |name| - 1 then [name[Resume(es)..]] else [];
    forall k | 0 <= k < |es| ensures r[k] == name[From(es, k)..es[k]] {
      assert r[k] == fs[k];
    }
  }

  /** No fragment is empty, and a final remainder has at least two bytes. */
  lemma VowelSplitNonEmpty(name: string)
    ensures forall k :: 0 <= k < |VowelSplit(name)| ==> |VowelSplit(name)[k]| >= 1
    ensures |VowelSplit(name)| > |InnerEnds(VowelRuns(name))| ==> |VowelSplit(name)[|VowelSplit(name)| - 1]| >= 2
  {
    CutNonEmpty(name, InnerEnds(VowelRuns(name)));
  }

  /** A name with no vowel run starting after byte 0 is one fragment when it
      has at least two bytes and no fragment at all otherwise. */
  lemma VowelSplitNoInnerRun(name: string)
    requires forall e :: !InnerRunEnd(name, e)
    ensures VowelSplit(name) == if |name| >= 2 then [name] else []
  {
    InnerEndsExact(name);
    assert name[0..] == name;
  }

  /** At most one fragment more than there are vowel runs. */
  lemma VowelSplitCount(name: string)
    ensures |VowelSplit(name)| <= |VowelRuns(name)| + 1
  {
  }

  /** A four-byte name shaped vowel, consonant, consonant, vowel has one
      run at byte 0 and one at the end. */
  lemma RunsOfVCCV(name: string)
    requires |name| == 4 && IsVowel(name[0]) && !IsVowel(name[1]) && !IsVowel(name[2]) && IsVowel(name[3])
    ensures VowelRuns(name) == [Span(0, 1), Span(3, 4)]
  {
    assert RunEnd(name, 4) == 4;
    assert RunEnd(name, 3) == 4;
    assert RunsFrom(name, 3) == [Span(3, 4)];
    assert RunsFrom(name, 2) == [Span(3, 4)];
    assert RunEnd(name, 1) == 1;
    assert RunEnd(name, 0) == 1;
    assert RunsFrom(name, 0) == [Span(0, 1)] + RunsFrom(name, 2);
  }

  /** Only the second of those runs cuts. */
  lemma EndsOfVCCV()
    ensures InnerEnds([Span(0, 1), Span(3, 4)]) == [4]
  {
    var runs := [Span(0, 1), Span(3, 4)];
    assert runs[..1] == [Span(0, 1)];
    assert runs[..1][..0] == [];
  }

  /** Such a name is not split at all: the run at byte 0 does not cut, and
      the cut after the final run takes the whole name. */
  lemma SplitOfVCCV(name: string)
    requires |name| == 4 && IsVowel(name[0]) && !IsVowel(name[1]) && !IsVowel(name[2]) && IsVowel(name[3])
    ensures VowelSplit(name) == [name]
  {
    RunsOfVCCV(name);
    EndsOfVCCV();
    assert Frags(name, [4]) == [name[0..4]];
    assert name[0..4] == name;
  }

  /** A four-byte name shaped consonant, vowel, consonant, vowel has a
      one-byte run at byte 1 and one at the end. */
  lemma RunsOfCVCV(name: string)
    requires |name| == 4 && !IsVowel(name[0]) && IsVowel(name[1]) && !IsVowel(name[2]) && IsVowel(name[3])
    ensures VowelRuns(name) == [Span(1, 2), Span(3, 4)]
  {
    assert RunEnd(name, 4) == 4;
    assert RunEnd(name, 3) == 4;
    assert RunsFrom(name, 3) == [Span(3, 4)];
    assert RunEnd(name, 2) == 2;
    assert RunEnd(name, 1) == 2;
    assert RunsFrom(name, 1) == [Span(1, 2)] + RunsFrom(name, 3);
    assert RunsFrom(name, 0) == RunsFrom(name, 1);
  }

  /** Both of those runs cut. */
  lemma EndsOfCVCV()
    ensures InnerEnds([Span(1, 2), Span(3, 4)]) == [2, 4]
  {
    var runs := [Span(1, 2), Span(3, 4)];
    assert runs[..1] == [Span(1, 2)];
    assert runs[..1][..0] == [];
  }

  /** Such a name loses its third byte, the one after the first run. */
  lemma SplitOfCVCV(name: string)
    requires |name| == 4 && !IsVowel(name[0]) && IsVowel(name[1]) && !IsVowel(name[2]) && IsVowel(name[3])
    ensures VowelSplit(name) == [name[0..2], name[3..4]]
  {
    RunsOfCVCV(name);
    EndsOfCVCV();
    var fs := Frags(name, [2, 4]);
    assert fs[0] == name[0..2];
    assert fs[1] == name[3..4];
  }

  /** "anna" is one fragment: its first run starts at byte 0 and does not
      cut; the second run ends the name. */
  lemma AnnaVowelGroups()
    ensures VowelSplit("anna") == ["anna"]
  {
    var name := "anna";
    assert name[0] == 'a' && name[1] == 'n' && name[2] == 'n' && name[3] == 'a';
    SplitOfVCCV(name);
  }

  /** "kara" loses its `r`: the byte after the run "a" is skipped. */
  lemma KaraVowelGroups()
    ensures VowelSplit("kara") == ["ka", "a"]
  {
    SplitOfKara("kara");
  }

  lemma SplitOfKara(name: string)
    requires name == "kara"
    ensures VowelSplit(name) == ["ka", "a"]
  {
    assert !IsVowel(name[0]) && IsVowel(name[1]) && !IsVowel(name[2]) && IsVowel(name[3]);
    SplitOfCVCV(name);
    assert name[0..2] == "ka" && name[3..4] == "a";
  }
}
