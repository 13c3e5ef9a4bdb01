/**
 Corpus analysis: the per-name body of `main` (words/main.go:111-150) that
 feeds every non-empty name into the 2-gram, 3-gram and vowel-group
 transition models and into the prefix, join and suffix tables.
 */
module Corpus {
  import opened Common
  import opened NGrams
  import opened VowelGroups
  import opened Models

  /** The six tables `main` builds, as values. */
  datatype Tables = Tables(twograms: GramMap, threegrams: GramMap, vowelgroups: GramMap, parts: Parts)

  const Empty := Tables(map[], map[], map[], Parts(map[], map[], map[]))

  /** The tables after one name has been analysed. */
  function Learn(t: Tables, name: string): Tables
  {
    var vgs := VowelSplit(name);
    Tables(
      Recorded(t.twograms, Grams(name, 2)),
      Recorded(t.threegrams, Grams(name, 3)),
      Recorded(t.vowelgroups, vgs),
      RecordedParts(t.parts, vgs))
  }

  /** The tables after a list of lines, empty ones skipped. */
  function LearnAll(t: Tables, names: seq<string>): Tables
  {
    if names == [] then t
    else
      var t' := LearnAll(t, names[..|names| - 1]);
      if |names[|names| - 1]| == 0 then t' else Learn(t', names[|names| - 1])
  }

  /** What the analysis keeps true of its tables: all three transition
      models are well formed, the start row of the vowel-group model
      is exactly the prefix table (every split contributes its first
      fragment to both, and no later fragment is empty), and the vowel-group
      model weighs as much as the three part tables together. */
  ghost predicate Consistent(t: Tables)
  {
    && WellFormed(t.twograms) && WellFormed(t.threegrams) && WellFormed(t.vowelgroups)
    && Row(t.vowelgroups, "") == t.parts.prefixes
    && Weight(t.vowelgroups) == Total(t.parts.prefixes) + Total(t.parts.joins) + Total(t.parts.suffixes)
  }

  /** The analysis state: three transition models, shared by reference as
      Go's maps are, and the three part tables. */
  class Analysis {
    const twograms: TransitionModel
    const threegrams: TransitionModel
    const vowelgroups: TransitionModel
    var prefixes: Count
    var joins: Count
    var suffixes: Count

    ghost predicate Valid()
      reads this
    {
      twograms != threegrams && twograms != vowelgroups && threegrams != vowelgroups
    }

    function Snapshot(): Tables
      reads this, twograms, threegrams, vowelgroups
    {
      Tables(twograms.table, threegrams.table, vowelgroups.table, Parts(prefixes, joins, suffixes))
    }

    constructor ()
      ensures Valid() && Snapshot() == Empty
      ensures fresh(twograms) && fresh(threegrams) && fresh(vowelgroups)
    {
      twograms := new TransitionModel();
      threegrams := new TransitionModel();
      vowelgroups := new TransitionModel();
      prefixes, joins, suffixes := map[], map[], map[];
    }

    /** One name: its 2-grams and 3-grams and its vowel-group split go into
        the transition models; the split's first fragment is a prefix, its
        last (when there are two or more) a suffix, the others joins. */
    method AddName(name: string)
      requires Valid()
      modifies this, twograms, threegrams, vowelgroups
      ensures Valid()
      ensures Snapshot() == Learn(old(Snapshot()), name)
    {
      AddGrams(name);
      AddSplit(name);
    }

    /** Lines 116-117: the name's 2-grams and 3-grams. */
    method AddGrams(name: string)
      requires Valid()
      modifies twograms, threegrams
      ensures twograms.table == Recorded(old(twograms.table), Grams(name, 2))
      ensures threegrams.table == Recorded(old(threegrams.table), Grams(name, 3))
    {
      var g2 := NGram(name, 2);
      FillGrams(g2, twograms);
      var g3 := NGram(name, 3);
      FillGrams(g3, threegrams);
    }

    /** Lines 119-149: the vowel-group split feeds its own transition model
        and the part tables; an empty split leaves both as they are. */
    method AddSplit(name: string)
      requires Valid()
      modifies this, vowelgroups
      ensures Valid()
      ensures twograms.table == old(twograms.table) && threegrams.table == old(threegrams.table)
      ensures vowelgroups.table == Recorded(old(vowelgroups.table), VowelSplit(name))
      ensures Parts(prefixes, joins, suffixes) == RecordedParts(old(Parts(prefixes, joins, suffixes)), VowelSplit(name))
    {
      var vgs := SplitOnVowelGroups(name);
      RecordSplit(vgs);
    }

    /** Lines 119-149 once the split `vgs` is known. */
    method RecordSplit(vgs: seq<Fragment>)
      requires Valid()
      modifies this, vowelgroups
      ensures Valid()
      ensures twograms.table == old(twograms.table) && threegrams.table == old(threegrams.table)
      ensures vowelgroups.table == Recorded(old(vowelgroups.table), vgs)
      ensures Parts(prefixes, joins, suffixes) == RecordedParts(old(Parts(prefixes, joins, suffixes)), vgs)
    {
      if |vgs| > 0 {
        FillGrams(vgs, vowelgroups);
        RecordParts(vgs);
      }
    }

    /** Lines 121-149 for a non-empty split: the first fragment is counted
        as a prefix, then, when fragments remain, the last as a suffix and
        the ones in between as joins. */
    method RecordParts(vgs: seq<Fragment>)
      requires |vgs| > 0
      modifies this
      ensures Parts(prefixes, joins, suffixes) == RecordedParts(old(Parts(prefixes, joins, suffixes)), vgs)
    {
      ghost var all := vgs;
      var prefix := vgs[0];
      var rest := vgs[1..];
      if prefix !in prefixes {
        prefixes := prefixes[prefix := 1];
      } else {
        prefixes := prefixes[prefix := prefixes[prefix] + 1];
      }
      assert prefixes == Inc(old(prefixes), prefix);
      if |rest| > 0 {
        var suffix := rest[|rest| - 1];
        rest := rest[..|rest| - 1];
        if suffix !in suffixes {
          suffixes := suffixes[suffix := 1];
        } else {
          suffixes := suffixes[suffix := suffixes[suffix] + 1];
        }
        assert suffixes == Inc(old(suffixes), suffix);
        assert rest == all[1..|all| - 1];
        CountJoins(rest);
      }
    }

    /** The loop over the inner fragments. */
    method CountJoins(js: seq<Fragment>)
      modifies this`joins
      ensures joins == IncAll(old(joins), js)
    {
      if |js| > 0 {
        for i := 0 to |js|
          invariant joins == IncAll(old(joins), js[..i])
        {
          var join := js[i];
          if join !in joins {
            joins := joins[join := 1];
          } else {
            joins := joins[join := joins[join] + 1];
          }
          assert js[..i + 1][..i] == js[..i];
        }
        assert js[..|js|] == js;
      }
    }

    /** The scanner loop: every line is analysed, empty ones skipped. */
    method Ingest(names: seq<string>)
      requires Valid()
      modifies this, twograms, threegrams, vowelgroups
      ensures Valid()
      ensures Snapshot() == LearnAll(old(Snapshot()), names)
    {
      for i := 0 to |names|
        invariant Valid()
        invariant Snapshot() == LearnAll(old(Snapshot()), names[..i])
      {
        assert names[..i + 1][..i] == names[..i];
        var name := names[i];
        if |name| == 0 {
          continue;
        }
        AddName(name);
      }
      assert names[..|names|] == names;
    }
  }

  /** `main` from the `make` calls to the end of the scanner loop: a new
      analysis fed every line. The tables it leaves are the ones `LearnAll`
      describes, and they are consistent, so in particular every transition
      model is well formed. */
  method Analyse(names: seq<string>) returns (a: Analysis)
    ensures a.Valid() && a.Snapshot() == LearnAll(Empty, names)
    ensures Consistent(a.Snapshot())
  {
    a := new Analysis();
    a.Ingest(names);
    EmptyConsistent();
    LearnAllConsistent(Empty, names);
  }

  /** A sequence of fragments that are all non-empty bumps the start row
      once, for its first fragment. */
  lemma {:induction false} RecordedStartRow(m: GramMap, grams: seq<Fragment>)
    requires forall k :: 0 <= k < |grams| ==> |grams[k]| >= 1
    ensures grams == [] ==> Row(Recorded(m, grams), "") == Row(m, "")
    ensures grams != [] ==> Row(Recorded(m, grams), "") == Inc(Row(m, ""), grams[0])
  {
    if |grams| > 1 {
      RecordedStartRow(m, grams[..|grams| - 1]);
      assert |grams[|grams| - 2]| >= 1;
    }
  }

  /** Analysing one name keeps the tables consistent. */
  lemma LearnConsistent(t: Tables, name: string)
    requires Consistent(t)
    ensures Consistent(Learn(t, name))
  {
    var vgs := VowelSplit(name);
    RecordedWellFormed(t.twograms, Grams(name, 2));
    RecordedWellFormed(t.threegrams, Grams(name, 3));
    RecordedWellFormed(t.vowelgroups, vgs);
    VowelSplitNonEmpty(name);
    RecordedStartRow(t.vowelgroups, vgs);
    RecordedWeight(t.vowelgroups, vgs);
    RecordedPartsTotals(t.parts, vgs);
  }

  /** Any corpus leaves the tables consistent. */
  lemma {:induction false} LearnAllConsistent(t: Tables, names: seq<string>)
    requires Consistent(t)
    ensures Consistent(LearnAll(t, names))
  {
    if names != [] {
      LearnAllConsistent(t, names[..|names| - 1]);
      if |names[|names| - 1]| > 0 {
        LearnConsistent(LearnAll(t, names[..|names| - 1]), names[|names| - 1]);
      }
    }
  }

  lemma EmptyConsistent()
    ensures Consistent(Empty)
  {
    assert Totals(map[]) == map[];
  }

  /** One name of n runes adds n / 2 bigrams and n / 3 trigrams, and one
      vowel-group transition per fragment of its split. */
  lemma LearnWeights(t: Tables, name: string)
    ensures Weight(Learn(t, name).twograms) == Weight(t.twograms) + |name| / 2
    ensures Weight(Learn(t, name).threegrams) == Weight(t.threegrams) + |name| / 3
    ensures Weight(Learn(t, name).vowelgroups) == Weight(t.vowelgroups) + |VowelSplit(name)|
  {
    GramsShape(name, 2);
    GramsShape(name, 3);
    RecordedWeight(t.twograms, Grams(name, 2));
    RecordedWeight(t.threegrams, Grams(name, 3));
    RecordedWeight(t.vowelgroups, VowelSplit(name));
  }

  /** Empty lines change nothing. */
  lemma {:induction false} LearnAllSkipsEmpty(t: Tables, names: seq<string>)
    requires forall k :: 0 <= k < |names| ==> names[k] == ""
    ensures LearnAll(t, names) == t
  {
    if names != [] {
      LearnAllSkipsEmpty(t, names[..|names| - 1]);
    }
  }
}
