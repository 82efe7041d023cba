/**
 * Language aggregation: folding the per-repository `language -> bytes`
 * dictionaries reported by the hosting platform into one totals dictionary.
 *
 * A dictionary is an insertion-ordered sequence of (language, bytes) pairs,
 * as a Python dict is: the order in which languages were first inserted is
 * what later decides ties in the percentage sort.
 */
module Aggregation {
  import opened Wrappers

  type Lang = string

  /** An insertion-ordered `language -> bytes` dictionary. */
  type LangBytes = seq<(Lang, nat)>

  /** The keys of `d`, in insertion order. */
  function Keys(d: LangBytes): (ks: seq<Lang>)
    ensures |ks| == |d|
  {
    if d == [] then [] else [d[0].0] + Keys(d[1..])
  }

  /** No language occurs twice: the shape of a real dictionary. */
  predicate UniqueKeys(d: LangBytes) {
    d == [] || (d[0].0 !in Keys(d[1..]) && UniqueKeys(d[1..]))
  }

  /** `d.get(lang, 0)`. */
  function Get(d: LangBytes, lang: Lang): (b: nat)
    ensures lang !in Keys(d) ==> b == 0
  {
    if d == [] then 0
    else if d[0].0 == lang then d[0].1
    else Get(d[1..], lang)
  }

  /** `d[lang] = v`: an existing key keeps its position, a new key is appended. */
  function Set(d: LangBytes, lang: Lang, v: nat): LangBytes
  {
    if d == [] then [(lang, v)]
    else if d[0].0 == lang then [(lang, v)] + d[1..]
    else [d[0]] + Set(d[1..], lang, v)
  }

  /** After `d[lang] = v`, `lang` maps to `v` and every other key is unchanged. */
  lemma {:induction false} SetGet(d: LangBytes, lang: Lang, v: nat, k: Lang)
    ensures Get(Set(d, lang, v), k) == if k == lang then v else Get(d, k)
  {
    if d != [] && d[0].0 != lang {
      SetGet(d[1..], lang, v, k);
      assert Set(d, lang, v)[1..] == Set(d[1..], lang, v);
    }
  }

  /** `d[lang] = v` leaves the key order alone for an existing key and appends a new one. */
  lemma {:induction false} SetKeys(d: LangBytes, lang: Lang, v: nat)
    ensures Keys(Set(d, lang, v)) == if lang in Keys(d) then Keys(d) else Keys(d) + [lang]
  {
    if d != [] && d[0].0 != lang {
      SetKeys(d[1..], lang, v);
      assert Keys(d) == [d[0].0] + Keys(d[1..]);
      assert Keys(Set(d, lang, v)) == [d[0].0] + Keys(Set(d[1..], lang, v));
      assert lang in Keys(d) <==> lang in Keys(d[1..]);
    } else if d != [] {
      assert Keys(Set(d, lang, v)) == [lang] + Keys(d[1..]);
      assert Keys(d) == [lang] + Keys(d[1..]);
    }
  }

  /** `d[lang] = v` keeps a dictionary a dictionary. */
  lemma {:induction false} SetUnique(d: LangBytes, lang: Lang, v: nat)
    requires UniqueKeys(d)
    ensures UniqueKeys(Set(d, lang, v))
  {
    if d != [] && d[0].0 != lang {
      SetUnique(d[1..], lang, v);
      SetKeys(d[1..], lang, v);
      assert Set(d, lang, v)[1..] == Set(d[1..], lang, v);
    } else if d != [] {
      assert Set(d, lang, v)[1..] == d[1..];
      assert Keys(Set(d, lang, v)[1..]) == Keys(d[1..]);
    }
  }

  /** The loop body of one successful repository:
      `for lang, b in langs.items(): totals[lang] = totals.get(lang, 0) + b`. */
  function Merge(totals: LangBytes, langs: LangBytes): LangBytes
    decreases |langs|
  {
    if langs == [] then totals
    else
      var t, last := Merge(totals, langs[..|langs| - 1]), langs[|langs| - 1];
      Set(t, last.0, Get(t, last.0) + last.1)
  }

  /** The totals after visiting every repository in order; a repository whose
      fetch raised (`None`) is skipped. */
  function Aggregate(results: seq<Option<LangBytes>>): LangBytes
  {
    if results == [] then []
    else
      var t := Aggregate(results[..|results| - 1]);
      match results[|results| - 1]
      case None => t
      case Some(langs) => Merge(t, langs)
  }

  /** Reference definition: the bytes one repository reports for `lang`. */
  function Reported(langs: LangBytes, lang: Lang): nat
  {
    if langs == [] then 0
    else
      var last := langs[|langs| - 1];
      Reported(langs[..|langs| - 1], lang) + (if last.0 == lang then last.1 else 0)
  }

  /** Reference definition: the bytes reported for `lang` summed over the
      repositories whose fetch succeeded. */
  function SumOver(results: seq<Option<LangBytes>>, lang: Lang): nat
  {
    if results == [] then 0
    else
      SumOver(results[..|results| - 1], lang) +
      match results[|results| - 1]
      case None => 0
      case Some(langs) => Reported(langs, lang)
  }

  /** The successful results alone, in order. */
  function Successes(results: seq<Option<LangBytes>>): (r: seq<Option<LangBytes>>)
    ensures forall i :: 0 <= i < |r| ==> r[i].Some?
  {
    if results == [] then []
    else
      var s := Successes(results[..|results| - 1]);
      if results[|results| - 1].Some? then s + [results[|results| - 1]] else s
  }

  /** Every key reported by a successful repository, repositories in order. */
  function ReportedKeys(results: seq<Option<LangBytes>>): seq<Lang>
  {
    if results == [] then []
    else
      ReportedKeys(results[..|results| - 1]) +
      match results[|results| - 1]
      case None => []
      case Some(langs) => Keys(langs)
  }

  /** `s` with every element after its first occurrence removed. */
  function FirstOccurrences(s: seq<Lang>): seq<Lang>
  {
    if s == [] then []
    else
      var f := FirstOccurrences(s[..|s| - 1]);
      if s[|s| - 1] in f then f else f + [s[|s| - 1]]
  }

  lemma {:induction false} FirstOccurrencesMembers(s: seq<Lang>, x: Lang)
    ensures x in FirstOccurrences(s) <==> x in s
  {
    if s != [] {
      FirstOccurrencesMembers(s[..|s| - 1], x);
      assert s == s[..|s| - 1] + [s[|s| - 1]];
    }
  }

  lemma {:induction false} KeysAt(d: LangBytes, i: nat)
    requires i < |d|
    ensures Keys(d)[i] == d[i].0
  {
    if i > 0 {
      KeysAt(d[1..], i - 1);
    }
  }

  lemma {:induction false} KeysSnoc(d: LangBytes, p: (Lang, nat))
    ensures Keys(d + [p]) == Keys(d) + [p.0]
  {
    if d != [] {
      KeysSnoc(d[1..], p);
      assert (d + [p])[1..] == d[1..] + [p];
    }
  }

  lemma KeysInitLast(langs: LangBytes)
    requires langs != []
    ensures Keys(langs) == Keys(langs[..|langs| - 1]) + [langs[|langs| - 1].0]
  {
    assert langs == langs[..|langs| - 1] + [langs[|langs| - 1]];
    KeysSnoc(langs[..|langs| - 1], langs[|langs| - 1]);
  }

  lemma FirstOccurrencesSnoc(s: seq<Lang>, x: Lang)
    ensures FirstOccurrences(s + [x]) ==
      if x in FirstOccurrences(s) then FirstOccurrences(s) else FirstOccurrences(s) + [x]
  {
    assert (s + [x])[..|s|] == s;
  }

  /** One step of the merge loop. */
  lemma MergeStep(t: LangBytes, langs: LangBytes)
    requires langs != []
    ensures Merge(t, langs) ==
      Set(Merge(t, langs[..|langs| - 1]), langs[|langs| - 1].0,
          Get(Merge(t, langs[..|langs| - 1]), langs[|langs| - 1].0) + langs[|langs| - 1].1)
  {
  }

  /** Merging one repository adds exactly its reported bytes to every language. */
  lemma {:induction false} MergeGet(t: LangBytes, langs: LangBytes, lang: Lang)
    ensures Get(Merge(t, langs), lang) == Get(t, lang) + Reported(langs, lang)
    decreases |langs|
  {
    if langs != [] {
      var m, p := Merge(t, langs[..|langs| - 1]), langs[|langs| - 1];
      MergeGet(t, langs[..|langs| - 1], lang);
      SetGet(m, p.0, Get(m, p.0) + p.1, lang);
    }
  }

  /** Merging appends the new languages in the order the repository reports them. */
  lemma {:induction false} MergeKeys(t: LangBytes, a: seq<Lang>, langs: LangBytes)
    requires Keys(t) == FirstOccurrences(a)
    ensures Keys(Merge(t, langs)) == FirstOccurrences(a + Keys(langs))
    decreases |langs|
  {
    if langs == [] {
      assert a + Keys(langs) == a;
    } else {
      var init, p := langs[..|langs| - 1], langs[|langs| - 1];
      var k := Keys(init);
      KeysInitLast(langs);
      assert a + Keys(langs) == (a + k) + [p.0];
      MergeKeys(t, a, init);
      MergeStep(t, langs);
      var m := Merge(t, init);
      SetKeys(m, p.0, Get(m, p.0) + p.1);
      FirstOccurrencesSnoc(a + Keys(init), p.0);
    }
  }

  lemma {:induction false} MergeUnique(t: LangBytes, langs: LangBytes)
    requires UniqueKeys(t)
    ensures UniqueKeys(Merge(t, langs))
    decreases |langs|
  {
    if langs != [] {
      var m, p := Merge(t, langs[..|langs| - 1]), langs[|langs| - 1];
      MergeUnique(t, langs[..|langs| - 1]);
      SetUnique(m, p.0, Get(m, p.0) + p.1);
      MergeStep(t, langs);
    }
  }

  /** Each language's total is the sum of its byte counts over the repositories
      whose fetch succeeded; failed repositories contribute nothing. */
  lemma {:induction false} AggregateIsSum(results: seq<Option<LangBytes>>, lang: Lang)
    ensures Get(Aggregate(results), lang) == SumOver(results, lang)
  {
    if results != [] {
      var init := results[..|results| - 1];
      AggregateIsSum(init, lang);
      match results[|results| - 1]
      case None =>
      case Some(langs) => MergeGet(Aggregate(init), langs, lang);
    }
  }

  /** The totals' keys are the successful repositories' keys, each at the place
      of its first report. */
  lemma {:induction false} AggregateKeyOrder(results: seq<Option<LangBytes>>)
    ensures Keys(Aggregate(results)) == FirstOccurrences(ReportedKeys(results))
  {
    if results != [] {
      var init := results[..|results| - 1];
      AggregateKeyOrder(init);
      match results[|results| - 1]
      case None =>
        assert ReportedKeys(results) == ReportedKeys(init) + [] == ReportedKeys(init);
        assert Aggregate(results) == Aggregate(init);
      case Some(langs) =>
        assert ReportedKeys(results) == ReportedKeys(init) + Keys(langs);
        MergeKeys(Aggregate(init), ReportedKeys(init), langs);
    }
  }

  /** Some successful repository among `results` reports `lang`. */
  predicate ReportedBySome(results: seq<Option<LangBytes>>, lang: Lang) {
    exists i :: 0 <= i < |results| && results[i].Some? && lang in Keys(results[i].value)
  }

  lemma {:induction false} ReportedKeysMembers(results: seq<Option<LangBytes>>, lang: Lang)
    ensures lang in ReportedKeys(results) <==> ReportedBySome(results, lang)
  {
    if results != [] {
      var init, last := results[..|results| - 1], results[|results| - 1];
      ReportedKeysMembers(init, lang);
      var own := if last.Some? then Keys(last.value) else [];
      assert ReportedKeys(results) == ReportedKeys(init) + own;
      if ReportedBySome(results, lang) {
        var i :| 0 <= i < |results| && results[i].Some? && lang in Keys(results[i].value);
        if i < |init| {
          assert init[i] == results[i];
        }
      }
      if ReportedBySome(init, lang) {
        var i :| 0 <= i < |init| && init[i].Some? && lang in Keys(init[i].value);
        assert results[i] == init[i];
      }
      if lang in own {
        assert results[|results| - 1] == last;
      }
    }
  }

  /** A language is in the totals exactly when some successful repository reports it. */
  lemma AggregateKeySet(results: seq<Option<LangBytes>>, lang: Lang)
    ensures lang in Keys(Aggregate(results)) <==> ReportedBySome(results, lang)
  {
    AggregateKeyOrder(results);
    FirstOccurrencesMembers(ReportedKeys(results), lang);
    ReportedKeysMembers(results, lang);
  }

  /** The totals are a dictionary: no language twice. */
  lemma {:induction false} AggregateUnique(results: seq<Option<LangBytes>>)
    ensures UniqueKeys(Aggregate(results))
  {
    if results != [] {
      var init := results[..|results| - 1];
      AggregateUnique(init);
      match results[|results| - 1]
      case None =>
      case Some(langs) => MergeUnique(Aggregate(init), langs);
    }
  }

  /** Skipping failed repositories is the same as never having listed them. */
  lemma {:induction false} AggregateSkipsFailures(results: seq<Option<LangBytes>>)
    ensures Aggregate(results) == Aggregate(Successes(results))
  {
    if results != [] {
      var init := results[..|results| - 1];
      AggregateSkipsFailures(init);
      var s := Successes(init);
      if results[|results| - 1].Some? {
        assert (s + [results[|results| - 1]])[..|s|] == s;
      }
    }
  }

  lemma AggregateSums(results: seq<Option<LangBytes>>)
    ensures forall lang :: Get(Aggregate(results), lang) == SumOver(results, lang)
  {
    forall lang | true ensures Get(Aggregate(results), lang) == SumOver(results, lang) {
      AggregateIsSum(results, lang);
    }
  }

  /** One step of the repository loop, on prefixes of `results`. */
  lemma AggregateStep(results: seq<Option<LangBytes>>, r: nat)
    requires r < |results|
    ensures Aggregate(results[..r + 1]) ==
      match results[r]
      case None => Aggregate(results[..r])
      case Some(langs) => Merge(Aggregate(results[..r]), langs)
  {
    assert results[..r + 1][..r] == results[..r];
  }

  /** One step of the language loop, on prefixes of `langs`. */
  lemma MergePrefixStep(t: LangBytes, langs: LangBytes, k: nat)
    requires k < |langs|
    ensures Merge(t, langs[..k + 1]) ==
      Set(Merge(t, langs[..k]), langs[k].0, Get(Merge(t, langs[..k]), langs[k].0) + langs[k].1)
  {
    assert langs[..k + 1][..k] == langs[..k];
    MergeStep(t, langs[..k + 1]);
  }

  /** `aggregate_languages`: the totals dictionary built by the merge loop. */
  method AggregateLanguages(results: seq<Option<LangBytes>>) returns (totals: LangBytes)
    ensures totals == Aggregate(results)
    ensures forall lang :: Get(totals, lang) == SumOver(results, lang)
  {
    totals := [];
    for r := 0 to |results|
      invariant totals == Aggregate(results[..r])
    {
      AggregateStep(results, r);
      // A repository whose fetch raised (`None`) is skipped.
      if results[r].Some? {
        totals := MergeRepository(totals, results[r].value);
      }
    }
    assert results[..|results|] == results;
    AggregateSums(results);
  }

  /** The inner loop of `aggregate_languages` for one repository's languages. */
  method MergeRepository(totals: LangBytes, langs: LangBytes) returns (merged: LangBytes)
    ensures merged == Merge(totals, langs)
    ensures forall lang :: Get(merged, lang) == Get(totals, lang) + Reported(langs, lang)
  {
    merged := totals;
    for k := 0 to |langs|
      invariant merged == Merge(totals, langs[..k])
    {
      MergePrefixStep(totals, langs, k);
      var lang, b := langs[k].0, langs[k].1;
      merged := Set(merged, lang, Get(merged, lang) + b);
    }
    assert langs[..|langs|] == langs;
    forall lang | true ensures Get(merged, lang) == Get(totals, lang) + Reported(langs, lang) {
      MergeGet(totals, langs, lang);
    }
  }
}
