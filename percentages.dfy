/**
 * Percentage computation: the totals dictionary becomes a list of
 * (language, percentage, bytes) entries, one per language, stably sorted by
 * byte count from largest to smallest. Percentages are exact reals.
 */
module Percentages {
  import opened Aggregation

  /** One entry of the list: `(lang, pct, bytes)`. */
  datatype Item = Item(lang: Lang, pct: real, bytes: nat)

  /** `sum(totals.values())`. */
  function TotalBytes(d: LangBytes): nat
  {
    if d == [] then 0 else d[0].1 + TotalBytes(d[1..])
  }

  /** `(bytes / total) * 100.0`, computed exactly. */
  function Share(bytes: nat, total: nat): real
    requires total > 0
  {
    (bytes as real / total as real) * 100.0
  }

  /** The comprehension: one item per dictionary entry, in insertion order. */
  function Items(d: LangBytes, total: nat): (r: seq<Item>)
    requires total > 0
    ensures |r| == |d|
  {
    if d == [] then [] else [Item(d[0].0, Share(d[0].1, total), d[0].1)] + Items(d[1..], total)
  }

  /** The entries whose byte count is `v`, in order. */
  function WithBytes(s: seq<Item>, v: nat): seq<Item>
  {
    if s == [] then []
    else (if s[0].bytes == v then [s[0]] else []) + WithBytes(s[1..], v)
  }

  /** Sorted by byte count, largest first. */
  predicate NonIncreasing(s: seq<Item>) {
    forall i, j :: 0 <= i < j < |s| ==> s[i].bytes >= s[j].bytes
  }

  /** No language occurs twice. */
  predicate DistinctLangs(s: seq<Item>) {
    forall i, j :: 0 <= i < j < |s| ==> s[i].lang != s[j].lang
  }

  /** Sum of the percentages of `s`. */
  function SumPct(s: seq<Item>): real
  {
    if s == [] then 0.0 else s[0].pct + SumPct(s[1..])
  }

  /** Places `x` before the first entry with no more bytes than `x`: since `x`
      precedes every entry of `s` in the input, equal keys keep input order. */
  function Insert(x: Item, s: seq<Item>): (r: seq<Item>)
    ensures |r| == |s| + 1
    ensures multiset(r) == multiset(s) + multiset{x}
  {
    if s == [] then [x]
    else if x.bytes >= s[0].bytes then [x] + s
    else
      assert s == [s[0]] + s[1..];
      [s[0]] + Insert(x, s[1..])
  }

  /** Every entry has at most `b` bytes. */
  predicate AtMost(s: seq<Item>, b: nat) {
    forall i :: 0 <= i < |s| ==> s[i].bytes <= b
  }

  lemma {:induction false} InsertAtMost(x: Item, s: seq<Item>, b: nat)
    requires x.bytes <= b && AtMost(s, b)
    ensures AtMost(Insert(x, s), b)
  {
    if s != [] && x.bytes < s[0].bytes {
      InsertAtMost(x, s[1..], b);
      assert Insert(x, s) == [s[0]] + Insert(x, s[1..]);
    }
  }

  /** Inserting into a list sorted by bytes keeps it sorted. */
  lemma {:induction false} InsertSorted(x: Item, s: seq<Item>)
    requires NonIncreasing(s)
    ensures NonIncreasing(Insert(x, s))
  {
    if s != [] && x.bytes < s[0].bytes {
      var rest := Insert(x, s[1..]);
      InsertSorted(x, s[1..]);
      InsertAtMost(x, s[1..], s[0].bytes);
      assert Insert(x, s) == [s[0]] + rest;
    }
  }

  /** `items.sort(key=lambda x: x[2], reverse=True)`: a stable sort, largest byte count first. */
  function SortByBytesDesc(s: seq<Item>): (r: seq<Item>)
    ensures |r| == |s|
    ensures multiset(r) == multiset(s)
    ensures NonIncreasing(r)
  {
    if s == [] then []
    else
      assert s == [s[0]] + s[1..];
      var sorted := SortByBytesDesc(s[1..]);
      InsertSorted(s[0], sorted);
      Insert(s[0], sorted)
  }

  /** `compute_percentages`. */
  function ComputePercentages(d: LangBytes): (r: seq<Item>)
    ensures r == [] <==> TotalBytes(d) == 0
    ensures TotalBytes(d) > 0 ==> |r| == |d|
    ensures TotalBytes(d) > 0 ==> multiset(r) == multiset(Items(d, TotalBytes(d)))
    ensures NonIncreasing(r)
  {
    var total := TotalBytes(d);
    if total == 0 then [] else SortByBytesDesc(Items(d, total))
  }

  // ---------------------------------------------------------------------------
  // Stability

  lemma {:induction false} WithBytesAppend(a: seq<Item>, b: seq<Item>, v: nat)
    ensures WithBytes(a + b, v) == WithBytes(a, v) + WithBytes(b, v)
  {
    if a != [] {
      WithBytesAppend(a[1..], b, v);
      assert (a + b)[1..] == a[1..] + b;
    } else {
      assert a + b == b;
    }
  }

  /** Inserting keeps, for every byte count, the order of the entries with that count. */
  lemma {:induction false} InsertStable(x: Item, s: seq<Item>, v: nat)
    requires NonIncreasing(s)
    ensures WithBytes(Insert(x, s), v) == WithBytes([x] + s, v)
  {
    if s != [] && x.bytes < s[0].bytes {
      InsertStable(x, s[1..], v);
      var rest := Insert(x, s[1..]);
      WithBytesAppend([s[0]], rest, v);
      WithBytesAppend([x], s[1..], v);
      WithBytesAppend([s[0]], [x] + s[1..], v);
      WithBytesAppend([x], s, v);
      assert s == [s[0]] + s[1..];
      WithBytesAppend([s[0]], s[1..], v);
    }
  }

  /** The sort is stable: for every byte count, the entries with that count
      appear in the output in the same order as in the input. */
  lemma {:induction false} SortStable(s: seq<Item>, v: nat)
    ensures WithBytes(SortByBytesDesc(s), v) == WithBytes(s, v)
  {
    if s != [] {
      SortStable(s[1..], v);
      InsertStable(s[0], SortByBytesDesc(s[1..]), v);
      WithBytesAppend([s[0]], SortByBytesDesc(s[1..]), v);
      WithBytesAppend([s[0]], s[1..], v);
      assert s == [s[0]] + s[1..];
    }
  }

  // ---------------------------------------------------------------------------
  // Sums and bounds

  lemma {:induction false} InsertSum(x: Item, s: seq<Item>)
    ensures SumPct(Insert(x, s)) == x.pct + SumPct(s)
  {
    if s != [] && x.bytes < s[0].bytes {
      InsertSum(x, s[1..]);
      assert Insert(x, s)[1..] == Insert(x, s[1..]);
    } else if s != [] {
      assert Insert(x, s)[1..] == s;
    }
  }

  lemma {:induction false} SortSum(s: seq<Item>)
    ensures SumPct(SortByBytesDesc(s)) == SumPct(s)
  {
    if s != [] {
      SortSum(s[1..]);
      InsertSum(s[0], SortByBytesDesc(s[1..]));
    }
  }

  lemma ShareAdd(a: nat, b: nat, total: nat)
    requires total > 0
    ensures Share(a, total) + Share(b, total) == Share(a + b, total)
  {
    var t := total as real;
    assert a as real / t + b as real / t == (a + b) as real / t;
  }

  lemma {:induction false} ItemsSum(d: LangBytes, total: nat)
    requires total > 0
    ensures SumPct(Items(d, total)) == Share(TotalBytes(d), total)
  {
    if d != [] {
      ItemsSum(d[1..], total);
      ShareAdd(d[0].1, TotalBytes(d[1..]), total);
      assert Items(d, total)[1..] == Items(d[1..], total);
    } else {
      assert Share(0, total) == 0.0;
    }
  }

  lemma {:induction false} ItemsAt(d: LangBytes, total: nat, i: nat)
    requires total > 0 && i < |d|
    ensures Items(d, total)[i] == Item(d[i].0, Share(d[i].1, total), d[i].1)
  {
    if i > 0 {
      ItemsAt(d[1..], total, i - 1);
    }
  }

  lemma {:induction false} EntryWithinTotal(d: LangBytes, i: nat)
    requires i < |d|
    ensures d[i].1 <= TotalBytes(d)
  {
    if i > 0 {
      EntryWithinTotal(d[1..], i - 1);
    }
  }

  lemma ShareBounds(bytes: nat, total: nat)
    requires 0 < total && bytes <= total
    ensures 0.0 <= Share(bytes, total) <= 100.0
  {
    var q := bytes as real / total as real;
    assert q * total as real == bytes as real;
    assert q <= 1.0;
  }

  /** Every entry of the list is an entry of the comprehension over the totals. */
  lemma PercentagesFromTotals(d: LangBytes, i: nat)
    requires i < |ComputePercentages(d)|
    ensures TotalBytes(d) > 0
    ensures exists p :: 0 <= p < |d| && ComputePercentages(d)[i] == Items(d, TotalBytes(d))[p]
  {
    var r, items := ComputePercentages(d), Items(d, TotalBytes(d));
    assert r[i] in multiset(items);
    var p :| 0 <= p < |items| && items[p] == r[i];
  }

  // ---------------------------------------------------------------------------
  // The properties of compute_percentages

  /** Each entry carries its exact share of the total, between 0 and 100. */
  lemma PercentagesInRange(d: LangBytes)
    ensures forall i :: 0 <= i < |ComputePercentages(d)| ==>
      var e := ComputePercentages(d)[i];
      e.pct == Share(e.bytes, TotalBytes(d)) && 0.0 <= e.pct <= 100.0
  {
    var r, total := ComputePercentages(d), TotalBytes(d);
    forall i | 0 <= i < |r|
      ensures r[i].pct == Share(r[i].bytes, total) && 0.0 <= r[i].pct <= 100.0
    {
      PercentagesFromTotals(d, i);
      var p :| 0 <= p < |d| && r[i] == Items(d, total)[p];
      ItemsAt(d, total, p);
      EntryWithinTotal(d, p);
      ShareBounds(d[p].1, total);
    }
  }

  /** With a positive total, the percentages add up to exactly 100. */
  lemma PercentagesSumTo100(d: LangBytes)
    requires TotalBytes(d) > 0
    ensures SumPct(ComputePercentages(d)) == 100.0
  {
    var total := TotalBytes(d);
    var items := Items(d, total);
    SortSum(items);
    ItemsSum(d, total);
    ShareWhole(total);
  }

  lemma ShareWhole(total: nat)
    requires total > 0
    ensures Share(total, total) == 100.0
  {
    assert total as real / total as real == 1.0;
  }

  /** Languages with equal byte counts keep the insertion order of the totals. */
  lemma PercentagesStable(d: LangBytes, v: nat)
    requires TotalBytes(d) > 0
    ensures WithBytes(ComputePercentages(d), v) == WithBytes(Items(d, TotalBytes(d)), v)
  {
    SortStable(Items(d, TotalBytes(d)), v);
  }

  lemma {:induction false} GetAt(d: LangBytes, p: nat)
    requires UniqueKeys(d) && p < |d|
    ensures Get(d, d[p].0) == d[p].1
  {
    if p > 0 {
      GetAt(d[1..], p - 1);
      KeysAt(d[1..], p - 1);
    }
  }

  lemma {:induction false} UniqueAt(d: LangBytes, p: nat, q: nat)
    requires UniqueKeys(d) && p < q < |d|
    ensures d[p].0 != d[q].0
  {
    if p > 0 {
      UniqueAt(d[1..], p - 1, q - 1);
    } else {
      KeysAt(d[1..], q - 1);
    }
  }

  /** For a dictionary, the list has exactly one entry per language, carrying
      that language's total. */
  lemma PercentagesOnePerLanguage(d: LangBytes)
    requires UniqueKeys(d) && TotalBytes(d) > 0
    ensures DistinctLangs(ComputePercentages(d))
    ensures forall i :: 0 <= i < |ComputePercentages(d)| ==>
      ComputePercentages(d)[i].bytes == Get(d, ComputePercentages(d)[i].lang)
    ensures forall lang :: lang in Keys(d) <==>
      exists i :: 0 <= i < |ComputePercentages(d)| && ComputePercentages(d)[i].lang == lang
  {
    var r, total := ComputePercentages(d), TotalBytes(d);
    forall i | 0 <= i < |r| ensures r[i].bytes == Get(d, r[i].lang) {
      var p := Origin(d, i);
      GetAt(d, p);
    }
    PercentagesDistinct(d);
    forall lang ensures lang in Keys(d) <==> exists i :: 0 <= i < |r| && r[i].lang == lang {
      PercentagesCoverKeys(d, lang);
    }
  }

  /** The index in the totals of the entry that output entry `i` comes from. */
  lemma Origin(d: LangBytes, i: nat) returns (p: nat)
    requires i < |ComputePercentages(d)|
    ensures TotalBytes(d) > 0 && p < |d|
    ensures ComputePercentages(d)[i] == Items(d, TotalBytes(d))[p]
    ensures ComputePercentages(d)[i] == Item(d[p].0, Share(d[p].1, TotalBytes(d)), d[p].1)
  {
    PercentagesFromTotals(d, i);
    p :| 0 <= p < |d| && ComputePercentages(d)[i] == Items(d, TotalBytes(d))[p];
    ItemsAt(d, TotalBytes(d), p);
  }

  lemma PercentagesDistinct(d: LangBytes)
    requires UniqueKeys(d) && TotalBytes(d) > 0
    ensures DistinctLangs(ComputePercentages(d))
  {
    var r, total := ComputePercentages(d), TotalBytes(d);
    forall i, j | 0 <= i < j < |r| ensures r[i].lang != r[j].lang {
      var p := Origin(d, i);
      var q := Origin(d, j);
      if p == q {
        // r[i] and r[j] would be one item of the comprehension, which occurs there once.
        OccursOnce(d, total, p);
        MultisetTwice(r, i, j);
        assert false;
      } else if p < q {
        UniqueAt(d, p, q);
      } else {
        UniqueAt(d, q, p);
      }
    }
  }

  lemma PercentagesCoverKeys(d: LangBytes, lang: Lang)
    requires TotalBytes(d) > 0
    ensures lang in Keys(d) <==>
      exists i :: 0 <= i < |ComputePercentages(d)| && ComputePercentages(d)[i].lang == lang
  {
    var r, total := ComputePercentages(d), TotalBytes(d);
    var items := Items(d, total);
    if lang in Keys(d) {
      var p :| 0 <= p < |d| && Keys(d)[p] == lang;
      KeysAt(d, p);
      ItemsAt(d, total, p);
      assert items[p] in multiset(r);
      var i :| 0 <= i < |r| && r[i] == items[p];
    }
    if exists i :: 0 <= i < |r| && r[i].lang == lang {
      var i :| 0 <= i < |r| && r[i].lang == lang;
      var p := Origin(d, i);
      KeysAt(d, p);
    }
  }

  /** In a dictionary's comprehension, each item occurs exactly once. */
  lemma OccursOnce(d: LangBytes, total: nat, p: nat)
    requires UniqueKeys(d) && total > 0 && p < |d|
    ensures multiset(Items(d, total))[Items(d, total)[p]] == 1
  {
    var items := Items(d, total);
    ItemsAt(d, total, p);
    forall q | 0 <= q < |d| && q != p ensures items[q] != items[p] {
      ItemsAt(d, total, q);
      if q < p { UniqueAt(d, q, p); } else { UniqueAt(d, p, q); }
    }
    CountOnce(items, p);
  }

  lemma {:induction false} CountOnce(s: seq<Item>, p: nat)
    requires p < |s|
    requires forall q :: 0 <= q < |s| && q != p ==> s[q] != s[p]
    ensures multiset(s)[s[p]] == 1
  {
    var x := s[p];
    assert s == s[..p] + [x] + s[p + 1..];
    assert x !in s[..p];
    assert x !in s[p + 1..];
  }

  lemma MultisetTwice(s: seq<Item>, i: nat, j: nat)
    requires i < j < |s| && s[i] == s[j]
    ensures multiset(s)[s[i]] >= 2
  {
    assert s == s[..j] + [s[j]] + s[j + 1..];
    assert s[i] in s[..j];
  }
}
