// The pure parts of MakeSuggestionsUnique (main.ts:441-481): the average
// similarity that orders suggestions, the stable descending sort both of its
// sorts perform, the 11-linkable cap, the range filter and the final filter.

module Ranking {
  import opened Style
  import opened Suggestions

  /** A JavaScript number as the sorts see it: AvgArray of an empty list is
      0 / 0, which is NaN. */
  datatype Score = NaN | Num(value: real)

  /** `arr.reduce((a, b) => a + b, 0)`, folded from the left. */
  function Sum(xs: seq<real>): real {
    if |xs| == 0 then 0.0 else Sum(xs[..|xs| - 1]) + xs[|xs| - 1]
  }

  /** AvgArray (main.ts:478-481). */
  function Avg(xs: seq<real>): (r: Score)
    ensures r.NaN? <==> |xs| == 0
  {
    if |xs| == 0 then NaN else Num(Sum(xs) / |xs| as real)
  }

  lemma {:induction false} SumBounds(xs: seq<real>, lo: real, hi: real)
    requires forall i :: 0 <= i < |xs| ==> lo <= xs[i] <= hi
    ensures lo * |xs| as real <= Sum(xs) <= hi * |xs| as real
  {
    if |xs| > 0 {
      SumBounds(xs[..|xs| - 1], lo, hi);
    }
  }

  /** The average of a non-empty list lies between its bounds. */
  lemma AvgBounds(xs: seq<real>, lo: real, hi: real)
    requires |xs| > 0 && forall i :: 0 <= i < |xs| ==> lo <= xs[i] <= hi
    ensures Avg(xs).Num? && lo <= Avg(xs).value <= hi
  {
    SumBounds(xs, lo, hi);
    var n := |xs| as real;
    assert Avg(xs).value * n == Sum(xs);
  }

  function Similarities(ls: seq<Linkable>): (r: seq<real>)
    ensures |r| == |ls| && forall i :: 0 <= i < |ls| ==> r[i] == ls[i].similarity
  {
    seq(|ls|, i requires 0 <= i < |ls| => ls[i].similarity)
  }

  /** `x` is ordered strictly before `y` by a comparator `key(b) - key(a)`:
      a NaN difference counts as zero, that is as a tie. */
  predicate Greater(x: Score, y: Score) {
    x.Num? && y.Num? && x.value > y.value
  }

  /** Places `x` before the first element that does not outrank it. */
  function Insert<T>(x: (T, Score), s: seq<(T, Score)>): (r: seq<(T, Score)>)
    ensures |r| == |s| + 1
  {
    if |s| == 0 then [x]
    else if Greater(s[0].1, x.1) then [s[0]] + Insert(x, s[1..])
    else [x] + s
  }

  /** Array.prototype.sort with comparator `key(b) - key(a)`: a stable sort,
      highest key first, ties in their original order. */
  function SortDesc<T>(xs: seq<(T, Score)>): (r: seq<(T, Score)>)
    ensures |r| == |xs|
  {
    if |xs| == 0 then [] else Insert(xs[0], SortDesc(xs[1..]))
  }

  predicate SortedDesc<T>(s: seq<(T, Score)>) {
    forall i, j :: 0 <= i < j < |s| ==> !Greater(s[j].1, s[i].1)
  }

  predicate AllNum<T>(s: seq<(T, Score)>) {
    forall i :: 0 <= i < |s| ==> s[i].1.Num?
  }

  lemma {:induction false} InsertPermutes<T>(x: (T, Score), s: seq<(T, Score)>)
    ensures multiset(Insert(x, s)) == multiset(s) + multiset{x}
  {
    if |s| > 0 && Greater(s[0].1, x.1) {
      InsertPermutes(x, s[1..]);
      assert s == [s[0]] + s[1..];
    }
  }

  lemma {:induction false} SortDescPermutes<T>(xs: seq<(T, Score)>)
    ensures multiset(SortDesc(xs)) == multiset(xs)
  {
    if |xs| > 0 {
      SortDescPermutes(xs[1..]);
      InsertPermutes(xs[0], SortDesc(xs[1..]));
      assert xs == [xs[0]] + xs[1..];
    }
  }

  lemma {:induction false} InsertSorted<T>(x: (T, Score), s: seq<(T, Score)>)
    requires x.1.Num? && AllNum(s) && SortedDesc(s)
    ensures AllNum(Insert(x, s)) && SortedDesc(Insert(x, s))
  {
    InsertPermutes(x, s);
    if |s| > 0 && Greater(s[0].1, x.1) {
      InsertSorted(x, s[1..]);
      var r := Insert(x, s[1..]);
      InsertPermutes(x, s[1..]);
      forall j | 0 < j < |r| + 1
        ensures !Greater(([s[0]] + r)[j].1, s[0].1)
      {
        assert r[j - 1] in multiset(s[1..]) + multiset{x};
      }
    }
  }

  lemma {:induction false} SortDescSorted<T>(xs: seq<(T, Score)>)
    requires AllNum(xs)
    ensures AllNum(SortDesc(xs)) && SortedDesc(SortDesc(xs))
  {
    if |xs| > 0 {
      SortDescSorted(xs[1..]);
      InsertSorted(xs[0], SortDesc(xs[1..]));
    }
  }

  /** Sorting what is already in order changes nothing; this holds with NaN
      keys too. */
  lemma {:induction false} SortDescFixed<T>(xs: seq<(T, Score)>)
    requires SortedDesc(xs)
    ensures SortDesc(xs) == xs
  {
    if |xs| > 0 {
      SortDescFixed(xs[1..]);
      assert xs == [xs[0]] + xs[1..];
    }
  }

  /** The pairs of `s` whose key is `k`, in order. */
  function WithKey<T>(s: seq<(T, Score)>, k: Score): seq<(T, Score)> {
    if |s| == 0 then [] else (if s[0].1 == k then [s[0]] else []) + WithKey(s[1..], k)
  }

  lemma {:induction false} InsertTies<T>(x: (T, Score), s: seq<(T, Score)>, k: Score)
    ensures WithKey(Insert(x, s), k) == (if x.1 == k then [x] else []) + WithKey(s, k)
  {
    if |s| > 0 && Greater(s[0].1, x.1) {
      InsertTies(x, s[1..], k);
      assert Insert(x, s)[1..] == Insert(x, s[1..]);
    } else {
      assert ([x] + s)[1..] == s;
    }
  }

  /** The sort is stable: the pairs of any one key keep their order. */
  lemma {:induction false} SortDescTies<T>(xs: seq<(T, Score)>, k: Score)
    ensures WithKey(SortDesc(xs), k) == WithKey(xs, k)
  {
    if |xs| > 0 {
      SortDescTies(xs[1..], k);
      InsertTies(xs[0], SortDesc(xs[1..]), k);
    }
  }

  function Firsts<T>(s: seq<(T, Score)>): (r: seq<T>)
    ensures |r| == |s| && forall i :: 0 <= i < |s| ==> r[i] == s[i].0
  {
    seq(|s|, i requires 0 <= i < |s| => s[i].0)
  }

  lemma {:induction false} InsertFirsts<T>(x: (T, Score), s: seq<(T, Score)>)
    ensures multiset(Firsts(Insert(x, s))) == multiset(Firsts(s)) + multiset{x.0}
  {
    if |s| > 0 && Greater(s[0].1, x.1) {
      InsertFirsts(x, s[1..]);
      assert Firsts(s) == [s[0].0] + Firsts(s[1..]);
      assert Firsts(Insert(x, s)) == [s[0].0] + Firsts(Insert(x, s[1..]));
    } else {
      assert Firsts(Insert(x, s)) == [x.0] + Firsts(s);
    }
  }

  /** Sorting pairs permutes their first components. */
  lemma {:induction false} SortDescFirsts<T>(xs: seq<(T, Score)>)
    ensures multiset(Firsts(SortDesc(xs))) == multiset(Firsts(xs))
  {
    if |xs| > 0 {
      SortDescFirsts(xs[1..]);
      InsertFirsts(xs[0], SortDesc(xs[1..]));
      assert Firsts(xs) == [xs[0].0] + Firsts(xs[1..]);
    }
  }

  /** The linkables paired with their similarity, the key of main.ts:458-460. */
  function BySimilarity(ls: seq<Linkable>): (r: seq<(Linkable, Score)>)
    ensures |r| == |ls| && forall i :: 0 <= i < |ls| ==> r[i] == (ls[i], Num(ls[i].similarity))
  {
    seq(|ls|, i requires 0 <= i < |ls| => (ls[i], Num(ls[i].similarity)))
  }

  /** `suggestion.linkables.sort((a, b) => b.simmilarity - a.simmilarity)`. */
  function SortLinkables(ls: seq<Linkable>): seq<Linkable> {
    Firsts(SortDesc(BySimilarity(ls)))
  }

  predicate SimilarityDesc(ls: seq<Linkable>) {
    forall i, j :: 0 <= i < j < |ls| ==> ls[i].similarity >= ls[j].similarity
  }

  /** The linkable sort is a permutation into descending similarity, and
      leaves a list already in that order alone. */
  lemma SortLinkablesProperties(ls: seq<Linkable>)
    ensures multiset(SortLinkables(ls)) == multiset(ls)
    ensures SimilarityDesc(SortLinkables(ls))
    ensures SimilarityDesc(ls) ==> SortLinkables(ls) == ls
  {
    var ps := BySimilarity(ls);
    var r := SortDesc(ps);
    SortDescPermutes(ps);
    SortDescFirsts(ps);
    assert Firsts(ps) == ls;
    SortDescSorted(ps);
    forall i | 0 <= i < |r|
      ensures r[i].1 == Num(r[i].0.similarity)
    {
      assert r[i] in multiset(ps);
    }
    if SimilarityDesc(ls) {
      SortDescFixed(ps);
    }
  }

  /** Sorting a sorted list changes nothing. */
  lemma SortLinkablesIdempotent(ls: seq<Linkable>)
    ensures SortLinkables(SortLinkables(ls)) == SortLinkables(ls)
  {
    SortLinkablesProperties(ls);
    SortLinkablesProperties(SortLinkables(ls));
  }

  /** `slice(0, n)`: the first n elements, or all of them when there are fewer. */
  function Take<T>(s: seq<T>, n: nat): (r: seq<T>)
    ensures |r| == if |s| <= n then |s| else n
    ensures r == s[..|r|]
  {
    if |s| <= n then s else s[..n]
  }

  const MaxLinkables: nat := 11

  /** Each suggestion's list after the two loops of main.ts:456-470. */
  function TopLinkables(ls: seq<Linkable>): seq<Linkable> {
    Take(SortLinkables(ls), MaxLinkables)
  }

  /** What MakeSuggestionsUnique leaves in every list it keeps: one to
      eleven linkables, the most similar first. */
  predicate Ranked(ls: seq<Linkable>) {
    0 < |ls| <= MaxLinkables && SimilarityDesc(ls)
  }

  /** TopLinkables applied to each list of a sequence of lists. */
  function TopAll(L: seq<seq<Linkable>>): (r: seq<seq<Linkable>>)
    ensures |r| == |L| && forall k :: 0 <= k < |L| ==> r[k] == TopLinkables(L[k])
  {
    seq(|L|, k requires 0 <= k < |L| => TopLinkables(L[k]))
  }

  /** Lists that are already ranked are left as they are. */
  lemma TopAllFixed(L: seq<seq<Linkable>>)
    requires forall k :: 0 <= k < |L| ==> Ranked(L[k])
    ensures TopAll(L) == L
  {
    forall k | 0 <= k < |L|
      ensures TopAll(L)[k] == L[k]
    {
      TopLinkablesFixed(L[k]);
    }
  }

  /** Every list of `ss` is ranked. */
  ghost predicate AllRanked(ss: seq<Suggestion>)
    reads (set s | s in ss)`linkables
  {
    forall s :: s in ss ==> Ranked(s.linkables)
  }

  /** A list already in order and no longer than eleven is left as it is. */
  lemma TopLinkablesFixed(ls: seq<Linkable>)
    requires SimilarityDesc(ls) && |ls| <= MaxLinkables
    ensures TopLinkables(ls) == ls
  {
    SortLinkablesProperties(ls);
  }

  /** The promise of main.ts:456-470: at most eleven linkables, the most
      similar first, all taken from the list, none lost when there were at
      most eleven, and some kept when there were any; applying it twice is as
      applying it once. */
  lemma TopLinkablesProperties(ls: seq<Linkable>)
    ensures |TopLinkables(ls)| <= MaxLinkables
    ensures |TopLinkables(ls)| > 0 <==> |ls| > 0
    ensures SimilarityDesc(TopLinkables(ls))
    ensures forall l :: l in TopLinkables(ls) ==> l in ls
    ensures |ls| <= MaxLinkables ==> multiset(TopLinkables(ls)) == multiset(ls)
    ensures TopLinkables(TopLinkables(ls)) == TopLinkables(ls)
  {
    var s := SortLinkables(ls);
    SortLinkablesProperties(ls);
    var t := Take(s, MaxLinkables);
    forall l | l in t
      ensures l in ls
    {
      assert l in multiset(s);
    }
    SortLinkablesProperties(t);
  }

  /** Each suggestion paired with the average similarity of its linkables,
      the key of main.ts:451-453. */
  function ByAverage(ss: seq<Suggestion>): (r: seq<(Suggestion, Score)>)
    reads set s | s in ss
    ensures |r| == |ss| && forall i :: 0 <= i < |ss| ==> r[i] == (ss[i], Avg(Similarities(ss[i].linkables)))
  {
    seq(|ss|, i requires 0 <= i < |ss| reads ss => (ss[i], Avg(Similarities(ss[i].linkables))))
  }

  /** The suggestion sort of main.ts:451-453. */
  function SortByAverage(ss: seq<Suggestion>): seq<Suggestion>
    reads set s | s in ss
  {
    Firsts(SortDesc(ByAverage(ss)))
  }

  /** The suggestions `ss` paired with the averages of the lists `L`. */
  function AveragesOf(ss: seq<Suggestion>, L: seq<seq<Linkable>>): (r: seq<(Suggestion, Score)>)
    requires |L| == |ss|
    ensures |r| == |ss| && forall i :: 0 <= i < |ss| ==> r[i] == (ss[i], Avg(Similarities(L[i])))
  {
    seq(|ss|, i requires 0 <= i < |ss| => (ss[i], Avg(Similarities(L[i]))))
  }

  /** The suggestion sort of suggestions `ss` that hold the lists `L`. */
  function SortByAverageOf(ss: seq<Suggestion>, L: seq<seq<Linkable>>): seq<Suggestion>
    requires |L| == |ss|
  {
    Firsts(SortDesc(AveragesOf(ss, L)))
  }

  /** The suggestion sort of `ss` holding `L` keeps exactly the suggestions of `ss`. */
  lemma SortByAverageOfMembers(ss: seq<Suggestion>, L: seq<seq<Linkable>>)
    requires |L| == |ss|
    ensures multiset(SortByAverageOf(ss, L)) == multiset(ss)
    ensures forall s :: s in SortByAverageOf(ss, L) <==> s in ss
  {
    var ps := AveragesOf(ss, L);
    SortDescFirsts(ps);
    assert Firsts(ps) == ss;
    var r := SortByAverageOf(ss, L);
    forall s | s in r
      ensures s in ss
    {
      assert s in multiset(r);
    }
    forall s | s in ss
      ensures s in r
    {
      assert s in multiset(ss);
    }
  }

  /** The suggestion sort depends on the suggestions only through their lists. */
  lemma SortByAverageIsOf(ss: seq<Suggestion>)
    ensures SortByAverage(ss) == SortByAverageOf(ss, Lists(ss))
  {
    assert ByAverage(ss) == AveragesOf(ss, Lists(ss));
  }

  function AverageOf(s: Suggestion): Score
    reads s`linkables
  {
    Avg(Similarities(s.linkables))
  }

  /** The averages are numbers and do not increase along `ss`. */
  ghost predicate AverageDesc(ss: seq<Suggestion>)
    reads (set s | s in ss)`linkables
  {
    forall i, j :: 0 <= i < j < |ss| ==>
      AverageOf(ss[i]).Num? && AverageOf(ss[j]).Num? && AverageOf(ss[i]).value >= AverageOf(ss[j]).value
  }

  /** The suggestion sort keeps exactly the suggestions it is given. */
  lemma SortByAveragePermutes(ss: seq<Suggestion>)
    ensures multiset(SortByAverage(ss)) == multiset(ss)
    ensures forall s :: s in SortByAverage(ss) ==> s in ss
    ensures forall s :: s in ss ==> s in SortByAverage(ss)
  {
    var ps := ByAverage(ss);
    SortDescFirsts(ps);
    assert Firsts(ps) == ss;
    var r := SortByAverage(ss);
    forall s | s in r
      ensures s in ss
    {
      assert s in multiset(r);
    }
    forall s | s in ss
      ensures s in r
    {
      assert s in multiset(ss);
    }
  }

  /** The suggestion sort permutes; when every list is non-empty the averages
      do not increase along the result. */
  lemma SortByAverageProperties(ss: seq<Suggestion>)
    ensures multiset(SortByAverage(ss)) == multiset(ss)
    ensures (forall s :: s in ss ==> |s.linkables| > 0) ==> AverageDesc(SortByAverage(ss))
  {
    var ps := ByAverage(ss);
    var r := SortDesc(ps);
    SortDescPermutes(ps);
    SortDescFirsts(ps);
    assert Firsts(ps) == ss;
    forall i | 0 <= i < |r|
      ensures r[i].1 == AverageOf(r[i].0)
    {
      assert r[i] in multiset(ps);
    }
    if forall s :: s in ss ==> |s.linkables| > 0 {
      SortDescSorted(ps);
    }
  }

  function Ranges(ss: seq<Suggestion>): (r: seq<Range>)
    reads set s | s in ss
    ensures |r| == |ss| && forall i :: 0 <= i < |ss| ==> r[i] == ss[i].range
  {
    seq(|ss|, i requires 0 <= i < |ss| reads ss => ss[i].range)
  }

  /** The range filter of main.ts:443-448: a suggestion is kept when no
      earlier one has the same range. */
  function FirstPerRange(ss: seq<Suggestion>): seq<Suggestion>
    reads set s | s in ss
  {
    if |ss| == 0 then []
    else
      var init := ss[..|ss| - 1];
      FirstPerRange(init) + (if ss[|ss| - 1].range in Ranges(init) then [] else [ss[|ss| - 1]])
  }

  ghost predicate RangesUnique(ss: seq<Suggestion>)
    reads set s | s in ss
  {
    forall i, j :: 0 <= i < j < |ss| ==> ss[i].range != ss[j].range
  }

  /** The range filter only removes. */
  lemma {:induction false} FirstPerRangeSubset(ss: seq<Suggestion>)
    ensures forall s :: s in FirstPerRange(ss) ==> s in ss
    ensures |FirstPerRange(ss)| <= |ss|
  {
    if |ss| > 0 {
      var init := ss[..|ss| - 1];
      FirstPerRangeSubset(init);
      assert ss == init + [ss[|ss| - 1]];
    }
  }

  /** No range is kept twice. */
  lemma {:induction false} FirstPerRangeUnique(ss: seq<Suggestion>)
    ensures RangesUnique(FirstPerRange(ss))
  {
    if |ss| > 0 {
      var init := ss[..|ss| - 1];
      FirstPerRangeUnique(init);
      FirstPerRangeSubset(init);
      var r := FirstPerRange(init);
      var last := ss[|ss| - 1];
      if last.range !in Ranges(init) {
        forall i | 0 <= i < |r|
          ensures r[i].range != last.range
        {
          assert r[i] in init;
          var k :| 0 <= k < |init| && init[k] == r[i];
          assert Ranges(init)[k] == r[i].range;
        }
      }
    }
  }

  /** Every range of the input is still present. */
  lemma {:induction false} FirstPerRangeCovers(ss: seq<Suggestion>)
    ensures forall i :: 0 <= i < |ss| ==> ss[i].range in Ranges(FirstPerRange(ss))
  {
    if |ss| > 0 {
      var init := ss[..|ss| - 1];
      FirstPerRangeCovers(init);
      var r := FirstPerRange(init);
      var out := FirstPerRange(ss);
      assert out[..|r|] == r;
      forall i | 0 <= i < |init|
        ensures init[i].range in Ranges(out)
      {
        var k :| 0 <= k < |r| && Ranges(r)[k] == init[i].range;
        assert out[k] == r[k];
      }
      var last := ss[|ss| - 1];
      if last.range in Ranges(init) {
        var k :| 0 <= k < |init| && Ranges(init)[k] == last.range;
        assert init[k].range in Ranges(out);
      } else {
        assert out[|r|] == last;
      }
    }
  }

  /** The suggestion kept for a range is the first one that had it. */
  lemma {:induction false} FirstPerRangeKeepsFirst(ss: seq<Suggestion>)
    ensures forall i :: 0 <= i < |ss| && ss[i].range !in Ranges(ss[..i]) ==> ss[i] in FirstPerRange(ss)
  {
    if |ss| > 0 {
      var init := ss[..|ss| - 1];
      FirstPerRangeKeepsFirst(init);
      forall i | 0 <= i < |init| && ss[i].range !in Ranges(ss[..i])
        ensures ss[i] in FirstPerRange(ss)
      {
        assert ss[..i] == init[..i];
      }
    }
  }

  /** `suggestions.filter(s => s.linkables.length > 0)` (main.ts:473). */
  function KeepNonEmpty(ss: seq<Suggestion>): seq<Suggestion>
    reads (set s | s in ss)`linkables
  {
    if |ss| == 0 then []
    else KeepNonEmpty(ss[..|ss| - 1]) + (if |ss[|ss| - 1].linkables| > 0 then [ss[|ss| - 1]] else [])
  }

  /** The final filter for suggestions `ss` that hold the lists `L`. */
  function KeepListed(ss: seq<Suggestion>, L: seq<seq<Linkable>>): seq<Suggestion>
    requires |L| == |ss|
  {
    if |ss| == 0 then []
    else KeepListed(ss[..|ss| - 1], L[..|L| - 1]) + (if |L[|L| - 1]| > 0 then [ss[|ss| - 1]] else [])
  }

  /** The final filter depends only on which lists are empty. */
  lemma {:induction false} KeepNonEmptyListed(ss: seq<Suggestion>, L: seq<seq<Linkable>>)
    requires |L| == |ss|
    requires forall k :: 0 <= k < |ss| ==> (|ss[k].linkables| > 0 <==> |L[k]| > 0)
    ensures KeepNonEmpty(ss) == KeepListed(ss, L)
  {
    if |ss| > 0 {
      KeepNonEmptyListed(ss[..|ss| - 1], L[..|L| - 1]);
    }
  }

  /** When the suggestions `ss` hold the ranked forms of the lists `L`, the
      final filter keeps those whose list in `L` was not empty. */
  lemma KeepNonEmptyRanked(ss: seq<Suggestion>, L: seq<seq<Linkable>>)
    requires |L| == |ss| && Lists(ss) == TopAll(L)
    ensures KeepNonEmpty(ss) == KeepListed(ss, L)
  {
    forall k | 0 <= k < |ss|
      ensures |ss[k].linkables| > 0 <==> |L[k]| > 0
    {
      assert ss[k].linkables == Lists(ss)[k];
      TopLinkablesProperties(L[k]);
    }
    KeepNonEmptyListed(ss, L);
  }

  /** A selection `sub` from suggestions `ss` that hold the ranked forms of
      the lists `L` holds the ranked forms of the matching lists `M`. */
  lemma RankedSelection(ss: seq<Suggestion>, L: seq<seq<Linkable>>, sub: seq<Suggestion>, M: seq<seq<Linkable>>)
    requires |L| == |ss| && Lists(ss) == TopAll(L)
    requires |M| == |sub| && forall s :: s in sub ==> s in ss
    requires forall k, j :: 0 <= k < |sub| && 0 <= j < |ss| && sub[k] == ss[j] ==> M[k] == L[j]
    ensures Lists(sub) == TopAll(M)
  {
    forall k | 0 <= k < |sub|
      ensures Lists(sub)[k] == TopAll(M)[k]
    {
      assert sub[k] in ss;
      var j :| 0 <= j < |ss| && ss[j] == sub[k];
      assert Lists(ss)[j] == TopAll(L)[j];
    }
  }

  /** The final filter keeps exactly the suggestions that have a linkable. */
  lemma {:induction false} KeepNonEmptyMembers(ss: seq<Suggestion>)
    ensures forall s :: s in KeepNonEmpty(ss) ==> s in ss && |s.linkables| > 0
    ensures forall s :: s in ss && |s.linkables| > 0 ==> s in KeepNonEmpty(ss)
    ensures |KeepNonEmpty(ss)| <= |ss|
  {
    if |ss| > 0 {
      KeepNonEmptyMembers(ss[..|ss| - 1]);
      assert ss == ss[..|ss| - 1] + [ss[|ss| - 1]];
    }
  }

  /** The final filter removes nothing when every list has a linkable. */
  lemma {:induction false} KeepNonEmptyAll(ss: seq<Suggestion>)
    requires forall s :: s in ss ==> |s.linkables| > 0
    ensures KeepNonEmpty(ss) == ss
  {
    if |ss| > 0 {
      KeepNonEmptyAll(ss[..|ss| - 1]);
      assert ss[|ss| - 1] in ss;
    }
  }

  /** The suggestion sort depends on nothing but the suggestions. */
  twostate lemma SortByAverageUnchanged(ss: seq<Suggestion>)
    requires forall s :: s in ss ==> unchanged(s)
    ensures SortByAverage(ss) == old(SortByAverage(ss))
  {
  }

  /** Everything the rerank depends on is left alone by a change to other
      objects. */
  twostate lemma RankInputsUnchanged(ss: seq<Suggestion>)
    requires forall s :: s in ss ==> unchanged(s)
    ensures SortByAverage(ss) == old(SortByAverage(ss))
    ensures Lists(SortByAverage(ss)) == old(Lists(SortByAverage(ss)))
    ensures Lists(ss) == old(Lists(ss))
    ensures AllRanked(ss) == old(AllRanked(ss))
  {
    SortByAveragePermutes(ss);
  }

  /** The final filter and the order of averages depend on nothing but the lists. */
  twostate lemma ListsUnchanged(ss: seq<Suggestion>)
    requires forall s :: s in ss ==> s.linkables == old(s.linkables)
    ensures KeepNonEmpty(ss) == old(KeepNonEmpty(ss))
    ensures AverageDesc(ss) == old(AverageDesc(ss))
    ensures AllRanked(ss) == old(AllRanked(ss))
    ensures Lists(ss) == old(Lists(ss))
  {
  }

  /** When every list was already ranked, re-ranking them changed none. */
  twostate lemma RankedUnchanged(ss: seq<Suggestion>)
    requires old(AllRanked(ss)) && Lists(ss) == TopAll(old(Lists(ss)))
    ensures Lists(ss) == old(Lists(ss))
    ensures forall s :: s in ss ==> s.linkables == old(s.linkables)
  {
    ghost var before := old(Lists(ss));
    forall k | 0 <= k < |before|
      ensures Ranked(before[k])
    {
      assert ss[k] in ss;
    }
    TopAllFixed(before);
    forall s | s in ss
      ensures s.linkables == old(s.linkables)
    {
      var k :| 0 <= k < |ss| && ss[k] == s;
      assert Lists(ss)[k] == before[k];
    }
  }

  /** The final filter keeps the order and never repeats a suggestion. */
  lemma {:induction false} KeepNonEmptyDistinct(ss: seq<Suggestion>)
    requires Distinct(ss)
    ensures Distinct(KeepNonEmpty(ss))
  {
    if |ss| > 0 {
      var init := ss[..|ss| - 1];
      KeepNonEmptyDistinct(init);
      KeepNonEmptyMembers(init);
    }
  }

  lemma {:induction false} DistinctCounts(s: seq<Suggestion>)
    requires Distinct(s)
    ensures forall x :: multiset(s)[x] <= 1
  {
    if |s| > 0 {
      var init := s[..|s| - 1];
      DistinctCounts(init);
      assert s == init + [s[|s| - 1]];
    }
  }

  /** A permutation of a list without repeats has none either. */
  lemma PermutationDistinct(s: seq<Suggestion>, t: seq<Suggestion>)
    requires multiset(s) == multiset(t) && Distinct(s)
    ensures Distinct(t)
  {
    DistinctCounts(s);
    forall i, j | 0 <= i < j < |t|
      ensures t[i] != t[j]
    {
      assert t == t[..j] + t[j..];
      assert t[i] in t[..j] && t[j] in t[j..];
      assert multiset(t)[t[j]] == multiset(t[..j])[t[j]] + multiset(t[j..])[t[j]];
    }
  }
}
