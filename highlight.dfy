// The part of the highlighter's applyHighlight (main.ts:102-145) that the
// session sees: the array it is handed is sorted in place by the column its
// suggestions start at. The decorations it builds are rendering.

module Highlight {
  import opened Suggestions
  import opened Ranking

  /** The comparator of main.ts:114-128 orders by `range.from.ch`, smallest
      first, and answers 0 for equal columns; as a descending key that is
      the negated column. */
  function ColumnKey(s: Suggestion): Score
    reads s`range
  {
    Num(-(s.range.from.ch as real))
  }

  /** Each suggestion paired with its column key. */
  function ByColumn(ss: seq<Suggestion>): (r: seq<(Suggestion, Score)>)
    reads set s | s in ss
    ensures |r| == |ss| && forall i :: 0 <= i < |ss| ==> r[i] == (ss[i], ColumnKey(ss[i]))
  {
    seq(|ss|, i requires 0 <= i < |ss| reads ss => (ss[i], ColumnKey(ss[i])))
  }

  /** `suggestionsToHighlight.sort(...)` of main.ts:114-128: a stable sort
      by start column. */
  function SortByColumn(ss: seq<Suggestion>): seq<Suggestion>
    reads set s | s in ss
  {
    Firsts(SortDesc(ByColumn(ss)))
  }

  /** The start columns do not decrease along `ss`. */
  predicate ColumnAscending(ss: seq<Suggestion>)
    reads set s | s in ss
  {
    forall i, j :: 0 <= i < j < |ss| ==> ss[i].range.from.ch <= ss[j].range.from.ch
  }

  /** The suggestions of `ss` that start at column `c`, in order. */
  function AtColumn(ss: seq<Suggestion>, c: int): seq<Suggestion>
    reads set s | s in ss
  {
    if |ss| == 0 then []
    else (if ss[0].range.from.ch == c then [ss[0]] else []) + AtColumn(ss[1..], c)
  }

  /** Every pair of `ps` carries the column key of its suggestion. */
  predicate KeyedByColumn(ps: seq<(Suggestion, Score)>)
    reads set p | p in ps :: p.0
  {
    forall i :: 0 <= i < |ps| ==> ps[i].1 == ColumnKey(ps[i].0)
  }

  lemma SortedKeyedByColumn(ss: seq<Suggestion>)
    ensures multiset(SortDesc(ByColumn(ss))) == multiset(ByColumn(ss))
    ensures KeyedByColumn(SortDesc(ByColumn(ss)))
  {
    var ps := ByColumn(ss);
    var r := SortDesc(ps);
    SortDescPermutes(ps);
    forall i | 0 <= i < |r|
      ensures r[i].1 == ColumnKey(r[i].0)
    {
      assert r[i] in multiset(ps);
    }
  }

  /** For pairs keyed by column, the pairs of one key are the suggestions of
      one column. */
  lemma {:induction false} WithColumnKey(ps: seq<(Suggestion, Score)>, c: int)
    requires KeyedByColumn(ps)
    ensures Firsts(WithKey(ps, Num(-(c as real)))) == AtColumn(Firsts(ps), c)
  {
    if |ps| > 0 {
      WithColumnKey(ps[1..], c);
      assert Firsts(ps)[1..] == Firsts(ps[1..]);
      var head := if ps[0].1 == Num(-(c as real)) then [ps[0]] else [];
      assert Firsts(head + WithKey(ps[1..], Num(-(c as real))))
          == Firsts(head) + Firsts(WithKey(ps[1..], Num(-(c as real))));
    }
  }

  /** The column sort keeps exactly the suggestions it is given. */
  lemma SortByColumnPermutes(ss: seq<Suggestion>)
    ensures multiset(SortByColumn(ss)) == multiset(ss)
    ensures forall s :: s in SortByColumn(ss) <==> s in ss
  {
    var ps := ByColumn(ss);
    SortDescFirsts(ps);
    assert Firsts(ps) == ss;
    var r := SortByColumn(ss);
    forall s
      ensures s in r <==> s in ss
    {
      assert s in r <==> s in multiset(r);
    }
  }

  /** After the column sort the start columns do not decrease. */
  lemma SortByColumnAscending(ss: seq<Suggestion>)
    ensures ColumnAscending(SortByColumn(ss))
  {
    var ps := ByColumn(ss);
    SortedKeyedByColumn(ss);
    SortDescSorted(ps);
    var r := SortDesc(ps);
    assert forall i, j :: 0 <= i < j < |r| ==> !Greater(r[j].1, r[i].1);
  }

  /** The sort is stable: the suggestions of each column keep their order. */
  lemma SortByColumnStable(ss: seq<Suggestion>, c: int)
    ensures AtColumn(SortByColumn(ss), c) == AtColumn(ss, c)
  {
    var ps := ByColumn(ss);
    SortedKeyedByColumn(ss);
    SortDescTies(ps, Num(-(c as real)));
    WithColumnKey(ps, c);
    WithColumnKey(SortDesc(ps), c);
    assert Firsts(ps) == ss;
  }

  /** A list already in column order is left as it is, so sorting twice is
      sorting once. */
  lemma SortByColumnFixed(ss: seq<Suggestion>)
    requires ColumnAscending(ss)
    ensures SortByColumn(ss) == ss
  {
    var ps := ByColumn(ss);
    forall i, j | 0 <= i < j < |ps|
      ensures !Greater(ps[j].1, ps[i].1)
    {
    }
    SortDescFixed(ps);
    assert Firsts(ps) == ss;
  }

  lemma SortByColumnIdempotent(ss: seq<Suggestion>)
    ensures SortByColumn(SortByColumn(ss)) == SortByColumn(ss)
  {
    SortByColumnAscending(ss);
    SortByColumnFixed(SortByColumn(ss));
  }
}
