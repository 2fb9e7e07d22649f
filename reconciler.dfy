// MakeLinkablesUnique (main.ts:378-439): the linkables of all suggestions
// are pooled, the ones whose name the suggestion's own text already contains
// are dropped unless they are near-exact, each path keeps only its best
// linkable, and the survivors go back to the suggestions that own them.

module Reconciler {
  import opened Text
  import opened Suggestions

  /** `allLinkables.concat(...)` over the suggestions in order (main.ts:383-386). */
  function Flatten(L: seq<seq<Linkable>>): seq<Linkable> {
    if |L| == 0 then [] else Flatten(L[..|L| - 1]) + L[|L| - 1]
  }

  lemma {:induction false} FlattenMembers(L: seq<seq<Linkable>>, l: Linkable)
    requires l in Flatten(L)
    ensures exists k :: 0 <= k < |L| && l in L[k]
  {
    var init := L[..|L| - 1];
    if l !in L[|L| - 1] {
      FlattenMembers(init, l);
      var k :| 0 <= k < |init| && l in init[k];
      assert init[k] == L[k];
    }
  }

  /** The condition of main.ts:393: below 0.9 and named inside the text of
      the suggestion that found it. */
  predicate Redundant(l: Linkable) {
    l.similarity < 0.9 && l.owner != null && Contains(l.owner.matchedString, l.name)
  }

  /** The pool after the first loop (main.ts:389-399). */
  function KeepStrong(s: seq<Linkable>): seq<Linkable> {
    if |s| == 0 then []
    else (if Redundant(s[0]) then [] else [s[0]]) + KeepStrong(s[1..])
  }

  /** What survives the first loop: exactly the linkables of the pool that are
      not redundant. */
  lemma {:induction false} KeepStrongMembers(s: seq<Linkable>)
    ensures forall l :: l in KeepStrong(s) ==> l in s && !Redundant(l)
    ensures forall l :: l in s && !Redundant(l) ==> l in KeepStrong(s)
  {
    if |s| > 0 {
      KeepStrongMembers(s[1..]);
      assert s == [s[0]] + s[1..];
    }
  }

  /** Position k of the pool holds the linkable the second loop keeps for its
      path (main.ts:402-423): every other linkable with that path has a lower
      similarity, or an equal one and an earlier position. */
  predicate IsWinner(s: seq<Linkable>, k: int)
    requires 0 <= k < |s|
  {
    forall q :: 0 <= q < |s| && s[q].path == s[k].path ==>
      s[q].similarity < s[k].similarity || (s[q].similarity == s[k].similarity && q <= k)
  }

  function WinnersUpTo(s: seq<Linkable>, n: nat): seq<Linkable>
    requires n <= |s|
  {
    if n == 0 then []
    else WinnersUpTo(s, n - 1) + (if IsWinner(s, n - 1) then [s[n - 1]] else [])
  }

  /** The pool after the second loop: the winners, in pool order. */
  function Winners(s: seq<Linkable>): seq<Linkable> {
    WinnersUpTo(s, |s|)
  }

  lemma {:induction false} WinnersUpToMembers(s: seq<Linkable>, n: nat)
    requires n <= |s|
    ensures forall l :: l in WinnersUpTo(s, n) ==> exists k :: 0 <= k < n && IsWinner(s, k) && l == s[k]
    ensures forall k :: 0 <= k < n && IsWinner(s, k) ==> s[k] in WinnersUpTo(s, n)
  {
    if n > 0 {
      WinnersUpToMembers(s, n - 1);
      var w := WinnersUpTo(s, n - 1);
      var last := if IsWinner(s, n - 1) then [s[n - 1]] else [];
      assert WinnersUpTo(s, n) == w + last;
      forall l | l in WinnersUpTo(s, n)
        ensures exists k :: 0 <= k < n && IsWinner(s, k) && l == s[k]
      {
        if l !in w {
          assert l in last;
          assert IsWinner(s, n - 1) && l == s[n - 1];
        }
      }
    }
  }

  /** Two winners never share a path. */
  lemma WinnersSamePath(s: seq<Linkable>, k1: int, k2: int)
    requires 0 <= k1 < |s| && 0 <= k2 < |s|
    requires IsWinner(s, k1) && IsWinner(s, k2) && s[k1].path == s[k2].path
    ensures k1 == k2
  {
  }

  predicate PathsUnique(s: seq<Linkable>) {
    forall i, j :: 0 <= i < j < |s| ==> s[i].path != s[j].path
  }

  lemma {:induction false} WinnersUpToUnique(s: seq<Linkable>, n: nat)
    requires n <= |s|
    ensures PathsUnique(WinnersUpTo(s, n))
  {
    if n > 0 {
      WinnersUpToUnique(s, n - 1);
      var w := WinnersUpTo(s, n - 1);
      if IsWinner(s, n - 1) {
        EarlierWinnersOtherPath(s, n - 1);
        AppendUnique(w, s[n - 1]);
        assert WinnersUpTo(s, n) == w + [s[n - 1]];
      } else {
        assert WinnersUpTo(s, n) == w;
      }
    }
  }

  /** The winners before a winner at n all have other paths than its own. */
  lemma EarlierWinnersOtherPath(s: seq<Linkable>, n: nat)
    requires n < |s| && IsWinner(s, n)
    ensures forall i :: 0 <= i < |WinnersUpTo(s, n)| ==> WinnersUpTo(s, n)[i].path != s[n].path
  {
    WinnersUpToMembers(s, n);
    var w := WinnersUpTo(s, n);
    forall i | 0 <= i < |w|
      ensures w[i].path != s[n].path
    {
      assert w[i] in w;
      var k :| 0 <= k < n && IsWinner(s, k) && w[i] == s[k];
      if w[i].path == s[n].path {
        WinnersSamePath(s, k, n);
      }
    }
  }

  /** Appending a linkable of a new path keeps the paths unique. */
  lemma AppendUnique(w: seq<Linkable>, l: Linkable)
    requires PathsUnique(w) && forall i :: 0 <= i < |w| ==> w[i].path != l.path
    ensures PathsUnique(w + [l])
  {
  }

  /** Every path of the pool is represented by exactly one winner. */
  lemma GroupHasWinner(s: seq<Linkable>, q: int)
    requires 0 <= q < |s|
    ensures exists w :: 0 <= w < |s| && s[w].path == s[q].path && IsWinner(s, w)
  {
    var best := q;
    var n := 0;
    while n < |s|
      invariant 0 <= n <= |s| && 0 <= best < |s|
      invariant s[best].path == s[q].path
      invariant best < n || best == q
      invariant forall g :: 0 <= g < n && s[g].path == s[q].path ==>
        s[g].similarity < s[best].similarity || (s[g].similarity == s[best].similarity && g <= best)
    {
      if s[n].path == s[q].path && s[n].similarity >= s[best].similarity {
        best := n;
      }
      n := n + 1;
    }
  }

  lemma WinnersUnique(s: seq<Linkable>)
    ensures PathsUnique(Winners(s))
  {
    WinnersUpToUnique(s, |s|);
  }

  lemma WinnersMaximal(s: seq<Linkable>)
    ensures forall l, m :: l in Winners(s) && m in s && m.path == l.path ==> m.similarity <= l.similarity
    ensures forall l :: l in Winners(s) ==> l in s
  {
    WinnersUpToMembers(s, |s|);
    forall l, m | l in Winners(s) && m in s && m.path == l.path
      ensures m.similarity <= l.similarity
    {
      var k :| 0 <= k < |s| && IsWinner(s, k) && l == s[k];
      var q :| 0 <= q < |s| && s[q] == m;
    }
  }

  lemma WinnersCover(s: seq<Linkable>)
    ensures forall m :: m in s ==> exists l :: l in Winners(s) && l.path == m.path
  {
    WinnersUpToMembers(s, |s|);
    forall m | m in s
      ensures exists l :: l in Winners(s) && l.path == m.path
    {
      var q :| 0 <= q < |s| && s[q] == m;
      GroupHasWinner(s, q);
      var w :| 0 <= w < |s| && s[w].path == s[q].path && IsWinner(s, w);
      assert s[w] in Winners(s);
    }
  }

  /** The result of the two filtering loops. */
  function Reconciled(L: seq<seq<Linkable>>): seq<Linkable> {
    Winners(KeepStrong(Flatten(L)))
  }

  /** The promises of main.ts:389-423: no path twice; each survivor has the
      highest similarity in its path group of the filtered pool; every path of
      the filtered pool survives once; no redundant linkable survives; and
      nothing is added. */
  lemma ReconciledProperties(L: seq<seq<Linkable>>)
    ensures PathsUnique(Reconciled(L))
    ensures forall l, m :: l in Reconciled(L) && m in KeepStrong(Flatten(L)) && m.path == l.path ==>
      m.similarity <= l.similarity
    ensures forall m :: m in KeepStrong(Flatten(L)) ==> exists l :: l in Reconciled(L) && l.path == m.path
    ensures forall l :: l in Reconciled(L) ==> !Redundant(l)
    ensures forall l :: l in Reconciled(L) ==> l in Flatten(L)
  {
    var s := KeepStrong(Flatten(L));
    KeepStrongMembers(Flatten(L));
    WinnersUnique(s);
    WinnersMaximal(s);
    WinnersCover(s);
  }

  /** The linkables of `s` whose owner is `o`, in order: what the last loop
      pushes onto o.linkables (main.ts:432-436). */
  function OwnedBy(s: seq<Linkable>, o: Suggestion): seq<Linkable> {
    if |s| == 0 then []
    else OwnedBy(s[..|s| - 1], o) + (if s[|s| - 1].owner == o then [s[|s| - 1]] else [])
  }

  lemma {:induction false} OwnedByMembers(s: seq<Linkable>, o: Suggestion)
    ensures forall l :: l in OwnedBy(s, o) ==> l in s && l.owner == o
    ensures forall l :: l in s && l.owner == o ==> l in OwnedBy(s, o)
  {
    if |s| > 0 {
      OwnedByMembers(s[..|s| - 1], o);
      assert s == s[..|s| - 1] + [s[|s| - 1]];
    }
  }

  lemma {:induction false} OwnedByUnique(s: seq<Linkable>, o: Suggestion)
    requires PathsUnique(s)
    ensures PathsUnique(OwnedBy(s, o))
  {
    if |s| > 0 {
      var init := s[..|s| - 1];
      OwnedByUnique(init, o);
      OwnedByMembers(init, o);
      var w := OwnedBy(init, o);
      forall i | 0 <= i < |w|
        ensures w[i].path != s[|s| - 1].path
      {
        assert w[i] in w;
        assert w[i] in init;
        var k :| 0 <= k < |init| && init[k] == w[i];
      }
    }
  }

  /** No path occurs twice across a family of lists. */
  predicate NoSharedPath(L: seq<seq<Linkable>>) {
    forall k1, i1, k2, i2 ::
      (0 <= k1 < |L| && 0 <= i1 < |L[k1]| && 0 <= k2 < |L| && 0 <= i2 < |L[k2]| && (k1 != k2 || i1 != i2)) ==>
        L[k1][i1].path != L[k2][i2].path
  }

  /** Handing the linkables of a list without repeated paths to distinct
      owners gives a family without shared paths. */
  lemma Distribute(s: seq<Linkable>, owners: seq<Suggestion>, L: seq<seq<Linkable>>)
    requires PathsUnique(s) && Distinct(owners)
    requires |L| == |owners| && forall k :: 0 <= k < |owners| ==> L[k] == OwnedBy(s, owners[k])
    ensures NoSharedPath(L)
  {
    forall k1, i1, k2, i2 | 0 <= k1 < |L| && 0 <= i1 < |L[k1]| && 0 <= k2 < |L| && 0 <= i2 < |L[k2]|
      && (k1 != k2 || i1 != i2)
      ensures L[k1][i1].path != L[k2][i2].path
    {
      if k1 == k2 {
        OwnedByUnique(s, owners[k1]);
      } else {
        OwnedByMembers(s, owners[k1]);
        OwnedByMembers(s, owners[k2]);
        assert L[k1][i1] in L[k1] && L[k2][i2] in L[k2];
        var a :| 0 <= a < |s| && s[a] == L[k1][i1];
        var b :| 0 <= b < |s| && s[b] == L[k2][i2];
      }
    }
  }

  /** Handing the reconciled linkables to distinct owners leaves no path
      shared across the suggestions (main.ts:402-436). */
  lemma ReconciledNoSharedPath(L: seq<seq<Linkable>>, owners: seq<Suggestion>, M: seq<seq<Linkable>>)
    requires Distinct(owners)
    requires |M| == |owners| && forall k :: 0 <= k < |owners| ==> M[k] == OwnedBy(Reconciled(L), owners[k])
    ensures NoSharedPath(M)
  {
    WinnersUnique(KeepStrong(Flatten(L)));
    Distribute(Reconciled(L), owners, M);
  }

  /** With every list owned by its own suggestion, each suggestion ends with
      a sub-list drawn only from what it held before. */
  lemma Owned(L: seq<seq<Linkable>>, owners: seq<Suggestion>, k: int)
    requires |L| == |owners| && Distinct(owners)
    requires forall j, l :: 0 <= j < |L| && l in L[j] ==> l.owner == owners[j]
    requires 0 <= k < |owners|
    ensures forall l :: l in OwnedBy(Reconciled(L), owners[k]) ==> l in L[k]
  {
    ReconciledSound(L);
    OwnedByMembers(Reconciled(L), owners[k]);
    forall l | l in OwnedBy(Reconciled(L), owners[k])
      ensures l in L[k]
    {
      FlattenMembers(L, l);
      var j :| 0 <= j < |L| && l in L[j];
    }
  }

  lemma ReconciledSound(L: seq<seq<Linkable>>)
    ensures forall l :: l in Reconciled(L) ==> l in Flatten(L)
  {
    KeepStrongMembers(Flatten(L));
    WinnersMaximal(KeepStrong(Flatten(L)));
  }

  function RemoveAt<T>(s: seq<T>, i: int): (r: seq<T>)
    requires 0 <= i < |s|
    ensures |r| == |s| - 1
    ensures forall k :: 0 <= k < i ==> r[k] == s[k]
    ensures forall k :: i <= k < |r| ==> r[k] == s[k + 1]
  {
    s[..i] + s[i + 1..]
  }

  /** `all` is the pool `w` with some positions removed: idx[t] is the pool
      position of all[t], increasing. */
  ghost predicate Tracks(w: seq<Linkable>, all: seq<Linkable>, idx: seq<int>) {
    && |idx| == |all|
    && (forall t :: 0 <= t < |idx| ==> 0 <= idx[t] < |w| && all[t] == w[idx[t]])
    && (forall t1, t2 :: 0 <= t1 < t2 < |idx| ==> idx[t1] < idx[t2])
  }

  /** Every winner of the pool is still present. */
  ghost predicate KeepsWinners(w: seq<Linkable>, idx: seq<int>) {
    forall k :: 0 <= k < |w| && IsWinner(w, k) ==> k in idx
  }

  /** The first i elements are winners and no later element shares a path
      with any of them. */
  ghost predicate Settled(w: seq<Linkable>, all: seq<Linkable>, idx: seq<int>, i: int)
    requires Tracks(w, all, idx)
  {
    && (forall t :: 0 <= t < i && t < |idx| ==> IsWinner(w, idx[t]))
    && (forall t1, t2 :: 0 <= t1 < i && t1 < t2 < |all| ==> all[t1].path != all[t2].path)
  }

  /** Position p of the current pool loses to position b of the same path:
      b has a higher similarity, or an equal one and comes later. */
  predicate Beats(all: seq<Linkable>, b: int, p: int)
    requires 0 <= b < |all| && 0 <= p < |all|
  {
    b != p && all[b].path == all[p].path &&
    (all[p].similarity < all[b].similarity || (all[p].similarity == all[b].similarity && p < b))
  }

  /** A position beaten by another is not its path's winner. */
  lemma BeatenLoses(w: seq<Linkable>, all: seq<Linkable>, idx: seq<int>, b: int, p: int)
    requires Tracks(w, all, idx) && 0 <= b < |all| && 0 <= p < |all| && Beats(all, b, p)
    ensures !IsWinner(w, idx[p])
  {
    if p < b {
      assert idx[p] < idx[b];
    }
    assert w[idx[b]].path == w[idx[p]].path;
  }

  /** Removing a position at or after i that another position beats keeps the
      bookkeeping of the second loop. */
  lemma RemoveLoser(w: seq<Linkable>, all: seq<Linkable>, idx: seq<int>, i: int, p: int, b: int)
    requires Tracks(w, all, idx) && KeepsWinners(w, idx) && Settled(w, all, idx, i)
    requires 0 <= i <= p < |all| && 0 <= b < |all| && Beats(all, b, p)
    ensures Tracks(w, RemoveAt(all, p), RemoveAt(idx, p))
    ensures KeepsWinners(w, RemoveAt(idx, p))
    ensures Settled(w, RemoveAt(all, p), RemoveAt(idx, p), i)
  {
    BeatenLoses(w, all, idx, b, p);
    RemoveSettled(w, all, idx, i, p);
    var idx' := RemoveAt(idx, p);
    forall k | 0 <= k < |w| && IsWinner(w, k)
      ensures k in idx'
    {
      var t :| 0 <= t < |idx| && idx[t] == k;
      if t < p {
        assert idx'[t] == k;
      } else {
        assert idx'[t - 1] == k;
      }
    }
  }

  /** Removing any position keeps the pool positions tracked. */
  lemma RemoveTracks(w: seq<Linkable>, all: seq<Linkable>, idx: seq<int>, p: int)
    requires Tracks(w, all, idx) && 0 <= p < |all|
    ensures Tracks(w, RemoveAt(all, p), RemoveAt(idx, p))
  {
  }

  /** Removing a position at or after i keeps the first i settled. */
  lemma RemoveSettled(w: seq<Linkable>, all: seq<Linkable>, idx: seq<int>, i: int, p: int)
    requires Tracks(w, all, idx) && Settled(w, all, idx, i) && 0 <= i <= p < |all|
    ensures Tracks(w, RemoveAt(all, p), RemoveAt(idx, p))
    ensures Settled(w, RemoveAt(all, p), RemoveAt(idx, p), i)
  {
    RemoveTracks(w, all, idx, p);
  }

  /** The state at the end of the second loop, restricted to pool positions
      below n. */
  ghost predicate Final(w: seq<Linkable>, all: seq<Linkable>, idx: seq<int>, n: nat)
    requires n <= |w|
  {
    && Tracks(w, all, idx)
    && (|idx| == 0 || idx[|idx| - 1] < n)
    && (forall t :: 0 <= t < |idx| ==> IsWinner(w, idx[t]))
    && (forall k :: 0 <= k < n && IsWinner(w, k) ==> k in idx)
  }

  /** Once every element is a winner and every winner is present, the
      survivors are exactly Winners, in pool order. */
  lemma {:induction false} SettledIsWinners(w: seq<Linkable>, all: seq<Linkable>, idx: seq<int>, n: nat)
    requires n <= |w| && Final(w, all, idx, n)
    ensures all == WinnersUpTo(w, n)
  {
    if n == 0 {
    } else if IsWinner(w, n - 1) {
      var t := LastIndex(w, all, idx, n);
      SettledIsWinners(w, all[..t], idx[..t], n - 1);
      assert all == all[..t] + [w[n - 1]];
    } else {
      assert Final(w, all, idx, n - 1);
      SettledIsWinners(w, all, idx, n - 1);
    }
  }

  /** The winner at n - 1 sits at the last position; the rest is final below n - 1. */
  lemma LastIndex(w: seq<Linkable>, all: seq<Linkable>, idx: seq<int>, n: nat) returns (t: int)
    requires 0 < n <= |w| && Final(w, all, idx, n) && IsWinner(w, n - 1)
    ensures t == |idx| - 1 && all[t] == w[n - 1]
    ensures Final(w, all[..t], idx[..t], n - 1)
  {
    t :| 0 <= t < |idx| && idx[t] == n - 1;
    forall k | 0 <= k < n - 1 && IsWinner(w, k)
      ensures k in idx[..t]
    {
      var u :| 0 <= u < |idx| && idx[u] == k;
      assert idx[..t][u] == k;
    }
  }

  /** MakeLinkablesUnique (main.ts:378-439). */
  method MakeLinkablesUnique(suggestions: seq<Suggestion>)
    requires forall k, l :: 0 <= k < |suggestions| && l in suggestions[k].linkables ==> l.owner in suggestions
    modifies (set s | s in suggestions)`linkables
    ensures forall k :: 0 <= k < |suggestions| ==>
      suggestions[k].linkables == OwnedBy(Reconciled(old(Lists(suggestions))), suggestions[k])
    ensures Distinct(suggestions) ==> NoSharedPath(Lists(suggestions))
  {
    ghost var L := Lists(suggestions);
    var allLinkables := Pool(suggestions);
    PoolOwners(L, suggestions);
    allLinkables := DropRedundant(allLinkables);
    allLinkables := KeepBest(allLinkables);
    ReconciledOwners(L, suggestions);
    Redistribute(suggestions, allLinkables);
    if Distinct(suggestions) {
      ReconciledNoSharedPath(L, suggestions, Lists(suggestions));
    }
  }

  /** The first loop of MakeLinkablesUnique (main.ts:383-386). */
  method Pool(suggestions: seq<Suggestion>) returns (allLinkables: seq<Linkable>)
    ensures allLinkables == Flatten(Lists(suggestions))
  {
    ghost var L := Lists(suggestions);
    allLinkables := [];
    var n := 0;
    while n < |suggestions|
      invariant 0 <= n <= |suggestions|
      invariant allLinkables == Flatten(L[..n])
    {
      assert L[..n + 1][..n] == L[..n];
      allLinkables := allLinkables + suggestions[n].linkables;
      n := n + 1;
    }
    assert L[..|suggestions|] == L;
  }

  lemma PoolOwners(L: seq<seq<Linkable>>, owners: seq<Suggestion>)
    requires forall k, l :: 0 <= k < |L| && l in L[k] ==> l.owner in owners
    ensures forall l :: l in Flatten(L) ==> l.owner in owners
  {
    forall l | l in Flatten(L)
      ensures l.owner in owners
    {
      FlattenMembers(L, l);
    }
  }

  lemma ReconciledOwners(L: seq<seq<Linkable>>, owners: seq<Suggestion>)
    requires forall l :: l in Flatten(L) ==> l.owner in owners
    ensures forall l :: l in Reconciled(L) ==> l.owner in owners
  {
    ReconciledSound(L);
  }

  /** The last two loops of MakeLinkablesUnique (main.ts:426-436): every list
      is emptied, then each linkable is pushed onto its owner's list. */
  method Redistribute(suggestions: seq<Suggestion>, allLinkables: seq<Linkable>)
    requires forall l :: l in allLinkables ==> l.owner in suggestions
    modifies (set s | s in suggestions)`linkables
    ensures forall k :: 0 <= k < |suggestions| ==> suggestions[k].linkables == OwnedBy(allLinkables, suggestions[k])
  {
    var n := 0;
    while n < |suggestions|
      invariant 0 <= n <= |suggestions|
      invariant forall k :: 0 <= k < n ==> suggestions[k].linkables == []
    {
      suggestions[n].linkables := [];
      n := n + 1;
    }
    var p := 0;
    while p < |allLinkables|
      invariant 0 <= p <= |allLinkables|
      invariant forall k :: 0 <= k < |suggestions| ==> suggestions[k].linkables == OwnedBy(allLinkables[..p], suggestions[k])
    {
      assert allLinkables[..p + 1][..p] == allLinkables[..p];
      var linkable := allLinkables[p];
      linkable.owner.linkables := linkable.owner.linkables + [linkable];
      p := p + 1;
    }
    assert allLinkables[..p] == allLinkables;
  }

  /** The first loop of MakeLinkablesUnique (main.ts:389-399): a redundant
      linkable is spliced out and the same position is looked at again. */
  method DropRedundant(pool: seq<Linkable>) returns (allLinkables: seq<Linkable>)
    requires forall l :: l in pool ==> l.owner != null
    ensures allLinkables == KeepStrong(pool)
  {
    allLinkables := pool;
    var i := 0;
    assert allLinkables[i..] == pool;
    while i < |allLinkables|
      invariant FilteredUpTo(pool, allLinkables, i)
      invariant forall l :: l in allLinkables ==> l in pool
      decreases |allLinkables| - i
    {
      var item := allLinkables[i];
      if item.similarity < 0.9 && Contains(item.owner.matchedString, item.name) {
        DropStep(pool, allLinkables, i);
        allLinkables := RemoveAt(allLinkables, i);
      } else {
        KeepStep(pool, allLinkables, i);
        i := i + 1;
      }
    }
    assert allLinkables[i..] == [];
  }

  /** The first loop has looked at the positions before i of the current
      pool: those are kept, and filtering the rest gives the filtered pool. */
  predicate FilteredUpTo(pool: seq<Linkable>, all: seq<Linkable>, i: int) {
    0 <= i <= |all| && all[..i] + KeepStrong(all[i..]) == KeepStrong(pool)
  }

  /** Splicing out a redundant linkable at i keeps the bookkeeping. */
  lemma DropStep(pool: seq<Linkable>, all: seq<Linkable>, i: int)
    requires FilteredUpTo(pool, all, i) && i < |all| && Redundant(all[i])
    ensures FilteredUpTo(pool, RemoveAt(all, i), i)
  {
    var r := RemoveAt(all, i);
    assert all[i..] == [all[i]] + r[i..];
    assert r[..i] == all[..i];
  }

  /** Stepping over a linkable that stays keeps the bookkeeping. */
  lemma KeepStep(pool: seq<Linkable>, all: seq<Linkable>, i: int)
    requires FilteredUpTo(pool, all, i) && i < |all| && !Redundant(all[i])
    ensures FilteredUpTo(pool, all, i + 1)
  {
    assert all[i..] == [all[i]] + all[i + 1..];
    assert all[..i + 1] == all[..i] + [all[i]];
  }

  /** The second loop of MakeLinkablesUnique (main.ts:402-423): for each item,
      a later item of its path that is strictly worse is spliced out; at the
      first one that is not, the item itself is spliced out and the same
      position is looked at again. */
  method KeepBest(w: seq<Linkable>) returns (allLinkables: seq<Linkable>)
    ensures allLinkables == Winners(w)
  {
    allLinkables := w;
    ghost var idx := seq(|w|, k => k);
    forall k | 0 <= k < |w| && IsWinner(w, k)
      ensures k in idx
    {
      assert idx[k] == k;
    }
    var i := 0;
    while i < |allLinkables|
      invariant 0 <= i <= |allLinkables|
      decreases |allLinkables| - i
      invariant Tracks(w, allLinkables, idx) && KeepsWinners(w, idx) && Settled(w, allLinkables, idx, i)
    {
      var itemRemoved;
      allLinkables, idx, itemRemoved := CompareLater(w, allLinkables, idx, i);
      if !itemRemoved {
        ItemWins(w, allLinkables, idx, i);
        i := i + 1;
      }
    }
    assert Final(w, allLinkables, idx, |w|);
    SettledIsWinners(w, allLinkables, idx, |w|);
  }

  /** The inner loop of the second loop (main.ts:405-421) for the item at i:
      each later item of its path it beats is spliced out, until one is met
      that it does not beat, and then the item itself is. */
  method CompareLater(w: seq<Linkable>, all: seq<Linkable>, ghost idx: seq<int>, i: nat)
    returns (allLinkables: seq<Linkable>, ghost idx': seq<int>, itemRemoved: bool)
    requires i < |all| && Tracks(w, all, idx) && KeepsWinners(w, idx) && Settled(w, all, idx, i)
    ensures Tracks(w, allLinkables, idx') && KeepsWinners(w, idx') && Settled(w, allLinkables, idx', i)
    ensures itemRemoved ==> i <= |allLinkables| < |all|
    ensures !itemRemoved ==> i < |allLinkables| <= |all|
    ensures !itemRemoved ==> forall t :: i < t < |allLinkables| ==> allLinkables[t].path != allLinkables[i].path
  {
    allLinkables, idx' := all, idx;
    var item := allLinkables[i];
    itemRemoved := false;
    var j := i + 1;
    while j < |allLinkables|
      invariant i < j <= |allLinkables| <= |all| && allLinkables[i] == item
      invariant Tracks(w, allLinkables, idx') && KeepsWinners(w, idx') && Settled(w, allLinkables, idx', i)
      invariant forall t :: i < t < j ==> allLinkables[t].path != item.path
      decreases |allLinkables| - j
    {
      var other := allLinkables[j];
      if item.path == other.path {
        if item.similarity > other.similarity {
          RemoveLoser(w, allLinkables, idx', i, j, i);
          allLinkables, idx' := RemoveAt(allLinkables, j), RemoveAt(idx', j);
        } else {
          RemoveLoser(w, allLinkables, idx', i, i, j);
          allLinkables, idx' := RemoveAt(allLinkables, i), RemoveAt(idx', i);
          itemRemoved := true;
          break;
        }
      } else {
        j := j + 1;
      }
    }
  }

  /** A current item without any later item of its path is its path's winner. */
  lemma ItemWins(w: seq<Linkable>, all: seq<Linkable>, idx: seq<int>, i: int)
    requires Tracks(w, all, idx) && KeepsWinners(w, idx) && Settled(w, all, idx, i)
    requires 0 <= i < |all|
    requires forall t :: i < t < |all| ==> all[t].path != all[i].path
    ensures Settled(w, all, idx, i + 1)
  {
    GroupHasWinner(w, idx[i]);
    var g :| 0 <= g < |w| && w[g].path == w[idx[i]].path && IsWinner(w, g);
    var t :| 0 <= t < |idx| && idx[t] == g;
    assert t == i;
  }
}
