// The plugin object (main.ts:183-580): the two name indexes, the current
// suggestions of the session, and the operations that rebuild the indexes,
// query them, find suggestions at the cursor and update the session on a
// key press.

module Plugin {
  import opened Options
  import opened Text
  import opened Style
  import opened Similarity
  import opened Suggestions
  import opened NameIndex
  import opened IndexBuilder
  import opened Extractor
  import opened Ranking
  import opened Reconciler
  import opened Highlight

  /** What the engine reads from the active Markdown view: the cursor, the
      text of the cursor's line and the editor's position-to-offset map. */
  datatype MarkdownView = MarkdownView(cursor: Position, lineText: string, posToOffset: Position -> int)

  /** The linkables a word is looked up to (main.ts:532-546): the copies of
      the accepted file pairs, then those of the accepted heading pairs. */
  function Lookup(word: string, files: seq<Entry>, headers: seq<Entry>, required: nat -> real): seq<Linkable> {
    Copies(GetAllWithName(Lower(word), files, required)) + Copies(GetAllWithName(Lower(word), headers, required))
  }

  /** A linkable is looked up for a word exactly when it is the ownerless
      copy of a pair of either index whose key passes the threshold for the
      lower-cased word, carrying its similarity to that word. */
  lemma LookupMembers(word: string, files: seq<Entry>, headers: seq<Entry>, required: nat -> real)
    ensures forall l :: l in Lookup(word, files, headers, required) ==>
      exists e :: (e in files || e in headers) && Accepts(required, e.key, Lower(word))
        && l == Copy(Scored(e, Lower(word)))
    ensures forall e :: (e in files || e in headers) && Accepts(required, e.key, Lower(word)) ==>
      Copy(Scored(e, Lower(word))) in Lookup(word, files, headers, required)
  {
    var name := Lower(word);
    GetAllWithNameMembers(name, files, required);
    GetAllWithNameMembers(name, headers, required);
    var fs := GetAllWithName(name, files, required);
    var hs := GetAllWithName(name, headers, required);
    forall l | l in Lookup(word, files, headers, required)
      ensures exists e :: (e in files || e in headers) && Accepts(required, e.key, name) && l == Copy(Scored(e, name))
    {
      if l in Copies(fs) {
        var i :| 0 <= i < |fs| && Copies(fs)[i] == l;
        assert fs[i] in fs;
        var k :| 0 <= k < |files| && Accepts(required, files[k].key, name) && fs[i] == Scored(files[k], name);
        assert files[k] in files;
      } else {
        assert l in Copies(hs);
        var i :| 0 <= i < |hs| && Copies(hs)[i] == l;
        assert hs[i] in hs;
        var k :| 0 <= k < |headers| && Accepts(required, headers[k].key, name) && hs[i] == Scored(headers[k], name);
        assert headers[k] in headers;
      }
    }
    forall e | (e in files || e in headers) && Accepts(required, e.key, name)
      ensures Copy(Scored(e, name)) in Lookup(word, files, headers, required)
    {
      if e in files {
        var k :| 0 <= k < |files| && files[k] == e;
        var i :| 0 <= i < |fs| && fs[i] == Scored(e, name);
        assert Copies(fs)[i] == Copy(Scored(e, name));
      } else {
        var k :| 0 <= k < |headers| && headers[k] == e;
        var i :| 0 <= i < |hs| && hs[i] == Scored(e, name);
        assert Copies(hs)[i] == Copy(Scored(e, name));
      }
    }
  }

  /** Every linkable of `ls` belongs to `s` and, without its owner, is one of
      `found`. */
  predicate GroundedIn(ls: seq<Linkable>, s: Suggestion, found: seq<Linkable>) {
    forall l :: l in ls ==> l.owner == s && l.(owner := null) in found
  }

  /** `s` holds exactly the linkables `ls`, handed over to it. */
  ghost predicate Holds(s: Suggestion, ls: seq<Linkable>)
    reads s
  {
    |s.linkables| == |ls| && forall i :: 0 <= i < |ls| ==> s.linkables[i] == ls[i].(owner := s)
  }

  /** `s` is the candidate the walk opens at position c of the cut line, on
      the cursor's line. */
  ghost predicate Opened(s: Suggestion, line: string, c: int, cursorLine: int)
    reads s`line, s`ch, s`range
  {
    0 <= c < |line| && s.Valid() && s.matchedString == WordAt(line, c)
    && s.line == cursorLine && s.ch == WordStart(c)
  }

  /** The trimmed rest of the line after the delimiter at `charIndex`, or the
      whole line for the first character (main.ts:517-522). */
  method ReadWord(line: string, charIndex: nat) returns (word: string)
    requires charIndex < |line|
    ensures word == WordAt(line, charIndex)
    ensures |word| == 0 <==> Blank(line[WordStart(charIndex)..])
  {
    if charIndex != 0 {
      word := line[charIndex + 1..];
    } else {
      word := line[charIndex..];
    }
    BlankIsTrimEmpty(word);
    word := Trim(word);
  }

  /** Handing looked-up linkables to a suggestion grounds its list in them. */
  lemma HoldsGrounded(s: Suggestion, ls: seq<Linkable>)
    requires Holds(s, ls) && forall i :: 0 <= i < |ls| ==> ls[i].owner == null
    ensures GroundedIn(s.linkables, s, ls)
  {
    forall l | l in s.linkables
      ensures l.owner == s && l.(owner := null) in ls
    {
      var i :| 0 <= i < |s.linkables| && s.linkables[i] == l;
      assert l.(owner := null) == ls[i];
    }
  }

  /** Sorting and cutting a grounded list keeps it grounded. */
  lemma GroundedTop(ls: seq<Linkable>, s: Suggestion, found: seq<Linkable>)
    requires GroundedIn(ls, s, found)
    ensures GroundedIn(TopLinkables(ls), s, found)
  {
    TopLinkablesProperties(ls);
  }

  /** The cut line of a view (main.ts:499-509). */
  function CutLine(view: MarkdownView): string {
    Truncated(view.lineText, view.cursor.ch)
  }

  /** The suggestions `ss` are those the walk opened at the positions
      `done`, each holding what its word is looked up to. */
  ghost predicate Walked(ss: seq<Suggestion>, done: seq<nat>, line: string, cursorLine: int,
                         files: seq<Entry>, headers: seq<Entry>, required: nat -> real)
    reads set s | s in ss
  {
    |ss| == |done| &&
    forall k :: 0 <= k < |ss| ==>
      Opened(ss[k], line, done[k], cursorLine) && Holds(ss[k], Lookup(ss[k].matchedString, files, headers, required))
  }

  /** The linkables `ls` handed over to `s`: each now owned by it. */
  function HandedOver(ls: seq<Linkable>, s: Suggestion): (r: seq<Linkable>)
    ensures |r| == |ls| && forall i :: 0 <= i < |ls| ==> r[i] == ls[i].(owner := s)
  {
    seq(|ls|, i requires 0 <= i < |ls| => ls[i].(owner := s))
  }

  /** The lists the walk gives the suggestions `ss`: each the linkables its
      word is looked up to, handed over to it. */
  function HandedLists(ss: seq<Suggestion>, files: seq<Entry>, headers: seq<Entry>, required: nat -> real)
    : (r: seq<seq<Linkable>>)
    ensures |r| == |ss|
    ensures forall k :: 0 <= k < |ss| ==> r[k] == HandedOver(Lookup(ss[k].matchedString, files, headers, required), ss[k])
  {
    seq(|ss|, k requires 0 <= k < |ss| => HandedOver(Lookup(ss[k].matchedString, files, headers, required), ss[k]))
  }

  /** What FindSuggestionsOnCursor returns for the suggestions `found` of
      the walk (main.ts:451-453, main.ts:473, main.ts:561): `found` in
      descending order of the average similarity of what each was looked up
      to, ties in walk order, without those that were looked up to nothing. */
  function RankFound(found: seq<Suggestion>, files: seq<Entry>, headers: seq<Entry>, required: nat -> real)
    : seq<Suggestion>
  {
    var sorted := SortByAverageOf(found, HandedLists(found, files, headers, required));
    KeepListed(sorted, HandedLists(sorted, files, headers, required))
  }

  /** The lists the suggestions `ss` kept by a search end with
      (main.ts:456-470, main.ts:562): the eleven most similar of what each was
      looked up to, reconciled across all of them, so that each keeps its own
      winners. */
  function SettledLists(ss: seq<Suggestion>, files: seq<Entry>, headers: seq<Entry>, required: nat -> real)
    : (r: seq<seq<Linkable>>)
    ensures |r| == |ss|
    ensures forall k :: 0 <= k < |ss| ==>
      r[k] == OwnedBy(Reconciled(TopAll(HandedLists(ss, files, headers, required))), ss[k])
  {
    var R := Reconciled(TopAll(HandedLists(ss, files, headers, required)));
    seq(|ss|, k requires 0 <= k < |ss| => OwnedBy(R, ss[k]))
  }

  /** Each linkable of the ranked lists of `ss` belongs to the suggestion
      whose list it is in, and is a copy of one its word is looked up to. */
  lemma RankedHandedOwners(ss: seq<Suggestion>, files: seq<Entry>, headers: seq<Entry>, required: nat -> real)
    ensures forall j, l :: 0 <= j < |ss| && l in TopAll(HandedLists(ss, files, headers, required))[j] ==>
      l.owner == ss[j] && l.(owner := null) in Lookup(ss[j].matchedString, files, headers, required)
  {
    var H := HandedLists(ss, files, headers, required);
    forall j, l | 0 <= j < |ss| && l in TopAll(H)[j]
      ensures l.owner == ss[j] && l.(owner := null) in Lookup(ss[j].matchedString, files, headers, required)
    {
      TopLinkablesProperties(H[j]);
      var ls := Lookup(ss[j].matchedString, files, headers, required);
      var i :| 0 <= i < |H[j]| && H[j][i] == l;
      assert l.(owner := null) == ls[i];
    }
  }

  /** After a search the suggestions kept share no path, and each holds only
      linkables of its own that were looked up for its text. */
  lemma SettledListsProperties(ss: seq<Suggestion>, files: seq<Entry>, headers: seq<Entry>, required: nat -> real)
    requires Distinct(ss)
    ensures NoSharedPath(SettledLists(ss, files, headers, required))
    ensures forall k :: 0 <= k < |ss| ==>
      GroundedIn(SettledLists(ss, files, headers, required)[k], ss[k], Lookup(ss[k].matchedString, files, headers, required))
  {
    var L := TopAll(HandedLists(ss, files, headers, required));
    var M := SettledLists(ss, files, headers, required);
    ReconciledNoSharedPath(L, ss, M);
    RankedHandedOwners(ss, files, headers, required);
    forall k | 0 <= k < |ss|
      ensures GroundedIn(M[k], ss[k], Lookup(ss[k].matchedString, files, headers, required))
    {
      Owned(L, ss, k);
    }
  }

  /** When the suggestions `found` hold the ranked lists the walk gave
      them, so does any selection from them. */
  lemma RankedSublists(found: seq<Suggestion>, sub: seq<Suggestion>,
                       files: seq<Entry>, headers: seq<Entry>, required: nat -> real)
    requires Lists(found) == TopAll(HandedLists(found, files, headers, required))
    requires forall s :: s in sub ==> s in found
    ensures Lists(sub) == TopAll(HandedLists(sub, files, headers, required))
  {
    forall k | 0 <= k < |sub|
      ensures Lists(sub)[k] == TopAll(HandedLists(sub, files, headers, required))[k]
    {
      assert sub[k] in found;
      var i :| 0 <= i < |found| && found[i] == sub[k];
      assert Lists(found)[i] == TopAll(HandedLists(found, files, headers, required))[i];
    }
  }

  /** The lists of a capped list are the capped lists. */
  lemma CapLists(ss: seq<Suggestion>)
    ensures Lists(Cap(ss)) == Cap(Lists(ss))
  {
  }

  /** Sorting suggestions whose lists are `L` carries, to each sorted
      suggestion, the list it had before the sort. */
  lemma SortedAlong(ss: seq<Suggestion>, L: seq<seq<Linkable>>)
    requires |L| == |ss| && Lists(ss) == L
    ensures SortByAverage(ss) == SortByAverageOf(ss, L)
    ensures forall s :: s in SortByAverage(ss) ==> s in ss
    ensures forall k, j :: 0 <= k < |SortByAverage(ss)| && 0 <= j < |ss| && SortByAverage(ss)[k] == ss[j] ==>
      Lists(SortByAverage(ss))[k] == L[j]
  {
    SortByAverageIsOf(ss);
    SortByAveragePermutes(ss);
  }

  /** Once the lists `L` of `ss` are ranked, keeping the sorted suggestions
      whose earlier lists `M` held something keeps those whose ranked lists
      hold something. */
  lemma RerankedKeeps(ss: seq<Suggestion>, L: seq<seq<Linkable>>, sorted: seq<Suggestion>, M: seq<seq<Linkable>>)
    requires |L| == |ss| && Lists(ss) == TopAll(L)
    requires sorted == SortByAverageOf(ss, L)
    requires |M| == |sorted| && forall s :: s in sorted ==> s in ss
    requires forall k, j :: 0 <= k < |sorted| && 0 <= j < |ss| && sorted[k] == ss[j] ==> M[k] == L[j]
    ensures KeepListed(sorted, M) == KeepNonEmpty(sorted)
  {
    RankedSelection(ss, L, sorted, M);
    KeepNonEmptyRanked(sorted, M);
  }

  /** Suggestions of `kept` whose lists were ranked keep them when the
      lists `L` of `ss` are ranked. */
  lemma RankedStay(ss: seq<Suggestion>, L: seq<seq<Linkable>>, kept: seq<Suggestion>)
    requires |L| == |ss| && Lists(ss) == TopAll(L)
    requires forall j :: 0 <= j < |ss| && ss[j] in kept ==> Ranked(L[j])
    ensures forall j :: 0 <= j < |ss| && ss[j] in kept ==> ss[j].linkables == L[j]
  {
    forall j | 0 <= j < |ss| && ss[j] in kept
      ensures ss[j].linkables == L[j]
    {
      assert ss[j].linkables == Lists(ss)[j];
      TopLinkablesFixed(L[j]);
    }
  }

  /** What MakeSuggestionsUnique leaves of distinct suggestions `found`
      that held their looked-up lists: `sorted` is their average sort and
      `r` its non-empty part, once each list is its top 11. Then `r` is
      RankFound of `found`, distinct, holding the top 11 of its own lists,
      and the suggestions dropped hold nothing. */
  lemma SettledRanking(found: seq<Suggestion>, sorted: seq<Suggestion>, r: seq<Suggestion>,
                       files: seq<Entry>, headers: seq<Entry>, required: nat -> real)
    requires Distinct(found)
    requires sorted == SortByAverageOf(found, HandedLists(found, files, headers, required))
    requires multiset(sorted) == multiset(found)
    requires forall s :: s in sorted ==> s in found
    requires forall s :: s in found ==> s in sorted
    requires Lists(found) == TopAll(HandedLists(found, files, headers, required))
    requires r == KeepNonEmpty(sorted)
    ensures r == RankFound(found, files, headers, required)
    ensures |r| <= |found| && Distinct(r)
    ensures forall s :: s in r ==> s in found
    ensures Lists(r) == TopAll(HandedLists(r, files, headers, required))
    ensures forall s :: s in found && s !in r ==> s.linkables == []
  {
    PermutationDistinct(found, sorted);
    RankedSublists(found, sorted, files, headers, required);
    var H := HandedLists(sorted, files, headers, required);
    forall k | 0 <= k < |sorted|
      ensures |sorted[k].linkables| > 0 <==> |H[k]| > 0
    {
      assert sorted[k].linkables == Lists(sorted)[k];
      TopLinkablesProperties(H[k]);
    }
    KeepNonEmptyListed(sorted, H);
    KeepNonEmptyMembers(sorted);
    KeepNonEmptyDistinct(sorted);
    assert |sorted| == |multiset(sorted)| == |found|;
    RankedSublists(found, r, files, headers, required);
  }

  /** Suggestions placed with respect to `before` and `v`, appended to
      one another, are all placed. */
  lemma PlacedAppended(a: seq<Suggestion>, b: seq<Suggestion>, before: seq<Suggestion>, v: MarkdownView)
    requires forall s :: s in a ==> Placed(s, before, v)
    requires forall s :: s in b ==> Placed(s, before, v)
    ensures forall s :: s in a + b ==> Placed(s, before, v) && (s in a || s in b)
  {
  }

  lemma ListsAppended(a: seq<Suggestion>, b: seq<Suggestion>, la: seq<seq<Linkable>>, lb: seq<seq<Linkable>>)
    requires Lists(a) == la && Lists(b) == lb
    ensures Lists(a + b) == la + lb
  {
    ListsConcat(a, b);
  }

  lemma ListsConcat(a: seq<Suggestion>, b: seq<Suggestion>)
    ensures Lists(a + b) == Lists(a) + Lists(b)
  {
    var g := a + b;
    forall k | 0 <= k < |g|
      ensures Lists(g)[k] == (Lists(a) + Lists(b))[k]
    {
      if k >= |a| {
        assert g[k] == b[k - |a|];
      }
    }
  }

  /** The walk's suggestions hold the lists it gives them. */
  lemma WalkedLists(ss: seq<Suggestion>, done: seq<nat>, line: string, cursorLine: int,
                    files: seq<Entry>, headers: seq<Entry>, required: nat -> real)
    requires Walked(ss, done, line, cursorLine, files, headers, required)
    ensures Lists(ss) == HandedLists(ss, files, headers, required)
  {
    forall k | 0 <= k < |ss|
      ensures Lists(ss)[k] == HandedLists(ss, files, headers, required)[k]
    {
      assert Holds(ss[k], Lookup(ss[k].matchedString, files, headers, required));
    }
  }

  lemma WalkedAppend(ss: seq<Suggestion>, done: seq<nat>, s: Suggestion, c: nat, line: string, cursorLine: int,
                     files: seq<Entry>, headers: seq<Entry>, required: nat -> real)
    requires Walked(ss, done, line, cursorLine, files, headers, required)
    requires Opened(s, line, c, cursorLine)
    requires Holds(s, Lookup(s.matchedString, files, headers, required))
    ensures Walked(ss + [s], done + [c], line, cursorLine, files, headers, required)
  {
  }

  /** The walk forwards to the end of the word (main.ts:502-509). */
  method CutAtDelimiter(line: string, from: int) returns (cut: string)
    ensures cut == Truncated(line, from)
  {
    cut := line;
    var i := from;
    while i < |cut|
      invariant cut == line
      invariant DelimiterFrom(line, i) == DelimiterFrom(line, from)
      decreases |line| - i
    {
      if i >= 0 && IsDelimiterChar(cut[i]) {
        cut := cut[..i];
        break;
      }
      i := i + 1;
    }
  }

  /** `wordDelimiters.contains(event.key)` (main.ts:223). */
  predicate IsDelimiterKey(key: string) {
    key in WordDelimiters
  }

  /** `s` was opened at one of the word positions of the cut line at the
      view's cursor. */
  ghost predicate Opens(s: Suggestion, view: MarkdownView)
    reads s`line, s`ch, s`range
  {
    s.Valid() && exists k :: 0 <= k < |Words(CutLine(view))| && Opened(s, CutLine(view), Words(CutLine(view))[k], view.cursor.line)
  }

  /** `ss` are the suggestions the walk opens at the cursor of `view`, one
      per word position of the cut line, in order. */
  ghost predicate OpenedAtCursor(ss: seq<Suggestion>, view: MarkdownView)
    reads (set s | s in ss)`line, (set s | s in ss)`ch, (set s | s in ss)`range
  {
    && |ss| == |Words(CutLine(view))|
    && forall k :: 0 <= k < |ss| ==> Opened(ss[k], CutLine(view), Words(CutLine(view))[k], view.cursor.line)
  }

  /** Where a session suggestion may come from after a key press with the
      view `view`: one of the suggestions `before` it that ends at or before
      the cursor, or one opened at the cursor. */
  ghost predicate Placed(s: Suggestion, before: seq<Suggestion>, view: MarkdownView)
    reads s`line, s`ch, s`range
  {
    && s.Valid()
    && (s in before ==> view.posToOffset(s.range.to) <= view.posToOffset(view.cursor))
    && (s !in before ==> Opens(s, view))
  }

  /** The suggestions the removal loop of handleKeyDown keeps
      (main.ts:210-220): those whose end is not after the cursor. */
  function KeptBeforeCursor(ss: seq<Suggestion>, view: MarkdownView): seq<Suggestion>
    reads set s | s in ss
  {
    if |ss| == 0 then []
    else
      (if view.posToOffset(ss[0].range.to) > view.posToOffset(view.cursor) then [] else [ss[0]])
      + KeptBeforeCursor(ss[1..], view)
  }

  /** A suggestion survives the removal loop exactly when it ends at or
      before the cursor. */
  lemma {:induction false} KeptBeforeCursorMembers(ss: seq<Suggestion>, view: MarkdownView)
    ensures forall s :: s in KeptBeforeCursor(ss, view) ==>
      s in ss && view.posToOffset(s.range.to) <= view.posToOffset(view.cursor)
    ensures forall s :: s in ss && view.posToOffset(s.range.to) <= view.posToOffset(view.cursor) ==>
      s in KeptBeforeCursor(ss, view)
    ensures |KeptBeforeCursor(ss, view)| <= |ss|
  {
    if |ss| > 0 {
      KeptBeforeCursorMembers(ss[1..], view);
      forall s | s in ss && view.posToOffset(s.range.to) <= view.posToOffset(view.cursor)
        ensures s in KeptBeforeCursor(ss, view)
      {
        if s != ss[0] {
          var k :| 0 <= k < |ss| && ss[k] == s;
          assert ss[1..][k - 1] == s;
        }
      }
    }
  }

  /** The removal loop of handleKeyDown (main.ts:210-220), splicing out of
      the list every suggestion that ends after the cursor. */
  method DropAfterCursor(suggestions: seq<Suggestion>, view: MarkdownView) returns (kept: seq<Suggestion>)
    ensures kept == KeptBeforeCursor(suggestions, view)
  {
    kept := suggestions;
    var i := 0;
    while i < |kept|
      invariant 0 <= i <= |kept|
      invariant kept[..i] + KeptBeforeCursor(kept[i..], view) == KeptBeforeCursor(suggestions, view)
      decreases |kept| - i
    {
      var suggestion := kept[i];
      ghost var ks := kept;
      assert ks[i..] == [suggestion] + ks[i + 1..];
      if view.posToOffset(suggestion.range.to) > view.posToOffset(view.cursor) {
        kept := RemoveAt(kept, i);
        assert kept[..i] == ks[..i] && kept[i..] == ks[i + 1..];
      } else {
        assert ks[..i + 1] == ks[..i] + [suggestion];
        i := i + 1;
      }
    }
    assert kept[i..] == [];
  }

  /** The cap of main.ts:228-231: ten or more suggestions lose the first and
      everything after the tenth. */
  function Cap<T>(ss: seq<T>): (r: seq<T>)
    ensures |r| <= 9 || r == ss
    ensures |r| == if |ss| >= 10 then 9 else |ss|
  {
    if |ss| >= 10 then ss[1..10] else ss
  }

  /** At most nine are left, every one of them from the list, and nothing
      changes for fewer than ten. */
  lemma CapProperties<T>(ss: seq<T>)
    ensures |Cap(ss)| <= 9
    ensures forall s :: s in Cap(ss) ==> s in ss
    ensures |ss| < 10 ==> Cap(ss) == ss
    ensures |ss| >= 10 ==> Cap(ss) == ss[1..10]
  {
  }

  lemma CapWithin<T>(ss: seq<T>)
    ensures forall s :: s in Cap(ss) ==> s in ss
  {
    CapProperties(ss);
  }

  /** A key press as the rerank (main.ts:209-233) leaves it: the ranked
      list, the walk's suggestions and what it found, the gathered list and
      its lists, the earlier list `before`, the view, whether the key was a
      delimiter, and the indexes and threshold used. */
  datatype RankedPress = RankedPress(ranked: seq<Suggestion>, walked: seq<Suggestion>, found: seq<Suggestion>,
                                     gathered: seq<Suggestion>, lists: seq<seq<Linkable>>, before: seq<Suggestion>,
                                     v: MarkdownView, delimited: bool,
                                     files: seq<Entry>, headers: seq<Entry>, required: nat -> real)

  /** Every ranked suggestion is placed and holds a ranked list. */
  ghost predicate RankedPlaced(p: RankedPress)
    reads set s | s in p.ranked
  {
    && |p.ranked| <= 9
    && (forall s :: s in p.ranked ==> s.Valid() && Ranked(s.linkables) && Placed(s, p.before, p.v))
  }

  /** The walk opened `walked` and `found` is what it found. */
  ghost predicate WalkFound(p: RankedPress)
    reads (set s | s in p.walked), (set s | s in p.found)
  {
    && (p.delimited ==> OpenedAtCursor(p.walked, p.v))
    && p.found == RankFound(p.walked, p.files, p.headers, p.required)
    && (forall s :: s in p.walked && s !in p.found ==> s.linkables == [])
  }

  /** `ranked` is the average sort of the cap of `gathered`. */
  ghost predicate CapRanked(p: RankedPress)
    reads (set s | s in p.ranked), (set s | s in p.found), (set s | s in p.gathered)
  {
    && |p.lists| == |p.gathered| && |Cap(p.lists)| == |Cap(p.gathered)|
    && (SortByAverageOfMembers(Cap(p.gathered), Cap(p.lists));
        p.ranked == KeepNonEmpty(SortByAverageOf(Cap(p.gathered), Cap(p.lists))))
    && Lists(Cap(p.gathered)) == TopAll(Cap(p.lists))
    && (forall k :: 0 <= k < |p.found| && p.found[k] !in Cap(p.gathered) ==>
          p.found[k].linkables == SettledLists(p.found, p.files, p.headers, p.required)[k])
    && (!p.delimited ==> p.ranked == SortByAverageOf(Cap(p.gathered), Cap(p.lists)) && AverageDesc(p.ranked))
  }

  /** The suggestion `s` is as it was. */
  twostate predicate Kept(s: Suggestion)
    reads s
  {
    unchanged(s)
  }


  /** A change that leaves every suggestion alone keeps what the rerank of
      a key press established about its suggestions. */
  twostate lemma KeyDownRankedStays(p: RankedPress)
    requires forall s: Suggestion :: old(allocated(s)) ==> Kept(s)
    requires old(RankedPlaced(p) && WalkFound(p) && CapRanked(p))
    ensures RankedPlaced(p) && WalkFound(p) && CapRanked(p)
  {
    forall s | s in p.ranked
      ensures unchanged(s)
    {
      assert Kept(s);
    }
    forall s | s in p.walked
      ensures unchanged(s)
    {
      assert Kept(s);
    }
    forall s | s in p.found
      ensures unchanged(s)
    {
      assert Kept(s);
    }
    forall s | s in p.gathered
      ensures unchanged(s)
    {
      assert Kept(s);
    }
    RankedPlacedStays(p);
    WalkFoundStays(p);
    CapRankedStays(p);
  }

  /** A change that leaves the session's suggestions alone keeps the session's invariant. */
  twostate lemma SessionStays(ss: seq<Suggestion>)
    requires forall s :: s in ss ==> unchanged(s)
    requires old(SessionHolds(ss))
    ensures SessionHolds(ss)
  {
  }

  twostate lemma RankedPlacedStays(p: RankedPress)
    requires forall s :: s in p.ranked ==> unchanged(s)
    requires old(RankedPlaced(p))
    ensures RankedPlaced(p)
  {
  }

  twostate lemma WalkFoundStays(p: RankedPress)
    requires forall s :: s in p.walked ==> unchanged(s)
    requires forall s :: s in p.found ==> unchanged(s)
    requires old(WalkFound(p))
    ensures WalkFound(p)
  {
  }

  twostate lemma CapRankedStays(p: RankedPress)
    requires forall s :: s in p.ranked ==> unchanged(s)
    requires forall s :: s in p.found ==> unchanged(s)
    requires forall s :: s in p.gathered ==> unchanged(s)
    requires old(CapRanked(p))
    ensures CapRanked(p)
  {
  }

  /** At most nine suggestions, each with a well-formed range and one to
      eleven linkables, the most similar first. */
  ghost predicate SessionHolds(ss: seq<Suggestion>)
    reads set s | s in ss
  {
    && |ss| <= 9
    && forall s :: s in ss ==> s.Valid() && Ranked(s.linkables)
  }

  /** The range dedupe keeps the session's invariant: it only drops suggestions. */
  lemma SessionFirsts(ss: seq<Suggestion>)
    requires SessionHolds(ss)
    ensures SessionHolds(FirstPerRange(ss))
  {
    FirstPerRangeSubset(ss);
  }

  class LinkSuggestions {
    var currentSuggestions: seq<Suggestion>
    // The module-level `files_tree` and `headers_tree` of main.ts:26-44.
    var filesTree: seq<Entry>
    var headersTree: seq<Entry>
    /** `Math.clamp(2.5 / Math.log2(n), 0.05, 0.9)` for a key of length n. */
    const required: nat -> real

    /** What holds between key presses: both indexes are key-ordered, the
        threshold is the clamped log, and there are at most nine current
        suggestions, each with a well-formed range and one to eleven
        linkables, the most similar first. */
    ghost predicate Valid()
      reads this, set s | s in currentSuggestions
    {
      && IsClampedLogThreshold(required)
      && KeyOrdered(filesTree) && KeyOrdered(headersTree)
      && SessionHolds(currentSuggestions)
    }

    constructor (required: nat -> real)
      requires IsClampedLogThreshold(required)
      ensures Valid()
      ensures currentSuggestions == [] && filesTree == [] && headersTree == []
      ensures this.required == required
    {
      currentSuggestions := [];
      filesTree := [];
      headersTree := [];
      this.required := required;
    }

    /** handleKeyDown (main.ts:200-236) for a key press `key` with the active
        Markdown view, if any. The session keeps its invariant. Without a view
        nothing changes. Otherwise the suggestions that end after the cursor
        are dropped; a delimiter key appends the suggestions `found` at the
        cursor, which the walk opened as `walked`; at most nine are kept by
        the cap, and those are reranked into `ranked` (main.ts:233): the
        capped list in descending order of average similarity without those
        holding nothing, each capped suggestion holding the eleven most
        similar of its list. No earlier suggestion's list changes. A found
        suggestion the cap drops keeps its settled list. For any other key
        nothing is found and `ranked` is in descending order of average
        similarity. Highlighting then sorts the session's own array by start
        column (main.ts:235), so the session ends as `ranked` in column
        order, and that is the order the next key press caps. */
    method HandleKeyDown(key: string, view: Option<MarkdownView>)
      returns (ghost walked: seq<Suggestion>, ghost found: seq<Suggestion>,
               ghost gathered: seq<Suggestion>, ghost lists: seq<seq<Linkable>>,
               ghost ranked: seq<Suggestion>)
      requires Valid()
      modifies this`currentSuggestions, (set s | s in currentSuggestions)`linkables
      ensures Valid()
      ensures view.None? ==> currentSuggestions == old(currentSuggestions)
      ensures view.Some? ==> forall s :: s in currentSuggestions ==>
        Placed(s, old(currentSuggestions), view.value) && (s in old(currentSuggestions) || fresh(s))
      ensures forall s: Suggestion :: old(allocated(s)) ==> s.linkables == old(s.linkables)
      ensures view.Some? && IsDelimiterKey(key) ==> OpenedAtCursor(walked, view.value)
      ensures Distinct(walked) && forall s :: s in walked ==> fresh(s)
      ensures found == RankFound(walked, filesTree, headersTree, required)
      ensures (view.None? || !IsDelimiterKey(key)) ==> walked == [] && found == []
      ensures forall s :: s in walked && s !in found ==> s.linkables == []
      ensures view.Some? ==> gathered == old(KeptBeforeCursor(currentSuggestions, view.value)) + found
      ensures view.Some? ==> lists == old(Lists(KeptBeforeCursor(currentSuggestions, view.value)))
                                      + SettledLists(found, filesTree, headersTree, required)
      ensures |lists| == |gathered| && |Cap(lists)| == |Cap(gathered)|
      ensures view.Some? ==> ranked == KeepNonEmpty(SortByAverageOf(Cap(gathered), Cap(lists)))
      ensures view.Some? ==> currentSuggestions == SortByColumn(ranked) && ColumnAscending(currentSuggestions)
      ensures view.Some? ==> Lists(Cap(gathered)) == TopAll(Cap(lists))
      ensures view.Some? ==> forall k :: 0 <= k < |found| && found[k] !in Cap(gathered) ==>
        found[k].linkables == SettledLists(found, filesTree, headersTree, required)[k]
      ensures view.Some? && !IsDelimiterKey(key) ==> ranked == SortByAverageOf(Cap(gathered), Cap(lists))
      ensures view.Some? && !IsDelimiterKey(key) ==> AverageDesc(ranked)
    {
      if view.None? {
        return [], [], [], [], currentSuggestions;
      }
      walked, found, gathered, lists, ranked := KeyDownAt(key, view.value);
    }

    /** applyHighlight (main.ts:164-167), which hands the session's own array
        to the highlighter's applyHighlight (main.ts:102-145). With an active
        view that array is sorted in place by start column (main.ts:114-128);
        without one nothing happens (main.ts:107-111). The suggestions stay
        the same, and none of their fields change. */
    method ApplyHighlight(view: Option<MarkdownView>)
      modifies this`currentSuggestions
      ensures view.None? ==> currentSuggestions == old(currentSuggestions)
      ensures view.Some? ==> currentSuggestions == SortByColumn(old(currentSuggestions))
      ensures view.Some? ==> ColumnAscending(currentSuggestions)
      ensures multiset(currentSuggestions) == multiset(old(currentSuggestions))
      ensures forall s :: s in currentSuggestions <==> s in old(currentSuggestions)
    {
      if view.Some? {
        SortByColumnPermutes(currentSuggestions);
        SortByColumnAscending(currentSuggestions);
        currentSuggestions := SortByColumn(currentSuggestions);
      }
    }

    /** handleKeyDown with the active view `v`: the session list is ranked
        into `ranked` (main.ts:209-233), then highlighted (main.ts:235). */
    method KeyDownAt(key: string, v: MarkdownView)
      returns (ghost walked: seq<Suggestion>, ghost found: seq<Suggestion>,
               ghost gathered: seq<Suggestion>, ghost lists: seq<seq<Linkable>>,
               ghost ranked: seq<Suggestion>)
      requires Valid()
      modifies this`currentSuggestions, (set s | s in currentSuggestions)`linkables
      ensures var p := RankedPress(ranked, walked, found, gathered, lists, old(currentSuggestions), v,
                                   IsDelimiterKey(key), filesTree, headersTree, required);
              RankedPlaced(p) && WalkFound(p) && CapRanked(p)
      ensures currentSuggestions == SortByColumn(ranked) && ColumnAscending(currentSuggestions)
      ensures forall s :: s in currentSuggestions <==> s in ranked
      ensures forall s :: s in ranked ==> s in old(currentSuggestions) || fresh(s)
      ensures forall s: Suggestion :: old(allocated(s)) && s !in found ==> s.linkables == old(s.linkables)
      ensures forall s :: s in found ==> fresh(s)
      ensures Distinct(walked) && forall s :: s in walked ==> fresh(s)
      ensures !IsDelimiterKey(key) ==> walked == [] && found == []
      ensures gathered == old(KeptBeforeCursor(currentSuggestions, v)) + found
      ensures lists == old(Lists(KeptBeforeCursor(currentSuggestions, v)))
                                      + SettledLists(found, filesTree, headersTree, required)
    {
      walked, found, gathered, lists := RankAt(key, v);
      ranked := currentSuggestions;
      ghost var press := RankedPress(ranked, walked, found, gathered, lists, old(currentSuggestions), v,
                                     IsDelimiterKey(key), filesTree, headersTree, required);
      label Ranked:
      ApplyHighlight(Some(v));
      KeyDownRankedStays@Ranked(press);
    }

    /** main.ts:209-233 with the active view `v`: the removal loop, the
        concatenation on a delimiter key, the cap and the rerank. */
    method RankAt(key: string, v: MarkdownView)
      returns (ghost walked: seq<Suggestion>, ghost found: seq<Suggestion>,
               ghost gathered: seq<Suggestion>, ghost lists: seq<seq<Linkable>>)
      requires Valid()
      modifies this`currentSuggestions, (set s | s in currentSuggestions)`linkables
      ensures var p := RankedPress(currentSuggestions, walked, found, gathered, lists, old(currentSuggestions), v,
                                   IsDelimiterKey(key), filesTree, headersTree, required);
              RankedPlaced(p) && WalkFound(p) && CapRanked(p)
      ensures forall s :: s in currentSuggestions ==> s in old(currentSuggestions) || fresh(s)
      ensures forall s: Suggestion :: old(allocated(s)) && s !in found ==> s.linkables == old(s.linkables)
      ensures forall s :: s in found ==> fresh(s)
      ensures Distinct(walked) && forall s :: s in walked ==> fresh(s)
      ensures !IsDelimiterKey(key) ==> walked == [] && found == []
      ensures gathered == old(KeptBeforeCursor(currentSuggestions, v)) + found
      ensures lists == old(Lists(KeptBeforeCursor(currentSuggestions, v)))
                                      + SettledLists(found, filesTree, headersTree, required)
    {
      ghost var kept := KeptBeforeCursor(currentSuggestions, v);
      KeptBeforeCursorMembers(currentSuggestions, v);
      walked, found, lists := Gather(key, v);
      gathered := currentSuggestions;
      CapProperties(gathered);
      RerankGathered(kept, found, lists, old(currentSuggestions), v,
                     walked, IsDelimiterKey(key), SettledLists(found, filesTree, headersTree, required));
    }

    /** The cap and the rerank of handleKeyDown (main.ts:228-233) on the
        gathered list `kept + found`, whose lists are `lists`, the earlier
        ones ranked: the list becomes the capped list sorted by the averages
        of those lists, without those holding nothing; each capped suggestion
        holds the eleven most similar of its list, so no earlier list changes;
        a found suggestion the cap drops keeps its list. */
    method RerankGathered(ghost kept: seq<Suggestion>, ghost found: seq<Suggestion>, ghost lists: seq<seq<Linkable>>,
                          ghost before: seq<Suggestion>, ghost v: MarkdownView,
                          ghost walked: seq<Suggestion>, ghost delimited: bool, ghost settled: seq<seq<Linkable>>)
      requires currentSuggestions == kept + found && Lists(kept + found) == lists
      requires forall s :: s in kept ==> Ranked(s.linkables)
      requires forall s :: s in kept + found ==> Placed(s, before, v)
      requires delimited ==> OpenedAtCursor(walked, v)
      requires forall s :: s in walked && s !in found ==> s.linkables == []
      requires Lists(found) == settled
      modifies this`currentSuggestions, (set s | s in Cap(currentSuggestions))`linkables
      ensures currentSuggestions == KeepNonEmpty(SortByAverageOf(Cap(kept + found), Cap(lists)))
      ensures Lists(Cap(kept + found)) == TopAll(Cap(lists))
      ensures forall s: Suggestion :: old(allocated(s)) && (s !in found || s !in Cap(kept + found)) ==>
        s.linkables == old(s.linkables)
      ensures |currentSuggestions| <= 9 && AllRanked(currentSuggestions)
      ensures forall s :: s in currentSuggestions ==> s in Cap(kept + found) && Placed(s, before, v)
      ensures found == [] ==>
        currentSuggestions == SortByAverageOf(Cap(kept + found), Cap(lists)) && AverageDesc(currentSuggestions)
      ensures delimited ==> OpenedAtCursor(walked, v)
      ensures forall s :: s in walked && s !in found ==> s.linkables == []
      ensures forall k :: 0 <= k < |found| && found[k] !in Cap(kept + found) ==> found[k].linkables == settled[k]
    {
      ghost var capped := Cap(kept + found);
      CapProperties(kept + found);
      CapLists(kept + found);
      ghost var L := Cap(lists);
      ghost var sorted := SortByAverage(capped);
      ghost var sortedLists := Lists(sorted);
      SortedAlong(capped, L);
      if found == [] {
        assert kept + found == kept;
      }
      assert |settled| == |found| && forall k :: 0 <= k < |found| ==> found[k].linkables == settled[k];
      RerankKeeping(kept, found, before, v, walked, delimited, settled);
      RerankedKeeps(capped, L, sorted, sortedLists);
    }

    /** Rerank on the gathered list `kept + found`, the lists of `kept`
        ranked: besides what Rerank promises, the lists of `kept` and of the
        suggestions the cap drops stay as they were. */
    method RerankKeeping(ghost kept: seq<Suggestion>, ghost found: seq<Suggestion>,
                         ghost before: seq<Suggestion>, ghost v: MarkdownView,
                         ghost walked: seq<Suggestion>, ghost delimited: bool, ghost settled: seq<seq<Linkable>>)
      requires currentSuggestions == kept + found
      requires forall s :: s in kept ==> Ranked(s.linkables)
      requires forall s :: s in kept + found ==> Placed(s, before, v)
      requires delimited ==> OpenedAtCursor(walked, v)
      requires |settled| == |found| && forall k :: 0 <= k < |found| ==> found[k].linkables == settled[k]
      modifies this`currentSuggestions, (set s | s in Cap(currentSuggestions))`linkables
      ensures currentSuggestions ==
        old(KeepListed(SortByAverage(Cap(currentSuggestions)), Lists(SortByAverage(Cap(currentSuggestions)))))
      ensures Lists(old(Cap(currentSuggestions))) == TopAll(old(Lists(Cap(currentSuggestions))))
      ensures |currentSuggestions| <= 9
      ensures forall s :: s in currentSuggestions ==> s in old(Cap(currentSuggestions)) && Placed(s, before, v)
      ensures AllRanked(currentSuggestions)
      ensures old(AllRanked(Cap(currentSuggestions))) ==>
        && currentSuggestions == old(SortByAverage(Cap(currentSuggestions)))
        && AverageDesc(currentSuggestions)
      ensures forall s: Suggestion :: old(allocated(s)) && (s !in found || s !in Cap(kept + found)) ==>
        s.linkables == old(s.linkables)
      ensures delimited ==> OpenedAtCursor(walked, v)
      ensures forall k :: 0 <= k < |found| && found[k] !in Cap(kept + found) ==> found[k].linkables == settled[k]
    {
      ghost var capped := Cap(kept + found);
      CapWithin(kept + found);
      ghost var L := Lists(capped);
      assert forall j :: 0 <= j < |capped| && capped[j] in kept ==> Ranked(L[j]);
      RerankPlaced(kept + found, found, walked, delimited, v, settled, before);
      RankedStay(capped, L, kept);
    }

    /** RerankAfterWalk on suggestions placed with respect to the list
        `before` and the view `v`: they stay placed. */
    method RerankPlaced(ghost gathered: seq<Suggestion>, ghost found: seq<Suggestion>, ghost walked: seq<Suggestion>,
                       ghost delimited: bool, ghost v: MarkdownView, ghost settled: seq<seq<Linkable>>,
                       ghost before: seq<Suggestion>)
      requires currentSuggestions == gathered
      requires forall s :: s in gathered ==> Placed(s, before, v)
      requires delimited ==> OpenedAtCursor(walked, v)
      requires |settled| == |found| && forall k :: 0 <= k < |found| ==> found[k].linkables == settled[k]
      modifies this`currentSuggestions, (set s | s in Cap(currentSuggestions))`linkables
      ensures currentSuggestions ==
        old(KeepListed(SortByAverage(Cap(currentSuggestions)), Lists(SortByAverage(Cap(currentSuggestions)))))
      ensures Lists(old(Cap(currentSuggestions))) == TopAll(old(Lists(Cap(currentSuggestions))))
      ensures |currentSuggestions| <= 9
      ensures forall s :: s in currentSuggestions ==> s in old(Cap(currentSuggestions)) && Placed(s, before, v)
      ensures AllRanked(currentSuggestions)
      ensures old(AllRanked(Cap(currentSuggestions))) ==>
        && currentSuggestions == old(SortByAverage(Cap(currentSuggestions)))
        && AverageDesc(currentSuggestions)
        && Lists(old(Cap(currentSuggestions))) == old(Lists(Cap(currentSuggestions)))
      ensures delimited ==> OpenedAtCursor(walked, v)
      ensures forall k :: 0 <= k < |found| && found[k] !in Cap(gathered) ==> found[k].linkables == settled[k]
    {
      CapWithin(gathered);
      RerankAfterWalk(gathered, found, walked, delimited, v, settled);
    }

    /** Rerank on the gathered list `gathered`, seen from the walk that found
        `found` among `walked`: the walk's positions stay as they were, and
        so does the list of every found suggestion the cap drops. */
    method RerankAfterWalk(ghost gathered: seq<Suggestion>, ghost found: seq<Suggestion>, ghost walked: seq<Suggestion>,
                           ghost delimited: bool, ghost v: MarkdownView, ghost settled: seq<seq<Linkable>>)
      requires currentSuggestions == gathered
      requires delimited ==> OpenedAtCursor(walked, v)
      requires |settled| == |found| && forall k :: 0 <= k < |found| ==> found[k].linkables == settled[k]
      modifies this`currentSuggestions, (set s | s in Cap(currentSuggestions))`linkables
      ensures currentSuggestions ==
        old(KeepListed(SortByAverage(Cap(currentSuggestions)), Lists(SortByAverage(Cap(currentSuggestions)))))
      ensures Lists(old(Cap(currentSuggestions))) == TopAll(old(Lists(Cap(currentSuggestions))))
      ensures |currentSuggestions| <= 9
      ensures forall s :: s in currentSuggestions ==> s in old(Cap(currentSuggestions))
      ensures AllRanked(currentSuggestions)
      ensures old(AllRanked(Cap(currentSuggestions))) ==>
        && currentSuggestions == old(SortByAverage(Cap(currentSuggestions)))
        && AverageDesc(currentSuggestions)
        && Lists(old(Cap(currentSuggestions))) == old(Lists(Cap(currentSuggestions)))
      ensures delimited ==> OpenedAtCursor(walked, v)
      ensures forall k :: 0 <= k < |found| && found[k] !in Cap(gathered) ==> found[k].linkables == settled[k]
    {
      Rerank();
    }

    /** The removal loop and, on a delimiter key, the concatenation of
        handleKeyDown (main.ts:210-226). The list becomes the earlier
        suggestions that end at or before the cursor, followed, on a
        delimiter key, by the suggestions `found` that FindSuggestionsOnCursor
        returns for the suggestions `walked` that its walk opened. */
    method Gather(key: string, v: MarkdownView)
      returns (ghost walked: seq<Suggestion>, ghost found: seq<Suggestion>, ghost lists: seq<seq<Linkable>>)
      requires Valid()
      modifies this`currentSuggestions
      ensures currentSuggestions == old(KeptBeforeCursor(currentSuggestions, v)) + found
      ensures lists == old(Lists(KeptBeforeCursor(currentSuggestions, v)))
                       + SettledLists(found, filesTree, headersTree, required)
      ensures Lists(currentSuggestions) == lists
      ensures forall s :: s in found ==> fresh(s) && Opens(s, v)
      ensures forall s :: s in currentSuggestions ==>
        Placed(s, old(currentSuggestions), v) && (s in old(currentSuggestions) || fresh(s))
      ensures IsDelimiterKey(key) ==> OpenedAtCursor(walked, v)
      ensures Distinct(walked) && forall s :: s in walked ==> fresh(s)
      ensures found == RankFound(walked, filesTree, headersTree, required)
      ensures !IsDelimiterKey(key) ==> walked == [] && found == []
      ensures Lists(found) == SettledLists(found, filesTree, headersTree, required)
      ensures forall s :: s in walked && s !in found ==> s.linkables == []
    {
      ghost var before := currentSuggestions;
      KeptBeforeCursorMembers(currentSuggestions, v);
      var kept := DropAfterCursor(currentSuggestions, v);
      ghost var keptLists := Lists(kept);
      assert forall s :: s in kept ==> Placed(s, before, v) && s in before;
      currentSuggestions := kept;
      if IsDelimiterKey(key) {
        walked, found := AppendFound(v, kept, keptLists, before);
      } else {
        walked, found := [], [];
        assert RankFound([], filesTree, headersTree, required) == [];
        assert currentSuggestions == kept + found;
      }
      lists := keptLists + SettledLists(found, filesTree, headersTree, required);
    }

    /** The concatenation of main.ts:223-226: the suggestions `found` at the
        cursor of `v` appended to the list `kept`, placed with respect to the
        list `before`. The list is read before the call, so the call's own
        write to it is lost. */
    method AppendFound(v: MarkdownView, kept: seq<Suggestion>, ghost keptLists: seq<seq<Linkable>>,
                       ghost before: seq<Suggestion>)
      returns (ghost walked: seq<Suggestion>, ghost found: seq<Suggestion>)
      requires currentSuggestions == kept && Lists(kept) == keptLists
      requires forall s :: s in kept ==> Placed(s, before, v) && s in before
      modifies this`currentSuggestions
      ensures currentSuggestions == kept + found
      ensures Lists(currentSuggestions) == keptLists + SettledLists(found, filesTree, headersTree, required)
      ensures forall s :: s in currentSuggestions ==> Placed(s, before, v) && (s in before || fresh(s))
      ensures forall s :: s in found ==> fresh(s) && Opens(s, v)
      ensures OpenedAtCursor(walked, v)
      ensures Distinct(walked) && forall s :: s in walked ==> fresh(s)
      ensures found == RankFound(walked, filesTree, headersTree, required)
      ensures Lists(found) == SettledLists(found, filesTree, headersTree, required)
      ensures forall s :: s in walked && s !in found ==> s.linkables == []
    {
      var suggestions;
      suggestions, walked := FoundAtCursor(v, kept, keptLists, before);
      currentSuggestions := kept + suggestions;
      found := suggestions;
      ListsAppended(kept, found, keptLists, SettledLists(found, filesTree, headersTree, required));
      PlacedAppended(kept, found, before, v);
    }

    /** FindSuggestionsOnCursor with the view `v`, seen from handleKeyDown:
        the suggestions it returns, opened at the cursor, ranked and
        settled; the suggestions `kept` stay where they were and keep their
        lists. */
    method FoundAtCursor(v: MarkdownView, ghost kept: seq<Suggestion>, ghost keptLists: seq<seq<Linkable>>,
                         ghost before: seq<Suggestion>)
      returns (suggestions: seq<Suggestion>, ghost walked: seq<Suggestion>)
      requires Lists(kept) == keptLists
      requires forall s :: s in kept ==> Placed(s, before, v) && s in before
      modifies this`currentSuggestions
      ensures forall s :: s in suggestions ==> fresh(s) && Opens(s, v)
      ensures OpenedAtCursor(walked, v)
      ensures Distinct(walked) && forall s :: s in walked ==> fresh(s)
      ensures suggestions == RankFound(walked, filesTree, headersTree, required)
      ensures Lists(suggestions) == SettledLists(suggestions, filesTree, headersTree, required)
      ensures forall s :: s in walked && s !in suggestions ==> s.linkables == []
      ensures Lists(kept) == keptLists
      ensures forall s :: s in kept ==> Placed(s, before, v) && s in before
      ensures forall s :: s in suggestions ==> Placed(s, before, v) && s !in before
    {
      suggestions, walked := FoundNew(v, before);
    }

    /** FindSuggestionsOnCursor with the view `v`: the suggestions it
        returns are new, so none is in the list `before`, and each is placed
        at the cursor. */
    method FoundNew(v: MarkdownView, ghost before: seq<Suggestion>)
      returns (suggestions: seq<Suggestion>, ghost walked: seq<Suggestion>)
      modifies this`currentSuggestions
      ensures forall s :: s in suggestions ==> fresh(s) && Opens(s, v)
      ensures OpenedAtCursor(walked, v)
      ensures Distinct(walked) && forall s :: s in walked ==> fresh(s)
      ensures suggestions == RankFound(walked, filesTree, headersTree, required)
      ensures Lists(suggestions) == SettledLists(suggestions, filesTree, headersTree, required)
      ensures forall s :: s in walked && s !in suggestions ==> s.linkables == []
      ensures forall s :: s in suggestions ==> Placed(s, before, v) && s !in before
    {
      suggestions, walked := FindSuggestionsOnCursor(Some(v));
    }

    /** The cap of handleKeyDown and the call of MakeSuggestionsUnique whose
        result becomes the session list (main.ts:228-233). The list becomes
        the capped list in descending order of average similarity without
        those holding nothing, at most nine, each holding a ranked list; the
        lists of those kept by the cap become their eleven most similar
        linkables. When every list was already ranked nothing is dropped and
        no list changes, and the order is that of descending average
        similarity. */
    method Rerank()
      modifies this`currentSuggestions, (set s | s in Cap(currentSuggestions))`linkables
      ensures currentSuggestions ==
        old(KeepListed(SortByAverage(Cap(currentSuggestions)), Lists(SortByAverage(Cap(currentSuggestions)))))
      ensures Lists(old(Cap(currentSuggestions))) == TopAll(old(Lists(Cap(currentSuggestions))))
      ensures |currentSuggestions| <= 9
      ensures forall s :: s in currentSuggestions ==> s in old(Cap(currentSuggestions))
      ensures AllRanked(currentSuggestions)
      ensures old(AllRanked(Cap(currentSuggestions))) ==>
        && currentSuggestions == old(SortByAverage(Cap(currentSuggestions)))
        && AverageDesc(currentSuggestions)
        && Lists(old(Cap(currentSuggestions))) == old(Lists(Cap(currentSuggestions)))
    {
      var r := CapAndRank(currentSuggestions);
      currentSuggestions := r;
    }

    /** The cap of handleKeyDown and the call of MakeSuggestionsUnique on the
        capped list (main.ts:228-233), before its result is stored. */
    method CapAndRank(suggestions: seq<Suggestion>) returns (r: seq<Suggestion>)
      modifies this`currentSuggestions, (set s | s in Cap(suggestions))`linkables
      ensures r == old(KeepListed(SortByAverage(Cap(suggestions)), Lists(SortByAverage(Cap(suggestions)))))
      ensures Lists(Cap(suggestions)) == TopAll(old(Lists(Cap(suggestions))))
      ensures |r| <= 9
      ensures forall s :: s in r ==> s in Cap(suggestions)
      ensures AllRanked(r)
      ensures old(AllRanked(Cap(suggestions))) ==>
        && r == old(SortByAverage(Cap(suggestions)))
        && AverageDesc(r)
        && Lists(Cap(suggestions)) == old(Lists(Cap(suggestions)))
    {
      var capped := suggestions;
      if |capped| >= 10 {
        capped := capped[1..10];
      }
      CapProperties(suggestions);
      assert capped == Cap(suggestions);
      currentSuggestions := capped;
      RankInputsUnchanged(capped);
      r := Rank(capped);
    }

    /** MakeSuggestionsUnique together with what it promises when every list
        it is given is already ranked: then it drops nothing, changes no list,
        and leaves the suggestions in descending order of average similarity. */
    method Rank(suggestions: seq<Suggestion>) returns (r: seq<Suggestion>)
      modifies this`currentSuggestions, (set s | s in suggestions)`linkables
      ensures r == old(KeepListed(SortByAverage(suggestions), Lists(SortByAverage(suggestions))))
      ensures Lists(suggestions) == TopAll(old(Lists(suggestions)))
      ensures |r| <= |suggestions|
      ensures forall s :: s in r ==> s in suggestions
      ensures AllRanked(r)
      ensures old(AllRanked(suggestions)) ==>
        && r == old(SortByAverage(suggestions))
        && AverageDesc(r)
        && Lists(suggestions) == old(Lists(suggestions))
    {
      ghost var sorted := SortByAverage(suggestions);
      ghost var ranked := AllRanked(suggestions);
      SortByAveragePermutes(suggestions);
      if ranked {
        SortByAverageProperties(suggestions);
        KeepNonEmptyAll(sorted);
      }
      ghost var before := Lists(suggestions);
      ghost var sortedBefore := Lists(sorted);
      r := MakeSuggestionsUnique(suggestions);
      RankedSelection(suggestions, before, sorted, sortedBefore);
      KeepNonEmptyRanked(sorted, sortedBefore);
      if ranked {
        RankedUnchanged(suggestions);
        ListsUnchanged(sorted);
      }
    }

    /** RebuildTree (main.ts:238-275), given the vault's Markdown files. */
    method RebuildTree(files: seq<MarkdownFile>)
      requires Valid()
      modifies this`filesTree, this`headersTree
      ensures filesTree == FilesIndex(files) && headersTree == HeadersIndex(files)
      ensures Valid()
    {
      filesTree := [];
      headersTree := [];
      IndexFiles(files);
      forall s | s in currentSuggestions
        ensures unchanged(s)
      {
      }
      SessionStays(currentSuggestions);
    }

    /** The file loop of RebuildTree (main.ts:248-272), on emptied indexes. */
    method IndexFiles(files: seq<MarkdownFile>)
      requires filesTree == [] && headersTree == []
      modifies this`filesTree, this`headersTree
      ensures filesTree == FilesIndex(files) && headersTree == HeadersIndex(files)
    {
      var i := 0;
      while i < |files|
        invariant 0 <= i <= |files|
        invariant filesTree == FilesIndex(files[..i]) && headersTree == HeadersIndex(files[..i])
      {
        assert files[..i + 1][..i] == files[..i];
        IndexFile(files[i]);
        i := i + 1;
      }
      assert files[..|files|] == files;
    }

    /** One pass of the file loop (main.ts:248-272): the file's pair is set
        into the files index and its heading pairs into the headers index. */
    method IndexFile(file: MarkdownFile)
      requires KeyOrdered(filesTree) && KeyOrdered(headersTree)
      modifies this`filesTree, this`headersTree
      ensures filesTree == SetEntry(old(filesTree), FileEntry(file).key, FileEntry(file).value)
      ensures headersTree == AddAll(old(headersTree), FileHeaderEntries(file))
    {
      var path := Lower(ReplaceFirst(file.path, ".md", ""));
      var name := file.basename;
      var linkable := NewLinkable(path, name);
      filesTree := SetEntry(filesTree, Lower(name), linkable);
      var headers := Headers(file.contents);
      AddHeaders(file.path, headers);
    }

    /** The inner loop of RebuildTree (main.ts:257-271): every heading line
        whose name is not blank is set into the headers index. */
    method AddHeaders(path: string, headers: seq<string>)
      requires KeyOrdered(headersTree)
      requires forall k :: 0 <= k < |headers| ==> HeaderName(headers[k]).Some?
      modifies this`headersTree
      ensures headersTree == AddAll(old(headersTree), HeaderEntries(path, HeaderNames(headers)))
    {
      ghost var names := HeaderNames(headers);
      ghost var start := headersTree;
      var j := 0;
      while j < |headers|
        invariant 0 <= j <= |headers|
        invariant headersTree == AddAll(start, HeaderEntries(path, names[..j]))
      {
        var headerName := HeaderName(headers[j]).value;
        assert headerName == names[j];
        var headerPath := Lower(path + "#" + headerName);
        AddHeaderStep(start, path, names, j, headersTree);
        if |Trim(headerName)| != 0 {
          var headerLinkable := NewLinkable(headerPath, headerName);
          headersTree := SetEntry(headersTree, Lower(headerName), headerLinkable);
        }
        j := j + 1;
      }
      assert names[..|headers|] == names;
    }

    /** The copying loop of GetAllFilesWithName and GetAllHeadersWithName
        (main.ts:346-355). */
    method CopyValues(values: seq<Entry>) returns (valuesCopy: seq<Linkable>)
      ensures |valuesCopy| == |values|
      ensures forall i :: 0 <= i < |values| ==> valuesCopy[i] == Copy(values[i])
    {
      valuesCopy := [];
      var i := 0;
      while i < |values|
        invariant 0 <= i <= |values| && |valuesCopy| == i
        invariant forall k :: 0 <= k < i ==> valuesCopy[k] == Copy(values[k])
      {
        var linkable := NewLinkable(values[i].value.path, values[i].value.name);
        linkable := linkable.(similarity := values[i].value.similarity);
        valuesCopy := valuesCopy + [linkable];
        i := i + 1;
      }
    }

    /** GetAllFilesWithName (main.ts:338-356). */
    method GetAllFilesWithName(name: string) returns (valuesCopy: seq<Linkable>)
      ensures valuesCopy == Copies(GetAllWithName(Lower(name), filesTree, required))
    {
      var files := GetAllWithName(Lower(name), filesTree, required);
      valuesCopy := CopyValues(files);
      assert valuesCopy == Copies(files);
    }

    /** GetAllHeadersWithName (main.ts:358-376). */
    method GetAllHeadersWithName(name: string) returns (valuesCopy: seq<Linkable>)
      ensures valuesCopy == Copies(GetAllWithName(Lower(name), headersTree, required))
    {
      var headers := GetAllWithName(Lower(name), headersTree, required);
      valuesCopy := CopyValues(headers);
      assert valuesCopy == Copies(headers);
    }

    /** MakeSuggestionsUnique (main.ts:441-476). The range filter is written
        to the session list, not to the list being worked on; the sort of the
        argument in place is a sort of a local copy here, which nothing else
        observes. */
    method MakeSuggestionsUnique(suggestions: seq<Suggestion>) returns (r: seq<Suggestion>)
      modifies this`currentSuggestions, (set s | s in suggestions)`linkables
      ensures currentSuggestions == old(FirstPerRange(currentSuggestions))
      ensures Lists(suggestions) == TopAll(old(Lists(suggestions)))
      ensures r == KeepNonEmpty(old(SortByAverage(suggestions)))
      ensures |r| <= |suggestions|
      ensures forall s :: s in r ==>
        s in suggestions && Ranked(s.linkables)
    {
      // The sort reads only the suggestions' lists, so it may come first.
      var sorted := SortByAverage(suggestions);
      currentSuggestions := FirstPerRange(currentSuggestions);
      SortByAveragePermutes(suggestions);
      ghost var before := Lists(suggestions);
      TopEach(sorted);
      forall k | 0 <= k < |suggestions|
        ensures Lists(suggestions)[k] == TopAll(before)[k]
      {
        assert suggestions[k] in sorted;
      }
      r := KeepNonEmpty(sorted);
      KeepNonEmptyMembers(sorted);
      assert |sorted| == |multiset(sorted)| == |suggestions|;
      forall s | s in r
        ensures Ranked(s.linkables)
      {
        TopLinkablesProperties(old(s.linkables));
      }
    }

    /** A word of the walk looked up in both indexes and made a suggestion
        at (line, ch) (main.ts:528-549). */
    method NewCandidate(word: string, line: int, ch: int) returns (suggestion: Suggestion)
      ensures fresh(suggestion)
      ensures suggestion.Valid() && suggestion.matchedString == word
      ensures suggestion.line == line && suggestion.ch == ch
      ensures Holds(suggestion, Lookup(word, filesTree, headersTree, required))
    {
      var linkables: seq<Linkable> := [];
      var files := GetAllFilesWithName(word);
      if |files| > 0 {
        linkables := linkables + files;
      }
      assert linkables == files;
      var headers := GetAllHeadersWithName(word);
      if |headers| > 0 {
        linkables := linkables + headers;
      } else {
        assert linkables == files + headers;
      }
      suggestion := new Suggestion(word, line, ch, linkables);
    }

    /** One step of the backward walk (main.ts:515-552): a delimiter, or the
        first character, followed by a non-blank rest of the line opens a new
        suggestion for that rest. */
    method Visit(line: string, charIndex: nat, cursorLine: int) returns (visited: Option<Suggestion>)
      requires charIndex < |line|
      ensures visited.Some? <==> YieldsWord(line, charIndex)
      ensures visited.Some? ==> fresh(visited.value) && Opened(visited.value, line, charIndex, cursorLine)
      ensures visited.Some? ==> Holds(visited.value, Lookup(visited.value.matchedString, filesTree, headersTree, required))
    {
      visited := None;
      if IsDelimiterChar(line[charIndex]) || charIndex == 0 {
        var word := ReadWord(line, charIndex);
        if |word| == 0 {
          return;
        }
        var ch := if charIndex != 0 then charIndex + 1 else charIndex;
        var suggestion := NewCandidate(word, cursorLine, ch);
        visited := Some(suggestion);
      }
    }

    /** The backward walk of FindSuggestionsOnCursor (main.ts:511-555) over the
        cut line: one new suggestion per candidate visited, in visiting order,
        holding what its word is looked up to. */
    method CollectCandidates(line: string, cursorLine: int) returns (suggestions: seq<Suggestion>)
      ensures |suggestions| == |Words(line)|
      ensures forall s :: s in suggestions ==> fresh(s)
      ensures Distinct(suggestions)
      ensures Walked(suggestions, Words(line), line, cursorLine, filesTree, headersTree, required)
    {
      suggestions := [];
      ghost var done: seq<nat> := [];
      var wordsChecked := 0;
      var charIndex := |line| - 1;
      while wordsChecked < MaxWords && charIndex >= 0
        invariant WalkedTo(line, charIndex, done)
        invariant wordsChecked == |suggestions| == |done| <= MaxWords
        invariant forall s :: s in suggestions ==> fresh(s)
        invariant Distinct(suggestions)
        invariant Walked(suggestions, done, line, cursorLine, filesTree, headersTree, required)
        decreases charIndex + 1
      {
        var visited;
        visited, suggestions, done := VisitStep(line, charIndex, cursorLine, suggestions, done);
        if visited.Some? {
          wordsChecked := wordsChecked + 1;
        }
        charIndex := charIndex - 1;
      }
      WalkEnd(line, charIndex, done);
    }

    /** Visit at `charIndex` and its record: the suggestion opened there, if
        any, joins the list and its position joins those of the candidates
        opened so far. */
    method VisitStep(line: string, charIndex: nat, cursorLine: int, suggestions: seq<Suggestion>,
                     ghost done: seq<nat>)
      returns (visited: Option<Suggestion>, next: seq<Suggestion>, ghost done': seq<nat>)
      requires charIndex < |line| && WalkedTo(line, charIndex, done)
      requires Distinct(suggestions) && Walked(suggestions, done, line, cursorLine, filesTree, headersTree, required)
      ensures WalkedTo(line, charIndex - 1, done')
      ensures visited.None? ==> next == suggestions
      ensures visited.Some? ==> next == suggestions + [visited.value]
      ensures forall s :: s in next ==> s in suggestions || fresh(s)
      ensures Distinct(next) && Walked(next, done', line, cursorLine, filesTree, headersTree, required)
    {
      visited := Visit(line, charIndex, cursorLine);
      WalkStep(line, charIndex, done);
      next, done' := suggestions, done;
      if visited.Some? {
        WalkedAppend(suggestions, done, visited.value, charIndex, line, cursorLine, filesTree, headersTree, required);
        next, done' := suggestions + [visited.value], done + [charIndex];
        assert forall s :: s in next ==> s in suggestions || s == visited.value;
      }
    }

    /** FindSuggestionsOnCursor (main.ts:483-580). Without a Markdown view
        nothing is found and nothing changes. Otherwise the walk opens the new
        suggestions `found`, one per candidate of the line cut at the cursor,
        and the result is `found` ranked as RankFound says, each holding its
        settled list: every linkable of a suggestion belongs to it and was
        looked up for its text, and no path is linked from two suggestions.
        Those dropped hold nothing. As a side effect the session list loses
        its later duplicates by range. */
    method FindSuggestionsOnCursor(view: Option<MarkdownView>)
      returns (suggestions: seq<Suggestion>, ghost found: seq<Suggestion>)
      modifies this`currentSuggestions
      ensures view.None? ==> suggestions == [] && found == [] && currentSuggestions == old(currentSuggestions)
      ensures view.Some? ==> currentSuggestions == old(FirstPerRange(currentSuggestions))
      ensures view.Some? ==> OpenedAtCursor(found, view.value)
      ensures Distinct(found) && forall s :: s in found ==> fresh(s)
      ensures suggestions == RankFound(found, filesTree, headersTree, required)
      ensures Lists(suggestions) == SettledLists(suggestions, filesTree, headersTree, required)
      ensures forall s :: s in found && s !in suggestions ==> s.linkables == []
      ensures forall s :: s in suggestions ==> fresh(s)
      ensures |suggestions| <= MaxWords && Distinct(suggestions)
      ensures view.Some? ==> forall s :: s in suggestions ==> Opens(s, view.value)
      ensures forall s :: s in suggestions ==>
        GroundedIn(s.linkables, s, Lookup(s.matchedString, filesTree, headersTree, required))
      ensures NoSharedPath(Lists(suggestions))
      ensures old(Valid()) ==> Valid()
    {
      if view.None? {
        assert RankFound([], filesTree, headersTree, required) == [];
        return [], [];
      }
      ghost var firsts := FirstPerRange(currentSuggestions);
      var candidates := Candidates(view.value);
      assert FirstPerRange(currentSuggestions) == firsts;
      suggestions := Settle(candidates);
      found := candidates;
    }

    /** The cut of the line at the cursor and the backward walk over it
        (main.ts:489-555): new, distinct suggestions, one per candidate of the
        cut line, in walk order, each opened on its candidate and holding
        what its word is looked up to. */
    method Candidates(view: MarkdownView) returns (found: seq<Suggestion>)
      ensures OpenedAtCursor(found, view) && Distinct(found)
      ensures Lists(found) == HandedLists(found, filesTree, headersTree, required)
      ensures forall s :: s in found ==> fresh(s) && Opens(s, view)
    {
      var cursor := view.cursor;
      var line := CutAtDelimiter(view.lineText, cursor.ch);
      assert line == CutLine(view);
      found := CollectCandidates(line, cursor.line);
      WalkedLists(found, Words(line), line, cursor.line, filesTree, headersTree, required);
      forall s | s in found
        ensures fresh(s) && Opens(s, view)
      {
        var k :| 0 <= k < |found| && found[k] == s;
        assert Opened(s, line, Words(line)[k], cursor.line);
      }
    }

    /** The end of FindSuggestionsOnCursor (main.ts:561-562): the new
        suggestions made unique, then their linkables. The result is `found`
        ranked as RankFound says, each holding its settled list; those
        dropped were looked up to nothing and hold nothing. */
    method Settle(found: seq<Suggestion>) returns (suggestions: seq<Suggestion>)
      requires Distinct(found)
      requires forall s :: s in found ==> s !in currentSuggestions
      requires Lists(found) == HandedLists(found, filesTree, headersTree, required)
      modifies this`currentSuggestions, (set s | s in found)`linkables
      ensures currentSuggestions == old(FirstPerRange(currentSuggestions))
      ensures suggestions == RankFound(found, filesTree, headersTree, required)
      ensures |suggestions| <= |found| && Distinct(suggestions)
      ensures forall s :: s in suggestions ==> s in found
      ensures Lists(suggestions) == SettledLists(suggestions, filesTree, headersTree, required)
      ensures forall s :: s in found && s !in suggestions ==> s.linkables == []
      ensures forall s :: s in suggestions ==>
        GroundedIn(s.linkables, s, Lookup(s.matchedString, filesTree, headersTree, required))
      ensures NoSharedPath(Lists(suggestions))
      ensures old(SessionHolds(currentSuggestions)) ==> SessionHolds(currentSuggestions)
    {
      ghost var firsts := FirstPerRange(currentSuggestions);
      ghost var held := SessionHolds(currentSuggestions);
      FirstPerRangeSubset(currentSuggestions);
      if held {
        SessionFirsts(currentSuggestions);
      }
      suggestions := SettleUnique(found);
      Reconcile(suggestions);
      if held {
        forall s | s in firsts
          ensures unchanged(s)
        {
          assert s !in found;
        }
      }
    }

    /** MakeSuggestionsUnique on the new suggestions (main.ts:561): the
        result is `found` ranked as RankFound says, each holding the top of
        its looked-up list; those dropped hold nothing. */
    method SettleUnique(found: seq<Suggestion>) returns (suggestions: seq<Suggestion>)
      requires Distinct(found)
      requires Lists(found) == HandedLists(found, filesTree, headersTree, required)
      modifies this`currentSuggestions, (set s | s in found)`linkables
      ensures currentSuggestions == old(FirstPerRange(currentSuggestions))
      ensures suggestions == RankFound(found, filesTree, headersTree, required)
      ensures |suggestions| <= |found| && Distinct(suggestions)
      ensures forall s :: s in suggestions ==> s in found
      ensures Lists(suggestions) == TopAll(HandedLists(suggestions, filesTree, headersTree, required))
      ensures forall s :: s in found && s !in suggestions ==> s.linkables == []
    {
      ghost var sorted := SortByAverage(found);
      SortByAverageIsOf(found);
      SortByAveragePermutes(found);
      suggestions := MakeSuggestionsUnique(found);
      SettledRanking(found, sorted, suggestions, filesTree, headersTree, required);
    }

    /** MakeLinkablesUnique on distinct suggestions holding their ranked
        lists: each ends up with its settled list, so they stay grounded and
        share no path. */
    method Reconcile(suggestions: seq<Suggestion>)
      requires Distinct(suggestions)
      requires Lists(suggestions) == TopAll(HandedLists(suggestions, filesTree, headersTree, required))
      modifies (set s | s in suggestions)`linkables
      ensures Lists(suggestions) == SettledLists(suggestions, filesTree, headersTree, required)
      ensures forall s :: s in suggestions ==>
        GroundedIn(s.linkables, s, Lookup(s.matchedString, filesTree, headersTree, required))
      ensures NoSharedPath(Lists(suggestions))
    {
      RankedHandedOwners(suggestions, filesTree, headersTree, required);
      MakeLinkablesUnique(suggestions);
      SettledListsProperties(suggestions, filesTree, headersTree, required);
      forall s | s in suggestions
        ensures GroundedIn(s.linkables, s, Lookup(s.matchedString, filesTree, headersTree, required))
      {
        var k :| 0 <= k < |suggestions| && suggestions[k] == s;
        assert s.linkables == SettledLists(suggestions, filesTree, headersTree, required)[k];
      }
    }
  }

  /** The two loops of main.ts:456-470: each list sorted by descending
      similarity, then cut to its first eleven. */
  method TopEach(suggestions: seq<Suggestion>)
    modifies (set s | s in suggestions)`linkables
    ensures forall s :: s in suggestions ==> s.linkables == TopLinkables(old(s.linkables))
  {
    SortEach(suggestions);
    TruncateEach(suggestions);
    forall s | s in suggestions
      ensures s.linkables == TopLinkables(old(s.linkables))
    {
      var k :| 0 <= k < |suggestions| && suggestions[k] == s;
    }
  }

  /** The loop of main.ts:456-462: each list sorted by descending similarity.
      A suggestion listed twice is sorted twice, to the same effect. */
  method SortEach(suggestions: seq<Suggestion>)
    modifies (set s | s in suggestions)`linkables
    ensures forall k :: 0 <= k < |suggestions| ==>
      suggestions[k].linkables == SortLinkables(old(suggestions[k].linkables))
  {
    ghost var before := Lists(suggestions);
    var i := 0;
    while i < |suggestions|
      invariant 0 <= i <= |suggestions|
      invariant forall k :: 0 <= k < |suggestions| ==> before[k] == old(suggestions[k].linkables)
      invariant forall k :: 0 <= k < |suggestions| ==>
        suggestions[k].linkables == if suggestions[k] in suggestions[..i] then SortLinkables(before[k]) else before[k]
    {
      var suggestion := suggestions[i];
      SortLinkablesIdempotent(before[i]);
      assert suggestions[..i + 1] == suggestions[..i] + [suggestion];
      suggestion.linkables := SortLinkables(suggestion.linkables);
      forall k | 0 <= k < |suggestions|
        ensures suggestions[k].linkables ==
          if suggestions[k] in suggestions[..i + 1] then SortLinkables(before[k]) else before[k]
      {
        if suggestions[k] == suggestion {
          assert before[k] == before[i];
        }
      }
      i := i + 1;
    }
    assert suggestions[..i] == suggestions;
  }

  /** The loop of main.ts:465-470: each list cut to its first eleven. */
  method TruncateEach(suggestions: seq<Suggestion>)
    modifies (set s | s in suggestions)`linkables
    ensures forall k :: 0 <= k < |suggestions| ==>
      suggestions[k].linkables == Take(old(suggestions[k].linkables), MaxLinkables)
  {
    ghost var before := Lists(suggestions);
    var i := 0;
    while i < |suggestions|
      invariant 0 <= i <= |suggestions|
      invariant forall k :: 0 <= k < |suggestions| ==> before[k] == old(suggestions[k].linkables)
      invariant forall k :: 0 <= k < |suggestions| ==>
        suggestions[k].linkables == if suggestions[k] in suggestions[..i] then Take(before[k], MaxLinkables) else before[k]
    {
      var suggestion := suggestions[i];
      assert suggestions[..i + 1] == suggestions[..i] + [suggestion];
      suggestion.linkables := Take(suggestion.linkables, MaxLinkables);
      forall k | 0 <= k < |suggestions|
        ensures suggestions[k].linkables ==
          if suggestions[k] in suggestions[..i + 1] then Take(before[k], MaxLinkables) else before[k]
      {
        if suggestions[k] == suggestion {
          assert before[k] == before[i];
        }
      }
      i := i + 1;
    }
    assert suggestions[..i] == suggestions;
  }
}
