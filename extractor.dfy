// The line walk of FindSuggestionsOnCursor (main.ts:501-555): the line is
// cut at the first delimiter at or after the cursor, then read backwards;
// every delimiter (and the start of the line) opens a candidate that runs to
// the end of the cut line.

module Extractor {
  import opened Text

  /** At most this many candidates are looked up (main.ts:492). */
  const MaxWords: nat := 8

  /** The index of the first delimiter at or after `i`, or |line| when there is
      none (main.ts:502-509; a negative start is read from 0). */
  function DelimiterFrom(line: string, i: int): (k: int)
    ensures (if i < 0 then 0 else i) <= k || k == |line|
    ensures 0 <= k <= |line|
    ensures k < |line| ==> IsDelimiterChar(line[k])
    ensures forall m :: i <= m < k && 0 <= m ==> !IsDelimiterChar(line[m])
    decreases |line| - i
  {
    if i >= |line| then |line|
    else if i >= 0 && IsDelimiterChar(line[i]) then i
    else DelimiterFrom(line, i + 1)
  }

  /** The line as the backward walk sees it. */
  function Truncated(line: string, cursor: int): string
  {
    line[..DelimiterFrom(line, cursor)]
  }

  /** Cutting stops at the first delimiter from the cursor on: the result is a
      prefix of the line without delimiters from the cursor on, and either it
      is the whole line or the next character is a delimiter at or after the
      cursor. */
  lemma TruncatedProperties(line: string, cursor: int)
    ensures IsPrefix(Truncated(line, cursor), line)
    ensures forall m :: 0 <= m < |Truncated(line, cursor)| && cursor <= m ==> !IsDelimiterChar(line[m])
    ensures Truncated(line, cursor) == line ||
      (cursor <= |Truncated(line, cursor)| < |line| && IsDelimiterChar(line[|Truncated(line, cursor)|]))
  {
  }

  /** Where the candidate opened at `c` starts: after the delimiter, or at 0
      for the first character (main.ts:517-520, main.ts:549). */
  function WordStart(c: nat): nat {
    if c != 0 then c + 1 else 0
  }

  /** The candidate opened at `c`: the trimmed rest of the line. */
  function WordAt(line: string, c: nat): string
    requires c < |line|
  {
    Trim(line[WordStart(c)..])
  }

  /** A candidate opens at `c` and is looked up (main.ts:515, main.ts:524). */
  predicate YieldsWord(line: string, c: int) {
    0 <= c < |line| && (IsDelimiterChar(line[c]) || c == 0) && !Blank(line[WordStart(c)..])
  }

  /** The positions c, c - 1, ..., 0 that open a candidate, in the order the
      walk visits them. */
  function WordPositions(line: string, c: int): seq<nat>
    requires c < |line|
    decreases c + 1
  {
    if c < 0 then []
    else
      var rest := WordPositions(line, c - 1);
      if YieldsWord(line, c) then [c] + rest else rest
  }

  /** The walk visits positions from c downwards, each once. */
  lemma {:induction false} WordPositionsDescending(line: string, c: int)
    requires c < |line|
    ensures forall i :: 0 <= i < |WordPositions(line, c)| ==> WordPositions(line, c)[i] <= c
    ensures forall i, j :: 0 <= i < j < |WordPositions(line, c)| ==> WordPositions(line, c)[i] > WordPositions(line, c)[j]
    decreases c + 1
  {
    if c >= 0 {
      WordPositionsDescending(line, c - 1);
    }
  }

  /** The walk visits exactly the positions that open a candidate. */
  lemma {:induction false} WordPositionsExact(line: string, c: int)
    requires c < |line|
    ensures forall m :: m in WordPositions(line, c) ==> YieldsWord(line, m)
    ensures forall m :: 0 <= m <= c && YieldsWord(line, m) ==> m in WordPositions(line, c)
    decreases c + 1
  {
    if c >= 0 {
      WordPositionsExact(line, c - 1);
    }
  }

  /** The walk has come down to `c`, having recorded `done`: what it recorded
      and what is left to visit make up all positions that open a candidate. */
  ghost predicate WalkedTo(line: string, c: int, done: seq<nat>) {
    -1 <= c < |line| && done + WordPositions(line, c) == WordPositions(line, |line| - 1)
  }

  /** One step of the walk from c to c - 1: the position is recorded exactly
      when it opens a candidate. */
  lemma WalkStep(line: string, c: nat, done: seq<nat>)
    requires WalkedTo(line, c, done)
    ensures YieldsWord(line, c) ==> WalkedTo(line, c - 1, done + [c])
    ensures !YieldsWord(line, c) ==> WalkedTo(line, c - 1, done)
  {
    if YieldsWord(line, c) {
      assert WordPositions(line, c) == [c] + WordPositions(line, c - 1);
      assert (done + [c]) + WordPositions(line, c - 1) == done + ([c] + WordPositions(line, c - 1));
    }
  }

  /** The candidates visited before the walk stops: the first MaxWords of all. */
  function Words(line: string): (r: seq<nat>)
    ensures |r| <= MaxWords
  {
    var ps := WordPositions(line, |line| - 1);
    if |ps| <= MaxWords then ps else ps[..MaxWords]
  }

  /** Where the walk stops, at the start of the line or after MaxWords
      candidates, it has recorded exactly the candidates Words names. */
  lemma WalkEnd(line: string, c: int, done: seq<nat>)
    requires WalkedTo(line, c, done) && |done| <= MaxWords
    requires |done| == MaxWords || c < 0
    ensures done == Words(line)
  {
    var all := WordPositions(line, |line| - 1);
    assert done == all[..|done|];
  }
}
