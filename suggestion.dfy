// The two entities of the engine (main.ts:12-24, main.ts:50-88): a Linkable
// is a link target found for a piece of text, a Suggestion is a piece of
// the current line together with the targets found for it.

module Suggestions {
  import opened Style

  /** A link target. The source's objects are only ever referenced from one
      list at a time, so a value with the back-pointer `owner` (the
      Suggestion that holds it, null until one does) behaves the same. */
  datatype Linkable = Linkable(path: string, name: string, similarity: real, owner: Suggestion?)

  /** `new Linkable(path, name)` (main.ts:19-22): similarity starts at 0. */
  function NewLinkable(path: string, name: string): (l: Linkable)
    ensures l.path == path && l.name == name && l.similarity == 0.0 && l.owner == null
  {
    Linkable(path, name, 0.0, null)
  }

  class Suggestion {
    const matchedString: string
    const length: int
    // The source's field `char` is named `ch` here (`char` is a Dafny type).
    var line: int
    var ch: int
    var range: Range
    var linkables: seq<Linkable>

    /** The range covers exactly `length` characters from (line, ch), and
        `length` is that of the matched text. */
    ghost predicate Valid()
      reads this`line, this`ch, this`range
    {
      length == |matchedString| && range == Span(line, ch, length)
    }

    /** main.ts:61-75: the range is derived from the position and the
        length, and every linkable handed over gets this object as owner. */
    constructor (matchedString: string, line: int, ch: int, linkables: seq<Linkable>)
      ensures Valid()
      ensures this.matchedString == matchedString && this.line == line && this.ch == ch
      ensures |this.linkables| == |linkables|
      ensures forall i :: 0 <= i < |linkables| ==> this.linkables[i] == linkables[i].(owner := this)
    {
      this.matchedString := matchedString;
      this.line := line;
      this.ch := ch;
      this.length := |matchedString|;
      this.linkables := linkables;
      this.range := Span(line, ch, |matchedString|);
      new;
      var i := 0;
      while i < |this.linkables|
        invariant 0 <= i <= |this.linkables| == |linkables|
        invariant Valid() && this.line == line && this.ch == ch
        invariant forall k :: 0 <= k < i ==> this.linkables[k] == linkables[k].(owner := this)
        invariant forall k :: i <= k < |linkables| ==> this.linkables[k] == linkables[k]
      {
        this.linkables := this.linkables[i := this.linkables[i].(owner := this)];
        i := i + 1;
      }
    }

    /** shiftCharBy (main.ts:77-81): moves the suggestion along its line. */
    method ShiftCharBy(offset: int)
      requires Valid()
      modifies this`ch, this`range
      ensures Valid()
      ensures ch == old(ch) + offset && line == old(line)
      ensures range.to.ch - range.from.ch == length
    {
      ch := ch + offset;
      range := Span(line, ch, length);
    }

    /** shiftLineBy (main.ts:83-87): moves the suggestion to another line. */
    method ShiftLineBy(offset: int)
      requires Valid()
      modifies this`line, this`range
      ensures Valid()
      ensures line == old(line) + offset && ch == old(ch)
      ensures range.to.ch - range.from.ch == length
    {
      line := line + offset;
      range := Span(line, ch, length);
    }
  }

  /** No suggestion object occurs twice. */
  predicate Distinct(ss: seq<Suggestion>) {
    forall i, j :: 0 <= i < j < |ss| ==> ss[i] != ss[j]
  }

  /** The linkable lists of a sequence of suggestions, in order. */
  function Lists(ss: seq<Suggestion>): (r: seq<seq<Linkable>>)
    reads set s | s in ss
    ensures |r| == |ss| && forall k :: 0 <= k < |ss| ==> r[k] == ss[k].linkables
  {
    seq(|ss|, k requires 0 <= k < |ss| reads ss => ss[k].linkables)
  }
}
