// What RebuildTree puts into the two indexes (main.ts:238-275): one pair
// per Markdown file, keyed by its lower-cased basename, and one pair per
// ATX heading line, keyed by the lower-cased heading name.

module IndexBuilder {
  import opened Text
  import opened Suggestions
  import opened NameIndex
  import opened Options

  /** A vault file as RebuildTree sees it: `file.path`, `file.basename` and
      the text `app.vault.read(file)` yields. */
  datatype MarkdownFile = MarkdownFile(path: string, basename: string, contents: string)

  /** The characters that end a line for `^` and `.` of a JavaScript
      regular expression in multiline mode. */
  predicate IsLineTerminator(c: char) {
    c == '\n' || c == '\r' || c == '\U{2028}' || c == '\U{2029}'
  }

  /** The first line terminator at or after i, or the end of s. */
  function LineEnd(s: string, i: nat): (e: nat)
    requires i <= |s|
    ensures i <= e <= |s|
    ensures forall k :: i <= k < e ==> !IsLineTerminator(s[k])
    ensures e < |s| ==> IsLineTerminator(s[e])
    decreases |s| - i
  {
    if i == |s| || IsLineTerminator(s[i]) then i else LineEnd(s, i + 1)
  }

  /** The lines of s from position i on: the stretches between terminators. */
  function LinesFrom(s: string, i: nat): (r: seq<string>)
    requires i <= |s|
    ensures |r| > 0
    ensures forall k, m :: 0 <= k < |r| && 0 <= m < |r[k]| ==> !IsLineTerminator(r[k][m])
    decreases |s| - i
  {
    var e := LineEnd(s, i);
    if e < |s| then [s[i..e]] + LinesFrom(s, e + 1) else [s[i..e]]
  }

  /** The lines `ls` joined back with the terminators `ts` between them. */
  function Joined(ls: seq<string>, ts: seq<char>): string
    requires |ls| == |ts| + 1
  {
    if |ts| == 0 then ls[0] else ls[0] + [ts[0]] + Joined(ls[1..], ts[1..])
  }

  /** The terminators of s from position i on, in order. */
  function TerminatorsFrom(s: string, i: nat): (ts: seq<char>)
    requires i <= |s|
    ensures forall k :: 0 <= k < |ts| ==> IsLineTerminator(ts[k])
    decreases |s| - i
  {
    var e := LineEnd(s, i);
    if e < |s| then [s[e]] + TerminatorsFrom(s, e + 1) else []
  }

  /** Joining a first line and a terminator in front of more lines. */
  lemma JoinedCons(line: string, t: char, ls: seq<string>, ts: seq<char>)
    requires |ls| == |ts| + 1
    ensures Joined([line] + ls, [t] + ts) == line + [t] + Joined(ls, ts)
  {
    assert ([line] + ls)[1..] == ls;
    assert ([t] + ts)[1..] == ts;
  }

  /** The text from `i` on is the stretch up to `e`, the character at `e`
      and the text after it. */
  lemma SplitAround(s: string, i: nat, e: nat)
    requires i <= e < |s|
    ensures s[i..] == s[i..e] + [s[e]] + s[e + 1..]
  {
  }

  /** Nothing is lost: the lines, joined with the terminators between them,
      give back the text; since no line holds a terminator, the lines are
      exactly the stretches between consecutive terminators. */
  lemma {:induction false} LinesFromJoined(s: string, i: nat)
    requires i <= |s|
    ensures |TerminatorsFrom(s, i)| + 1 == |LinesFrom(s, i)|
    ensures Joined(LinesFrom(s, i), TerminatorsFrom(s, i)) == s[i..]
    decreases |s| - i
  {
    if LineEnd(s, i) < |s| {
      LinesFromJoined(s, LineEnd(s, i) + 1);
      LinesFromJoinedStep(s, i);
    } else {
      LinesFromJoinedLast(s, i);
    }
  }

  /** LinesFromJoined for a text from `i` on that holds a terminator, given
      it for the text after that terminator. */
  lemma LinesFromJoinedStep(s: string, i: nat)
    requires i <= |s| && LineEnd(s, i) < |s|
    requires |TerminatorsFrom(s, LineEnd(s, i) + 1)| + 1 == |LinesFrom(s, LineEnd(s, i) + 1)|
    requires Joined(LinesFrom(s, LineEnd(s, i) + 1), TerminatorsFrom(s, LineEnd(s, i) + 1)) == s[LineEnd(s, i) + 1..]
    ensures |TerminatorsFrom(s, i)| + 1 == |LinesFrom(s, i)|
    ensures Joined(LinesFrom(s, i), TerminatorsFrom(s, i)) == s[i..]
  {
    var e := LineEnd(s, i);
    JoinedCons(s[i..e], s[e], LinesFrom(s, e + 1), TerminatorsFrom(s, e + 1));
    SplitAround(s, i, e);
  }

  /** LinesFromJoined for a text from `i` on that holds no terminator. */
  lemma LinesFromJoinedLast(s: string, i: nat)
    requires i <= |s| && LineEnd(s, i) == |s|
    ensures |TerminatorsFrom(s, i)| + 1 == |LinesFrom(s, i)|
    ensures Joined(LinesFrom(s, i), TerminatorsFrom(s, i)) == s[i..]
  {
  }

  function Lines(s: string): seq<string> {
    LinesFrom(s, 0)
  }

  /** The number of '#' characters a line starts with. */
  function LeadingHashes(line: string): (h: nat)
    ensures h <= |line|
    ensures forall i :: 0 <= i < h ==> line[i] == '#'
    ensures h < |line| ==> line[h] != '#'
  {
    if |line| > 0 && line[0] == '#' then 1 + LeadingHashes(line[1..]) else 0
  }

  /** A line matched by /^#{1,6} .*&#47;gm and what `replace(/^#{1,6} /, '')`
      leaves of it (main.ts:256, main.ts:262): one to six '#', one space,
      then the name. Seven or more '#' never match, since the character
      after any six of them is again a '#'. */
  function HeaderName(line: string): Option<string> {
    var h := LeadingHashes(line);
    if 1 <= h <= 6 && h < |line| && line[h] == ' ' then Some(line[h + 1..]) else None
  }

  /** A line holds a heading exactly when it starts with one to six '#'
      followed by a space; the name is all that follows the space, untrimmed. */
  lemma HeaderNameIff(line: string, h: nat)
    ensures (1 <= h <= 6 && h < |line| && (forall i :: 0 <= i < h ==> line[i] == '#') && line[h] == ' ')
            ==> HeaderName(line) == Some(line[h + 1..])
    ensures HeaderName(line).Some? ==>
            exists g :: 1 <= g <= 6 && g < |line| && (forall i :: 0 <= i < g ==> line[i] == '#') && line[g] == ' '
                        && HeaderName(line).value == line[g + 1..]
  {
    var g := LeadingHashes(line);
    if 1 <= h <= 6 && h < |line| && (forall i :: 0 <= i < h ==> line[i] == '#') && line[h] == ' ' {
      assert g == h;
    }
  }

  /** The matches of /^#{1,6} .*&#47;gm in a file's text: its heading lines in order. */
  function Headers(contents: string): (r: seq<string>)
    ensures forall k :: 0 <= k < |r| ==> HeaderName(r[k]).Some?
  {
    HeaderLines(Lines(contents))
  }

  function HeaderLines(lines: seq<string>): (r: seq<string>)
    ensures forall k :: 0 <= k < |r| ==> HeaderName(r[k]).Some? && r[k] in lines
    ensures forall k :: 0 <= k < |lines| && HeaderName(lines[k]).Some? ==> lines[k] in r
  {
    if |lines| == 0 then []
    else
      var rest := HeaderLines(lines[1..]);
      (if HeaderName(lines[0]).Some? then [lines[0]] else []) + rest
  }

  /** Each heading line is picked up as often as it occurs, and no other line. */
  lemma {:induction false} HeaderLinesCounts(lines: seq<string>)
    ensures forall x :: multiset(HeaderLines(lines))[x] == if HeaderName(x).Some? then multiset(lines)[x] else 0
  {
    if |lines| > 0 {
      HeaderLinesCounts(lines[1..]);
      assert lines == [lines[0]] + lines[1..];
    }
  }

  /** The files-index pair of a file (main.ts:246-251): keyed by the lower-cased
      basename; the path is the lower-cased path with its first ".md" removed. */
  function FileEntry(f: MarkdownFile): Entry {
    Entry(Lower(f.basename), NewLinkable(Lower(ReplaceFirst(f.path, ".md", "")), f.basename))
  }

  /** The headers-index pair of a heading named `name` in the file at `path`
      (main.ts:262-268): the path keeps ".md" and is lower-cased after the '#'. */
  function HeaderEntry(path: string, name: string): Entry {
    Entry(Lower(name), NewLinkable(Lower(path + "#" + name), name))
  }

  /** The names `replace(/^#{1,6} /, '')` leaves of the heading lines. */
  function HeaderNames(headers: seq<string>): (r: seq<string>)
    requires forall k :: 0 <= k < |headers| ==> HeaderName(headers[k]).Some?
    ensures |r| == |headers|
    ensures forall k :: 0 <= k < |headers| ==> r[k] == HeaderName(headers[k]).value
  {
    seq(|headers|, k requires 0 <= k < |headers| => HeaderName(headers[k]).value)
  }

  /** The pairs the headings named `names` of the file at `path` add; a
      heading whose name is only whitespace is skipped (main.ts:265). */
  function HeaderEntries(path: string, names: seq<string>): seq<Entry> {
    if |names| == 0 then []
    else
      var name := names[|names| - 1];
      HeaderEntries(path, names[..|names| - 1])
      + (if Blank(name) then [] else [HeaderEntry(path, name)])
  }

  /** The names that are not all whitespace, in order, each as often as it
      occurs. */
  function NonBlank(names: seq<string>): (r: seq<string>)
    ensures forall x :: multiset(r)[x] == if Blank(x) then 0 else multiset(names)[x]
  {
    if |names| == 0 then []
    else
      var init := names[..|names| - 1];
      var name := names[|names| - 1];
      assert names == init + [name];
      NonBlank(init) + (if Blank(name) then [] else [name])
  }

  /** One more heading adds its pair unless its name is blank. */
  lemma HeaderEntriesStep(path: string, names: seq<string>, j: nat)
    requires j < |names|
    ensures HeaderEntries(path, names[..j + 1])
            == HeaderEntries(path, names[..j]) + (if Blank(names[j]) then [] else [HeaderEntry(path, names[j])])
  {
    assert names[..j + 1][..j] == names[..j];
  }

  /** One pair per heading whose name is not all whitespace, in heading
      order: two headings with the same name give two equal pairs. */
  lemma {:induction false} HeaderEntriesCounts(path: string, names: seq<string>)
    ensures |HeaderEntries(path, names)| == |NonBlank(names)|
    ensures forall i :: 0 <= i < |NonBlank(names)| ==>
      HeaderEntries(path, names)[i] == HeaderEntry(path, NonBlank(names)[i])
  {
    if |names| > 0 {
      HeaderEntriesCounts(path, names[..|names| - 1]);
    }
  }

  /** Every pair of HeaderEntries comes from a heading whose name is not all
      whitespace, and every such heading gives its pair. */
  lemma {:induction false} HeaderEntriesMembers(path: string, names: seq<string>)
    ensures forall e :: e in HeaderEntries(path, names) ==>
      exists k :: 0 <= k < |names| && !Blank(names[k]) && e == HeaderEntry(path, names[k])
    ensures forall k :: 0 <= k < |names| && !Blank(names[k]) ==>
      HeaderEntry(path, names[k]) in HeaderEntries(path, names)
  {
    if |names| > 0 {
      var init := names[..|names| - 1];
      var last := names[|names| - 1];
      HeaderEntriesMembers(path, init);
      forall e | e in HeaderEntries(path, names)
        ensures exists k :: 0 <= k < |names| && !Blank(names[k]) && e == HeaderEntry(path, names[k])
      {
        if e in HeaderEntries(path, init) {
          var k :| 0 <= k < |init| && !Blank(init[k]) && e == HeaderEntry(path, init[k]);
          assert init[k] == names[k];
        } else {
          assert !Blank(last) && e == HeaderEntry(path, last);
        }
      }
      forall k | 0 <= k < |names| && !Blank(names[k])
        ensures HeaderEntry(path, names[k]) in HeaderEntries(path, names)
      {
        if k < |names| - 1 {
          assert init[k] == names[k];
        }
      }
    }
  }

  /** The pairs a file contributes to the headers index. */
  function FileHeaderEntries(f: MarkdownFile): seq<Entry> {
    HeaderEntries(f.path, HeaderNames(Headers(f.contents)))
  }

  /** `tree.set` applied to every pair of es in turn. */
  function AddAll(t: seq<Entry>, es: seq<Entry>): (r: seq<Entry>)
    requires KeyOrdered(t)
    ensures KeyOrdered(r)
    ensures multiset(r) == multiset(t) + multiset(es)
  {
    if |es| == 0 then t
    else
      var s := AddAll(t, es[..|es| - 1]);
      var e := es[|es| - 1];
      SetEntryProperties(s, e.key, e.value);
      assert es == es[..|es| - 1] + [e];
      SetEntry(s, e.key, e.value)
  }

  lemma AddAllAppend(t: seq<Entry>, es: seq<Entry>, e: Entry)
    requires KeyOrdered(t)
    ensures AddAll(t, es + [e]) == SetEntry(AddAll(t, es), e.key, e.value)
  {
    assert (es + [e])[..|es|] == es;
  }

  /** One pass of the heading loop of RebuildTree (main.ts:262-269) extends
      the index by the pair of the next heading, if that heading keeps one. */
  lemma AddHeaderStep(start: seq<Entry>, path: string, names: seq<string>, j: nat, tree: seq<Entry>)
    requires KeyOrdered(start) && j < |names|
    requires tree == AddAll(start, HeaderEntries(path, names[..j]))
    ensures KeyOrdered(tree)
    ensures |Trim(names[j])| != 0 ==>
      SetEntry(tree, Lower(names[j]), NewLinkable(Lower(path + "#" + names[j]), names[j]))
      == AddAll(start, HeaderEntries(path, names[..j + 1]))
    ensures |Trim(names[j])| == 0 ==> tree == AddAll(start, HeaderEntries(path, names[..j + 1]))
  {
    var es := HeaderEntries(path, names[..j]);
    var e := HeaderEntry(path, names[j]);
    HeaderEntriesStep(path, names, j);
    BlankIsTrimEmpty(names[j]);
    if Blank(names[j]) {
      assert HeaderEntries(path, names[..j + 1]) == es;
    } else {
      assert HeaderEntries(path, names[..j + 1]) == es + [e];
      AddAllAppend(start, es, e);
    }
  }

  /** The files index RebuildTree leaves behind: the pair of every file set
      in turn into an empty index. */
  function FilesIndex(files: seq<MarkdownFile>): (r: seq<Entry>)
    ensures KeyOrdered(r)
  {
    if |files| == 0 then []
    else
      var t := FilesIndex(files[..|files| - 1]);
      var e := FileEntry(files[|files| - 1]);
      SetEntryProperties(t, e.key, e.value);
      SetEntry(t, e.key, e.value)
  }

  /** The headers index RebuildTree leaves behind: the heading pairs of every
      file set in turn into an empty index. */
  function HeadersIndex(files: seq<MarkdownFile>): (r: seq<Entry>)
    ensures KeyOrdered(r)
  {
    if |files| == 0 then []
    else AddAll(HeadersIndex(files[..|files| - 1]), FileHeaderEntries(files[|files| - 1]))
  }

  /** Each file adds exactly one pair to the files index, keyed by its
      lower-cased basename, and the index is key-ordered. */
  lemma {:induction false} FilesIndexProperties(files: seq<MarkdownFile>)
    ensures KeyOrdered(FilesIndex(files))
    ensures multiset(FilesIndex(files)) == multiset(seq(|files|, i requires 0 <= i < |files| => FileEntry(files[i])))
    ensures |FilesIndex(files)| == |files|
  {
    var es := seq(|files|, i requires 0 <= i < |files| => FileEntry(files[i]));
    if |files| > 0 {
      var init := files[..|files| - 1];
      FilesIndexProperties(init);
      var t := FilesIndex(init);
      var e := FileEntry(files[|files| - 1]);
      SetEntryProperties(t, e.key, e.value);
      assert es == seq(|init|, i requires 0 <= i < |init| => FileEntry(init[i])) + [e];
    }
  }

  function AllHeaderEntries(files: seq<MarkdownFile>): seq<Entry> {
    if |files| == 0 then []
    else AllHeaderEntries(files[..|files| - 1]) + FileHeaderEntries(files[|files| - 1])
  }

  /** The headers index holds exactly the pairs of the heading lines of all
      files, and is key-ordered. */
  lemma {:induction false} HeadersIndexProperties(files: seq<MarkdownFile>)
    ensures KeyOrdered(HeadersIndex(files))
    ensures multiset(HeadersIndex(files)) == multiset(AllHeaderEntries(files))
  {
    if |files| > 0 {
      HeadersIndexProperties(files[..|files| - 1]);
    }
  }

  /** The path of a file whose name ends in the only ".md" of its path loses
      exactly that suffix. */
  lemma {:induction false} ReplaceMdSuffix(s: string)
    requires !Contains(s, ".md")
    ensures ReplaceFirst(s + ".md", ".md", "") == s
  {
    if |s| > 0 {
      assert (s + ".md")[1..] == s[1..] + ".md";
      if |s| >= 3 {
        assert (s + ".md")[..3] == s[..3];
      }
      ReplaceMdSuffix(s[1..]);
    }
  }

  /** Only the first ".md" goes: a folder named "x.md" keeps "x" and loses the
      extension of the file name only when it is the first occurrence. */
  lemma ReplaceMdFirstOnly()
    ensures ReplaceFirst("a.md/b.md", ".md", "") == "a/b.md"
  {
    var s := "a.md/b.md";
    assert s[..3][0] == 'a';
    assert s[1..][..3] == ".md";
    assert s[1..][3..] == "/b.md";
  }
}
