// The two name indexes, files_tree and headers_tree (main.ts:26-44), and the
// query over them (main.ts:323-336). A B-tree whose comparator never answers
// "equal" keeps every inserted pair, so an index is a key-ordered sequence of
// (key, Linkable) pairs that may repeat keys.

module NameIndex {
  import opened Text
  import opened Similarity
  import opened Suggestions

  datatype Entry = Entry(key: string, value: Linkable)

  /** Keys never decrease along the index. */
  predicate KeyOrdered(t: seq<Entry>) {
    forall i, j :: 0 <= i < j < |t| ==> !StrLess(t[j].key, t[i].key)
  }

  /** Where `tree.set(key, v)` puts a new pair. The B-tree's binary search
      compares each key already stored against the new one, and the
      comparator answers 1 for equal keys, so the search moves left past
      them: the new pair goes before every key that is not less than it. */
  function LowerBound(t: seq<Entry>, key: string): (p: nat)
    requires KeyOrdered(t)
    ensures p <= |t|
    ensures forall i :: 0 <= i < p ==> StrLess(t[i].key, key)
    ensures forall i :: p <= i < |t| ==> !StrLess(t[i].key, key)
  {
    if |t| == 0 then 0
    else if !StrLess(t[0].key, key) then
      KeysNotBelowFirst(t, key);
      0
    else 1 + LowerBound(t[1..], key)
  }

  lemma KeysNotBelowFirst(t: seq<Entry>, key: string)
    requires KeyOrdered(t) && |t| > 0 && !StrLess(t[0].key, key)
    ensures forall i :: 0 <= i < |t| ==> !StrLess(t[i].key, key)
  {
    forall i | 0 < i < |t|
      ensures !StrLess(t[i].key, key)
    {
      if StrLess(t[i].key, key) && t[i].key != t[0].key {
        StrLessTotal(t[i].key, t[0].key);
        StrLessTransitive(t[0].key, t[i].key, key);
      }
    }
  }

  /** `tree.set(key, value)`. */
  function SetEntry(t: seq<Entry>, key: string, value: Linkable): (r: seq<Entry>)
    requires KeyOrdered(t)
  {
    var p := LowerBound(t, key);
    t[..p] + [Entry(key, value)] + t[p..]
  }

  /** Inserting keeps the keys ordered and adds exactly the new pair; the
      pairs with a smaller key stay in place, and the others (those with an
      equal key among them) move up one place behind the new pair. */
  lemma SetEntryProperties(t: seq<Entry>, key: string, value: Linkable)
    requires KeyOrdered(t)
    ensures KeyOrdered(SetEntry(t, key, value))
    ensures multiset(SetEntry(t, key, value)) == multiset(t) + multiset{Entry(key, value)}
    ensures |SetEntry(t, key, value)| == |t| + 1
    ensures forall i :: 0 <= i < |t| && StrLess(t[i].key, key) ==> SetEntry(t, key, value)[i] == t[i]
    ensures forall i :: 0 <= i < |t| && !StrLess(t[i].key, key) ==> SetEntry(t, key, value)[i + 1] == t[i]
  {
    var p := LowerBound(t, key);
    var r := SetEntry(t, key, value);
    assert t == t[..p] + t[p..];
    forall i, j | 0 <= i < j < |r|
      ensures !StrLess(r[j].key, r[i].key)
    {
      if j == p {
        StrLessAsymmetric(r[i].key, key);
      }
    }
  }

  /** GetStringSimimilarity(key, name) written into the pair's Linkable
      (main.ts:326-332). */
  function Scored(e: Entry, name: string): Entry {
    Entry(e.key, e.value.(similarity := GetStringSimilarity(e.key, name)))
  }

  /** GetAllWithName (main.ts:323-336): the pairs whose key passes the
      length-dependent threshold, in index order, each carrying its
      similarity to the query. */
  function GetAllWithName(name: string, tree: seq<Entry>, required: nat -> real): (r: seq<Entry>)
    ensures |r| <= |tree|
  {
    if |tree| == 0 then []
    else (if Accepts(required, tree[0].key, name) then [Scored(tree[0], name)] else [])
         + GetAllWithName(name, tree[1..], required)
  }

  /** The pairs of the index whose key passes the threshold for `name`, in
      index order, each as often as it occurs in the index. */
  function Passing(name: string, tree: seq<Entry>, required: nat -> real): seq<Entry> {
    if |tree| == 0 then []
    else (if Accepts(required, tree[0].key, name) then [tree[0]] else []) + Passing(name, tree[1..], required)
  }

  /** Passing keeps every passing pair as often as the index holds it, and
      nothing else. */
  lemma {:induction false} PassingCounts(name: string, tree: seq<Entry>, required: nat -> real)
    ensures forall e :: e in Passing(name, tree, required) ==> e in tree
    ensures forall e :: e in tree ==>
      multiset(Passing(name, tree, required))[e] == if Accepts(required, e.key, name) then multiset(tree)[e] else 0
  {
    if |tree| > 0 {
      PassingCounts(name, tree[1..], required);
      assert tree == [tree[0]] + tree[1..];
    }
  }

  /** The result is the scored passing pairs one by one, so a pair that
      occurs twice in the index occurs twice in the result. */
  lemma {:induction false} GetAllWithNameCounts(name: string, tree: seq<Entry>, required: nat -> real)
    ensures |GetAllWithName(name, tree, required)| == |Passing(name, tree, required)|
    ensures forall i :: 0 <= i < |Passing(name, tree, required)| ==>
      GetAllWithName(name, tree, required)[i] == Scored(Passing(name, tree, required)[i], name)
  {
    if |tree| > 0 {
      var tail := tree[1..];
      GetAllWithNameCounts(name, tail, required);
      if Accepts(required, tree[0].key, name) {
        assert GetAllWithName(name, tree, required) == [Scored(tree[0], name)] + GetAllWithName(name, tail, required);
        assert Passing(name, tree, required) == [tree[0]] + Passing(name, tail, required);
      }
    }
  }

  /** A pair is in the result exactly when it is the scored form of a pair
      of the index whose key passes the threshold. */
  lemma {:induction false} GetAllWithNameMembers(name: string, tree: seq<Entry>, required: nat -> real)
    ensures forall e :: e in GetAllWithName(name, tree, required) ==>
      exists k :: 0 <= k < |tree| && Accepts(required, tree[k].key, name) && e == Scored(tree[k], name)
    ensures forall k :: 0 <= k < |tree| && Accepts(required, tree[k].key, name) ==>
      Scored(tree[k], name) in GetAllWithName(name, tree, required)
  {
    if |tree| > 0 {
      var tail := tree[1..];
      GetAllWithNameMembers(name, tail, required);
      forall e | e in GetAllWithName(name, tree, required)
        ensures exists k :: 0 <= k < |tree| && Accepts(required, tree[k].key, name) && e == Scored(tree[k], name)
      {
        if e !in GetAllWithName(name, tail, required) {
          assert Accepts(required, tree[0].key, name) && e == Scored(tree[0], name);
        } else {
          var k :| 0 <= k < |tail| && Accepts(required, tail[k].key, name) && e == Scored(tail[k], name);
          assert tail[k] == tree[k + 1];
        }
      }
      forall k | 0 <= k < |tree| && Accepts(required, tree[k].key, name)
        ensures Scored(tree[k], name) in GetAllWithName(name, tree, required)
      {
        if k > 0 {
          assert tail[k - 1] == tree[k];
        }
      }
    }
  }

  /** The result keeps the index order: it is again a key-ordered index. */
  lemma {:induction false} GetAllWithNameOrdered(name: string, tree: seq<Entry>, required: nat -> real)
    requires KeyOrdered(tree)
    ensures KeyOrdered(GetAllWithName(name, tree, required))
  {
    if |tree| > 0 {
      var tail := tree[1..];
      GetAllWithNameOrdered(name, tail, required);
      GetAllWithNameMembers(name, tail, required);
      var rest := GetAllWithName(name, tail, required);
      forall j | 0 <= j < |rest|
        ensures !StrLess(rest[j].key, tree[0].key)
      {
        assert rest[j] in rest;
        var k :| 0 <= k < |tail| && Accepts(required, tail[k].key, name) && rest[j] == Scored(tail[k], name);
        assert tail[k] == tree[k + 1];
      }
    }
  }

  /** The copies GetAllFilesWithName and GetAllHeadersWithName hand out
      (main.ts:346-355): same path, name and similarity, no owner yet. */
  function Copy(e: Entry): (l: Linkable)
    ensures l.path == e.value.path && l.name == e.value.name
    ensures l.similarity == e.value.similarity && l.owner == null
  {
    Linkable(e.value.path, e.value.name, e.value.similarity, null)
  }

  /** The copies of a run of pairs, in order. */
  function Copies(es: seq<Entry>): (r: seq<Linkable>)
    ensures |r| == |es| && forall i :: 0 <= i < |es| ==> r[i] == Copy(es[i])
  {
    seq(|es|, i requires 0 <= i < |es| => Copy(es[i]))
  }
}
