/** The inverted index: an unbalanced binary search tree keyed by the word,
    each node holding the records of every occurrence of its word in the
    order they were inserted. The source's `Node` objects linked by pointers
    become a tree value; `insert` returns the (possibly new) subtree root just
    as the source's recursive `insert` does. */
module InvertedIndex {
  import opened Records
  import opened StringOrder
  import opened Collections

  datatype Tree =
    | Leaf
    | Node(word: string, location: seq<Data>, left: Tree, right: Tree)

  /** The words stored in the tree. */
  function Keys(t: Tree): set<string> {
    match t
    case Leaf => {}
    case Node(w, _, l, r) => Keys(l) + {w} + Keys(r)
  }

  /** Binary-search-tree order: every word to the left sorts before the
      node's word, every word to the right after it. */
  predicate Ordered(t: Tree) {
    match t
    case Leaf => true
    case Node(w, _, l, r) =>
      && Ordered(l) && Ordered(r)
      && (forall k :: k in Keys(l) ==> Less(k, w))
      && (forall k :: k in Keys(r) ==> Less(w, k))
  }

  /** Every node holds at least one record, and only records of its own word. */
  predicate Consistent(t: Tree) {
    match t
    case Leaf => true
    case Node(w, loc, l, r) =>
      && loc != []
      && (forall i :: 0 <= i < |loc| ==> loc[i].word == w)
      && Consistent(l) && Consistent(r)
  }

  /** The invariant every index built by `Insert` keeps. */
  predicate Valid(t: Tree) {
    Ordered(t) && Consistent(t)
  }

  /** The index as a dictionary: word to its list of occurrences. */
  function View(t: Tree): (m: map<string, seq<Data>>)
    ensures m.Keys == Keys(t)
  {
    match t
    case Leaf => map[]
    case Node(w, loc, l, r) => View(l) + View(r) + map[w := loc]
  }

  /** The occurrences recorded for `w`, empty when `w` is not in the index. */
  function Occurrences(t: Tree, w: string): seq<Data> {
    if w in View(t) then View(t)[w] else []
  }

  /** Number of nodes. */
  function Size(t: Tree): nat {
    match t
    case Leaf => 0
    case Node(_, _, l, r) => Size(l) + 1 + Size(r)
  }

  /** All records stored in the tree, node by node in order. */
  function Locations(t: Tree): seq<Data> {
    match t
    case Leaf => []
    case Node(_, loc, l, r) => Locations(l) + loc + Locations(r)
  }

  /** `Node::insert`: descend by comparing the node's word with the new
      word; at an empty position make a node holding just this record;
      at the node of the same word append the record. The set of words
      grows by exactly the new word, and the result is never empty. */
  function Insert(t: Tree, d: Data): (r: Tree)
    ensures Keys(r) == Keys(t) + {d.word}
    ensures r.Node?
  {
    match t
    case Leaf => Node(d.word, [d], Leaf, Leaf)
    case Node(w, loc, l, r) =>
      if Compare(w, d.word) > 0 then Node(w, loc, Insert(l, d), r)
      else if Compare(w, d.word) < 0 then Node(w, loc, l, Insert(r, d))
      else Node(w, loc + [d], l, r)
  }

  /** Insertion keeps the search-tree order. */
  lemma {:induction false} InsertOrdered(t: Tree, d: Data)
    requires Ordered(t)
    ensures Ordered(Insert(t, d))
  {
    match t
    case Leaf =>
    case Node(w, loc, l, r) =>
      if Compare(w, d.word) > 0 {
        InsertOrdered(l, d);
        CompareFlip(w, d.word);
      } else if Compare(w, d.word) < 0 {
        InsertOrdered(r, d);
      }
  }

  /** Insertion keeps every node non-empty and holding only its own word. */
  lemma {:induction false} InsertConsistent(t: Tree, d: Data)
    requires Consistent(t)
    ensures Consistent(Insert(t, d))
  {
    match t
    case Leaf =>
    case Node(w, loc, l, r) =>
      if Compare(w, d.word) > 0 {
        InsertConsistent(l, d);
      } else if Compare(w, d.word) < 0 {
        InsertConsistent(r, d);
      } else {
        assert forall i :: 0 <= i < |loc + [d]| ==> (loc + [d])[i].word == w;
      }
  }

  lemma InsertValid(t: Tree, d: Data)
    requires Valid(t)
    ensures Valid(Insert(t, d))
  {
    InsertOrdered(t, d);
    InsertConsistent(t, d);
  }

  /** In an ordered tree, a word that sorts before the root's word is not
      in the right subtree, and one that sorts after it not in the left. */
  lemma NotInOtherSide(t: Tree, x: string)
    requires t.Node? && Ordered(t)
    ensures Less(x, t.word) ==> x !in Keys(t.right)
    ensures Less(t.word, x) ==> x !in Keys(t.left)
  {
    if Less(x, t.word) {
      forall k | k in Keys(t.right) ensures k != x {
        LessTransitive(x, t.word, k);
      }
    }
    if Less(t.word, x) {
      forall k | k in Keys(t.left) ensures k != x {
        LessTransitive(k, t.word, x);
      }
    }
  }

  /** The dictionary view of insertion: the record is appended to the end of
      the new word's occurrence list (which was empty if the word was new),
      and every other word keeps its list unchanged. */
  lemma {:induction false} InsertView(t: Tree, d: Data)
    requires Ordered(t)
    ensures View(Insert(t, d)) == View(t)[d.word := Occurrences(t, d.word) + [d]]
  {
    match t
    case Leaf =>
      assert Occurrences(t, d.word) + [d] == [d];
      assert View(Insert(t, d)) == map[d.word := [d]];
    case Node(w, loc, l, r) =>
      var x := d.word;
      if Compare(w, x) > 0 {
        InsertView(l, d);
        CompareFlip(w, x);
        NotInOtherSide(t, x);
        InsertViewLeft(t, d);
      } else if Compare(w, x) < 0 {
        InsertView(r, d);
        NotInOtherSide(t, x);
        InsertViewRight(t, d);
      } else {
        InsertViewHere(t, d);
      }
  }

  /** The step of `InsertView` where the node holds the record's word. */
  lemma InsertViewHere(t: Tree, d: Data)
    requires t.Node? && t.word == d.word
    ensures View(Insert(t, d)) == View(t)[d.word := Occurrences(t, d.word) + [d]]
  {
    assert Occurrences(t, d.word) == t.location;
    assert Insert(t, d) == Node(t.word, t.location + [d], t.left, t.right);
    UpdateOverridesLastOperand(View(t.left), View(t.right), t.word, t.location, t.location + [d]);
  }

  /** The step of `InsertView` where the record goes into the left subtree. */
  lemma InsertViewLeft(t: Tree, d: Data)
    requires t.Node? && Compare(t.word, d.word) > 0
    requires d.word !in Keys(t.right)
    requires View(Insert(t.left, d)) == View(t.left)[d.word := Occurrences(t.left, d.word) + [d]]
    ensures View(Insert(t, d)) == View(t)[d.word := Occurrences(t, d.word) + [d]]
  {
    var x, w, loc, l, r := d.word, t.word, t.location, t.left, t.right;
    assert Insert(t, d) == Node(w, loc, Insert(l, d), r);
    assert Occurrences(t, x) == Occurrences(l, x);
    UpdateInLeftOperand(View(l), View(r), map[w := loc], x, Occurrences(l, x) + [d]);
  }

  /** The step of `InsertView` where the record goes into the right subtree. */
  lemma InsertViewRight(t: Tree, d: Data)
    requires t.Node? && Compare(t.word, d.word) < 0
    requires d.word !in Keys(t.left)
    requires View(Insert(t.right, d)) == View(t.right)[d.word := Occurrences(t.right, d.word) + [d]]
    ensures View(Insert(t, d)) == View(t)[d.word := Occurrences(t, d.word) + [d]]
  {
    var x, w, loc, l, r := d.word, t.word, t.location, t.left, t.right;
    assert Insert(t, d) == Node(w, loc, l, Insert(r, d));
    assert Occurrences(t, x) == Occurrences(r, x);
    UpdateInMiddleOperand(View(l), View(r), map[w := loc], x, Occurrences(r, x) + [d]);
  }

  /** A word already present adds no node; a new word adds exactly one. */
  lemma {:induction false} InsertSize(t: Tree, d: Data)
    requires Ordered(t)
    ensures Size(Insert(t, d)) == Size(t) + (if d.word in Keys(t) then 0 else 1)
  {
    match t
    case Leaf =>
    case Node(w, loc, l, r) =>
      if Compare(w, d.word) > 0 {
        InsertSize(l, d);
        CompareFlip(w, d.word);
        NotInOtherSide(t, d.word);
      } else if Compare(w, d.word) < 0 {
        InsertSize(r, d);
        NotInOtherSide(t, d.word);
      }
  }

  /** Inserting a word already present adds no node: the record goes at the
      end of that word's list, and every other word keeps its list. */
  lemma InsertPresent(t: Tree, d: Data)
    requires Ordered(t) && d.word in Keys(t)
    ensures Size(Insert(t, d)) == Size(t)
    ensures Keys(Insert(t, d)) == Keys(t)
    ensures View(Insert(t, d))[d.word] == View(t)[d.word] + [d]
    ensures forall k :: k in View(t) && k != d.word ==> View(Insert(t, d))[k] == View(t)[k]
  {
    InsertView(t, d);
    InsertSize(t, d);
  }

  /** Inserting a new word adds exactly one node, holding just this record,
      and every other word keeps its list. */
  lemma InsertAbsent(t: Tree, d: Data)
    requires Ordered(t) && d.word !in Keys(t)
    ensures Size(Insert(t, d)) == Size(t) + 1
    ensures View(Insert(t, d))[d.word] == [d]
    ensures forall k :: k in View(t) ==> View(Insert(t, d))[k] == View(t)[k]
  {
    InsertView(t, d);
    InsertSize(t, d);
    assert Occurrences(t, d.word) == [];
  }

  /** Exactly one record is added to the tree's store, and nothing is lost. */
  lemma {:induction false} InsertLocations(t: Tree, d: Data)
    ensures multiset(Locations(Insert(t, d))) == multiset(Locations(t)) + multiset{d}
    ensures |Locations(Insert(t, d))| == |Locations(t)| + 1
  {
    match t
    case Leaf =>
    case Node(w, loc, l, r) =>
      if Compare(w, d.word) > 0 {
        InsertLocations(l, d);
        InsertLocationsLeft(t, d);
      } else if Compare(w, d.word) < 0 {
        InsertLocations(r, d);
        InsertLocationsRight(t, d);
      } else {
        assert Locations(Insert(t, d)) == Locations(l) + (loc + [d]) + Locations(r);
      }
  }

  lemma InsertLocationsLeft(t: Tree, d: Data)
    requires t.Node? && Compare(t.word, d.word) > 0
    requires multiset(Locations(Insert(t.left, d))) == multiset(Locations(t.left)) + multiset{d}
    ensures multiset(Locations(Insert(t, d))) == multiset(Locations(t)) + multiset{d}
    ensures |Locations(Insert(t, d))| == |Locations(t)| + 1
  {
    assert Locations(Insert(t, d)) == Locations(Insert(t.left, d)) + t.location + Locations(t.right);
  }

  lemma InsertLocationsRight(t: Tree, d: Data)
    requires t.Node? && Compare(t.word, d.word) < 0
    requires multiset(Locations(Insert(t.right, d))) == multiset(Locations(t.right)) + multiset{d}
    ensures multiset(Locations(Insert(t, d))) == multiset(Locations(t)) + multiset{d}
    ensures |Locations(Insert(t, d))| == |Locations(t)| + 1
  {
    assert Locations(Insert(t, d)) == Locations(t.left) + t.location + Locations(Insert(t.right, d));
  }

  // ---------------------------------------------------------------------
  // Rendering

  /** One entry of the in-order listing: a node's word and its records. */
  datatype Entry = Entry(word: string, location: seq<Data>)

  /** The nodes in the order `printTree` visits them: left subtree, node,
      right subtree. */
  function InOrder(t: Tree): seq<Entry> {
    match t
    case Leaf => []
    case Node(w, loc, l, r) => InOrder(l) + [Entry(w, loc)] + InOrder(r)
  }

  /** The listing names exactly the words of the tree. */
  lemma {:induction false} InOrderComplete(t: Tree)
    ensures (set e | e in InOrder(t) :: e.word) == Keys(t)
  {
    match t
    case Leaf =>
    case Node(w, loc, l, r) =>
      InOrderComplete(l);
      InOrderComplete(r);
      var s := InOrder(t);
      assert forall e :: e in s <==> e in InOrder(l) || e == Entry(w, loc) || e in InOrder(r);
      forall k | k in Keys(t) ensures k in (set e | e in s :: e.word) {
        if k in Keys(l) {
          var e :| e in InOrder(l) && e.word == k;
          assert e in s;
        } else if k in Keys(r) {
          var e :| e in InOrder(r) && e.word == k;
          assert e in s;
        } else {
          assert Entry(w, loc) in s;
        }
      }
  }

  /** In an ordered tree each listed entry carries the occurrence list that
      the dictionary view records for its word. */
  lemma {:induction false} InOrderAgreesWithView(t: Tree)
    requires Ordered(t)
    ensures forall i :: 0 <= i < |InOrder(t)| ==>
      InOrder(t)[i].word in View(t) && View(t)[InOrder(t)[i].word] == InOrder(t)[i].location
  {
    match t
    case Leaf =>
    case Node(w, loc, l, r) =>
      InOrderAgreesWithView(l);
      InOrderAgreesWithView(r);
      InOrderWords(l);
      InOrderWords(r);
      var s := InOrder(t);
      forall i | 0 <= i < |s|
        ensures s[i].word in View(t) && View(t)[s[i].word] == s[i].location
      {
        if i < |InOrder(l)| {
          assert s[i] == InOrder(l)[i];
          NotInOtherSide(t, s[i].word);
        } else if i > |InOrder(l)| {
          assert s[i] == InOrder(r)[i - |InOrder(l)| - 1];
        }
      }
  }

  /** Every word in the listing is a word of the tree. */
  lemma {:induction false} InOrderWords(t: Tree)
    ensures forall i :: 0 <= i < |InOrder(t)| ==> InOrder(t)[i].word in Keys(t)
  {
    match t
    case Leaf =>
    case Node(w, loc, l, r) =>
      InOrderWords(l);
      InOrderWords(r);
      var s := InOrder(t);
      forall i | 0 <= i < |s| ensures s[i].word in Keys(t) {
        if i < |InOrder(l)| {
          assert s[i] == InOrder(l)[i];
        } else if i > |InOrder(l)| {
          assert s[i] == InOrder(r)[i - |InOrder(l)| - 1];
        }
      }
  }

  /** `printTree` visits the words in strictly increasing order, so each at
      most once. */
  lemma {:induction false} InOrderSorted(t: Tree)
    requires Ordered(t)
    ensures forall i, j :: 0 <= i < j < |InOrder(t)| ==> Less(InOrder(t)[i].word, InOrder(t)[j].word)
  {
    match t
    case Leaf =>
    case Node(w, loc, l, r) =>
      InOrderSorted(l);
      InOrderSorted(r);
      InOrderWords(l);
      InOrderWords(r);
      var s, sl, sr := InOrder(t), InOrder(l), InOrder(r);
      forall i, j | 0 <= i < j < |s| ensures Less(s[i].word, s[j].word) {
        var n := |sl|;
        if j < n {
          assert s[i] == sl[i] && s[j] == sl[j];
        } else if i > n {
          assert s[i] == sr[i - n - 1] && s[j] == sr[j - n - 1];
        } else if i == n {
          assert s[j] == sr[j - n - 1];
        } else if j == n {
          assert s[i] == sl[i];
        } else {
          assert s[i] == sl[i] && s[j] == sr[j - n - 1];
          LessTransitive(s[i].word, w, s[j].word);
        }
      }
  }

  /** The text `toString` adds for one location. */
  function EntryText(d: Data): string {
    " " + d.fileName + ", " + d.lineNum + "; "
  }

  /** The texts of the locations, one after another in list order. */
  function LocationsText(locs: seq<Data>): string
    decreases |locs|
  {
    if locs == [] then "" else LocationsText(locs[..|locs| - 1]) + EntryText(locs[|locs| - 1])
  }

  /** Appending a location appends its text. */
  lemma LocationsTextSnoc(s: seq<Data>, x: Data)
    ensures LocationsText(s + [x]) == LocationsText(s) + EntryText(x)
  {
    assert (s + [x])[..|s|] == s;
  }

  /** The text of a list of locations is the texts of its parts, in order. */
  lemma {:induction false} LocationsTextAppend(a: seq<Data>, b: seq<Data>)
    ensures LocationsText(a + b) == LocationsText(a) + LocationsText(b)
    decreases |b|
  {
    if b == [] {
      assert a + b == a;
    } else {
      var b', x := b[..|b| - 1], b[|b| - 1];
      assert b == b' + [x];
      assert a + b == (a + b') + [x];
      LocationsTextAppend(a, b');
      LocationsTextSnoc(a + b', x);
      LocationsTextSnoc(b', x);
      ConcatAssoc(LocationsText(a), LocationsText(b'), EntryText(x));
    }
  }

  /** A single location renders as `" fileName, lineNum; "`. */
  lemma LocationsTextSingle(d: Data)
    ensures LocationsText([d]) == EntryText(d)
    ensures LocationsText([d]) == " " + d.fileName + ", " + d.lineNum + "; "
  {
    LocationsTextSnoc([], d);
    assert [] + [d] == [d];
  }

  /** What `toString` returns for a node: the word, each location's text,
      then a newline. */
  function NodeText(word: string, locs: seq<Data>): string {
    word + LocationsText(locs) + "\n"
  }

  /** `Node::toString`, building the text in a loop over the locations. */
  method ToString(node: Tree) returns (output: string)
    requires node.Node?
    ensures output == NodeText(node.word, node.location)
  {
    output := node.word;
    var i := 0;
    while i < |node.location|
      invariant 0 <= i <= |node.location|
      invariant output == node.word + LocationsText(node.location[..i])
    {
      assert node.location[..i + 1][..i] == node.location[..i];
      output := output + (" " + node.location[i].fileName + ", " + node.location[i].lineNum + "; ");
      i := i + 1;
    }
    assert node.location[..i] == node.location;
    output := output + "\n";
  }

  /** `printTree`: the in-order concatenation of every node's text. */
  function PrintTree(t: Tree): (s: string)
    ensures s == [] <==> t == Leaf
  {
    match t
    case Leaf => ""
    case Node(w, loc, l, r) => PrintTree(l) + NodeText(w, loc) + PrintTree(r)
  }

  /** The texts of a listing's entries, one after another. */
  function Render(es: seq<Entry>): string {
    if es == [] then "" else NodeText(es[0].word, es[0].location) + Render(es[1..])
  }

  lemma {:induction false} RenderAppend(a: seq<Entry>, b: seq<Entry>)
    ensures Render(a + b) == Render(a) + Render(b)
  {
    if a == [] {
      assert a + b == b;
    } else {
      assert (a + b)[1..] == a[1..] + b;
      assert (a + b)[0] == a[0];
      RenderAppend(a[1..], b);
    }
  }

  /** The printed tree is the listing's entries in order, which by
      `InOrderSorted`, `InOrderComplete` and `InOrderAgreesWithView` means
      every word exactly once, in increasing order, each with its
      occurrences. */
  lemma {:induction false} PrintTreeRendersInOrder(t: Tree)
    ensures PrintTree(t) == Render(InOrder(t))
  {
    match t
    case Leaf =>
    case Node(w, loc, l, r) =>
      PrintTreeRendersInOrder(l);
      PrintTreeRendersInOrder(r);
      assert Render([Entry(w, loc)]) == NodeText(w, loc) by {
        assert [Entry(w, loc)][1..] == [];
      }
      RenderAppend(InOrder(l) + [Entry(w, loc)], InOrder(r));
      RenderAppend(InOrder(l), [Entry(w, loc)]);
  }
}
