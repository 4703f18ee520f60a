/** The mapper and reducer tasks, run sequentially: a mapper turns a file's
    lines into records and picks the buffer for each, the last mapper sends
    the sentinel to every buffer, and a reducer drains its buffer into the
    shared index, skipping the sentinel and any record with an empty field. */
module MapReduce {
  import opened Records
  import opened InvertedIndex
  import opened Buffers
  import opened Collections

  /** A `size_t` on a 64-bit platform. */
  type SizeT = x: int | 0 <= x < 0x1_0000_0000_0000_0000

  /** The cast `(int) h`: the low 32 bits of `h`, read as a signed number. */
  function ToInt32(h: SizeT): (v: int)
    ensures -0x8000_0000 <= v < 0x8000_0000
    ensures (h - v) % 0x1_0000_0000 == 0
  {
    var low := h % 0x1_0000_0000;
    if low < 0x8000_0000 then low else low - 0x1_0000_0000
  }

  /** The buffer a line goes to: `(int) hash % buffers.size()`. The signed
      operand is converted back to `size_t` before the remainder, so a negative
      32-bit value wraps to a large unsigned one and the index still lies in
      `[0, n)`. */
  function Bucket(h: SizeT, n: SizeT): (i: nat)
    requires n > 0
    ensures i < n
  {
    (ToInt32(h) % 0x1_0000_0000_0000_0000) % n
  }

  /** A hash whose low 32 bits read as a non-negative int selects the buffer
      by plain remainder. */
  lemma BucketOfSmallHash(h: SizeT, n: SizeT)
    requires n > 0 && h % 0x1_0000_0000 < 0x8000_0000
    ensures Bucket(h, n) == (h % 0x1_0000_0000) % n
  {
  }

  /** Only the low 32 bits of the hash decide the buffer. */
  lemma BucketUsesLow32Bits(h1: SizeT, h2: SizeT, n: SizeT)
    requires n > 0 && h1 % 0x1_0000_0000 == h2 % 0x1_0000_0000
    ensures Bucket(h1, n) == Bucket(h2, n)
  {
  }

  // ---------------------------------------------------------------------
  // Mapper

  /** The records a mapper builds from a file's lines: the i-th line
      (counting from 1) becomes `{fileName, i, line}`. */
  function LineRecords(fileName: string, lines: seq<string>): (rs: seq<Data>)
    ensures |rs| == |lines|
    ensures forall i :: 0 <= i < |rs| ==> rs[i].fileName == fileName && rs[i].word == lines[i]
  {
    seq(|lines|, i requires 0 <= i < |lines| => Data(fileName, NatToString(i + 1), lines[i]))
  }

  /** `mapper`: read the file line by line, number the lines, and for each
      build its record and choose its buffer. A file that cannot be opened
      yields nothing. The result lists (buffer index, record) in the order
      the mapper enqueues them. */
  method Mapper(fileName: string, file: Option<seq<string>>, hash: string -> SizeT, n: SizeT)
    returns (sent: seq<(nat, Data)>)
    requires file.Some? && file.value != [] ==> n > 0
    ensures file.None? ==> sent == []
    ensures file.Some? ==> |sent| == |file.value|
    ensures file.Some? ==> forall i :: 0 <= i < |sent| ==>
      && sent[i].0 == Bucket(hash(file.value[i]), n)
      && sent[i].1 == LineRecords(fileName, file.value)[i]
  {
    sent := [];
    if file.Some? {
      var lines := file.value;
      var currentLineNum := 0;
      while currentLineNum < |lines|
        invariant 0 <= currentLineNum <= |lines|
        invariant |sent| == currentLineNum
        invariant forall i :: 0 <= i < currentLineNum ==>
          sent[i] == (Bucket(hash(lines[i]), n), LineRecords(fileName, lines)[i])
      {
        var str := lines[currentLineNum];
        currentLineNum := currentLineNum + 1;
        var strHash := Bucket(hash(str), n);
        var dataObj := Data(fileName, NatToString(currentLineNum), str);
        sent := sent + [(strHash, dataObj)];
      }
    }
  }

  /** Each record carries the file name, the line's text as its word, and
      a line number that reads back as 1, 2, 3, ... in order. */
  lemma LineRecordsNumbered(fileName: string, lines: seq<string>)
    ensures |LineRecords(fileName, lines)| == |lines|
    ensures forall i :: 0 <= i < |lines| ==>
      && LineRecords(fileName, lines)[i].fileName == fileName
      && LineRecords(fileName, lines)[i].word == lines[i]
      && IsDecimal(LineRecords(fileName, lines)[i].lineNum)
      && DecimalValue(LineRecords(fileName, lines)[i].lineNum) == i + 1
  {
    forall i | 0 <= i < |lines| ensures DecimalValue(LineRecords(fileName, lines)[i].lineNum) == i + 1 {
      DecimalRoundTrip(i + 1);
    }
  }

  /** A mapper's record passes the reducer's filter exactly when the file
      name and the line are non-empty: an empty line is never indexed. */
  lemma LineRecordAccepted(fileName: string, lines: seq<string>, i: nat)
    requires i < |lines|
    ensures IsRecord(LineRecords(fileName, lines)[i]) <==> fileName != "" && lines[i] != ""
  {
  }

  // ---------------------------------------------------------------------
  // End of input

  /** The last mapper's broadcast: one sentinel enqueued on every buffer. */
  method BroadcastEnd(buffers: seq<BoundedBuffer>)
    requires forall i :: 0 <= i < |buffers| ==> buffers[i].Valid() && |buffers[i].buffer| < MAX_SIZE
    requires forall i, j :: 0 <= i < j < |buffers| ==> buffers[i] != buffers[j]
    modifies set i | 0 <= i < |buffers| :: buffers[i]
    ensures forall i :: 0 <= i < |buffers| ==>
      buffers[i].Valid() && buffers[i].buffer == old(buffers[i].buffer) + [SENTINEL]
  {
    for i := 0 to |buffers|
      invariant forall j :: 0 <= j < i ==>
        buffers[j].Valid() && buffers[j].buffer == old(buffers[j].buffer) + [SENTINEL]
      invariant forall j :: i <= j < |buffers| ==> buffers[j].buffer == old(buffers[j].buffer)
    {
      buffers[i].Enqueue(SENTINEL);
    }
  }

  // ---------------------------------------------------------------------
  // Reducer

  /** One reducer step on a dequeued record: insert it unless the filter
      rejects it. */
  function Absorb(t: Tree, d: Data): (r: Tree)
    ensures IsRecord(d) ==> Keys(r) == Keys(t) + {d.word}
    ensures !IsRecord(d) ==> r == t
  {
    if IsRecord(d) then Insert(t, d) else t
  }

  /** The index after absorbing the records in queue order. */
  function Merge(t: Tree, ds: seq<Data>): (r: Tree)
    ensures Keys(r) == Keys(t) + (set i | 0 <= i < |ds| && IsRecord(ds[i]) :: ds[i].word)
    decreases |ds|
  {
    if ds == [] then t else Merge(Absorb(t, ds[0]), ds[1..])
  }

  /** The records the filter lets through, in order. */
  function Accepted(ds: seq<Data>): seq<Data>
    decreases |ds|
  {
    if ds == [] then [] else (if IsRecord(ds[0]) then [ds[0]] else []) + Accepted(ds[1..])
  }

  /** The records the filter lets through whose word is `w`, in order. */
  function Selected(ds: seq<Data>, w: string): seq<Data>
    decreases |ds|
  {
    if ds == [] then []
    else (if IsRecord(ds[0]) && ds[0].word == w then [ds[0]] else []) + Selected(ds[1..], w)
  }

  /** `reducer`, once every mapper has finished: dequeue until the buffer is
      empty, inserting each record that passes the filter. */
  method Reducer(buf: BoundedBuffer, index: Tree) returns (result: Tree)
    requires buf.Valid()
    modifies buf
    ensures buf.Valid() && buf.buffer == []
    ensures result == Merge(index, old(buf.buffer))
  {
    result := index;
    while !buf.IsEmpty()
      invariant buf.Valid()
      invariant Merge(result, buf.buffer) == Merge(index, old(buf.buffer))
      decreases |buf.buffer|
    {
      var dataO := buf.Dequeue();
      if IsRecord(dataO) {
        result := Insert(result, dataO);
      }
    }
  }

  /** Absorbing records keeps the index a valid search tree. */
  lemma {:induction false} MergeValid(t: Tree, ds: seq<Data>)
    requires Valid(t)
    ensures Valid(Merge(t, ds))
    decreases |ds|
  {
    if ds != [] {
      if IsRecord(ds[0]) {
        InsertValid(t, ds[0]);
      }
      MergeValid(Absorb(t, ds[0]), ds[1..]);
    }
  }

  /** The effect on one word of inserting a record. */
  lemma InsertOccurrences(t: Tree, d: Data, w: string)
    requires Ordered(t)
    ensures Occurrences(Insert(t, d), w) == Occurrences(t, w) + (if d.word == w then [d] else [])
  {
    InsertView(t, d);
  }

  /** Each word's occurrence list grows by exactly the accepted records of
      that word, in the order they were dequeued; no record is lost or
      duplicated, and no other word is touched. */
  lemma {:induction false} MergeOccurrences(t: Tree, ds: seq<Data>, w: string)
    requires Ordered(t)
    ensures Occurrences(Merge(t, ds), w) == Occurrences(t, w) + Selected(ds, w)
    decreases |ds|
  {
    if ds == [] {
      assert Occurrences(t, w) + [] == Occurrences(t, w);
    } else {
      var d, rest := ds[0], ds[1..];
      var t' := Absorb(t, d);
      var here := if IsRecord(d) && d.word == w then [d] else [];
      var o, o', sr := Occurrences(t, w), Occurrences(t', w), Selected(rest, w);
      assert o' == o + here && Ordered(t') by {
        if IsRecord(d) {
          InsertOccurrences(t, d, w);
          InsertOrdered(t, d);
        }
      }
      assert Occurrences(Merge(t', rest), w) == o' + sr by {
        MergeOccurrences(t', rest, w);
      }
      assert Merge(t, ds) == Merge(t', rest);
      assert Selected(ds, w) == here + sr;
      ConcatAssoc(o, here, sr);
    }
  }

  /** The tree's store grows by exactly the accepted records. */
  lemma {:induction false} MergeLocations(t: Tree, ds: seq<Data>)
    ensures multiset(Locations(Merge(t, ds))) == multiset(Locations(t)) + multiset(Accepted(ds))
    decreases |ds|
  {
    if ds != [] {
      if IsRecord(ds[0]) {
        InsertLocations(t, ds[0]);
      }
      MergeLocations(Absorb(t, ds[0]), ds[1..]);
    }
  }

  /** Only records that pass the filter are accepted. */
  lemma {:induction false} AcceptedAreRecords(ds: seq<Data>)
    ensures forall d :: d in Accepted(ds) ==> IsRecord(d) && d in ds
    decreases |ds|
  {
    if ds != [] {
      AcceptedAreRecords(ds[1..]);
    }
  }

  /** An index built by reducers never stores the sentinel, nor any record
      with an empty field. */
  lemma MergeStoresOnlyRecords(ds: seq<Data>)
    ensures forall d :: d in Locations(Merge(Leaf, ds)) ==> IsRecord(d)
    ensures SENTINEL !in Locations(Merge(Leaf, ds))
  {
    MergeLocations(Leaf, ds);
    AcceptedAreRecords(ds);
    forall d | d in Locations(Merge(Leaf, ds)) ensures IsRecord(d) {
      assert d in multiset(Locations(Merge(Leaf, ds)));
      assert d in multiset(Accepted(ds));
    }
  }

  /** How many times a record is selected: as often as it was dequeued if it
      passes the filter and has word `w`, never otherwise. */
  lemma {:induction false} SelectedCount(ds: seq<Data>, w: string, d: Data)
    ensures multiset(Selected(ds, w))[d] == if IsRecord(d) && d.word == w then multiset(ds)[d] else 0
    decreases |ds|
  {
    if ds != [] {
      SelectedCount(ds[1..], w, d);
      assert ds == [ds[0]] + ds[1..];
    }
  }

  /** No loss, no duplication, whatever the interleaving: whatever order the
      reducers dequeue the records in, the index entry of a non-empty word `w`
      holds each of that word's records exactly as many times as it was
      delivered. */
  lemma NoLossNoDuplication(ds: seq<Data>, w: string, d: Data)
    ensures multiset(Occurrences(Merge(Leaf, ds), w))[d] ==
      if IsRecord(d) && d.word == w then multiset(ds)[d] else 0
  {
    MergeOccurrences(Leaf, ds, w);
    SelectedCount(ds, w, d);
  }

  lemma {:induction false} SelectedAppend(a: seq<Data>, b: seq<Data>, w: string)
    ensures Selected(a + b, w) == Selected(a, w) + Selected(b, w)
    decreases |a|
  {
    if a == [] {
      assert a + b == b;
    } else {
      assert (a + b)[1..] == a[1..] + b;
      assert (a + b)[0] == a[0];
      SelectedAppend(a[1..], b, w);
    }
  }

  /** A file with `k` lines equal to a non-empty word `w` contributes exactly
      `k` records of `w`. */
  lemma {:induction false} LineRecordsCount(fileName: string, lines: seq<string>, w: string)
    requires fileName != "" && w != ""
    ensures |Selected(LineRecords(fileName, lines), w)| == multiset(lines)[w]
    decreases |lines|
  {
    if lines != [] {
      var n := |lines| - 1;
      var init := lines[..n];
      LineRecordsCount(fileName, init, w);
      assert LineRecords(fileName, lines) == LineRecords(fileName, init) + [Data(fileName, NatToString(n + 1), lines[n])];
      SelectedAppend(LineRecords(fileName, init), [Data(fileName, NatToString(n + 1), lines[n])], w);
      assert lines == init + [lines[n]];
    }
  }

  // ---------------------------------------------------------------------
  // End-to-end runs with one mapper's records passing through one buffer

  /** One file `["a", "b", "a"]`: the index has `a` at lines 1 and 3 and,
      to its right, `b` at line 2. */
  lemma RepeatedWordIndex()
    ensures Merge(Leaf, LineRecords("src", ["a", "b", "a"])) ==
      Node("a", [Data("src", "1", "a"), Data("src", "3", "a")], Leaf,
           Node("b", [Data("src", "2", "b")], Leaf, Leaf))
  {
    var recs := LineRecords("src", ["a", "b", "a"]);
    assert recs == [Data("src", "1", "a"), Data("src", "2", "b"), Data("src", "3", "a")];
    var t1 := Insert(Leaf, recs[0]);
    var t2 := Insert(t1, recs[1]);
    assert Merge(Leaf, recs) == Merge(t1, recs[1..]);
    assert Merge(t1, recs[1..]) == Merge(t2, recs[2..]);
    assert Merge(t2, recs[2..]) == Insert(t2, recs[2]);
  }

  /** ... and it prints as `a` with the texts of both its locations, then
      `b` with its one. (Each location's text, `EntryText`, starts with a space
      and ends with `"; "`, so consecutive locations are two spaces apart.) */
  lemma RepeatedWordRun()
    ensures PrintTree(Merge(Leaf, LineRecords("src", ["a", "b", "a"]))) ==
      "a" + EntryText(Data("src", "1", "a")) + EntryText(Data("src", "3", "a")) + "\n" +
      ("b" + EntryText(Data("src", "2", "b")) + "\n")
  {
    var d1, d2, d3 := Data("src", "1", "a"), Data("src", "2", "b"), Data("src", "3", "a");
    var t := Node("a", [d1, d3], Leaf, Node("b", [d2], Leaf, Leaf));
    RepeatedWordIndex();
    TwoLocationsText("a", d1, d3);
    LocationsTextSingle(d2);
    assert PrintTree(t) == NodeText("a", [d1, d3]) + NodeText("b", [d2]);
  }

  lemma TwoLocationsText(w: string, d: Data, e: Data)
    ensures NodeText(w, [d, e]) == w + EntryText(d) + EntryText(e) + "\n"
  {
    LocationsTextSnoc([], d);
    assert [] + [d] == [d];
    LocationsTextSnoc([d], e);
    assert [d] + [e] == [d, e];
  }

  /** One line `apple` in each of two files: the entry for `apple` lists
      both, in the order the records were dequeued. */
  lemma SameWordTwoFilesRun()
    ensures Occurrences(Merge(Leaf, LineRecords("f1", ["apple"]) + LineRecords("f2", ["apple"])), "apple") ==
      [Data("f1", "1", "apple"), Data("f2", "1", "apple")]
  {
    var ds := LineRecords("f1", ["apple"]) + LineRecords("f2", ["apple"]);
    assert ds == [Data("f1", "1", "apple"), Data("f2", "1", "apple")];
    MergeOccurrences(Leaf, ds, "apple");
    assert Selected(ds[1..], "apple") == [ds[1]];
  }
}
