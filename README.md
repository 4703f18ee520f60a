# MapReduce inverted index, modelled in Dafny

The program builds an inverted index over a set of text files. The index maps each line of text to the places (file name, line number) where it occurs.

- Mapper threads read files line by line. For every line they build a record `{fileName, lineNum, word}` and enqueue it on one of `n` bounded buffers, chosen by hashing the line.
- The last mapper to finish enqueues an all-empty sentinel record on every buffer.
- Each reducer thread dequeues from its own buffer. It inserts every record whose fields are all non-empty into a shared binary search tree keyed by the word.
- At the end, `printTree` prints the tree in order, one node per line: the word, then `" fileName, lineNum; "` for each location.

The model runs everything sequentially:

- `Records`: the record type, the sentinel, the reducer's filter, and the decimal rendering of line numbers.
- `StringOrder`: the order of `string::compare`.
- `InvertedIndex`: the `Node` tree as a datatype. `Insert` models `insert`; the model also has a dictionary view of the tree, the in-order listing, `ToString` (a loop, as in the source) and `PrintTree`.
- `Buffers`: `BoundedBuffer` as a class whose `buffer` field is a sequence the methods reassign.
- `Collections`: generic facts about sequence concatenation and map merges that the proofs use.
- `MapReduce`: the mapper's line loop with its bucket arithmetic, the sentinel broadcast, and the reducer's drain loop. It also holds the end-to-end lemmas: no record is lost or duplicated, the sentinel is never indexed, and two concrete runs.

## Model

| member | source | states |
|---|---|---|
| Records.SENTINEL | Mapreduce.cpp:163-166 | the end-of-input record `end`: word, file name and line number all empty |
| Records.IsRecord | Mapreduce.cpp:183 | a record is accepted only if word, file name and line number are all non-empty; in particular the sentinel is rejected |
| Records.NatToString | Mapreduce.cpp:148-151 | the line number's text is a non-empty string of decimal digits with no leading zero (except for 0 itself) |
| Records.DecimalRoundTrip | Mapreduce.cpp:148-151 | reading the rendered digits back gives the number |
| Records.NatToStringInjective | Mapreduce.cpp:148-151 | distinct line numbers get distinct texts |
| StringOrder.Compare | Mapreduce.cpp:98-106 | the sign of `string::compare` is one of -1, 0, 1, and is 0 exactly when the strings are equal |
| StringOrder.CompareFlip | Mapreduce.cpp:98-106 | swapping the operands negates the comparison |
| StringOrder.LessTransitive | Mapreduce.cpp:98-106 | the order is transitive |
| StringOrder.LessTotal | Mapreduce.cpp:98-106 | two distinct strings are ordered exactly one way |
| InvertedIndex.View | Mapreduce.cpp:65-71 | the dictionary view of the tree has exactly the tree's words as keys |
| InvertedIndex.Insert | Mapreduce.cpp:92-110 | the word set grows by exactly the record's word, and the result is a node (a new leaf holding the record when the tree was empty, lines 73-78 and 93-96) |
| InvertedIndex.InsertOrdered | Mapreduce.cpp:98-105 | insertion keeps every left word below and every right word above the node's word |
| InvertedIndex.InsertConsistent | Mapreduce.cpp:73-78 | insertion keeps every node non-empty and holding only records of its own word |
| InvertedIndex.InsertValid | Mapreduce.cpp:92-110 | insertion keeps both invariants |
| InvertedIndex.NotInOtherSide | Mapreduce.cpp:98-105 | in an ordered tree a word below the root is not in the right subtree, and a word above it is not in the left |
| InvertedIndex.InsertView | Mapreduce.cpp:92-110 | in the dictionary view, insertion appends the record to the end of its word's list (empty before if the word was new) and leaves every other word's list unchanged |
| InvertedIndex.InsertViewHere | Mapreduce.cpp:106-108 | at the node of the same word the list gains the record at its end |
| InvertedIndex.InsertViewLeft | Mapreduce.cpp:98-100 | descending left only changes the new word's entry |
| InvertedIndex.InsertViewRight | Mapreduce.cpp:102-104 | descending right only changes the new word's entry |
| InvertedIndex.InsertSize | Mapreduce.cpp:92-110 | the node count grows by 0 when the word is present and by 1 when it is new |
| InvertedIndex.InsertPresent | Mapreduce.cpp:106-108 | a present word adds no node and keeps the word set; its list gains the record at the end; every other list is unchanged |
| InvertedIndex.InsertAbsent | Mapreduce.cpp:93-96 | a new word adds exactly one node, whose list is just the record; every other list is unchanged |
| InvertedIndex.InsertLocations | Mapreduce.cpp:92-110 | the tree's stored records grow by exactly one copy of the inserted record, as a multiset and in count |
| InvertedIndex.InsertLocationsLeft | Mapreduce.cpp:98-100 | a left descent changes the store by the subtree's change |
| InvertedIndex.InsertLocationsRight | Mapreduce.cpp:102-104 | a right descent changes the store by the subtree's change |
| InvertedIndex.InOrderComplete | Mapreduce.cpp:112-120 | the in-order listing names exactly the tree's words |
| InvertedIndex.InOrderAgreesWithView | Mapreduce.cpp:112-120 | each listed entry carries the occurrence list that the dictionary view holds for its word |
| InvertedIndex.InOrderWords | Mapreduce.cpp:112-120 | every listed word is in the tree |
| InvertedIndex.InOrderSorted | Mapreduce.cpp:112-120 | the listing is strictly increasing by `compare`, so each word appears once |
| InvertedIndex.LocationsTextSnoc | Mapreduce.cpp:83-86 | one more location appends its text `" fileName, lineNum; "` |
| InvertedIndex.LocationsTextAppend | Mapreduce.cpp:83-86 | the text of a list of locations is the concatenation of its parts' texts, in list order |
| InvertedIndex.LocationsTextSingle | Mapreduce.cpp:84-85 | one location renders as its entry text, `" " + fileName + ", " + lineNum + "; "` |
| InvertedIndex.ToString | Mapreduce.cpp:80-90 | the result is the word, then each location's text in list order, then a newline |
| InvertedIndex.PrintTree | Mapreduce.cpp:112-120 | `printTree`: left subtree's text, the node's `toString` text, right subtree's text; the output is empty exactly when the tree is |
| InvertedIndex.RenderAppend | Mapreduce.cpp:112-120 | rendering a listing distributes over concatenation |
| InvertedIndex.PrintTreeRendersInOrder | Mapreduce.cpp:112-120 | the printed text is the node texts in in-order order |
| Buffers.BoundedBuffer.constructor | Mapreduce.cpp:31-33 | a new buffer is empty and within capacity |
| Buffers.BoundedBuffer.Enqueue | Mapreduce.cpp:36-44 | on a buffer with room, the record goes at the back and the capacity bound `MAXSIZE` = 10 (line 21) still holds |
| Buffers.BoundedBuffer.Dequeue | Mapreduce.cpp:46-56 | on a non-empty buffer, returns the front record and removes exactly it |
| Buffers.BoundedBuffer.IsEmpty | Mapreduce.cpp:58-60 | true exactly when no record is queued |
| Buffers.FifoOrder | Mapreduce.cpp:36-56 | any records that fit, enqueued on a fresh buffer and then dequeued until it is empty, come out in the order they went in |
| MapReduce.ToInt32 | Mapreduce.cpp:143 | the cast to `int` keeps the low 32 bits as a signed value |
| MapReduce.Bucket | Mapreduce.cpp:143 | the chosen buffer index lies in `[0, buffers.size())` |
| MapReduce.BucketOfSmallHash | Mapreduce.cpp:143 | a hash whose low 32 bits are a non-negative `int` picks the buffer by plain remainder |
| MapReduce.BucketUsesLow32Bits | Mapreduce.cpp:143 | hashes that agree in the low 32 bits pick the same buffer |
| MapReduce.LineRecords | Mapreduce.cpp:145-152 | the records built from a file's lines: one per line, each carrying the file name and the line's text as its word |
| MapReduce.Mapper | Mapreduce.cpp:138-155 | a file that opens yields, for its i-th line, that line's record sent to buffer `Bucket(hash(line), n)`, one per line, in order; a file that does not open yields nothing; the buffer count must be positive only when there is a line to route |
| MapReduce.LineRecordsNumbered | Mapreduce.cpp:140-152 | the i-th record carries the file name, the line's text as its word, and a line number that reads back as i+1 |
| MapReduce.LineRecordAccepted | Mapreduce.cpp:145-152 | a mapper's record passes the reducer's filter exactly when the file name and the line are non-empty |
| MapReduce.BroadcastEnd | Mapreduce.cpp:162-169 | every buffer gains exactly one all-empty sentinel at its back |
| MapReduce.Absorb | Mapreduce.cpp:183-185 | one reducer step: a record that passes the filter is inserted, adding its word to the index's words; any other record leaves the index unchanged |
| MapReduce.Merge | Mapreduce.cpp:178-186 | the index after absorbing the records in queue order; its words are the old words plus the word of every record that passes the filter |
| MapReduce.Reducer | Mapreduce.cpp:178-186 | draining the buffer empties it and yields the index with every accepted record inserted in queue order |
| MapReduce.MergeValid | Mapreduce.cpp:178-186 | the reducer keeps the index a valid search tree |
| MapReduce.InsertOccurrences | Mapreduce.cpp:92-110 | insertion extends only the list of the record's own word, by that record |
| MapReduce.MergeOccurrences | Mapreduce.cpp:178-186 | each word's list grows by exactly the accepted records of that word, in dequeue order |
| MapReduce.MergeLocations | Mapreduce.cpp:178-186 | the index's store grows by exactly the accepted records, as a multiset |
| MapReduce.AcceptedAreRecords | Mapreduce.cpp:183 | every accepted record passes the filter and was dequeued |
| MapReduce.MergeStoresOnlyRecords | Mapreduce.cpp:163-166 | an index built by the reducer never holds the sentinel, nor any record with an empty field (filter at line 183) |
| MapReduce.SelectedCount | Mapreduce.cpp:183-185 | a record is selected for word w as many times as it was dequeued if it passes the filter and has word w, otherwise never |
| MapReduce.NoLossNoDuplication | Mapreduce.cpp:178-186 | in the final index, each accepted record of word w appears in w's list exactly as often as it was delivered; no other record appears there |
| MapReduce.SelectedAppend | Mapreduce.cpp:183-185 | selection distributes over concatenation |
| MapReduce.LineRecordsCount | Mapreduce.cpp:139-154 | a file with k lines equal to a non-empty word contributes exactly k records of that word |
| MapReduce.RepeatedWordIndex | Mapreduce.cpp:92-110 | lines `a`, `b`, `a` of one file give node `a` at lines 1 and 3, with `b` at line 2 to its right |
| MapReduce.RepeatedWordRun | Mapreduce.cpp:251 | that index prints as `a` with both locations' texts, then `b` with its one |
| MapReduce.TwoLocationsText | Mapreduce.cpp:80-90 | a node with two locations prints their texts in list order |
| MapReduce.SameWordTwoFilesRun | Mapreduce.cpp:178-186 | the same line in two files gives one entry listing both files, in dequeue order |

## Left out

- Threads, mutexes and condition variables (lines 16-20, 37-54, 158-160, 177, 187, 221-249). Operations run one at a time. A thread that would block becomes a precondition: `Enqueue` requires room, `Dequeue` requires a record.
- The `activeMappers` termination protocol (lines 158-162, 178). `Reducer` models the loop only after every mapper has finished, when it drains the buffer until it is empty. `NoLossNoDuplication` holds for every delivery order, but interleavings are not modelled.
- `main` (lines 195-253): reading `m` and `n`, the `foo<i>.txt` names, creating the buffers and threads, and joining them. It is modelled only through the end-to-end lemmas, which take the delivered records as a sequence.
- `tr1::hash<string>` is a parameter `hash: string -> SizeT`; its values are not modelled. Only the cast-and-remainder arithmetic at line 143 is modelled, with `size_t` as 64 bits and `int` as 32 bits.
- File and console I/O: `Mapper` receives the file as `Option<seq<string>>`, where `None` means it could not be opened. `getline`'s line splitting is not modelled. `printTree`'s `cout` becomes the returned string `PrintTree`.
- Mapper: it returns the (buffer index, record) pairs in the order it would enqueue them, instead of calling `enqueue` on shared buffers. The delivery step is `BoundedBuffer.Enqueue`.
- Mapper: `currentLineNum` and `str_hash` are `int` in the source. Overflow past 2^31 - 1 lines, and a buffer count above 2^31, are not modelled.
- Bucket, Mapper: with no buffers (`buffers.size() == 0`), line 143 would divide by zero in the source. `Bucket` requires a positive count. `Mapper` requires one only when the file opened and has a line; a file that does not open, or is empty, needs no buffer, as in the source.
- InvertedIndex.Insert: the tree is a value. The source's in-place pointer updates (`node->left = ...`, `push_back` on `location`) and `new`/`NULL` memory handling are not modelled. Sharing between nodes cannot arise with this model.
- StringOrder.Compare: gives only the sign of `string::compare`, which is all the source uses. Characters are compared by code point, which matches the unsigned byte order of `char_traits<char>` for byte strings.
- NatToString: concrete decimal digits stand in for `stringstream << int`. Locale-specific formatting is not modelled.
