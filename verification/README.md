# A doubly linked list kept in a binary file

The program stores a list in one binary file. The file opens with a
12-byte header (`head`, `tail`, `size`, each a 4-byte `int`, with -1 for
"no record"). Each record after it holds a 4-byte `prev` offset, a 4-byte
`next` offset and a payload. `BinaryList<T>` stores fixed-width payloads
(`int`, `Person`). The specialisation `BinaryList<std::string>` stores a
4-byte length followed by the string's bytes. New records are always
written at the end of the file. A record that is erased is unlinked but
stays where it is.

## What the model is

- **Arena** (`arena.dfy`). The file is an arena: a map from record offsets
  to `Node(prev, next, payload)`, the header, and the end-of-file offset.
  - The list a reader sees is the chain reached by following `next` from
    `head` for `size` steps: `Offsets` gives the record offsets in list
    order, `Elements` gives their payloads.
  - `Valid` is the file's well-formedness invariant. Every chain offset
    holds a record inside the file, the chain has exactly `size` distinct
    records, every `prev`/`next` agrees with its neighbours in the chain,
    and `head`/`tail` are its ends (or -1).
- **ListEngine** (`list_engine.dfy`). Both variants lay out records the
  same way and run the same link surgery, so one engine serves both. It is
  parameterised by the payload's byte width: `sizeof(T)` for fixed-width
  records, `4 + length` for strings.
  - Every operation is stated against the sequence abstraction and keeps
    `Valid`.
  - New records are written only at fresh offsets, past every record
    already in the file (`NoReuse`). Existing live records get their links
    or payload patched in place.
  - A record that is no longer live is never written again (`DeadUntouched`)
    by any operation except `clear` and `rewriteAllFromVector`, which
    delete the whole file.
- **FileSort** (`file_sort.dfy`). The fixed-width `sort()` is a bubble sort
  done inside the file. It swaps payloads of neighbouring records and never
  rewrites a link.
  - It terminates because every swap removes one inversion.
  - It produces a permutation of the list, sorted under `>`.
  - For `Person` (`records.dfy`) the order is by name (`strcmp`, modelled
    in `lexicographic.dfy`) and then by age.
- **StringList** (`string_list.dfy`). The string variant reuses the engine
  for its structural operations.
  - Reads go through `readString`, modelled in `string_codec.dfy`. A
    length below 0 or above 1,000,000 reads back as "", and a short read
    leaves the rest of the string zero-filled.
  - `update` and `sort` read the whole list into memory, change it, and
    rebuild the file with `rewriteAllFromVector`.
  - For `std::sort` the model uses an insertion sort (`Order.SortSeq`).
    `Order.SortedPermutationUnique` shows that under a total order a
    multiset has only one sorted arrangement, so any correct sort gives the
    same sequence.
- **Iteration** (`iteration.dfy`). The iterator is a cursor that starts at
  `head` and moves along `next`. Draining it yields every element exactly
  once, in order.
- **Byte formats** (`bytes.dfy`, `header_store.dfy`). The on-disk integer
  and header formats are modelled down to the byte, as 32-bit
  two's-complement values stored little-endian.

One consequence of the length guard deserves a note. `writeString` accepts
a string of any length, but a string longer than 1,000,000 bytes reads back
as "" (`StringCodec.OversizeReadsEmpty`). `update` and `sort` rebuild the
file from what they read back, so such a string is permanently replaced by
"" as soon as either of them runs (`StringList.UpdateString`).

## Model

| member | source | states |
|---|---|---|
| `Bytes.DecodeEncodeInt32` | course_binary.cpp:591-600 | a 4-byte `int` field written and then read back gives the value written, whatever bytes follow it |
| `Bytes.EncodeDecodeInt32` | course_binary.cpp:597-600 | every 4 bytes decode to some `int` whose encoding is those same bytes, so no length or link field is unreadable |
| `Bytes.ToInt32` | course_binary.cpp:592 | the `(int)` cast agrees with the source value modulo 2^32, lands in the `int` range, and is the identity on values that already fit |
| `HeaderStore.DecodeEncode` | course_binary.cpp:152-161 | `readHeader` after `writeHeader` yields the same head, tail and size, whatever the records after the header hold |
| `HeaderStore.EncodeDecode` | course_binary.cpp:15-19 | writing back a header that was read reproduces the file's first 12 bytes exactly |
| `Arena.EmptyIffNilEnds` | course_binary.cpp:15-19 | in a well-formed file the list is empty exactly when `head` and `tail` are both -1 |
| `Arena.BoundaryLinks` | course_binary.cpp:15-19 | in a non-empty list the head's `prev` and the tail's `next` are -1, and among live records only the head has no predecessor and only the tail no successor |
| `Arena.ChainSymmetric` | course_binary.cpp:165-199 | `next` of record k and `prev` of record k+1 point at each other: the two directions of the chain agree |
| `Arena.FollowAlongWalk` | course_binary.cpp:336-340 | following `next` j times from the head reaches the j-th live record |
| `Arena.Locate` | course_binary.cpp:242-246 | the walk of `index` steps from the head lands on the index-th live record |
| `ListEngine.PushBackSpec` | course_binary.cpp:165-199 | `push_back(v)` appends v to the list; the new record is at the old end of file and becomes the tail (and the head of an empty list); the only old record written is the old tail, and no dead record is touched |
| `ListEngine.PrependSpec` | course_binary.cpp:213-240 | the `index == 0` branch puts v first, makes the new record the head and links the old head back to it |
| `ListEngine.SpliceSpec` | course_binary.cpp:241-276 | the middle branch of `insert` puts v between elements i-1 and i; only those two neighbours' links and the header change |
| `ListEngine.InsertSpec` | course_binary.cpp:203-276 | `insert(i, v)` yields the list with v at position i for 0 <= i <= size (exactly `push_back` at i == size), and leaves the file unchanged for any other i; the file stays well formed and dead records are untouched (the string variant, lines 642-710, is the same code) |
| `ListEngine.EraseInRange` | course_binary.cpp:290-324 | erasing an in-range index removes exactly that element; its record keeps its bytes but becomes unreachable |
| `ListEngine.EraseSpec` | course_binary.cpp:280-324 | `erase(i)` removes element i for 0 <= i < size, moving `head`/`tail` when an end is removed, and changes nothing otherwise; the file never shrinks and dead records are untouched (string variant: lines 713-749) |
| `ListEngine.PopBackSpec` | course_binary.cpp:367-373 | `pop_back` drops the last element and moves `tail` to its predecessor; on an empty list it changes nothing (string variant: lines 846-852) |
| `ListEngine.PopFrontSpec` | course_binary.cpp:378-384 | `pop_front` drops the first element and moves `head` to its successor; on an empty list it changes nothing (string variant: lines 855-861) |
| `ListEngine.Get` | course_binary.cpp:328-345 | `get(i)` is the i-th element for 0 <= i < size and the default value `T{}` otherwise |
| `ListEngine.SetPayloadSpec` | course_binary.cpp:356-362 | rewriting one payload in place changes that element only; every link is unchanged |
| `ListEngine.UpdateSpec` | course_binary.cpp:349-363 | fixed-width `update(i, v)` makes `get(i)` return v and every other `get(j)` return what it returned before; no link, header field or dead record changes; out of range it changes nothing |
| `ListEngine.Size` | course_binary.cpp:427-429 | `getSize()` equals the length of the list that walking the chain yields |
| `ListEngine.Clear` | course_binary.cpp:388-403 | `clear()` yields an empty, well-formed file holding only the empty header, so later records start again at offset 12 |
| `ListEngine.Open` | course_binary.cpp:107-142 | opening a missing or too-short file gives an empty, well-formed list; opening a well-formed file keeps its contents |
| `ListEngine.ReopenPersists` | course_binary.cpp:107-142 | reopening a well-formed file reproduces its size and every element |
| `Order.SwapRemovesInversion` | course_binary.cpp:449-462 | swapping a neighbouring pair that is out of order removes exactly one inversion, which is why the bubble sort terminates |
| `Order.AdjacentSortedIsSorted` | course_binary.cpp:438-465 | under a strict weak order, a pass that finds no neighbouring pair out of order means the whole list is sorted |
| `Order.SortSeqSorted` | course_binary.cpp:814 | the in-memory sort yields a sorted permutation of its input |
| `Order.SortSeqOfSorted` | course_binary.cpp:814 | sorting a list that is already sorted returns it unchanged |
| `Order.SortedPermutationUnique` | course_binary.cpp:814 | under a total order, two sorted sequences with the same elements are equal, so the insertion sort stands in for `std::sort` exactly |
| `FileSort.SwapPayloadsSpec` | course_binary.cpp:455-461 | exchanging two neighbouring payloads swaps two neighbouring elements; links, header and dead records stay as they were |
| `FileSort.SwapStep` | course_binary.cpp:453-462 | a swap during the sort keeps the file a reordering of the original and removes one inversion |
| `FileSort.BubblePass` | course_binary.cpp:440-464 | one pass over the chain reorders payloads only; it reports no swap exactly when no neighbouring pair was out of order, in which case the file is unchanged, and otherwise it strictly lowers the inversion count |
| `FileSort.BubbleUntilSorted` | course_binary.cpp:438-465 | repeating passes until one swaps nothing ends with no neighbouring pair out of order, a permutation of the original payloads on the original records |
| `FileSort.Sort` | course_binary.cpp:433-467 | `sort()` permutes payloads among the same records without rewriting a link, ends sorted under any strict weak order, and leaves an already-sorted list untouched |
| `FileSort.SortPersons` | course_binary.cpp:45-50 | sorting a `Person` list orders it by name and then age, every pair in order, not just neighbours |
| `FileSort.SortInts` | course_binary.cpp:433-467 | sorting an `int` list leaves it in ascending order with the same values |
| `Records.LessIsConverse` | course_binary.cpp:45-56 | `Person::operator<` holds exactly when `operator>` holds with the arguments swapped |
| `Records.GreaterIsByNameThenAge` | course_binary.cpp:45-50 | p > q exactly when q's name sorts before p's, or the names are equal and p is older |
| `Records.PersonGreaterIsStrictOrder` | course_binary.cpp:45-50 | `Person::operator>` is asymmetric, its negation is transitive, and it orders any two different persons |
| `Records.IntGreaterIsStrictOrder` | course_binary.cpp:449-462 | `>` on `int` payloads is asymmetric and its negation transitive |
| `Lexicographic.CompareZeroIffEqual` | course_binary.cpp:46-49 | two names compare equal exactly when they are equal |
| `Lexicographic.CompareAntisymmetric` | course_binary.cpp:46-55 | swapping the compared names flips the sign of the result |
| `Lexicographic.LessTransitive` | course_binary.cpp:814 | the string order is transitive |
| `Lexicographic.PrefixIsLess` | course_binary.cpp:814 | a proper prefix sorts before the longer string |
| `Lexicographic.GreaterIsStrictOrder` | course_binary.cpp:814 | the string order is asymmetric, its negation is transitive, and it orders any two different strings |
| `Iteration.NextStaysOnChain` | course_binary.cpp:481-491 | from a live record, `next()` moves the cursor to another live record or to -1, so a cursor started by `initIterator` never leaves the list |
| `Iteration.NextOnChain` | course_binary.cpp:481-491 | on the k-th live record, `next()` returns the k-th element and moves to the (k+1)-th record, or to -1 after the last |
| `Iteration.InitOnChain` | course_binary.cpp:471-478 | `initIterator()` positions on the first element, and `hasNext()` then holds exactly when the list is non-empty |
| `Iteration.Drain` | course_binary.cpp:471-491 | calling `next()` while `hasNext()` holds yields every element in list order, exactly once, and stops at -1 |
| `StringCodec.LengthField` | course_binary.cpp:592 | the stored length is the size cast to `int`: equal to it below 2^31, never more than it when non-negative |
| `StringCodec.WriteString` | course_binary.cpp:591-595 | for strings shorter than 2^31 bytes, the record is the 4-byte length followed by the string's bytes |
| `StringCodec.ReadString` | course_binary.cpp:597-607 | fewer than 4 bytes cannot be read; any string read is at most 1,000,000 bytes long, and reading never consumes more than is there |
| `StringCodec.Stored` | course_binary.cpp:597-603 | what reads back is the string itself up to 1,000,000 bytes and "" beyond that (below 2^32 bytes) |
| `StringCodec.GuardRejects` | course_binary.cpp:597-603 | any declared length below 0 or above 1,000,000 reads as "" and consumes only the 4 length bytes, whatever follows |
| `StringCodec.GuardAccepts` | course_binary.cpp:597-607 | a declared length the guard accepts reads that many following bytes, or, when the input ends early, the bytes that are there padded with zeros |
| `StringCodec.ReadWriteString` | course_binary.cpp:591-607 | reading back a written string yields what the guard lets through, whatever follows; it consumes the whole record unless the guard rejected the length, in which case it consumes only the 4 length bytes |
| `StringCodec.RoundTrip` | course_binary.cpp:591-607 | every string of up to 1,000,000 bytes survives a write and a read, consuming exactly its record |
| `StringCodec.OversizeReadsEmpty` | course_binary.cpp:597-603 | a longer string is written whole but reads back as "" |
| `StringCodec.StoredIdempotent` | course_binary.cpp:597-603 | what reads back is read back unchanged after being written again |
| `StringList.PushBackStringSpec` | course_binary.cpp:610-639 | string `push_back(s)` appends what a later read will see of s, and grows the file by exactly one record of 8 + 4 + length bytes |
| `StringList.InsertStringSpec` | course_binary.cpp:642-710 | string `insert(i, s)` puts what a later read will see of s at position i, and changes nothing out of range |
| `StringList.GetString` | course_binary.cpp:752-766 | string `get(i)` is the i-th value as read back, and "" out of range |
| `StringList.StoredAllSplice` | course_binary.cpp:642-710 | what reads back after a string is inserted is what read back before, with the stored form of that string at the insertion point |
| `StringList.ReadAll` | course_binary.cpp:776-786 | the read-everything loop of `update` and `sort` yields the list's values in order |
| `StringList.RewriteAll` | course_binary.cpp:821-843 | `rewriteAllFromVector(vec)` leaves a well-formed file whose list is exactly vec, with no dead record |
| `StringList.PushBackKeepsCompact` | course_binary.cpp:838-842 | each `push_back` of the rebuild loop appends its string and adds no dead record |
| `StringList.UpdateString` | course_binary.cpp:769-792 | string `update(i, s)` replaces value i with s and rewrites every other value as it was read; out of range the file is unchanged |
| `StringList.SortStrings` | course_binary.cpp:795-818 | string `sort()` leaves a compact file holding the values read, as a permutation sorted byte-wise that reads back as written; a list of at most one element is left alone |
| `StringList.StoredAllOfShort` | course_binary.cpp:597-607 | strings within the length guard all read back as written |
| `StringList.NextString` | course_binary.cpp:913-922 | the string iterator's `next()` is the generic iterator step with the payload read back through the length guard, and "" at the end |
| `StringList.NextStringOnChain` | course_binary.cpp:913-922 | on the k-th live record, the string iterator returns the k-th value as read back and moves to the next record |

## Left out

- Console output is not modelled: the index-error messages, `print()` and the interactive menus. The operations' effects on the file are modelled, not what they print.
- Open and I/O failures are not modelled (`is_open()` checks, failed reads and writes). Every file operation is taken to succeed, and all-zero default values stand for `T{}`.
- Stream positioning (`seekg`/`seekp`/`tellp`) is abstracted away. A record's offset is its key in the arena, and `eof` is the append position.
- Byte order: the source writes integers in the host's byte order through `reinterpret_cast`. The model fixes that order as little-endian.
- Byte layout is modelled for integers, the header and strings only. `Person` stays a structured value; its name buffer, `strncpy` truncation and struct padding are not modelled.
- Integer widths are only partly modelled. Sizes and offsets are unbounded integers, so the model does not capture a file past 2^31 bytes wrapping the `int` offsets, nor the `long`-to-`int` casts of `tellp()` results.
- The insert branches that write a `long` offset with `sizeof(int)` bytes are modelled as storing the offset, which is what happens on a little-endian machine.
- Crash behaviour between the separate writes of one operation is not modelled, and neither is the destructor, which only closes the file. Each operation is one atomic step from file image to file image.
- `std::sort` is modelled as insertion sort. `Order.SortedPermutationUnique` shows the result is the same sequence for any correct sort under the total string order.
- `FileSort.Sort`: requires `gt` to be asymmetric, which `>` on `int` and on `Person` is. The source places no such demand, but with a relation that is not asymmetric the bubble sort can swap one pair forever.
- `Iteration.Next`: requires the cursor to be -1 or the offset of a record. The program always drains the iterator right after `initIterator` (course_binary.cpp:1079-1081, 1198-1200, 1340-1342), and a cursor held across a change to the list is left undefined by the design. After `clear()` such a cursor would point past the end of the new file, where the source reads an uninitialised `next`; that case is not modelled.
- `StringList.NextString`: requires the cursor to be -1 or the offset of a record, for the same reason as `Iteration.Next`.
- `StringCodec.WriteString`: a string of 2^31 bytes or more is modelled as writing its wrapped length and, when that length is negative, no bytes. What `write` does with a negative count is not modelled.
- `StringCodec.Stored`: states the result only for strings below 2^32 bytes. Longer ones depend on how the length wraps.
