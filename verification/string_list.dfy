/** `BinaryList<std::string>`: the same linked file, with each payload a
    length-prefixed string. Structural operations (push_back, insert, erase,
    pops, clear, getSize) are the list engine's with the record width of the
    string written. Reads go through readString, and update and sort read the
    whole list into memory and rewrite the file from scratch. */
module StringList {
  import opened Bytes
  import opened HeaderStore
  import opened Arena
  import opened Order
  import opened ListEngine
  import opened StringCodec
  import Lexicographic
  import Iteration

  /** The file of a string list: each record holds the string written into it. */
  type StringFile = FileImage<seq<Byte>>

  /** The payload width writeString produces for s. */
  function Width(s: seq<Byte>): (w: nat) {
    |WriteString(s)|
  }

  /** Stored applied to each string. */
  function StoredAll(ss: seq<seq<Byte>>): (ts: seq<seq<Byte>>)
    ensures |ts| == |ss|
    ensures forall i :: 0 <= i < |ss| ==> ts[i] == Stored(ss[i])
  {
    seq(|ss|, i requires 0 <= i < |ss| => Stored(ss[i]))
  }

  /** The list as readString sees it: what get, next and the in-memory copy
      of update and sort read back. */
  function Values(st: StringFile): (vs: seq<seq<Byte>>)
    ensures |vs| == |Elements(st)|
  {
    StoredAll(Elements(st))
  }

  /** `push_back(value)`. */
  function PushBackString(st: StringFile, s: seq<Byte>): (r: StringFile) {
    PushBack(st, s, Width(s))
  }

  /** `insert(index, value)`. */
  function InsertString(st: StringFile, i: int, s: seq<Byte>): (r: StringFile)
    requires Valid(st)
  {
    Insert(st, i, s, Width(s))
  }

  /** push_back on a string list appends what readString will see of s. */
  lemma PushBackStringSpec(st: StringFile, s: seq<Byte>)
    requires Valid(st)
    ensures var r := PushBackString(st, s);
      && Valid(r)
      && Values(r) == Values(st) + [Stored(s)]
      && r.eof == st.eof + 8 + |WriteString(s)|
  {
    PushBackSpec(st, s, Width(s));
  }

  /** insert on a string list splices in what readString will see of s. */
  lemma InsertStringSpec(st: StringFile, i: int, s: seq<Byte>)
    requires Valid(st)
    ensures var r := InsertString(st, i, s);
      && Valid(r)
      && (0 <= i <= |Values(st)| ==> Values(r) == SpliceAt(Values(st), i, Stored(s)))
      && (i < 0 || i > |Values(st)| ==> r == st)
  {
    var r := InsertString(st, i, s);
    InsertSpec(st, i, s, Width(s));
    if 0 <= i <= |Values(st)| {
      StoredAllSplice(Elements(st), i, s);
    }
  }

  /** Reading back commutes with splicing: what is read after a string is
      spliced in is what was read before with the stored string spliced in. */
  lemma StoredAllSplice(xs: seq<seq<Byte>>, i: int, x: seq<Byte>)
    requires 0 <= i <= |xs|
    ensures StoredAll(SpliceAt(xs, i, x)) == SpliceAt(StoredAll(xs), i, Stored(x))
  {
    var a := StoredAll(SpliceAt(xs, i, x));
    var b := SpliceAt(StoredAll(xs), i, Stored(x));
    assert |a| == |b|;
    forall k | 0 <= k < |a| ensures a[k] == b[k] {
      if k < i {
      } else if k == i {
      } else {
      }
    }
  }

  /** `get(index)`: readString at the index-th record; "" out of range. */
  function GetString(st: StringFile, i: int): (r: seq<Byte>)
    requires Valid(st)
    ensures 0 <= i < |Values(st)| ==> r == Values(st)[i]
    ensures !(0 <= i < |Values(st)|) ==> r == []
  {
    if i < 0 || i >= st.hdr.size then [] else Stored(Get(st, i, []))
  }

  /** The loop update and sort open with: walk the chain from the head,
      reading `size` strings into a vector. */
  method ReadAll(st: StringFile) returns (temp: seq<seq<Byte>>)
    requires Valid(st)
    ensures temp == Values(st)
  {
    var ps := Offsets(st);
    var vs := Values(st);
    temp := [];
    var cur := st.hdr.head;
    var i := 0;
    while i < st.hdr.size
      invariant 0 <= i <= st.hdr.size
      invariant temp == vs[..i]
      invariant i < st.hdr.size ==> cur == ps[i]
    {
      var n := st.nodes[cur].next;
      assert n == After(ps, i);
      assert Stored(st.nodes[cur].payload) == vs[i];
      assert vs[..i + 1] == vs[..i] + [vs[i]];
      temp := temp + [Stored(st.nodes[cur].payload)];
      cur := n;
      i := i + 1;
    }
  }

  /** A file with no dead records: every record in it is live. */
  ghost predicate Compact(st: StringFile) {
    forall a :: a in st.nodes ==> a in Offsets(st)
  }

  /** r is a well-formed file with no dead record holding exactly vs: what
      the rebuild of rewriteAllFromVector keeps after every push_back. */
  ghost predicate Rebuilt(r: StringFile, vs: seq<seq<Byte>>) {
    Valid(r) && Compact(r) && Elements(r) == vs
  }

  /** `rewriteAllFromVector(vec)`: delete the file, write an empty header and
      push_back every string of vec in order. The result holds exactly vec
      and no dead record. */
  method RewriteAll(vec: seq<seq<Byte>>) returns (r: StringFile)
    ensures Valid(r)
    ensures Elements(r) == vec
    ensures Values(r) == StoredAll(vec)
    ensures Compact(r)
  {
    r := Clear();
    var i := 0;
    while i < |vec|
      invariant 0 <= i <= |vec|
      invariant Rebuilt(r, vec[..i])
    {
      PushBackKeepsCompact(r, vec[..i], vec[i]);
      assert vec[..i + 1] == vec[..i] + [vec[i]];
      r := PushBackString(r, vec[i]);
      i := i + 1;
    }
    assert vec[..i] == vec;
  }

  /** push_back onto a file with no dead record leaves none: the new record
      is the only record added, and it is live. */
  lemma PushBackKeepsCompact(st: StringFile, vs: seq<seq<Byte>>, s: seq<Byte>)
    requires Rebuilt(st, vs)
    ensures Rebuilt(PushBackString(st, s), vs + [s])
  {
    var r := PushBackString(st, s);
    PushBackSpec(st, s, Width(s));
    forall a | a in r.nodes ensures a in Offsets(r) {
      if a != st.eof {
        assert a in st.nodes;
        var k :| 0 <= k < |Offsets(st)| && Offsets(st)[k] == a;
        assert Offsets(r)[k] == a;
      } else {
        assert Offsets(r)[|Offsets(st)|] == a;
      }
    }
  }

  /** `update(index, value)` for strings: read everything, replace one
      entry, rewrite the file. Out of range, nothing changes. Every other
      entry is rewritten as read, so an entry that read back as "" stays "". */
  method UpdateString(st: StringFile, i: int, s: seq<Byte>) returns (r: StringFile)
    requires Valid(st)
    ensures Valid(r)
    ensures !(0 <= i < |Values(st)|) ==> r == st
    ensures 0 <= i < |Values(st)| ==>
              && Elements(r) == Values(st)[i := s]
              && Values(r) == Values(st)[i := Stored(s)]
              && Compact(r)
  {
    if i < 0 || i >= st.hdr.size {
      return st;
    }
    var temp := ReadAll(st);
    temp := temp[i := s];
    r := RewriteAll(temp);
    forall j | 0 <= j < |temp| ensures Values(r)[j] == Values(st)[i := Stored(s)][j] {
      if j != i {
        StoredIdempotent(Elements(st)[j]);
      }
    }
  }

  /** `sort()` for strings: read everything, sort in memory by the string
      order, rewrite the file. A list of at most one element is left alone. */
  method SortStrings(st: StringFile) returns (r: StringFile)
    requires Valid(st)
    ensures Valid(r)
    ensures |Values(st)| <= 1 ==> r == st
    ensures |Values(st)| > 1 ==>
              && Sorted(Elements(r), Lexicographic.Greater)
              && multiset(Elements(r)) == multiset(Values(st))
              && Values(r) == Elements(r)
              && Compact(r)
  {
    if st.hdr.size <= 1 {
      return st;
    }
    var temp := ReadAll(st);
    var sorted := SortSeq(temp, Lexicographic.Greater);
    Lexicographic.GreaterIsStrictOrder();
    SortSeqSorted(temp, Lexicographic.Greater);
    r := RewriteAll(sorted);
    forall j | 0 <= j < |sorted| ensures |sorted[j]| <= MAX_LEN {
      assert sorted[j] in multiset(temp);
    }
    StoredAllOfShort(sorted);
  }

  /** Strings that pass the length guard are read back as written. */
  lemma StoredAllOfShort(vs: seq<seq<Byte>>)
    requires forall k :: 0 <= k < |vs| ==> |vs[k]| <= MAX_LEN
    ensures StoredAll(vs) == vs
  {
  }

  /** The iterator's `next()` for strings: readString at the cursor. It is
      the generic iterator step with the payload read back through the
      length guard, "" standing for `T{}`. */
  function NextString(st: StringFile, cursor: int): (r: (seq<Byte>, int))
    requires cursor == NIL || cursor in st.nodes
    ensures var step := Iteration.Next(st, cursor, []);
      r == (Stored(step.value), step.cursor)
  {
    if cursor == NIL then ([], NIL)
    else (Stored(st.nodes[cursor].payload), st.nodes[cursor].next)
  }

  /** On the k-th live record, the string iterator returns the k-th value. */
  lemma NextStringOnChain(st: StringFile, k: int)
    requires Valid(st)
    requires 0 <= k < |Offsets(st)|
    ensures var ps := Offsets(st);
      NextString(st, ps[k]) == (Values(st)[k], if k + 1 < |ps| then ps[k + 1] else NIL)
  {
    var ps := Offsets(st);
    assert st.nodes[ps[k]].next == After(ps, k);
  }
}
