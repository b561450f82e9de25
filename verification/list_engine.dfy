/** The list engine shared by both record strategies: every operation of the
    generic `BinaryList<T>`, over the arena model of its file. `width` is the
    byte width of the payload being written: `sizeof(T)` for fixed-width
    records, a 4-byte length plus the bytes for strings. */
module ListEngine {
  import opened HeaderStore
  import opened Arena

  // ---------------------------------------------------------------------
  // push_back
  // ---------------------------------------------------------------------

  /** Appends a record at end of file after the current tail. */
  function PushBack<T>(st: FileImage<T>, v: T, width: nat): (r: FileImage<T>) {
    var at := st.eof;
    var nodes := st.nodes[at := Node(st.hdr.tail, NIL, v)];
    var eof := at + RecordBytes(width);
    if st.hdr.size == 0 then
      FileImage(Header(at, at, 1), nodes, eof)
    else
      var nodes := if st.hdr.tail != NIL then SetNext(nodes, st.hdr.tail, at) else nodes;
      FileImage(Header(st.hdr.head, at, st.hdr.size + 1), nodes, eof)
  }

  /** Chain surgery of push_back, on the records alone: the new record links
      back to the old last one, whose `next` is patched to it. */
  lemma AppendChain<T>(m: map<int, Node<T>>, ps: seq<int>, tail: int, at: int, v: T)
    requires Linked(m, ps) && Distinct(ps) && at !in m
    requires tail == (if ps == [] then NIL else ps[|ps| - 1])
    ensures var m0 := m[at := Node(tail, NIL, v)];
      var m' := if ps == [] then m0 else SetNext(m0, tail, at);
      && Linked(m', ps + [at])
      && Distinct(ps + [at])
      && m'.Keys == m.Keys + {at}
      && m'[at] == Node(tail, NIL, v)
      && (forall a :: a in m && a != tail ==> m'[a] == m[a])
      && Payloads(m', ps + [at]) == Payloads(m, ps) + [v]
  {
    var m0 := m[at := Node(tail, NIL, v)];
    var m' := if ps == [] then m0 else SetNext(m0, tail, at);
    var qs := ps + [at];
    var n := |ps|;
    SetNextEffect(m0, tail, at);
    forall k | 0 <= k < |qs|
      ensures qs[k] in m'
      ensures m'[qs[k]].prev == Before(qs, k)
      ensures m'[qs[k]].next == After(qs, k)
    {
      if k < n - 1 {
        assert ps[k] != ps[n - 1];
        assert m[ps[k]].prev == Before(ps, k);
        assert m[ps[k]].next == After(ps, k);
      } else if k == n - 1 {
        assert m[ps[k]].prev == Before(ps, k);
      }
    }
    forall i, j | 0 <= i < j < |qs| ensures qs[i] != qs[j] {
      if j < n {
        assert ps[i] != ps[j];
      } else {
        assert ps[i] in m;
      }
    }
    forall k | 0 <= k < |qs| ensures Payloads(m', qs)[k] == (Payloads(m, ps) + [v])[k] {
      if k < n {
        assert ps[k] != at;
      }
    }
  }

  /** push_back appends v: the new record sits at the old end of file, links
      back to the old tail, and becomes the tail (and the head of an empty
      list); nothing else but the old tail's `next` is written. */
  lemma PushBackSpec<T>(st: FileImage<T>, v: T, width: nat)
    requires Valid(st)
    ensures var r := PushBack(st, v, width);
      && Valid(r)
      && Elements(r) == Elements(st) + [v]
      && Offsets(r) == Offsets(st) + [st.eof]
      && r.hdr.size == st.hdr.size + 1
      && r.hdr.tail == st.eof
      && r.hdr.head == (if st.hdr.size == 0 then st.eof else st.hdr.head)
      && r.nodes[st.eof] == Node(st.hdr.tail, NIL, v)
      && r.eof == st.eof + RecordBytes(width)
      && r.nodes.Keys == st.nodes.Keys + {st.eof}
      && NoReuse(st, r)
      && DeadUntouched(st, r)
  {
    var r := PushBack(st, v, width);
    var ps := Offsets(st);
    assert st.eof !in st.nodes;
    AppendChain(st.nodes, ps, st.hdr.tail, st.eof, v);
    assert InFile(r) by {
      InFileAfterAppend(st, r);
    }
    ValidFromChain(r, ps + [st.eof]);
    NoReuseAfterAppend(st, r);
    LiveEditKeepsDead(st, r, if ps == [] then {} else {ps[|ps| - 1]});
  }

  // ---------------------------------------------------------------------
  // insert
  // ---------------------------------------------------------------------

  /** The `index == 0` branch of insert: a new record at end of file becomes
      the head, and the old head's `prev` is patched to it. */
  function Prepend<T>(st: FileImage<T>, v: T, width: nat): (r: FileImage<T>) {
    var at := st.eof;
    var nodes := st.nodes[at := Node(NIL, st.hdr.head, v)];
    var nodes := if st.hdr.head != NIL then SetPrev(nodes, st.hdr.head, at) else nodes;
    var tail := if st.hdr.size == 0 then at else st.hdr.tail;
    FileImage(Header(at, tail, st.hdr.size + 1), nodes, st.eof + RecordBytes(width))
  }

  /** The middle branch of insert: the new record goes between the record
      now at index i and its predecessor; three link fields are rewritten. */
  function Splice<T>(st: FileImage<T>, i: int, v: T, width: nat): (r: FileImage<T>)
    requires Valid(st)
    requires 0 < i < st.hdr.size
  {
    var at := st.eof;
    var cur := Locate(st, i);
    var oldPrev := st.nodes[cur].prev;
    var nodes := st.nodes[at := Node(oldPrev, cur, v)];
    var nodes := SetPrev(nodes, cur, at);
    var nodes := if oldPrev != NIL then SetNext(nodes, oldPrev, at) else nodes;
    FileImage(st.hdr.(size := st.hdr.size + 1), nodes, st.eof + RecordBytes(width))
  }

  /** `insert(index, value)`. */
  function Insert<T>(st: FileImage<T>, i: int, v: T, width: nat): (r: FileImage<T>)
    requires Valid(st)
  {
    if i < 0 || i > st.hdr.size then st
    else if i == st.hdr.size then PushBack(st, v, width)
    else if i == 0 then Prepend(st, v, width)
    else Splice(st, i, v, width)
  }

  /** Chain surgery of the prepend branch, on the records alone. */
  lemma PrependChain<T>(m: map<int, Node<T>>, ps: seq<int>, at: int, v: T)
    requires ps != [] && Linked(m, ps) && Distinct(ps) && at !in m
    ensures var m' := SetPrev(m[at := Node(NIL, ps[0], v)], ps[0], at);
      && Linked(m', [at] + ps)
      && Distinct([at] + ps)
      && m'.Keys == m.Keys + {at}
      && (forall a :: a in m && a != ps[0] ==> m'[a] == m[a])
      && Payloads(m', [at] + ps) == [v] + Payloads(m, ps)
  {
    var m0 := m[at := Node(NIL, ps[0], v)];
    var m' := SetPrev(m0, ps[0], at);
    var qs := [at] + ps;
    SetPrevEffect(m0, ps[0], at);
    forall k | 0 <= k < |qs|
      ensures qs[k] in m'
      ensures m'[qs[k]].prev == Before(qs, k)
      ensures m'[qs[k]].next == After(qs, k)
    {
      if k == 1 {
        assert m[ps[0]].next == After(ps, 0);
      } else if k > 1 {
        assert ps[k - 1] != ps[0];
        assert m[ps[k - 1]].prev == Before(ps, k - 1);
        assert m[ps[k - 1]].next == After(ps, k - 1);
      }
    }
    forall i, j | 0 <= i < j < |qs| ensures qs[i] != qs[j] {
      if i > 0 {
        assert ps[i - 1] != ps[j - 1];
      } else {
        assert ps[j - 1] in m;
      }
    }
    forall k | 0 <= k < |qs| ensures Payloads(m', qs)[k] == ([v] + Payloads(m, ps))[k] {
      if k > 0 {
        assert qs[k] == ps[k - 1];
      }
    }
  }

  lemma PrependSpec<T>(st: FileImage<T>, v: T, width: nat)
    requires Valid(st)
    requires st.hdr.size > 0
    ensures var r := Prepend(st, v, width);
      && Valid(r)
      && Offsets(r) == [st.eof] + Offsets(st)
      && Elements(r) == [v] + Elements(st)
      && r.hdr == Header(st.eof, st.hdr.tail, st.hdr.size + 1)
      && r.eof == st.eof + RecordBytes(width)
      && r.nodes.Keys == st.nodes.Keys + {st.eof}
      && (forall a :: a in st.nodes && a != st.hdr.head ==> r.nodes[a] == st.nodes[a])
  {
    var r := Prepend(st, v, width);
    var ps := Offsets(st);
    assert st.eof !in st.nodes;
    assert st.hdr.head == ps[0] && ps[0] != NIL;
    PrependChain(st.nodes, ps, st.eof, v);
    ValidFromChain(r, [st.eof] + ps);
  }

  /** s with x placed at index i. */
  function SpliceAt<X>(s: seq<X>, i: int, x: X): (r: seq<X>)
    requires 0 <= i <= |s|
    ensures |r| == |s| + 1
    ensures forall k :: 0 <= k < i ==> r[k] == s[k]
    ensures r[i] == x
    ensures forall k :: i < k < |r| ==> r[k] == s[k - 1]
  {
    s[..i] + [x] + s[i..]
  }

  /** Splicing at either end is prepending or appending. */
  lemma SpliceAtEnds<X>(s: seq<X>, x: X)
    ensures SpliceAt(s, 0, x) == [x] + s
    ensures SpliceAt(s, |s|, x) == s + [x]
  {
    assert s[..0] == [] && s[0..] == s;
    assert s[..|s|] == s && s[|s|..] == [];
  }

  /** The records after the middle branch of insert. */
  function SpliceNodes<T>(m: map<int, Node<T>>, ps: seq<int>, i: int, at: int, v: T): (m': map<int, Node<T>>)
    requires 0 < i < |ps|
  {
    var m0 := m[at := Node(ps[i - 1], ps[i], v)];
    SetNext(SetPrev(m0, ps[i], at), ps[i - 1], at)
  }

  lemma SpliceNodesEffect<T>(m: map<int, Node<T>>, ps: seq<int>, i: int, at: int, v: T)
    requires 0 < i < |ps| && Linked(m, ps) && Distinct(ps) && at !in m
    ensures var m' := SpliceNodes(m, ps, i, at, v);
      && m'.Keys == m.Keys + {at}
      && m'[at] == Node(ps[i - 1], ps[i], v)
      && m'[ps[i]] == m[ps[i]].(prev := at)
      && m'[ps[i - 1]] == m[ps[i - 1]].(next := at)
      && (forall a :: a in m && a != ps[i - 1] && a != ps[i] ==> m'[a] == m[a])
      && (forall a :: a in m ==> m'[a].payload == m[a].payload)
  {
    var m0 := m[at := Node(ps[i - 1], ps[i], v)];
    SetPrevEffect(m0, ps[i], at);
    SetNextEffect(SetPrev(m0, ps[i], at), ps[i - 1], at);
    assert ps[i] != ps[i - 1];
  }

  /** Chain surgery of the middle branch of insert, on the records alone. */
  lemma SpliceLinked<T>(m: map<int, Node<T>>, ps: seq<int>, i: int, at: int, v: T)
    requires 0 < i < |ps| && Linked(m, ps) && Distinct(ps) && at !in m
    ensures Linked(SpliceNodes(m, ps, i, at, v), SpliceAt(ps, i, at))
  {
    var m' := SpliceNodes(m, ps, i, at, v);
    var qs := SpliceAt(ps, i, at);
    SpliceNodesEffect(m, ps, i, at, v);
    forall k | 0 <= k < |qs|
      ensures qs[k] in m'
      ensures m'[qs[k]].prev == Before(qs, k)
      ensures m'[qs[k]].next == After(qs, k)
    {
      if k < i - 1 {
        assert ps[k] != ps[i - 1] && ps[k] != ps[i];
        assert m[ps[k]].prev == Before(ps, k);
        assert m[ps[k]].next == After(ps, k);
      } else if k == i - 1 {
        assert m[ps[k]].prev == Before(ps, k);
      } else if k == i + 1 {
        assert m[ps[i]].next == After(ps, i);
      } else if k > i + 1 {
        assert ps[k - 1] != ps[i - 1] && ps[k - 1] != ps[i];
        assert m[ps[k - 1]].prev == Before(ps, k - 1);
        assert m[ps[k - 1]].next == After(ps, k - 1);
      }
    }
  }

  lemma SpliceDistinct(ps: seq<int>, i: int, at: int)
    requires 0 <= i <= |ps| && Distinct(ps) && at !in ps
    ensures Distinct(SpliceAt(ps, i, at))
  {
    var qs := SpliceAt(ps, i, at);
    forall x, y | 0 <= x < y < |qs| ensures qs[x] != qs[y] {
      if x != i && y != i {
        var x' := if x < i then x else x - 1;
        var y' := if y < i then y else y - 1;
        assert ps[x'] != ps[y'];
      }
    }
  }

  lemma SplicePayloads<T>(m: map<int, Node<T>>, ps: seq<int>, i: int, at: int, v: T)
    requires 0 < i < |ps| && at !in m
    requires forall k :: 0 <= k < |ps| ==> ps[k] in m
    ensures var m' := SpliceNodes(m, ps, i, at, v);
      && m'.Keys == m.Keys + {at}
      && Payloads(m', SpliceAt(ps, i, at)) == SpliceAt(Payloads(m, ps), i, v)
  {
    var m0 := m[at := Node(ps[i - 1], ps[i], v)];
    var m1 := SetPrev(m0, ps[i], at);
    var m' := SetNext(m1, ps[i - 1], at);
    SetPrevEffect(m0, ps[i], at);
    SetNextEffect(m1, ps[i - 1], at);
    assert forall a :: a in m ==> m'[a].payload == m[a].payload;
    var qs := SpliceAt(ps, i, at);
    var rs := SpliceAt(Payloads(m, ps), i, v);
    forall k | 0 <= k < |qs| ensures Payloads(m', qs)[k] == rs[k] {
      if k < i {
        assert qs[k] == ps[k];
      } else if k > i {
        assert qs[k] == ps[k - 1];
      }
    }
  }

  /** The records Splice writes, in terms of the chain. */
  lemma SpliceIsSpliceNodes<T>(st: FileImage<T>, i: int, v: T, width: nat)
    requires Valid(st)
    requires 0 < i < st.hdr.size
    ensures var r := Splice(st, i, v, width);
      && r.nodes == SpliceNodes(st.nodes, Offsets(st), i, st.eof, v)
      && r.hdr == st.hdr.(size := st.hdr.size + 1)
      && r.eof == st.eof + RecordBytes(width)
  {
    var ps := Offsets(st);
    assert st.nodes[ps[i]].prev == Before(ps, i) == ps[i - 1];
    assert ps[i - 1] in st.nodes;
  }

  /** The spliced file is a well-formed chain: the new offset sits at index i. */
  lemma SpliceChain<T>(st: FileImage<T>, i: int, v: T, width: nat)
    requires Valid(st)
    requires 0 < i < st.hdr.size
    ensures var r := Splice(st, i, v, width);
      && Valid(r)
      && Offsets(r) == SpliceAt(Offsets(st), i, st.eof)
  {
    var r := Splice(st, i, v, width);
    var ps := Offsets(st);
    var at := st.eof;
    var qs := SpliceAt(ps, i, at);
    SpliceIsSpliceNodes(st, i, v, width);
    assert qs[0] == ps[0];
    assert qs[|qs| - 1] == ps[|ps| - 1];
    assert at !in st.nodes && at !in ps;
    assert InFile(r) by {
      SplicePayloads(st.nodes, ps, i, at, v);
      InFileAfterAppend(st, r);
    }
    assert Linked(r.nodes, qs) by {
      SpliceLinked(st.nodes, ps, i, at, v);
    }
    assert Distinct(qs) by {
      SpliceDistinct(ps, i, at);
    }
    ValidFromChain(r, qs);
  }

  /** Splicing at an inner index puts v at index i of the list. */
  lemma SpliceSpec<T>(st: FileImage<T>, i: int, v: T, width: nat)
    requires Valid(st)
    requires 0 < i < st.hdr.size
    ensures var r := Splice(st, i, v, width);
      var ps := Offsets(st);
      && Valid(r)
      && Offsets(r) == SpliceAt(ps, i, st.eof)
      && Elements(r) == SpliceAt(Elements(st), i, v)
      && r.hdr == st.hdr.(size := st.hdr.size + 1)
      && r.eof == st.eof + RecordBytes(width)
      && r.nodes.Keys == st.nodes.Keys + {st.eof}
      && (forall a :: a in st.nodes && a != ps[i - 1] && a != ps[i] ==> r.nodes[a] == st.nodes[a])
  {
    SpliceIsSpliceNodes(st, i, v, width);
    SpliceChain(st, i, v, width);
    SplicePayloads(st.nodes, Offsets(st), i, st.eof, v);
    assert st.eof !in st.nodes;
    SpliceNodesEffect(st.nodes, Offsets(st), i, st.eof, v);
  }

  /** insert(i, v) splices v in at index i when 0 <= i <= size, is exactly
      push_back at i == size, and leaves the file untouched otherwise. The
      chain stays well formed, the new record lands at a fresh offset, and
      dead records are never written. */
  lemma InsertSpec<T>(st: FileImage<T>, i: int, v: T, width: nat)
    requires Valid(st)
    ensures var r := Insert(st, i, v, width);
      && Valid(r)
      && (i < 0 || i > st.hdr.size ==> r == st)
      && (i == st.hdr.size ==> r == PushBack(st, v, width))
      && (0 <= i <= st.hdr.size ==>
            && Elements(r) == SpliceAt(Elements(st), i, v)
            && Offsets(r) == SpliceAt(Offsets(st), i, st.eof)
            && r.hdr.size == st.hdr.size + 1
            && r.nodes.Keys == st.nodes.Keys + {st.eof}
            && r.eof == st.eof + RecordBytes(width)
            && (i == 0 ==> r.hdr.head == st.eof))
      && NoReuse(st, r)
      && DeadUntouched(st, r)
  {
    if 0 <= i <= st.hdr.size {
      if i == st.hdr.size {
        InsertAtEnd(st, v, width);
      } else if i == 0 {
        InsertAtFront(st, v, width);
      } else {
        InsertInside(st, i, v, width);
      }
    }
  }

  /** insert(size, v) is push_back. */
  lemma InsertAtEnd<T>(st: FileImage<T>, v: T, width: nat)
    requires Valid(st)
    ensures var r := Insert(st, st.hdr.size, v, width);
      && Valid(r)
      && Elements(r) == SpliceAt(Elements(st), st.hdr.size, v)
      && Offsets(r) == SpliceAt(Offsets(st), st.hdr.size, st.eof)
      && r.hdr.size == st.hdr.size + 1
      && r.nodes.Keys == st.nodes.Keys + {st.eof}
      && r.eof == st.eof + RecordBytes(width)
      && (st.hdr.size == 0 ==> r.hdr.head == st.eof)
      && NoReuse(st, r)
      && DeadUntouched(st, r)
  {
    PushBackSpec(st, v, width);
    SpliceAtEnds(Elements(st), v);
    SpliceAtEnds(Offsets(st), st.eof);
  }

  /** insert(0, v) on a non-empty list prepends. */
  lemma InsertAtFront<T>(st: FileImage<T>, v: T, width: nat)
    requires Valid(st)
    requires 0 < st.hdr.size
    ensures var r := Insert(st, 0, v, width);
      && Valid(r)
      && Elements(r) == SpliceAt(Elements(st), 0, v)
      && Offsets(r) == SpliceAt(Offsets(st), 0, st.eof)
      && r.hdr.size == st.hdr.size + 1
      && r.nodes.Keys == st.nodes.Keys + {st.eof}
      && r.eof == st.eof + RecordBytes(width)
      && r.hdr.head == st.eof
      && NoReuse(st, r)
      && DeadUntouched(st, r)
  {
    var r := Insert(st, 0, v, width);
    var ps := Offsets(st);
    PrependSpec(st, v, width);
    SpliceAtEnds(Elements(st), v);
    SpliceAtEnds(ps, st.eof);
    NoReuseAfterAppend(st, r);
    LiveEditKeepsDead(st, r, {ps[0]});
  }

  /** insert(i, v) with 0 < i < size splices. */
  lemma InsertInside<T>(st: FileImage<T>, i: int, v: T, width: nat)
    requires Valid(st)
    requires 0 < i < st.hdr.size
    ensures var r := Insert(st, i, v, width);
      && Valid(r)
      && Elements(r) == SpliceAt(Elements(st), i, v)
      && Offsets(r) == SpliceAt(Offsets(st), i, st.eof)
      && r.hdr.size == st.hdr.size + 1
      && r.nodes.Keys == st.nodes.Keys + {st.eof}
      && r.eof == st.eof + RecordBytes(width)
      && NoReuse(st, r)
      && DeadUntouched(st, r)
  {
    assert Insert(st, i, v, width) == Splice(st, i, v, width);
    SpliceSpec(st, i, v, width);
    SpliceFrame(st, i, v, width);
  }

  /** The middle branch of insert adds one record at end of file and writes
      only the two live neighbours of the new one. */
  lemma SpliceFrame<T>(st: FileImage<T>, i: int, v: T, width: nat)
    requires Valid(st)
    requires 0 < i < st.hdr.size
    ensures var r := Splice(st, i, v, width);
      NoReuse(st, r) && DeadUntouched(st, r)
  {
    var r := Splice(st, i, v, width);
    var ps := Offsets(st);
    SpliceIsSpliceNodes(st, i, v, width);
    assert st.eof !in st.nodes;
    SpliceNodesEffect(st.nodes, ps, i, st.eof, v);
    NoReuseAfterAppend(st, r);
    LiveEditKeepsDead(st, r, {ps[i - 1], ps[i]});
  }

  // ---------------------------------------------------------------------
  // erase, pop_back, pop_front
  // ---------------------------------------------------------------------

  /** `erase(index)`: unlinks the record at index i; its bytes stay behind. */
  function Erase<T>(st: FileImage<T>, i: int): (r: FileImage<T>)
    requires Valid(st)
  {
    if i < 0 || i >= st.hdr.size || st.hdr.size == 0 then st
    else
      var cur := Locate(st, i);
      var p := st.nodes[cur].prev;
      var n := st.nodes[cur].next;
      var head := if cur == st.hdr.head then n else st.hdr.head;
      var tail := if cur == st.hdr.tail then p else st.hdr.tail;
      var nodes := if p != NIL then SetNext(st.nodes, p, n) else st.nodes;
      var nodes := if n != NIL then SetPrev(nodes, n, p) else nodes;
      FileImage(Header(head, tail, st.hdr.size - 1), nodes, st.eof)
  }

  /** s without its value at index i. */
  function RemoveAt<X>(s: seq<X>, i: int): (r: seq<X>)
    requires 0 <= i < |s|
    ensures |r| == |s| - 1
    ensures forall k :: 0 <= k < i ==> r[k] == s[k]
    ensures forall k :: i <= k < |r| ==> r[k] == s[k + 1]
  {
    s[..i] + s[i + 1..]
  }

  /** The records after erase unlinks the i-th record of the chain ps: its
      predecessor's `next` and its successor's `prev` skip over it. */
  function UnlinkNodes<T>(m: map<int, Node<T>>, ps: seq<int>, i: int): (m': map<int, Node<T>>)
    requires 0 <= i < |ps|
  {
    var p := Before(ps, i);
    var n := After(ps, i);
    var m1 := if p != NIL then SetNext(m, p, n) else m;
    if n != NIL then SetPrev(m1, n, p) else m1
  }

  lemma UnlinkNodesEffect<T>(m: map<int, Node<T>>, ps: seq<int>, i: int)
    requires 0 <= i < |ps| && Linked(m, ps) && Distinct(ps) && NIL !in m
    ensures var m' := UnlinkNodes(m, ps, i);
      && m'.Keys == m.Keys
      && (i > 0 ==> m'[ps[i - 1]] == m[ps[i - 1]].(next := After(ps, i)))
      && (i < |ps| - 1 ==> m'[ps[i + 1]] == m[ps[i + 1]].(prev := Before(ps, i)))
      && (forall a :: a in m && a != Before(ps, i) && a != After(ps, i) ==> m'[a] == m[a])
      && (forall a :: a in m ==> m'[a].payload == m[a].payload)
  {
    var p := Before(ps, i);
    var n := After(ps, i);
    var m1 := if p != NIL then SetNext(m, p, n) else m;
    SetNextEffect(m, p, n);
    SetPrevEffect(m1, n, p);
    if 0 < i < |ps| - 1 {
      assert ps[i - 1] != ps[i + 1];
    }
  }

  /** Chain surgery of erase, on the records alone. */
  lemma UnlinkLinked<T>(m: map<int, Node<T>>, ps: seq<int>, i: int)
    requires 0 <= i < |ps| && Linked(m, ps) && Distinct(ps) && NIL !in m
    ensures Linked(UnlinkNodes(m, ps, i), RemoveAt(ps, i))
  {
    var m' := UnlinkNodes(m, ps, i);
    var qs := RemoveAt(ps, i);
    UnlinkNodesEffect(m, ps, i);
    forall k | 0 <= k < |qs|
      ensures qs[k] in m'
      ensures m'[qs[k]].prev == Before(qs, k)
      ensures m'[qs[k]].next == After(qs, k)
    {
      var k' := if k < i then k else k + 1;
      assert qs[k] == ps[k'] && ps[k'] in m;
      if k' != i - 1 && k' != i + 1 {
        assert ps[k'] != Before(ps, i) by {
          if i > 0 { assert ps[k'] != ps[i - 1]; }
        }
        assert ps[k'] != After(ps, i) by {
          if i < |ps| - 1 { assert ps[k'] != ps[i + 1]; }
        }
      }
      assert m[ps[k']].prev == Before(ps, k');
      assert m[ps[k']].next == After(ps, k');
    }
  }

  /** Dropping one offset keeps the rest distinct, and the dropped one is gone. */
  lemma RemoveDistinct(ps: seq<int>, i: int)
    requires 0 <= i < |ps| && Distinct(ps)
    ensures Distinct(RemoveAt(ps, i))
    ensures ps[i] !in RemoveAt(ps, i)
  {
    var qs := RemoveAt(ps, i);
    forall x, y | 0 <= x < y < |qs| ensures qs[x] != qs[y] {
      var x' := if x < i then x else x + 1;
      var y' := if y < i then y else y + 1;
      assert ps[x'] != ps[y'];
    }
    forall k | 0 <= k < |qs| ensures qs[k] != ps[i] {
      var k' := if k < i then k else k + 1;
      assert ps[k'] != ps[i];
    }
  }

  /** Unlinking keeps every payload, so the payloads along the shorter chain
      are the old ones without the i-th. */
  lemma UnlinkPayloads<T>(m: map<int, Node<T>>, ps: seq<int>, i: int)
    requires 0 <= i < |ps| && Linked(m, ps) && Distinct(ps) && NIL !in m
    ensures Payloads(UnlinkNodes(m, ps, i), RemoveAt(ps, i)) == RemoveAt(Payloads(m, ps), i)
  {
    UnlinkNodesEffect(m, ps, i);
  }

  /** The in-range branch of erase, stated on the records. */
  lemma EraseIsUnlink<T>(st: FileImage<T>, i: int)
    requires Valid(st)
    requires 0 <= i < st.hdr.size
    ensures var ps := Offsets(st);
      var r := Erase(st, i);
      && r.nodes == UnlinkNodes(st.nodes, ps, i)
      && r.hdr == Header(if i == 0 then After(ps, 0) else st.hdr.head,
                         if i == |ps| - 1 then Before(ps, i) else st.hdr.tail,
                         st.hdr.size - 1)
      && r.eof == st.eof
  {
    var ps := Offsets(st);
    var cur := ps[i];
    assert st.nodes[cur].prev == Before(ps, i) && st.nodes[cur].next == After(ps, i);
    assert cur == st.hdr.head <==> i == 0 by {
      if i != 0 { assert ps[0] != ps[i]; }
    }
    assert cur == st.hdr.tail <==> i == |ps| - 1 by {
      if i != |ps| - 1 { assert ps[i] != ps[|ps| - 1]; }
    }
  }

  /** The file erase leaves is a well-formed chain without the i-th offset. */
  lemma EraseChain<T>(st: FileImage<T>, i: int)
    requires Valid(st)
    requires 0 <= i < st.hdr.size
    ensures var r := Erase(st, i);
      && Valid(r)
      && Offsets(r) == RemoveAt(Offsets(st), i)
  {
    var r := Erase(st, i);
    var ps := Offsets(st);
    var qs := RemoveAt(ps, i);
    EraseIsUnlink(st, i);
    assert NIL !in st.nodes;
    assert r.nodes.Keys == st.nodes.Keys by {
      UnlinkNodesEffect(st.nodes, ps, i);
    }
    assert Linked(r.nodes, qs) by {
      UnlinkLinked(st.nodes, ps, i);
    }
    assert Distinct(qs) by {
      RemoveDistinct(ps, i);
    }
    if qs != [] {
      assert i == 0 ==> qs[0] == ps[1];
      assert i > 0 ==> qs[0] == ps[0];
      assert i == |ps| - 1 ==> qs[|qs| - 1] == ps[i - 1];
      assert i < |ps| - 1 ==> qs[|qs| - 1] == ps[|ps| - 1];
    }
    ValidFromChain(r, qs);
  }

  /** erase(i) on an index in range: the i-th element goes, its record stays
      in the file, unreachable and unchanged. */
  lemma EraseInRange<T>(st: FileImage<T>, i: int)
    requires Valid(st)
    requires 0 <= i < st.hdr.size
    ensures var r := Erase(st, i);
      var ps := Offsets(st);
      && Valid(r)
      && Elements(r) == RemoveAt(Elements(st), i)
      && Offsets(r) == RemoveAt(ps, i)
      && r.hdr.size == st.hdr.size - 1
      && r.hdr.head == (if i == 0 then After(ps, 0) else st.hdr.head)
      && r.hdr.tail == (if i == |ps| - 1 then Before(ps, i) else st.hdr.tail)
      && r.eof == st.eof
      && r.nodes.Keys == st.nodes.Keys
      && IsDead(r, ps[i])
      && r.nodes[ps[i]] == st.nodes[ps[i]]
  {
    var ps := Offsets(st);
    EraseIsUnlink(st, i);
    EraseChain(st, i);
    assert NIL !in st.nodes;
    UnlinkNodesEffect(st.nodes, ps, i);
    UnlinkPayloads(st.nodes, ps, i);
    RemoveDistinct(ps, i);
    assert ps[i] != Before(ps, i) && ps[i] != After(ps, i) by {
      if i > 0 { assert ps[i - 1] != ps[i]; }
      if i < |ps| - 1 { assert ps[i + 1] != ps[i]; }
    }
  }

  /** erase writes only the live neighbours of the record it removes. */
  lemma EraseFrame<T>(st: FileImage<T>, i: int)
    requires Valid(st)
    ensures DeadUntouched(st, Erase(st, i))
  {
    if 0 <= i < st.hdr.size {
      var r := Erase(st, i);
      var ps := Offsets(st);
      EraseIsUnlink(st, i);
      assert NIL !in st.nodes;
      UnlinkNodesEffect(st.nodes, ps, i);
      var changed := (if i > 0 then {ps[i - 1]} else {}) + (if i < |ps| - 1 then {ps[i + 1]} else {});
      LiveEditKeepsDead(st, r, changed);
    }
  }

  /** erase(i) removes the i-th element when 0 <= i < size and changes nothing
      otherwise. The removed record stays in the file, unreachable; only its
      neighbours' links and the header change. */
  lemma EraseSpec<T>(st: FileImage<T>, i: int)
    requires Valid(st)
    ensures var r := Erase(st, i);
      var ps := Offsets(st);
      && Valid(r)
      && (i < 0 || i >= st.hdr.size ==> r == st)
      && (0 <= i < st.hdr.size ==>
            && Elements(r) == RemoveAt(Elements(st), i)
            && Offsets(r) == RemoveAt(ps, i)
            && r.hdr.size == st.hdr.size - 1
            && r.hdr.head == (if i == 0 then After(ps, 0) else st.hdr.head)
            && r.hdr.tail == (if i == |ps| - 1 then Before(ps, i) else st.hdr.tail)
            && IsDead(r, ps[i])
            && r.nodes[ps[i]] == st.nodes[ps[i]])
      && r.eof == st.eof
      && r.nodes.Keys == st.nodes.Keys
      && NoReuse(st, r)
      && DeadUntouched(st, r)
  {
    if 0 <= i < st.hdr.size {
      EraseInRange(st, i);
    }
    EraseFrame(st, i);
  }

  /** `pop_back()`: erase the last element; nothing on an empty list. */
  function PopBack<T>(st: FileImage<T>): (r: FileImage<T>)
    requires Valid(st)
  {
    if st.hdr.size == 0 then st else Erase(st, st.hdr.size - 1)
  }

  /** `pop_front()`: erase the first element; nothing on an empty list. */
  function PopFront<T>(st: FileImage<T>): (r: FileImage<T>)
    requires Valid(st)
  {
    if st.hdr.size == 0 then st else Erase(st, 0)
  }

  /** pop_back drops the last element and leaves an empty list as it is. */
  lemma PopBackSpec<T>(st: FileImage<T>)
    requires Valid(st)
    ensures var r := PopBack(st);
      && Valid(r)
      && (Elements(st) == [] ==> r == st)
      && (Elements(st) != [] ==>
            && Elements(r) == Elements(st)[..|Elements(st)| - 1]
            && r.hdr.size == st.hdr.size - 1
            && r.hdr.tail == Before(Offsets(st), |Offsets(st)| - 1))
  {
    var es := Elements(st);
    EmptyIffNilEnds(st);
    if es != [] {
      EraseInRange(st, st.hdr.size - 1);
      assert RemoveAt(es, |es| - 1) == es[..|es| - 1];
    }
  }

  /** pop_front drops the first element and leaves an empty list as it is. */
  lemma PopFrontSpec<T>(st: FileImage<T>)
    requires Valid(st)
    ensures var r := PopFront(st);
      && Valid(r)
      && (Elements(st) == [] ==> r == st)
      && (Elements(st) != [] ==>
            && Elements(r) == Elements(st)[1..]
            && r.hdr.size == st.hdr.size - 1
            && r.hdr.head == After(Offsets(st), 0))
  {
    var es := Elements(st);
    EmptyIffNilEnds(st);
    if es != [] {
      EraseInRange(st, 0);
      assert RemoveAt(es, 0) == es[1..];
    }
  }

  // ---------------------------------------------------------------------
  // get, update, size, clear, construction
  // ---------------------------------------------------------------------

  /** `get(index)`: the payload found by following `next` i times from the
      head; `zero` (the value `T{}`) when i is out of range. */
  function Get<T>(st: FileImage<T>, i: int, zero: T): (r: T)
    requires Valid(st)
    ensures 0 <= i < |Elements(st)| ==> r == Elements(st)[i]
    ensures !(0 <= i < |Elements(st)|) ==> r == zero
  {
    if i < 0 || i >= st.hdr.size then zero
    else st.nodes[Locate(st, i)].payload
  }

  /** `update(index, value)` for fixed-width records: overwrite the payload
      bytes of the i-th record in place. */
  function Update<T>(st: FileImage<T>, i: int, v: T): (r: FileImage<T>)
    requires Valid(st)
  {
    if i < 0 || i >= st.hdr.size then st
    else st.(nodes := SetPayload(st.nodes, Locate(st, i), v))
  }

  /** r differs from st in payloads only: same header, same end of file, same
      records at the same offsets with the same links. */
  ghost predicate SameLinks<T>(st: FileImage<T>, r: FileImage<T>) {
    && r.hdr == st.hdr
    && r.eof == st.eof
    && r.nodes.Keys == st.nodes.Keys
    && forall a :: a in st.nodes ==> r.nodes[a].prev == st.nodes[a].prev && r.nodes[a].next == st.nodes[a].next
  }

  /** The walk reads links only, so payload rewrites leave it alone. */
  lemma {:induction false} WalkIgnoresPayloads<T>(m: map<int, Node<T>>, m': map<int, Node<T>>, p: int, n: nat)
    requires m'.Keys == m.Keys
    requires forall a :: a in m ==> m'[a].next == m[a].next
    ensures Walk(m', p, n) == Walk(m, p, n)
    decreases n
  {
    if n > 0 && p in m {
      WalkIgnoresPayloads(m, m', m[p].next, n - 1);
    }
  }

  /** A file whose records differ only in payloads holds the same chain. */
  lemma SameLinksValid<T>(st: FileImage<T>, r: FileImage<T>)
    requires Valid(st) && SameLinks(st, r)
    ensures Valid(r)
    ensures Offsets(r) == Offsets(st)
  {
    WalkIgnoresPayloads(st.nodes, r.nodes, st.hdr.head, if st.hdr.size < 0 then 0 else st.hdr.size);
  }

  /** Overwriting the payload at the k-th live offset replaces the k-th element. */
  lemma SetPayloadSpec<T>(st: FileImage<T>, k: int, v: T)
    requires Valid(st)
    requires 0 <= k < |Offsets(st)|
    ensures var r := st.(nodes := SetPayload(st.nodes, Offsets(st)[k], v));
      && SameLinks(st, r)
      && Valid(r)
      && Elements(r) == Elements(st)[k := v]
      && (forall a :: a in st.nodes && a != Offsets(st)[k] ==> r.nodes[a] == st.nodes[a])
  {
    var ps := Offsets(st);
    var r := st.(nodes := SetPayload(st.nodes, ps[k], v));
    SameLinksValid(st, r);
    forall j | 0 <= j < |ps| ensures Elements(r)[j] == Elements(st)[k := v][j] {
      if j != k {
        assert ps[j] != ps[k];
      }
    }
  }

  /** Fixed-width update(i, v) replaces element i and nothing else: every
      link, the header and every other record are left as they were; an
      out-of-range index changes nothing. */
  lemma UpdateSpec<T>(st: FileImage<T>, i: int, v: T, zero: T)
    requires Valid(st)
    ensures var r := Update(st, i, v);
      && Valid(r)
      && SameLinks(st, r)
      && Offsets(r) == Offsets(st)
      && (i < 0 || i >= st.hdr.size ==> r == st)
      && (0 <= i < st.hdr.size ==>
            && Elements(r) == Elements(st)[i := v]
            && Get(r, i, zero) == v
            && (forall j :: 0 <= j < st.hdr.size && j != i ==> Get(r, j, zero) == Get(st, j, zero)))
      && NoReuse(st, r)
      && DeadUntouched(st, r)
  {
    var r := Update(st, i, v);
    if 0 <= i < st.hdr.size {
      var ps := Offsets(st);
      SetPayloadSpec(st, i, v);
      SameLinksValid(st, r);
      forall a | IsDead(st, a) ensures a in r.nodes && r.nodes[a] == st.nodes[a] {
        assert a != ps[i];
      }
    }
  }

  /** `getSize()`: the header's count, which is the length of the list. */
  function Size<T>(st: FileImage<T>): (n: int)
    requires Valid(st)
    ensures n == |Elements(st)|
  {
    st.hdr.size
  }

  /** `clear()`: the file is deleted and recreated with an empty header. Unlike
      erase, this discards every record, so later offsets start over at 12. */
  function Clear<T>(): (r: FileImage<T>)
    ensures Valid(r)
    ensures Elements(r) == []
    ensures r.hdr == Header(NIL, NIL, 0)
    ensures r.nodes == map[] && r.eof == HEADER_BYTES
  {
    EmptyFile()
  }

  /** The constructor over an existing file: a file shorter than a header
      gets a fresh empty header; otherwise the stored header is read back. */
  function Open<T>(file: FileImage<T>): (r: FileImage<T>)
    ensures file.eof < HEADER_BYTES ==> r.hdr == EMPTY && Valid(r) && Elements(r) == []
    ensures Valid(file) ==> r == file
  {
    if file.eof < HEADER_BYTES then EmptyFile() else file
  }

  /** Reopening a well-formed file reproduces its size and every element.
      This holds by construction: every operation that changes the header
      writes it back at once, so the file on disk always carries the current
      header and opening it just reads that back. */
  lemma ReopenPersists<T>(st: FileImage<T>, zero: T)
    requires Valid(st)
    ensures Size(Open(st)) == Size(st)
    ensures forall i :: Get(Open(st), i, zero) == Get(st, i, zero)
  {
  }
}
