/** The backing file seen as an arena: records addressed by byte offset, each
    `[prev][next][payload]`, with the header at offset 0. The list a file holds
    is what one gets by following `next` from `head` exactly `size` times. */
module Arena {
  import opened HeaderStore

  /** One record: offsets of its neighbours (or NIL) and its decoded payload. */
  datatype Node<T> = Node(prev: int, next: int, payload: T)

  /** The file: its header, every record ever written (live or dead) keyed by
      its offset, and the end-of-file offset where the next record will go. */
  datatype FileImage<T> = FileImage(hdr: Header, nodes: map<int, Node<T>>, eof: int)

  /** Byte width of a record whose payload is `width` bytes: two `int` links
      precede it. */
  function RecordBytes(width: nat): (n: int)
    ensures n > 0
  {
    8 + width
  }

  /** The offsets visited by following `next` from p, at most n of them;
      stops early at an offset that holds no record. */
  function Walk<T>(nodes: map<int, Node<T>>, p: int, n: nat): (ps: seq<int>)
    ensures |ps| <= n
    ensures forall k :: 0 <= k < |ps| ==> ps[k] in nodes
    decreases n
  {
    if n == 0 || p !in nodes then [] else [p] + Walk(nodes, nodes[p].next, n - 1)
  }

  /** The offsets of the live records, in list order. */
  function Offsets<T>(st: FileImage<T>): (ps: seq<int>)
    ensures forall k :: 0 <= k < |ps| ==> ps[k] in st.nodes
  {
    if st.hdr.size < 0 then [] else Walk(st.nodes, st.hdr.head, st.hdr.size)
  }

  /** The payloads stored at the offsets ps. */
  function Payloads<T>(nodes: map<int, Node<T>>, ps: seq<int>): (vs: seq<T>)
    requires forall k :: 0 <= k < |ps| ==> ps[k] in nodes
    ensures |vs| == |ps|
    ensures forall k :: 0 <= k < |ps| ==> vs[k] == nodes[ps[k]].payload
  {
    seq(|ps|, k requires 0 <= k < |ps| => nodes[ps[k]].payload)
  }

  /** The abstract list a file holds. */
  function Elements<T>(st: FileImage<T>): (es: seq<T>) {
    Payloads(st.nodes, Offsets(st))
  }

  /** The expected `prev` of the k-th record of the chain ps. */
  function Before(ps: seq<int>, k: int): (p: int)
    requires 0 <= k < |ps|
  {
    if k == 0 then NIL else ps[k - 1]
  }

  /** The expected `next` of the k-th record of the chain ps. */
  function After(ps: seq<int>, k: int): (p: int)
    requires 0 <= k < |ps|
  {
    if k == |ps| - 1 then NIL else ps[k + 1]
  }

  /** Every offset of ps holds a record whose links name its neighbours in ps,
      with NIL at both ends. */
  ghost predicate Linked<T>(nodes: map<int, Node<T>>, ps: seq<int>) {
    && (forall k :: 0 <= k < |ps| ==> ps[k] in nodes)
    && (forall k {:trigger Before(ps, k)} {:trigger After(ps, k)} :: 0 <= k < |ps| ==>
          && nodes[ps[k]].prev == Before(ps, k)
          && nodes[ps[k]].next == After(ps, k))
  }

  ghost predicate Distinct(ps: seq<int>) {
    forall i, j :: 0 <= i < j < |ps| ==> ps[i] != ps[j]
  }

  /** Every record lies after the header and before the end of file. */
  ghost predicate InFile<T>(st: FileImage<T>) {
    && HEADER_BYTES <= st.eof
    && forall a :: a in st.nodes ==> HEADER_BYTES <= a < st.eof
  }

  /** The well-formedness invariant of the file. */
  ghost predicate Valid<T>(st: FileImage<T>) {
    && InFile(st)
    && var ps := Offsets(st);
    && |ps| == st.hdr.size
    && Distinct(ps)
    && Linked(st.nodes, ps)
    && st.hdr.head == (if ps == [] then NIL else ps[0])
    && st.hdr.tail == (if ps == [] then NIL else ps[|ps| - 1])
  }

  /** Rewrites the `next` field of the record at `at`. */
  function SetNext<T>(nodes: map<int, Node<T>>, at: int, to: int): (r: map<int, Node<T>>) {
    if at in nodes then nodes[at := nodes[at].(next := to)] else nodes
  }

  /** Rewrites the `prev` field of the record at `at`. */
  function SetPrev<T>(nodes: map<int, Node<T>>, at: int, to: int): (r: map<int, Node<T>>) {
    if at in nodes then nodes[at := nodes[at].(prev := to)] else nodes
  }

  /** Overwrites the payload bytes of the record at `at`. */
  function SetPayload<T>(nodes: map<int, Node<T>>, at: int, v: T): (r: map<int, Node<T>>) {
    if at in nodes then nodes[at := nodes[at].(payload := v)] else nodes
  }

  /** Follows `next` k times from p, the loop every indexed operation starts with. */
  function Follow<T>(nodes: map<int, Node<T>>, p: int, k: nat): (q: int)
    decreases k
  {
    if k == 0 then p
    else if p in nodes then Follow(nodes, nodes[p].next, k - 1)
    else NIL
  }

  /** The file a record-free file gets: an empty header and nothing else. */
  function EmptyFile<T>(): (r: FileImage<T>)
    ensures Valid(r)
    ensures Elements(r) == []
  {
    FileImage(EMPTY, map[], HEADER_BYTES)
  }

  // ---------------------------------------------------------------------
  // The walk and the chain
  // ---------------------------------------------------------------------

  /** A chain of records joined by `next` is exactly what the walk from its
      first record visits. */
  lemma {:induction false} WalkAlongChain<T>(nodes: map<int, Node<T>>, ps: seq<int>)
    requires ps != []
    requires forall k :: 0 <= k < |ps| ==> ps[k] in nodes
    requires forall k :: 0 <= k < |ps| - 1 ==> nodes[ps[k]].next == ps[k + 1]
    ensures Walk(nodes, ps[0], |ps|) == ps
    decreases |ps|
  {
    if |ps| > 1 {
      var rest := ps[1..];
      assert forall k :: 0 <= k < |rest| - 1 ==> nodes[rest[k]].next == rest[k + 1] by {
        forall k | 0 <= k < |rest| - 1 ensures nodes[rest[k]].next == rest[k + 1] {
          assert rest[k] == ps[k + 1] && rest[k + 1] == ps[k + 2];
        }
      }
      WalkAlongChain(nodes, rest);
      assert ps == [ps[0]] + rest;
    }
  }

  /** A file whose header and records describe a distinct, doubly linked
      chain ps is well formed and holds exactly the chain ps. */
  lemma ValidFromChain<T>(st: FileImage<T>, ps: seq<int>)
    requires InFile(st)
    requires Distinct(ps) && Linked(st.nodes, ps)
    requires st.hdr.size == |ps|
    requires st.hdr.head == (if ps == [] then NIL else ps[0])
    requires st.hdr.tail == (if ps == [] then NIL else ps[|ps| - 1])
    ensures Valid(st)
    ensures Offsets(st) == ps
    ensures Elements(st) == Payloads(st.nodes, ps)
  {
    if ps != [] {
      forall k | 0 <= k < |ps| - 1 ensures st.nodes[ps[k]].next == ps[k + 1] {
        assert After(ps, k) == ps[k + 1];
      }
      WalkAlongChain(st.nodes, ps);
    }
  }

  /** Following `next` k times from the head reaches the k-th live record. */
  lemma {:induction false} FollowAlongWalk<T>(nodes: map<int, Node<T>>, p: int, n: nat, k: nat)
    requires k < |Walk(nodes, p, n)|
    ensures Follow(nodes, p, k) == Walk(nodes, p, n)[k]
    decreases k
  {
    if k > 0 {
      FollowAlongWalk(nodes, nodes[p].next, n - 1, k - 1);
    }
  }

  /** The k-th live record, found the way the source finds it: from `head`,
      follow `next` k times. */
  function Locate<T>(st: FileImage<T>, k: int): (p: int)
    requires Valid(st)
    requires 0 <= k < st.hdr.size
    ensures p == Offsets(st)[k]
    ensures p in st.nodes && p != NIL
  {
    FollowAlongWalk(st.nodes, st.hdr.head, st.hdr.size, k);
    Follow(st.nodes, st.hdr.head, k)
  }

  // ---------------------------------------------------------------------
  // Consequences of the invariant
  // ---------------------------------------------------------------------

  /** The list is empty exactly when the header holds -1 for both ends. */
  lemma EmptyIffNilEnds<T>(st: FileImage<T>)
    requires Valid(st)
    ensures st.hdr.size == 0 <==> (st.hdr.head == NIL && st.hdr.tail == NIL)
    ensures st.hdr.size == 0 <==> Elements(st) == []
  {
    var ps := Offsets(st);
    if ps != [] {
      assert ps[0] in st.nodes;
    }
  }

  /** The first record has no predecessor and the last no successor; every
      other live record has a live neighbour on each side. */
  lemma BoundaryLinks<T>(st: FileImage<T>)
    requires Valid(st)
    requires st.hdr.size > 0
    ensures st.hdr.head in st.nodes && st.nodes[st.hdr.head].prev == NIL
    ensures st.hdr.tail in st.nodes && st.nodes[st.hdr.tail].next == NIL
    ensures forall a :: a in Offsets(st) ==>
              (st.nodes[a].prev == NIL <==> a == st.hdr.head) &&
              (st.nodes[a].next == NIL <==> a == st.hdr.tail)
  {
    var ps := Offsets(st);
    assert st.nodes[ps[0]].prev == Before(ps, 0);
    assert st.nodes[ps[|ps| - 1]].next == After(ps, |ps| - 1);
    forall a | a in ps
      ensures (st.nodes[a].prev == NIL <==> a == st.hdr.head)
      ensures (st.nodes[a].next == NIL <==> a == st.hdr.tail)
    {
      var k :| 0 <= k < |ps| && ps[k] == a;
      assert st.nodes[a].prev == Before(ps, k) && st.nodes[a].next == After(ps, k);
      if k > 0 {
        assert st.nodes[a].prev == ps[k - 1];
        assert ps[k - 1] in st.nodes;
        assert ps[0] != ps[k];
      }
      if k < |ps| - 1 {
        assert st.nodes[a].next == ps[k + 1];
        assert ps[k + 1] in st.nodes;
        assert ps[k] != ps[|ps| - 1];
      }
    }
  }

  /** The chain is symmetric: among live records, a's successor is b exactly
      when b's predecessor is a. */
  lemma ChainSymmetric<T>(st: FileImage<T>, a: int, b: int)
    requires Valid(st)
    requires a in Offsets(st) && b in Offsets(st)
    ensures st.nodes[a].next == b <==> st.nodes[b].prev == a
  {
    var ps := Offsets(st);
    var i :| 0 <= i < |ps| && ps[i] == a;
    var j :| 0 <= j < |ps| && ps[j] == b;
    assert st.nodes[a].next == After(ps, i) && st.nodes[b].prev == Before(ps, j);
    if st.nodes[a].next == b {
      assert ps[j] in st.nodes;
      assert i < |ps| - 1 && ps[i + 1] == b;
      assert j == i + 1;
    }
    if st.nodes[b].prev == a {
      assert ps[i] in st.nodes;
      assert j > 0 && ps[j - 1] == a;
      assert i == j - 1;
    }
  }

  // ---------------------------------------------------------------------
  // Link rewrites leave everything else alone
  // ---------------------------------------------------------------------

  lemma SetNextEffect<T>(nodes: map<int, Node<T>>, at: int, to: int)
    ensures SetNext(nodes, at, to).Keys == nodes.Keys
    ensures forall a :: a in nodes && a != at ==> SetNext(nodes, at, to)[a] == nodes[a]
    ensures at in nodes ==> SetNext(nodes, at, to)[at] == nodes[at].(next := to)
  {
  }

  lemma SetPrevEffect<T>(nodes: map<int, Node<T>>, at: int, to: int)
    ensures SetPrev(nodes, at, to).Keys == nodes.Keys
    ensures forall a :: a in nodes && a != at ==> SetPrev(nodes, at, to)[a] == nodes[a]
    ensures at in nodes ==> SetPrev(nodes, at, to)[at] == nodes[at].(prev := to)
  {
  }

  /** A record added at the old end of file, with the end moved past it,
      keeps every record inside the file. */
  lemma InFileAfterAppend<T>(st: FileImage<T>, r: FileImage<T>)
    requires InFile(st)
    requires r.nodes.Keys == st.nodes.Keys + {st.eof}
    requires r.eof > st.eof
    ensures InFile(r)
  {
  }

  /** Records not in the live chain: dead space left behind by erasures. */
  ghost predicate IsDead<T>(st: FileImage<T>, a: int) {
    a in st.nodes && a !in Offsets(st)
  }

  /** Offsets are never reused: r keeps every record offset of st, the end of
      file only grows, and every record r adds lies at or past st's old end. */
  ghost predicate NoReuse<T>(st: FileImage<T>, r: FileImage<T>) {
    && st.eof <= r.eof
    && st.nodes.Keys <= r.nodes.Keys
    && (forall a :: a in r.nodes && a !in st.nodes ==> st.eof <= a)
  }

  /** Dead records are never written again. */
  ghost predicate DeadUntouched<T>(st: FileImage<T>, r: FileImage<T>) {
    forall a :: IsDead(st, a) ==> a in r.nodes && r.nodes[a] == st.nodes[a]
  }

  /** Adding one record at the old end of file reuses no offset. */
  lemma NoReuseAfterAppend<T>(st: FileImage<T>, r: FileImage<T>)
    requires r.nodes.Keys == st.nodes.Keys + {st.eof}
    requires st.eof <= r.eof
    ensures NoReuse(st, r)
  {
  }

  /** An edit that only rewrites records in `changed`, all of them live,
      leaves every dead record as it was. */
  lemma LiveEditKeepsDead<T>(st: FileImage<T>, r: FileImage<T>, changed: set<int>)
    requires forall a :: a in changed ==> a in Offsets(st)
    requires st.nodes.Keys <= r.nodes.Keys
    requires forall a :: a in st.nodes && a !in changed ==> r.nodes[a] == st.nodes[a]
    ensures DeadUntouched(st, r)
  {
  }
}
