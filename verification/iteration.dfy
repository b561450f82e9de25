/** The list's built-in iterator: a cursor holding the offset of the next
    record to read, started at the head and advanced along `next`. */
module Iteration {
  import opened HeaderStore
  import opened Arena

  /** `initIterator()`: the cursor starts at the head. */
  function InitIterator<T>(st: FileImage<T>): (cursor: int) {
    st.hdr.head
  }

  /** `hasNext()`: the cursor has not run off the end of the chain. */
  predicate HasNext(cursor: int) {
    cursor != NIL
  }

  /** What `next()` returns: the payload read and the advanced cursor. */
  datatype Step<T> = Step(value: T, cursor: int)

  /** `next()`: `zero` (the value `T{}`) and no move at the end; otherwise the
      payload of the record under the cursor, and the cursor moves to that
      record's `next`. The cursor must be NIL or an offset holding a record.
      The program drains the iterator right after initIterator, and
      NextStaysOnChain shows every cursor reached that way is one; a cursor
      held across a change to the list is left undefined. */
  function Next<T>(st: FileImage<T>, cursor: int, zero: T): (r: Step<T>)
    requires cursor == NIL || cursor in st.nodes
    ensures cursor == NIL ==> r == Step(zero, NIL)
  {
    if cursor == NIL then Step(zero, NIL)
    else Step(st.nodes[cursor].payload, st.nodes[cursor].next)
  }

  /** On the k-th live record, next() returns the k-th element and moves to
      the (k+1)-th record, or to NIL after the last one. */
  lemma NextOnChain<T>(st: FileImage<T>, k: int, zero: T)
    requires Valid(st)
    requires 0 <= k < |Offsets(st)|
    ensures var ps := Offsets(st);
      Next(st, ps[k], zero) == Step(Elements(st)[k], if k + 1 < |ps| then ps[k + 1] else NIL)
  {
    var ps := Offsets(st);
    assert st.nodes[ps[k]].next == After(ps, k);
  }

  /** Iterating never leaves the list: from a live record, next() moves to
      another live record or to NIL, so the cursor precondition of Next
      keeps holding for as long as hasNext() does. */
  lemma NextStaysOnChain<T>(st: FileImage<T>, cursor: int, zero: T)
    requires Valid(st)
    requires cursor in Offsets(st)
    ensures var r := Next(st, cursor, zero);
      r.cursor == NIL || r.cursor in Offsets(st)
  {
    var k :| 0 <= k < |Offsets(st)| && Offsets(st)[k] == cursor;
    NextOnChain(st, k, zero);
  }

  /** The head is where the first element lives, or NIL for an empty list. */
  lemma InitOnChain<T>(st: FileImage<T>)
    requires Valid(st)
    ensures InitIterator(st) == (if Offsets(st) == [] then NIL else Offsets(st)[0])
    ensures HasNext(InitIterator(st)) <==> Elements(st) != []
  {
    EmptyIffNilEnds(st);
  }

  /** Starting at the head and calling next() while hasNext() holds yields
      every element in list order, exactly once, and ends at NIL. */
  method Drain<T>(st: FileImage<T>, zero: T) returns (vs: seq<T>, cursor: int)
    requires Valid(st)
    ensures vs == Elements(st)
    ensures cursor == NIL
  {
    var ps := Offsets(st);
    var es := Elements(st);
    vs := [];
    cursor := InitIterator(st);
    InitOnChain(st);
    while HasNext(cursor)
      invariant 0 <= |vs| <= |ps|
      invariant vs == es[..|vs|]
      invariant cursor == (if |vs| < |ps| then ps[|vs|] else NIL)
      decreases |ps| - |vs|
    {
      var k := |vs|;
      NextOnChain(st, k, zero);
      var step := Next(st, cursor, zero);
      vs := vs + [step.value];
      cursor := step.cursor;
      assert vs == es[..k + 1];
    }
    assert vs == es;
  }
}
