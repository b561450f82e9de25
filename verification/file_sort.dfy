/** `sort()` of the fixed-width list: a bubble sort run inside the file. The
    records never move and no link is rewritten; only payloads are swapped
    between neighbouring records. */
module FileSort {
  import opened HeaderStore
  import opened Arena
  import opened Order
  import opened ListEngine
  import Records

  /** Exchanges the payloads of the k-th and (k+1)-th live records. */
  function SwapPayloads<T>(st: FileImage<T>, k: int): (r: FileImage<T>)
    requires Valid(st)
    requires 0 <= k < |Offsets(st)| - 1
  {
    var ps := Offsets(st);
    var a := st.nodes[ps[k]].payload;
    var b := st.nodes[ps[k + 1]].payload;
    st.(nodes := SetPayload(SetPayload(st.nodes, ps[k], b), ps[k + 1], a))
  }

  /** Swapping two neighbouring payloads swaps two neighbouring elements and
      leaves every link, the header and every dead record alone. */
  lemma SwapPayloadsSpec<T>(st: FileImage<T>, k: int)
    requires Valid(st)
    requires 0 <= k < |Offsets(st)| - 1
    ensures var r := SwapPayloads(st, k);
      && Valid(r)
      && SameLinks(st, r)
      && Offsets(r) == Offsets(st)
      && Elements(r) == Swap(Elements(st), k)
      && DeadUntouched(st, r)
  {
    var ps := Offsets(st);
    var es := Elements(st);
    var mid := st.(nodes := SetPayload(st.nodes, ps[k], es[k + 1]));
    SetPayloadSpec(st, k, es[k + 1]);
    SameLinksValid(st, mid);
    SetPayloadSpec(mid, k + 1, es[k]);
    var r := SwapPayloads(st, k);
    SameLinksValid(mid, r);
    LiveEditKeepsDead(st, r, {ps[k], ps[k + 1]});
  }

  /** r holds the records of st with the payloads permuted among the live
      records: what every stage of the sort keeps. */
  ghost predicate Reordered<T>(st: FileImage<T>, r: FileImage<T>) {
    && Valid(r)
    && SameLinks(st, r)
    && Offsets(r) == Offsets(st)
    && multiset(Elements(r)) == multiset(Elements(st))
    && DeadUntouched(st, r)
  }

  /** Two reorderings in a row are one. */
  lemma ReorderedTrans<T>(st: FileImage<T>, r: FileImage<T>, r': FileImage<T>)
    requires Reordered(st, r) && Reordered(r, r')
    ensures Reordered(st, r')
  {
    forall a | IsDead(st, a) ensures a in r'.nodes && r'.nodes[a] == st.nodes[a] {
      assert IsDead(r, a);
    }
  }

  /** A swap inside a pass keeps the payloads a permutation and removes one
      inversion. */
  lemma SwapStep<T(!new)>(st: FileImage<T>, r: FileImage<T>, i: int, gt: (T, T) -> bool)
    requires Valid(st) && Reordered(st, r)
    requires 0 <= i < |Offsets(r)| - 1
    requires Asymmetric(gt)
    requires gt(Elements(r)[i], Elements(r)[i + 1])
    ensures Reordered(st, SwapPayloads(r, i))
    ensures Inversions(Elements(SwapPayloads(r, i)), gt) == Inversions(Elements(r), gt) - 1
  {
    var r' := SwapPayloads(r, i);
    SwapPayloadsSpec(r, i);
    SwapPermutes(Elements(r), i);
    SwapRemovesInversion(Elements(r), i, gt);
    forall a | IsDead(st, a) ensures a in r'.nodes && r'.nodes[a] == st.nodes[a] {
      assert IsDead(r, a);
    }
  }

  /** One `do` iteration of the sort: walks the chain from the head and
      swaps every neighbouring pair found out of order. */
  method BubblePass<T(!new)>(st: FileImage<T>, gt: (T, T) -> bool) returns (r: FileImage<T>, swapped: bool)
    requires Valid(st)
    requires Asymmetric(gt)
    requires st.hdr.size >= 2
    ensures Reordered(st, r)
    ensures !swapped <==> AdjacentSorted(Elements(st), gt)
    ensures !swapped ==> r == st
    ensures swapped ==> Inversions(Elements(r), gt) < Inversions(Elements(st), gt)
  {
    var ps := Offsets(st);
    var n := st.hdr.size;
    r := st;
    swapped := false;
    var cur := st.hdr.head;
    var i := 0;
    while i < n - 1
      invariant 0 <= i <= n - 1
      invariant Reordered(st, r)
      invariant cur == ps[i]
      invariant !swapped <==> (forall k :: 0 <= k < i ==> !gt(Elements(st)[k], Elements(st)[k + 1]))
      invariant !swapped ==> r == st
      invariant swapped ==> Inversions(Elements(r), gt) < Inversions(Elements(st), gt)
    {
      var nextPos := r.nodes[cur].next;
      assert nextPos == After(ps, i);
      var curVal := r.nodes[cur].payload;
      var nextVal := r.nodes[nextPos].payload;
      assert curVal == Elements(r)[i] && nextVal == Elements(r)[i + 1];
      if gt(curVal, nextVal) {
        SwapStep(st, r, i, gt);
        r := SwapPayloads(r, i);
        swapped := true;
      }
      cur := nextPos;
      i := i + 1;
    }
  }

  /** `sort()`: repeat passes until one swaps nothing. A list of at most one
      element is left as it is. The relation must be asymmetric (as `>` on a
      strict order is); otherwise passes could swap the same pair forever. */
  method Sort<T(!new)>(st: FileImage<T>, gt: (T, T) -> bool) returns (r: FileImage<T>)
    requires Valid(st)
    requires Asymmetric(gt)
    ensures Valid(r) && SameLinks(st, r) && Offsets(r) == Offsets(st)
    ensures multiset(Elements(r)) == multiset(Elements(st))
    ensures AdjacentSorted(Elements(r), gt)
    ensures NegTransitive(gt) ==> Sorted(Elements(r), gt)
    ensures DeadUntouched(st, r)
    ensures AdjacentSorted(Elements(st), gt) ==> r == st
  {
    if st.hdr.size <= 1 {
      return st;
    }
    r := BubbleUntilSorted(st, gt);
    if NegTransitive(gt) {
      AdjacentSortedIsSorted(Elements(r), gt);
    }
  }

  /** The `do … while (swapped)` loop of the sort. */
  method BubbleUntilSorted<T(!new)>(st: FileImage<T>, gt: (T, T) -> bool) returns (r: FileImage<T>)
    requires Valid(st)
    requires Asymmetric(gt)
    requires st.hdr.size >= 2
    ensures Reordered(st, r)
    ensures AdjacentSorted(Elements(r), gt)
    ensures AdjacentSorted(Elements(st), gt) ==> r == st
  {
    var swapped;
    r, swapped := BubblePass(st, gt);
    while swapped
      invariant Reordered(st, r)
      invariant !swapped ==> AdjacentSorted(Elements(r), gt)
      invariant AdjacentSorted(Elements(st), gt) ==> r == st && !swapped
      decreases Inversions(Elements(r), gt), swapped
    {
      var r', swapped' := BubblePass(r, gt);
      ReorderedTrans(st, r, r');
      r, swapped := r', swapped';
    }
  }

  /** `BinaryList<Person>::sort()`: persons end up ordered by name, then age. */
  method SortPersons(st: FileImage<Records.Person>) returns (r: FileImage<Records.Person>)
    requires Valid(st)
    ensures Valid(r) && Offsets(r) == Offsets(st)
    ensures multiset(Elements(r)) == multiset(Elements(st))
    ensures Sorted(Elements(r), Records.Greater)
  {
    Records.PersonGreaterIsStrictOrder();
    r := Sort(st, Records.Greater);
  }

  /** `BinaryList<int>::sort()`: ascending order. */
  method SortInts(st: FileImage<int>) returns (r: FileImage<int>)
    requires Valid(st)
    ensures Valid(r) && Offsets(r) == Offsets(st)
    ensures multiset(Elements(r)) == multiset(Elements(st))
    ensures forall i, j :: 0 <= i < j < |Elements(r)| ==> Elements(r)[i] <= Elements(r)[j]
  {
    Records.IntGreaterIsStrictOrder();
    r := Sort(st, Records.IntGreater);
  }
}
