/** element_set.h: a slab of elements addressed by subscript. The free ones form a FIFO list through
    `next`; the used ones form a doubly linked list through `prev` and the same `next`. */
module ElementSet {
  import opened Bytes

  const END: nat := UINT_MAX

  datatype Element<T> = Element(data: T, prev: nat, next: nat, free: bool)

  // ------------------------------------------------------------------------------------------------
  // The shape, on values
  // ------------------------------------------------------------------------------------------------

  function At(list: seq<nat>, j: int): nat {
    if 0 <= j < |list| then list[j] else END
  }

  ghost predicate NoDup(list: seq<nat>) {
    forall i, j | 0 <= i < j < |list| :: list[i] != list[j]
  }

  ghost predicate NextOk<T>(es: seq<Element<T>>, list: seq<nat>, j: nat) {
    j < |list| && list[j] < |es| && es[list[j]].next == At(list, j + 1)
  }

  ghost predicate PrevOk<T>(es: seq<Element<T>>, list: seq<nat>, j: nat) {
    j < |list| && list[j] < |es| && es[list[j]].prev == At(list, j - 1)
  }

  /** The free list runs from the first free element to the last and holds every free one, once. */
  ghost predicate FreeChain<T>(es: seq<Element<T>>, first: nat, last: nat, list: seq<nat>) {
    NoDup(list) && first == At(list, 0) && last == At(list, |list| - 1) &&
    (forall j | 0 <= j < |list| :: NextOk(es, list, j)) &&
    (forall i: nat :: i in list <==> i < |es| && es[i].free)
  }

  /** The used list can be walked both ways and holds every used element, once. */
  ghost predicate UsedChain<T>(es: seq<Element<T>>, first: nat, list: seq<nat>) {
    NoDup(list) && first == At(list, 0) &&
    (forall j | 0 <= j < |list| :: NextOk(es, list, j) && PrevOk(es, list, j)) &&
    (forall i: nat :: i in list <==> i < |es| && !es[i].free)
  }

  function Without(list: seq<nat>, p: nat): seq<nat>
    requires p < |list|
  {
    list[..p] + list[p + 1..]
  }

  lemma WithoutMembers(list: seq<nat>, p: nat)
    requires p < |list| && NoDup(list)
    ensures NoDup(Without(list, p))
    ensures forall i :: i in Without(list, p) <==> i in list && i != list[p]
  {
    var w := Without(list, p);
    forall i | i in list && i != list[p] ensures i in w {
      var j :| 0 <= j < |list| && list[j] == i;
      assert w[if j < p then j else j - 1] == i;
    }
  }

  /** The first half of put_elem: the neighbours are joined. */
  function Unlinked<T>(es: seq<Element<T>>, s: nat): (es': seq<Element<T>>)
    requires s < |es| < END
    requires es[s].prev == END || es[s].prev < |es|
    requires es[s].next == END || es[s].next < |es|
    ensures |es'| == |es|
  {
    var prev, next := es[s].prev, es[s].next;
    var es1 := if prev != END then es[prev := es[prev].(next := next)] else es;
    if next != END then es1[next := es1[next].(prev := prev)] else es1
  }

  lemma NeighboursInside<T>(es: seq<Element<T>>, first: nat, list: seq<nat>, p: nat)
    requires |es| < END && UsedChain(es, first, list) && p < |list|
    ensures list[p] < |es| && es[list[p]].prev == At(list, p - 1) && es[list[p]].next == At(list, p + 1)
    ensures forall j | 0 <= j < |list| :: list[j] < |es|
  {
    assert NextOk(es, list, p) && PrevOk(es, list, p);
    forall j | 0 <= j < |list| ensures list[j] < |es| { assert NextOk(es, list, j); }
  }

  /** Unlinking the p-th used element touches its neighbours only, and of them only the links. */
  lemma UnlinkedElements<T>(es: seq<Element<T>>, first: nat, list: seq<nat>, p: nat)
    requires |es| < END && UsedChain(es, first, list) && p < |list|
    ensures list[p] < |es| && (es[list[p]].prev == END || es[list[p]].prev < |es|)
    ensures es[list[p]].next == END || es[list[p]].next < |es|
    ensures var es' := Unlinked(es, list[p]);
      (forall i | 0 <= i < |es| :: es'[i].data == es[i].data && es'[i].free == es[i].free) &&
      (forall i | 0 <= i < |es| && i !in list :: es'[i] == es[i]) && es'[list[p]] == es[list[p]]
  {
    NeighboursInside(es, first, list, p);
  }

  /** The links of all the others then form a list without it. */
  lemma UnlinkedChain<T>(es: seq<Element<T>>, first: nat, list: seq<nat>, p: nat)
    requires |es| < END && UsedChain(es, first, list) && p < |list|
    ensures list[p] < |es| && (es[list[p]].prev == END || es[list[p]].prev < |es|)
    ensures es[list[p]].next == END || es[list[p]].next < |es|
    ensures var es', w := Unlinked(es, list[p]), Without(list, p);
      (forall j | 0 <= j < |w| :: NextOk(es', w, j) && PrevOk(es', w, j)) &&
      At(w, 0) == (if first == list[p] then es[list[p]].next else first)
  {
    NeighboursInside(es, first, list, p);
    var es', w := Unlinked(es, list[p]), Without(list, p);
    forall j | 0 <= j < |w| ensures NextOk(es', w, j) && PrevOk(es', w, j) {
      var k := if j < p then j else j + 1;
      assert w[j] == list[k];
      assert NextOk(es, list, k) && PrevOk(es, list, k);
    }
  }

  /** The second half of put_elem: the element goes to the end of the free list. */
  function AppendedFree<T>(es: seq<Element<T>>, last: nat, s: nat): (es': seq<Element<T>>)
    requires s < |es| && (last == END || last < |es|)
    ensures |es'| == |es|
  {
    var es1 := es[s := es[s].(next := END)];
    var es2 := if last != END then es1[last := es1[last].(next := s)] else es1;
    es2[s := es2[s].(free := true)]
  }

  lemma AppendedFreeChain<T>(es: seq<Element<T>>, first: nat, last: nat, list: seq<nat>, s: nat)
    requires s < |es| < END && FreeChain(es, first, last, list) && !es[s].free
    ensures last == END || last < |es|
    ensures var es' := AppendedFree(es, last, s);
      FreeChain(es', if first == END then s else first, s, list + [s]) &&
      (forall i | 0 <= i < |es| :: es'[i].data == es[i].data) &&
      (forall i | 0 <= i < |es| && i !in list && i != s :: es'[i] == es[i])
  {
    assert list != [] ==> NextOk(es, list, |list| - 1) && NextOk(es, list, 0);
    var es' := AppendedFree(es, last, s);
    forall j | 0 <= j < |list + [s]| ensures NextOk(es', list + [s], j) {
      if j < |list| {
        assert NextOk(es, list, j);
      }
    }
    assert s !in list;
  }

  /** A used list is not affected by changes elsewhere. */
  lemma UsedChainFrame<T>(es: seq<Element<T>>, es': seq<Element<T>>, list: seq<nat>)
    requires |es'| == |es| && forall i | 0 <= i < |es| && i in list :: es'[i] == es[i]
    requires forall j | 0 <= j < |list| :: NextOk(es, list, j) && PrevOk(es, list, j)
    ensures forall j | 0 <= j < |list| :: NextOk(es', list, j) && PrevOk(es', list, j)
  {
    forall j | 0 <= j < |list| ensures NextOk(es', list, j) && PrevOk(es', list, j) {
      assert NextOk(es, list, j) && PrevOk(es, list, j);
    }
  }

  lemma FreeChainFrame<T>(es: seq<Element<T>>, es': seq<Element<T>>, first: nat, last: nat, list: seq<nat>)
    requires |es'| == |es| && FreeChain(es, first, last, list)
    requires forall i | 0 <= i < |es| :: es'[i].free == es[i].free && (i in list ==> es'[i].next == es[i].next)
    ensures FreeChain(es', first, last, list)
  {
    forall j | 0 <= j < |list| ensures NextOk(es', list, j) {
      assert NextOk(es, list, j);
    }
  }

  /** put_elem moves the element from wherever it is in the used list to the end of the free list. */
  lemma PutMoves<T>(es: seq<Element<T>>, first: nat, last: nat, firstUsed: nat, free: seq<nat>, used: seq<nat>, p: nat)
    requires |es| < END && FreeChain(es, first, last, free) && UsedChain(es, firstUsed, used) && p < |used|
    ensures used[p] < |es| && (es[used[p]].prev == END || es[used[p]].prev < |es|)
    ensures (es[used[p]].next == END || es[used[p]].next < |es|) && (last == END || last < |es|)
    ensures var s, es' := used[p], AppendedFree(Unlinked(es, used[p]), last, used[p]);
      FreeChain(es', if first == END then s else first, s, free + [s]) &&
      UsedChain(es', if firstUsed == s then es[s].next else firstUsed, Without(used, p)) &&
      (forall i | 0 <= i < |es| :: es'[i].data == es[i].data) && Unlinked(es, s)[s] == es[s]
  {
    hide Unlinked, AppendedFree, Without;
    UnlinkedElements(es, firstUsed, used, p);
    UnlinkedChain(es, firstUsed, used, p);
    WithoutMembers(used, p);
    var s := used[p];
    var es1 := Unlinked(es, s);
    FreeChainFrame(es, es1, first, last, free);
    AppendedFreeChain(es1, first, last, free, s);
    UsedChainFrame(es1, AppendedFree(es1, last, s), Without(used, p));
  }

  /** get_elem takes the head of the free list and puts it before the used list. */
  function Taken<T>(es: seq<Element<T>>, s: nat, firstUsed: nat): (es': seq<Element<T>>)
    requires s < |es| && (firstUsed == END || firstUsed < |es|)
    ensures |es'| == |es|
  {
    var es1 := es[s := es[s].(free := false, prev := END, next := firstUsed)];
    if firstUsed != END then es1[firstUsed := es1[firstUsed].(prev := s)] else es1
  }

  lemma TakenFreeChain<T>(es: seq<Element<T>>, first: nat, last: nat, firstUsed: nat, free: seq<nat>, used: seq<nat>)
    requires |es| < END && FreeChain(es, first, last, free) && UsedChain(es, firstUsed, used) && first != END
    ensures first < |es| && (firstUsed == END || firstUsed < |es|)
    ensures FreeChain(Taken(es, first, firstUsed), es[first].next, if last == first then END else last, free[1..])
  {
    assert NextOk(es, free, 0);
    assert used != [] ==> NextOk(es, used, 0);
    var es' := Taken(es, first, firstUsed);
    forall j | 0 <= j < |free[1..]| ensures NextOk(es', free[1..], j) {
      assert NextOk(es, free, j + 1);
      assert firstUsed !in free;
    }
    forall i: nat ensures i in free[1..] <==> i in free && i != first {
      if i in free && i != first {
        var j :| 0 <= j < |free| && free[j] == i;
        assert free[1..][j - 1] == i;
      }
    }
  }

  lemma TakenUsedChain<T>(es: seq<Element<T>>, first: nat, last: nat, firstUsed: nat, free: seq<nat>, used: seq<nat>)
    requires |es| < END && FreeChain(es, first, last, free) && UsedChain(es, firstUsed, used) && first != END
    ensures first < |es| && (firstUsed == END || firstUsed < |es|)
    ensures UsedChain(Taken(es, first, firstUsed), first, [first] + used)
    ensures forall i | 0 <= i < |es| :: Taken(es, first, firstUsed)[i].data == es[i].data
  {
    assert NextOk(es, free, 0);
    assert used != [] ==> NextOk(es, used, 0);
    var es', list := Taken(es, first, firstUsed), [first] + used;
    assert first !in used;
    forall j | 0 <= j < |list| ensures NextOk(es', list, j) && PrevOk(es', list, j) {
      if j > 0 {
        assert NextOk(es, used, j - 1) && PrevOk(es, used, j - 1);
      }
    }
  }

  // ------------------------------------------------------------------------------------------------
  // The class
  // ------------------------------------------------------------------------------------------------

  class ElementSet<T(0)> {
    var elems: array?<Element<T>>
    var firstFree: nat
    var lastFree: nat
    var firstUsed: nat
    ghost var freeList: seq<nat>
    ghost var usedList: seq<nat>

    ghost predicate Valid()
      reads this, elems
    {
      elems != null ==>
        0 < elems.Length < END && FreeChain(elems[..], firstFree, lastFree, freeList) &&
        UsedChain(elems[..], firstUsed, usedList)
    }

    /** The payloads, by subscript. */
    ghost function Data(): (d: seq<T>)
      requires elems != null
      reads this, elems
      ensures |d| == elems.Length && forall i :: 0 <= i < elems.Length ==> d[i] == elems[i].data
    {
      var es := elems[..];
      seq(|es|, i requires 0 <= i < |es| => es[i].data)
    }

    lemma FreeAreNotUsed()
      requires Valid() && elems != null
      ensures freeList != [] ==> freeList[0] < elems.Length && freeList[0] !in usedList
    {
      assert freeList != [] ==> freeList[0] in freeList;
    }

    lemma UsedDistinct()
      requires Valid() && elems != null
      ensures NoDup(usedList)
    {
    }

    constructor ()
      ensures elems == null && Valid()
    {
      elems := null;
    }

    /** element_set.h, lines 30-70. `memory` says whether malloc gives the slab. */
    method Init(count: nat, memory: bool) returns (code: int)
      requires Valid()
      modifies this
      ensures Valid()
      ensures code == 0 <==> old(elems) == null && count != 0 && count < UINT_MAX && memory
      ensures code != 0 ==> code == -1 && elems == old(elems) && freeList == old(freeList) && usedList == old(usedList)
      ensures code == 0 ==> elems != null && fresh(elems) && elems.Length == count
      ensures code == 0 ==> freeList == seq(count, i => i) && usedList == []
    {
      hide FreeChain, UsedChain;
      if elems != null || count == 0 || count >= UINT_MAX || !memory {
        return -1;
      }
      var es := new Element<T>[count];
      var i := 0;
      while i < count - 1
        invariant 0 <= i <= count - 1
        invariant forall j | 0 <= j < i :: es[j].next == j + 1 && es[j].free
      {
        es[i] := es[i].(next := i + 1, free := true);
        i := i + 1;
      }
      es[count - 1] := es[count - 1].(next := END, free := true);
      elems := es;
      firstFree, lastFree, firstUsed := 0, count - 1, END;
      freeList, usedList := seq(count, i => i), [];
      AllFree(elems[..], freeList);
      return 0;
    }

    /** element_set.h, lines 89-92 */
    method IsValidSubscript(subscript: nat) returns (r: bool)
      requires Valid()
      ensures r <==> elems != null && subscript in usedList
    {
      r := elems != null && subscript < elems.Length && !elems[subscript].free;
    }

    /** element_set.h, lines 101-108 */
    method Unlink(s: nat)
      requires elems != null && s < elems.Length < END
      requires elems[s].prev == END || elems[s].prev < elems.Length
      requires elems[s].next == END || elems[s].next < elems.Length
      modifies elems
      ensures elems[..] == Unlinked(old(elems[..]), s)
    {
      var prev, next := elems[s].prev, elems[s].next;
      if prev != END {
        elems[prev] := elems[prev].(next := next);
      }
      if next != END {
        elems[next] := elems[next].(prev := prev);
      }
    }

    /** element_set.h, lines 114-124, but for the two ends of the list */
    method AppendFree(s: nat)
      requires elems != null && s < elems.Length && (lastFree == END || lastFree < elems.Length)
      modifies elems
      ensures elems[..] == AppendedFree(old(elems[..]), lastFree, s)
    {
      elems[s] := elems[s].(next := END);
      if lastFree != END {
        elems[lastFree] := elems[lastFree].(next := s);
      }
      elems[s] := elems[s].(free := true);
    }

    /** element_set.h, lines 94-127 */
    method PutElem(subscript: nat) returns (code: int)
      requires Valid()
      modifies this, elems
      ensures Valid() && elems == old(elems)
      ensures code == 0 <==> elems != null && subscript in old(usedList)
      ensures code != 0 ==> code == -1 && freeList == old(freeList) && usedList == old(usedList)
      ensures code == 0 ==> freeList == old(freeList) + [subscript]
      ensures code == 0 ==> RemovedFrom(old(usedList), subscript, usedList)
      ensures elems != null ==> Data() == old(Data())
    {
      hide Without, FreeChain, UsedChain, Unlinked, AppendedFree;
      if elems == null {
        return -1;
      }
      ChainMembers(elems[..], firstUsed, usedList);
      if subscript >= elems.Length || elems[subscript].free {
        return -1;
      }
      ghost var es := elems[..];
      ghost var p: nat :| p < |usedList| && usedList[p] == subscript;
      PutMoves(es, firstFree, lastFree, firstUsed, freeList, usedList, p);
      Unlink(subscript);
      if firstUsed == subscript {
        firstUsed := elems[subscript].next;
      }
      AppendFree(subscript);
      lastFree := subscript;
      if firstFree == END {
        firstFree := subscript;
      }
      freeList, usedList := freeList + [subscript], Without(usedList, p);
      return 0;
    }

    /** element_set.h, lines 129-154 */
    method GetElem() returns (r: nat)
      requires Valid()
      modifies this, elems
      ensures Valid() && elems == old(elems)
      ensures r == END <==> elems == null || old(freeList) == []
      ensures r == END ==> freeList == old(freeList) && usedList == old(usedList)
      ensures r != END ==> r == old(freeList)[0] && freeList == old(freeList)[1..] && usedList == [r] + old(usedList)
      ensures elems != null ==> Data() == old(Data())
    {
      hide FreeChain, UsedChain;
      if elems == null {
        return END;
      }
      FreeHead(elems[..], firstFree, lastFree, freeList);
      if firstFree == END {
        return END;
      }
      ghost var es := elems[..];
      TakenFreeChain(es, firstFree, lastFree, firstUsed, freeList, usedList);
      TakenUsedChain(es, firstFree, lastFree, firstUsed, freeList, usedList);
      r := firstFree;
      firstFree := elems[firstFree].next;
      if lastFree == r {
        lastFree := END;
      }
      elems[r] := elems[r].(free := false, prev := END, next := firstUsed);
      if firstUsed != END {
        elems[firstUsed] := elems[firstUsed].(prev := r);
      }
      assert elems[..] == Taken(es, r, firstUsed);
      firstUsed := r;
      freeList, usedList := freeList[1..], [r] + usedList;
    }

    /** element_set.h, lines 156-164: the payload behind a subscript. */
    method SetData(subscript: nat, data: T)
      requires Valid() && elems != null && subscript < elems.Length
      modifies elems
      ensures Valid() && Data() == old(Data())[subscript := data]
    {
      ghost var es := elems[..];
      elems[subscript] := elems[subscript].(data := data);
      FreeChainFrame(es, elems[..], firstFree, lastFree, freeList);
      forall j | 0 <= j < |usedList| ensures NextOk(elems[..], usedList, j) && PrevOk(elems[..], usedList, j) {
        assert NextOk(es, usedList, j) && PrevOk(es, usedList, j);
      }
    }

    /** element_set.h, lines 72-87: the walk by first() and next() visits every used element exactly once, and ends. */
    method Uninit() returns (visited: seq<nat>)
      requires Valid()
      modifies this
      ensures visited == (if old(elems) == null then [] else old(usedList)) && elems == null && Valid()
    {
      visited := [];
      if elems == null {
        return;
      }
      var i := firstUsed;
      while i != END
        invariant |visited| <= |usedList| && visited == usedList[..|visited|] && i == At(usedList, |visited|)
        decreases |usedList| - |visited|
        modifies {}
      {
        UsedNext(elems[..], firstUsed, usedList, |visited|);
        visited := visited + [i];
        i := elems[i].next;
      }
      UsedBelow(elems[..], firstUsed, usedList);
      OnlyEndIsPast(usedList, |visited|);
      elems := null;
    }
  }

  /** What init leaves: every index free, in order. */
  lemma AllFree<T>(es: seq<Element<T>>, list: seq<nat>)
    requires 0 < |es| < END && list == seq(|es|, i => i)
    requires forall j | 0 <= j < |es| :: es[j].free && es[j].next == if j + 1 < |es| then j + 1 else END
    ensures FreeChain(es, 0, |es| - 1, list) && UsedChain(es, END, [])
  {
    forall j | 0 <= j < |list| ensures NextOk(es, list, j) {
    }
    forall j: nat | j < |es| ensures j in list {
      assert list[j] == j;
    }
  }

  lemma OnlyEndIsPast(list: seq<nat>, n: nat)
    requires n <= |list| && At(list, n) == END && forall c | c in list :: c < END
    ensures n == |list|
  {
    if n < |list| {
      MemberAt(list, n);
    }
  }

  lemma MemberAt(list: seq<nat>, n: nat)
    requires n < |list|
    ensures At(list, n) in list
  {
  }

  ghost predicate RemovedFrom(before: seq<nat>, x: nat, after: seq<nat>) {
    exists p: nat :: p < |before| && before[p] == x && after == Without(before, p)
  }

  lemma ChainMembers<T>(es: seq<Element<T>>, first: nat, list: seq<nat>)
    requires UsedChain(es, first, list)
    ensures forall i: nat :: i in list <==> i < |es| && !es[i].free
  {
  }

  lemma FreeHead<T>(es: seq<Element<T>>, first: nat, last: nat, list: seq<nat>)
    requires |es| < END && FreeChain(es, first, last, list)
    ensures first == END <==> list == []
    ensures list != [] ==> first == list[0]
  {
    assert list != [] ==> NextOk(es, list, 0);
  }

  lemma UsedBelow<T>(es: seq<Element<T>>, first: nat, list: seq<nat>)
    requires |es| < END && UsedChain(es, first, list)
    ensures forall i: nat | i in list :: i < |es|
  {
  }

  lemma UsedNext<T>(es: seq<Element<T>>, first: nat, list: seq<nat>, k: nat)
    requires |es| < END && UsedChain(es, first, list) && k <= |list| && At(list, k) != END
    ensures k < |list| && list[k] < |es| && es[list[k]].next == At(list, k + 1)
  {
    assert NextOk(es, list, k);
  }
}
