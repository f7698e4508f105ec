/**
 * datastruct/range_test.go: what `for i, v := range s` sees when the loop
 * body changes the slice, why assigning to the range value changes
 * nothing, and `generateItems`, which fills a slice with pointers.
 */
module RangeLoops {
  import opened Go
  import GoSlice

  /** The view `e` after its second-to-last element is deleted in place:
      the last element is shifted down and also stays in its old slot. */
  function Shifted<T>(e: seq<T>, k: nat): (x: T)
    requires k < |e|
  {
    if k == |e| - 2 then e[|e| - 1] else e[k]
  }

  /** What the range loop of `TestRangeSlice` reads at index `k`: the first
      value is read before the deletion, the others after it. */
  function SeenAt<T>(e: seq<T>, k: nat): (v: T)
    requires k < |e|
  {
    if k == 0 then e[0] else Shifted(e, k)
  }

  /** The state after the first iteration's deletion: the view reads as
      `Shifted`, and the one slot that changed is the second-to-last; every
      other array and every other slot of the shared one is as before. */
  ghost predicate AfterDelete<T>(h: Heap<T>, s: Slice, heap: Heap<T>, slice: Slice)
    requires Valid(h, s)
  {
    && 2 <= s.len && slice == s.(len := s.len - 1) && Valid(heap, slice)
    && |heap| == |h| && |heap[s.arr]| == |h[s.arr]|
    && (forall k :: 0 <= k < s.len ==> heap[s.arr][s.off + k] == Shifted(Elems(h, s), k))
    && (forall a :: 0 <= a < |h| && a != s.arr ==> heap[a] == h[a])
    && (forall k :: 0 <= k < |h[s.arr]| && k != s.off + s.len - 2 ==> heap[s.arr][k] == h[s.arr][k])
  }

  /** The deletion in the first iteration leaves the array as `AfterDelete`
      describes. */
  lemma DeleteSecondToLast<T>(h: Heap<T>, s: Slice)
    requires Valid(h, s) && 2 <= s.len
    ensures GoSlice.DeleteAt(h, s, s.len - 2).Ok?
    ensures AfterDelete(h, s, GoSlice.DeleteAt(h, s, s.len - 2).value.0, GoSlice.DeleteAt(h, s, s.len - 2).value.1)
  {
    var (heap, slice) := GoSlice.DeleteAt(h, s, s.len - 2).value;
    forall k | 0 <= k < s.len
      ensures heap[s.arr][s.off + k] == Shifted(Elems(h, s), k)
    {
      if k == s.len - 2 {
        assert heap[s.arr][s.off + k] == Elems(heap, slice)[k];
      } else {
        assert heap[s.arr][s.off + k] == h[s.arr][s.off + k];
      }
    }
  }

  /** The loop's invariant before iteration `i`. */
  ghost predicate RangeInvariant<T>(h: Heap<T>, s: Slice, heap: Heap<T>, slice: Slice, seen: seq<T>, i: nat)
    requires Valid(h, s)
  {
    && i <= s.len && |seen| == i
    && (forall k :: 0 <= k < i ==> seen[k] == SeenAt(Elems(h, s), k))
    && (i == 0 ==> heap == h && slice == s)
    && (0 < i ==> AfterDelete(h, s, heap, slice))
  }

  lemma ReadStep<T>(h: Heap<T>, s: Slice, heap: Heap<T>, slice: Slice, seen: seq<T>, i: nat)
    requires Valid(h, s) && RangeInvariant(h, s, heap, slice, seen, i) && 0 < i < s.len
    ensures heap[s.arr][s.off + i] == SeenAt(Elems(h, s), i)
    ensures RangeInvariant(h, s, heap, slice, seen + [heap[s.arr][s.off + i]], i + 1)
  {
  }

  lemma FirstStep<T>(h: Heap<T>, s: Slice)
    requires Valid(h, s) && 2 <= s.len
    ensures GoSlice.DeleteAt(h, s, s.len - 2).Ok?
    ensures RangeInvariant(h, s, GoSlice.DeleteAt(h, s, s.len - 2).value.0, GoSlice.DeleteAt(h, s, s.len - 2).value.1,
                           [h[s.arr][s.off]], 1)
  {
    DeleteSecondToLast(h, s);
  }

  /** After the loop, the slice shows the elements without the
      second-to-last, and its array still holds the last one twice. */
  lemma FinalShape<T>(h: Heap<T>, s: Slice, heap: Heap<T>, slice: Slice)
    requires Valid(h, s) && AfterDelete(h, s, heap, slice)
    ensures Elems(heap, slice) == Elems(h, s)[..s.len - 2] + [Elems(h, s)[s.len - 1]]
    ensures heap[s.arr][s.off .. s.off + s.len] == Elems(h, s)[..s.len - 2] + [Elems(h, s)[s.len - 1], Elems(h, s)[s.len - 1]]
  {
    var e := Elems(h, s);
    var n := s.len;
    var view := heap[s.arr][s.off .. s.off + n];
    var want := e[..n - 2] + [e[n - 1], e[n - 1]];
    forall k | 0 <= k < n
      ensures view[k] == want[k]
    {
      assert view[k] == heap[s.arr][s.off + k] == Shifted(e, k);
      if k < n - 2 {
        assert want[k] == e[k];
      } else {
        assert want[k] == e[n - 1];
      }
    }
    assert view == want;
    assert Elems(heap, slice) == view[..n - 1];
    assert want[..n - 1] == e[..n - 2] + [e[n - 1]];
  }

  /**
   * The loop of `TestRangeSlice` on any slice: the range expression is
   * evaluated once, so the loop runs `len(s)` times whatever the body does
   * to `slice`; in the first iteration the body deletes the second-to-last
   * element with `append(slice[:len(slice)-2], slice[len(slice)-1:]...)`,
   * which shifts the last element down inside the shared array, and later
   * iterations read that array. A one-element slice panics, because
   * `slice[:-1]` is out of range. `seen` lists the `v` values.
   */
  method RangeDeleteSecondToLast<T>(h: Heap<T>, s: Slice) returns (r: Outcome<(seq<T>, Heap<T>, Slice)>)
    requires Valid(h, s)
    ensures r.Ok? <==> s.len != 1
    ensures r.Ok? ==> var (seen, h', s') := r.value;
      && |seen| == s.len && Valid(h', s')
      && (forall k :: 0 <= k < s.len ==> seen[k] == SeenAt(Elems(h, s), k))
      && (s.len == 0 ==> h' == h && s' == s)
      && (2 <= s.len ==> && s' == s.(len := s.len - 1) && |h'| == |h| && |h'[s.arr]| == |h[s.arr]|
                         && Elems(h', s') == Elems(h, s)[..s.len - 2] + [Elems(h, s)[s.len - 1]]
                         && h'[s.arr][s.off .. s.off + s.len] == Elems(h, s)[..s.len - 2] + [Elems(h, s)[s.len - 1], Elems(h, s)[s.len - 1]])
    ensures r.Ok? && 2 <= s.len ==> var (seen, h', s') := r.value;
      && (forall a :: 0 <= a < |h| && a != s.arr ==> h'[a] == h[a])
      && (forall k :: 0 <= k < |h[s.arr]| && k != s.off + s.len - 2 ==> h'[s.arr][k] == h[s.arr][k])
  {
    var heap, slice := h, s;
    var seen := [];
    for i := 0 to s.len
      invariant RangeInvariant(h, s, heap, slice, seen, i)
    {
      var v := heap[s.arr][s.off + i];
      if i == 0 {
        if slice.len < 2 {
          return Panic("slice bounds out of range");
        }
        FirstStep(h, s);
        var d := GoSlice.DeleteAt(heap, slice, slice.len - 2);
        heap, slice := d.value.0, d.value.1;
      } else {
        ReadStep(h, s, heap, slice, seen, i);
      }
      seen := seen + [v];
    }
    if 2 <= s.len {
      FinalShape(h, s, heap, slice);
    }
    return Ok((seen, heap, slice));
  }

  /**
   * `TestRangeSlice`: the loop prints "go", "language", "practice",
   * "practice"; afterwards `slice` is `[go language practice]`, still at the
   * same address, and its array holds `{"go","language","practice","practice"}`.
   */
  method TestRangeSlice() returns (seen: seq<seq<byte>>, final: seq<seq<byte>>, backing: seq<seq<byte>>, sameArray: bool)
    ensures seen == ["go", "language", "practice", "practice"]
    ensures final == ["go", "language", "practice"]
    ensures backing == ["go", "language", "practice", "practice"]
    ensures sameArray
  {
    var h: Heap<seq<byte>> := [["go", "language", "coding", "practice"]];
    var s := Slice(0, 0, 4, 4);
    ghost var e := Elems(h, s);
    assert e == ["go", "language", "coding", "practice"];
    var r := RangeDeleteSecondToLast(h, s);
    var h', s';
    seen, h', s' := r.value.0, r.value.1, r.value.2;
    assert seen[0] == e[0] && seen[1] == e[1] && seen[2] == e[3] && seen[3] == e[3];
    final := Elems(h', s');
    backing := h'[s'.arr];
    assert h'[0][0..4] == backing;
    sameArray := s'.arr == s.arr && s'.off == s.off;
  }

  /** The anonymous `struct{ no int }` of `TestValueCopyRange`. */
  datatype Person = Person(no: int)

  /** `for _, v := range persons { v.no += 100 }`: `v` is a copy, so the
      slice is left as it was. */
  method RangeAddToCopy(persons: seq<Person>) returns (after: seq<Person>)
    ensures after == persons
  {
    after := persons;
    for i := 0 to |after| {
      var v := after[i];
      v := v.(no := v.no + 100);
    }
  }

  /** `for i := 0; i < len(persons); i++ { persons[i].no += 100 }`: every
      element is updated in place. */
  method IndexAddInPlace(persons: seq<Person>) returns (after: seq<Person>)
    ensures |after| == |persons|
    ensures forall k :: 0 <= k < |persons| ==> after[k].no == persons[k].no + 100
  {
    after := persons;
    for i := 0 to |after|
      invariant |after| == |persons|
      invariant forall k :: 0 <= k < i ==> after[k].no == persons[k].no + 100
      invariant forall k :: i <= k < |after| ==> after[k] == persons[k]
    {
      after := after[i := after[i].(no := after[i].no + 100)];
    }
  }

  /** `TestValueCopyRange` prints `[{1} {2} {3}]` and then
      `[{101} {102} {103}]`. */
  method TestValueCopyRange() returns (first: seq<Person>, second: seq<Person>)
    ensures first == [Person(1), Person(2), Person(3)]
    ensures second == [Person(101), Person(102), Person(103)]
  {
    var persons := [Person(1), Person(2), Person(3)];
    first := RangeAddToCopy(persons);
    second := IndexAddInPlace(first);
  }

  /** `Item`: an id and a 4 KiB payload. */
  datatype Item = Item(id: int, val: seq<byte>)

  /** The zero value of `[4096]byte`. */
  const ZeroPayload: seq<byte> := seq(4096, _ => 0 as char)

  /** A `*Item`: nil, or the index of an object in the heap of `Item`s. */
  datatype Ptr = Nil | Ref(addr: nat)

  /**
   * `generateItems`: `make([]*Item, 0, n)` (a panic when `n` is negative)
   * and `n` appends of `&Item{id: i}`. Each `&Item{...}` allocates a new
   * object, so the pointers are all different and the `i`-th points to an
   * item with id `i`. `objects` is the heap of `Item`s and `h` the heap of
   * pointer arrays; every append fits in the capacity `make` reserved, so
   * the slice never moves to another array.
   */
  method GenerateItems(objects: seq<Item>, h: Heap<Ptr>, n: int) returns (r: Outcome<(seq<Item>, Heap<Ptr>, Slice)>)
    ensures r.Ok? <==> 0 <= n
    ensures r.Ok? ==> var (objects', h', items) := r.value;
      && |objects'| == |objects| + n && objects'[..|objects|] == objects
      && |h'| == |h| + 1 && h'[..|h|] == h && Valid(h', items)
      && items == Slice(|h|, 0, n, n)
      && (forall k :: 0 <= k < n ==>
            && Elems(h', items)[k].Ref?
            && |objects| <= Elems(h', items)[k].addr < |objects'|
            && objects'[Elems(h', items)[k].addr] == Item(k, ZeroPayload))
      && (forall j, k :: 0 <= j < k < n ==> Elems(h', items)[j] != Elems(h', items)[k])
  {
    var made := Make(h, 0, n, Nil);
    if made.Panic? {
      return Panic(made.reason);
    }
    var (h', items) := made.value;
    var heap := objects;
    for i := 0 to n
      invariant |heap| == |objects| + i && heap[..|objects|] == objects
      invariant |h'| == |h| + 1 && h'[..|h|] == h && Valid(h', items)
      invariant items == Slice(|h|, 0, i, n)
      invariant forall k :: 0 <= k < i ==> Elems(h', items)[k] == Ref(|objects| + k)
      invariant forall k :: 0 <= k < i ==> heap[|objects| + k] == Item(k, ZeroPayload)
    {
      var next := AppendInPlace(h', items, [Ref(|heap|)]);
      assert next.0[..|h|] == h'[..|h|];
      h', items := next.0, next.1;
      heap := heap + [Item(i, ZeroPayload)];
    }
    return Ok((heap, h', items));
  }
}
