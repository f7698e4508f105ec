/**
 * datastruct/slice_test.go: how `append` and re-slicing share backing
 * arrays, and two ways of keeping the last two numbers of a slice.
 */
module GoSlice {
  import opened Go

  /** What `rand.Int()` returns: a non-negative 63-bit integer. */
  type Int63 = x: int | 0 <= x < 0x8000_0000_0000_0000

  /**
   * `lastNumsBySlice`: `origin[len(origin)-2:]`. It panics when `origin` has
   * fewer than two elements; otherwise the result is a view onto the same
   * array, so the whole of that array stays reachable through it.
   */
  function LastNumsBySlice(origin: Slice): (r: Outcome<Slice>)
    requires origin.len <= origin.cap
    ensures r.Ok? <==> 2 <= origin.len
    ensures r.Ok? ==> r.value.arr == origin.arr && r.value.len == 2
    ensures r.Ok? ==> r.value.off + r.value.cap == origin.off + origin.cap
  {
    Reslice(origin, origin.len - 2, origin.len)
  }

  /** The view `lastNumsBySlice` returns shows the last two elements. */
  lemma LastNumsBySliceElems(h: Heap<int>, origin: Slice)
    requires Valid(h, origin) && 2 <= origin.len
    ensures LastNumsBySlice(origin).Ok?
    ensures Valid(h, LastNumsBySlice(origin).value)
    ensures Elems(h, LastNumsBySlice(origin).value) == Elems(h, origin)[origin.len - 2..]
  {
    ResliceElems(h, origin, origin.len - 2, origin.len);
  }

  /**
   * `lastNumsByCopy`: `make([]int, 2)` then `copy` from
   * `origin[len(origin)-2:]`. It panics in the same case; otherwise the two
   * numbers live in a new array of capacity 2 and nothing that existed
   * before changes.
   */
  function LastNumsByCopy(h: Heap<int>, origin: Slice): (r: Outcome<(Heap<int>, Slice)>)
    requires Valid(h, origin)
    ensures r.Ok? <==> 2 <= origin.len
    ensures r.Ok? ==> var (h', res) := r.value;
      && |h'| == |h| + 1 && h'[..|h|] == h && Valid(h', res)
      && res == Slice(|h|, 0, 2, 2)
      && Elems(h', res) == Elems(h, origin)[origin.len - 2..]
  {
    var made := Make(h, 2, 2, 0);
    var (h1, res) := made.value;
    assert h1[origin.arr] == h[origin.arr];
    match Reslice(origin, origin.len - 2, origin.len)
    case Panic(why) => Panic(why)
    case Ok(src) =>
      var (h2, n) := Copy(h1, res, src);
      assert h2[..|h|] == h;
      Ok((h2, res))
  }

  /** The two helpers return the same numbers and panic on the same inputs;
      only the copy lets go of the original array. */
  lemma LastNumsAgree(h: Heap<int>, origin: Slice)
    requires Valid(h, origin)
    ensures LastNumsBySlice(origin).Ok? <==> LastNumsByCopy(h, origin).Ok?
    ensures LastNumsByCopy(h, origin).Ok? ==>
      var (h', res) := LastNumsByCopy(h, origin).value;
      && Elems(h', res) == Elems(h, LastNumsBySlice(origin).value)
      && res.arr != origin.arr && LastNumsBySlice(origin).value.arr == origin.arr
  {
  }

  /**
   * `generateWithCap`: `make([]int, 0, n)` (a panic when `n` is negative)
   * and `n` appends of `rand.Int()`, all within the reserved capacity, so
   * the slice never moves. `draw(k)` is the `k`-th `rand.Int()` after
   * seeding.
   */
  method GenerateWithCap(h: Heap<int>, n: int, draw: nat -> Int63) returns (r: Outcome<(Heap<int>, Slice)>)
    ensures r.Ok? <==> 0 <= n
    ensures r.Ok? ==> var (h', res) := r.value;
      && |h'| == |h| + 1 && h'[..|h|] == h && Valid(h', res)
      && res == Slice(|h|, 0, n, n)
      && Elems(h', res) == seq(n, k requires 0 <= k => draw(k))
  {
    var made := Make(h, 0, n, 0);
    if made.Panic? {
      return Panic(made.reason);
    }
    var (h', res) := made.value;
    for i := 0 to n
      invariant |h'| == |h| + 1 && h'[..|h|] == h && Valid(h', res)
      invariant res == Slice(|h|, 0, i, n)
      invariant Elems(h', res) == seq(i, k requires 0 <= k => draw(k))
    {
      var next := AppendInPlace(h', res, [draw(i)]);
      assert next.0[..|h|] == h'[..|h|];
      h', res := next.0, next.1;
    }
    return Ok((h', res));
  }

  /**
   * Deleting element `i` as `append(s[:i], s[i+1:]...)`: the elements after
   * `i` shift down by one inside the same array, so every other view of
   * that array sees the shift, and the old last slot keeps its value. The
   * re-slices panic unless `0 <= i < len(s)`.
   */
  function DeleteAt<T>(h: Heap<T>, s: Slice, i: int): (r: Outcome<(Heap<T>, Slice)>)
    requires Valid(h, s)
    ensures r.Ok? <==> 0 <= i < s.len
    ensures r.Ok? ==> var (h', s') := r.value;
      && s' == s.(len := s.len - 1) && Valid(h', s')
      && |h'| == |h| && |h'[s.arr]| == |h[s.arr]|
      && (forall a :: 0 <= a < |h| && a != s.arr ==> h'[a] == h[a])
      && (forall k :: 0 <= k < |h[s.arr]| && !(s.off + i <= k < s.off + s.len - 1) ==> h'[s.arr][k] == h[s.arr][k])
      && Elems(h', s') == Elems(h, s)[..i] + Elems(h, s)[i + 1..]
  {
    match Reslice(s, 0, i)
    case Panic(why) => Panic(why)
    case Ok(front) =>
      match Reslice(s, i + 1, s.len)
      case Panic(why) => Panic(why)
      case Ok(tail) =>
        ResliceElems(h, s, 0, i);
        ResliceElems(h, s, i + 1, s.len);
        Ok(AppendInPlace(h, front, Elems(h, tail)))
  }

  /** One `PrintLenCap` line: length, capacity and elements. */
  datatype Printed = Printed(len: nat, cap: nat, elems: seq<int>)

  function Show(h: Heap<int>, s: Slice): (p: Printed)
    requires s.arr < |h| && s.off + s.len <= |h[s.arr]|
  {
    Printed(s.len, s.cap, Elems(h, s))
  }

  /**
   * `TestPrint`, lines 17 to 23: three appends to `[]int{1}`. The first two
   * outgrow the array (capacity 1 to 2, then 2 to 4); the third fits.
   */
  method TestPrintGrowth() returns (printed: seq<Printed>)
    ensures printed == [Printed(2, 2, [1, 2]), Printed(3, 4, [1, 2, 3]), Printed(4, 4, [1, 2, 3, 4])]
  {
    var h: Heap<int> := [[1]];
    var nums := Slice(0, 0, 1, 1);
    assert Elems(h, nums) == [1];
    assert NextCap(1, 2) == 2 && NextCap(2, 3) == 4;
    var (h1, nums1) := Append(h, nums, [2], 0);
    assert nums1.len == 2 && nums1.cap == 2 && Elems(h1, nums1) == [1, 2];
    var (h2, nums2) := Append(h1, nums1, [3], 0);
    assert nums2.len == 3 && nums2.cap == 4 && Elems(h2, nums2) == [1, 2, 3];
    var (h3, nums3) := Append(h2, nums2, [4], 0);
    assert nums3.len == 4 && nums3.cap == 4 && Elems(h3, nums3) == [1, 2, 3, 4];
    printed := [Show(h1, nums1), Show(h2, nums2), Show(h3, nums3)];
  }

  /**
   * `TestPrint`, lines 25 to 35. `nums2 := nums1[2:4]` shares `nums1`'s
   * array of capacity 8, so appending 50 and 60 to `nums2` overwrites
   * `nums1[4]`; deleting `nums1[3]` by `append(nums1[:3], nums1[4:]...)`
   * shifts within that same array. `printed` lists the four `PrintLenCap`
   * outputs and `backing` is the final contents of the shared array.
   */
  method TestPrintShared() returns (printed: seq<Printed>, backing: seq<int>)
    ensures printed == [Printed(5, 8, [1, 2, 3, 4, 5]), Printed(4, 6, [3, 4, 50, 60]),
                        Printed(5, 8, [1, 2, 3, 4, 50]), Printed(4, 8, [1, 2, 3, 50])]
    ensures backing == [1, 2, 3, 50, 50, 60, 0, 0]
  {
    var h, nums1 := FillNums1();
    printed := [Show(h, nums1)];
    var nums2;
    h, nums2 := AppendThroughNums2(h, nums1);
    printed := printed + [Show(h, nums2), Show(h, nums1)];
    h, nums1 := DeleteFourth(h, nums1);
    printed := printed + [Show(h, nums1)];
    backing := h[nums1.arr];
  }

  /** `nums1 := make([]int, 0, 8)` then `append(nums1, 1, 2, 3, 4, 5)`. */
  method FillNums1() returns (h: Heap<int>, nums1: Slice)
    ensures h == [[1, 2, 3, 4, 5, 0, 0, 0]] && nums1 == Slice(0, 0, 5, 8)
    ensures Show(h, nums1) == Printed(5, 8, [1, 2, 3, 4, 5])
  {
    SharedArraySteps();
    var made := Make([], 0, 8, 0);
    var (h0, empty) := made.value;
    assert h0[0] == [0, 0, 0, 0, 0, 0, 0, 0];
    assert h0 == [[0, 0, 0, 0, 0, 0, 0, 0]];
    var (h1, filled) := AppendInPlace(h0, empty, [1, 2, 3, 4, 5]);
    assert h1 == [Overwrite([0, 0, 0, 0, 0, 0, 0, 0], 0, [1, 2, 3, 4, 5])];
    h, nums1 := h1, filled;
  }

  /** `nums2 := nums1[2:4]` then `append(nums2, 50, 60)`, which fits in the
      shared array and so lands in `nums1[4]` and beyond. */
  method AppendThroughNums2(h: Heap<int>, nums1: Slice) returns (h': Heap<int>, nums2: Slice)
    requires h == [[1, 2, 3, 4, 5, 0, 0, 0]] && nums1 == Slice(0, 0, 5, 8)
    ensures h' == [[1, 2, 3, 4, 50, 60, 0, 0]] && nums2 == Slice(0, 2, 4, 6)
    ensures Show(h', nums2) == Printed(4, 6, [3, 4, 50, 60])
    ensures Show(h', nums1) == Printed(5, 8, [1, 2, 3, 4, 50])
  {
    SharedArraySteps();
    var view := Reslice(nums1, 2, 4).value;
    var (h1, grown) := AppendInPlace(h, view, [50, 60]);
    assert h1 == [Overwrite([1, 2, 3, 4, 5, 0, 0, 0], 4, [50, 60])];
    h', nums2 := h1, grown;
  }

  /** `nums1 = append(nums1[:3], nums1[4:]...)`. */
  method DeleteFourth(h: Heap<int>, nums1: Slice) returns (h': Heap<int>, nums1': Slice)
    requires h == [[1, 2, 3, 4, 50, 60, 0, 0]] && nums1 == Slice(0, 0, 5, 8)
    ensures h' == [[1, 2, 3, 50, 50, 60, 0, 0]] && nums1' == Slice(0, 0, 4, 8)
    ensures Show(h', nums1') == Printed(4, 8, [1, 2, 3, 50])
  {
    SharedArraySteps();
    var r := DeleteAt(h, nums1, 3);
    assert Elems(h, Slice(0, 4, 1, 4)) == [50];
    assert r == Ok(AppendInPlace(h, Slice(0, 0, 3, 8), [50]));
    h', nums1' := r.value.0, r.value.1;
    assert h' == [Overwrite([1, 2, 3, 4, 50, 60, 0, 0], 3, [50])];
  }

  /** The three writes `TestPrintShared` makes into the shared array. */
  lemma SharedArraySteps()
    ensures Overwrite([0, 0, 0, 0, 0, 0, 0, 0], 0, [1, 2, 3, 4, 5]) == [1, 2, 3, 4, 5, 0, 0, 0]
    ensures Overwrite([1, 2, 3, 4, 5, 0, 0, 0], 4, [50, 60]) == [1, 2, 3, 4, 50, 60, 0, 0]
    ensures Overwrite([1, 2, 3, 4, 50, 60, 0, 0], 3, [50]) == [1, 2, 3, 50, 50, 60, 0, 0]
  {
  }
}
