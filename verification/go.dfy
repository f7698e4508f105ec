/**
 * Go runtime vocabulary shared by the models: the `byte` type that Go
 * strings and byte slices are made of, the outcome of an operation that may
 * panic, and slices as views onto shared backing arrays.
 */
module Go {

  /** A Go byte. Kept as a character in 0..255 so that Go string literals can
      be written directly as Dafny strings. */
  type byte = c: char | c <= '\U{FF}'

  /** The result of Go code that either returns normally or panics at run time
      (index out of range, negative capacity, negative Grow count, ...). */
  datatype Outcome<+T> = Ok(value: T) | Panic(reason: seq<byte>)

  /**
   * The capacity `append` allocates when `newLen` elements no longer fit in a
   * slice of capacity `oldCap`: the requested length when that is more than
   * double, double below 256, and otherwise growth by a quarter plus 192
   * until the length fits.
   */
  function NextCap(oldCap: nat, newLen: nat): (c: nat)
    requires oldCap < newLen
    ensures newLen <= c
    ensures newLen <= 2 * oldCap ==> c <= 2 * oldCap || 256 <= oldCap
  {
    if 2 * oldCap < newLen then newLen
    else if oldCap < 256 then 2 * oldCap
    else GrowQuarter(oldCap, newLen)
  }

  /** The capacity of `append(s, ...)` when the result has `newLen`
      elements and `s` had capacity `cap`. */
  function CapAfterAppend(cap: nat, newLen: nat): (c: nat)
    ensures cap <= c && newLen <= c
    ensures c == cap <==> newLen <= cap
  {
    if newLen <= cap then cap else NextCap(cap, newLen)
  }

  /** The loop of the runtime's growth rule for capacities of 256 and more:
      grow by a quarter plus 192 until `newLen` fits. */
  function GrowQuarter(c: nat, newLen: nat): (r: nat)
    requires c < newLen
    ensures newLen <= r
    decreases newLen - c
  {
    var next := c + (c + 3 * 256) / 4;
    if newLen <= next then next else GrowQuarter(next, newLen)
  }

  /** A slice header: `len` elements of array `arr` from `off` on, with room
      for `cap` before the array ends. */
  datatype Slice = Slice(arr: nat, off: nat, len: nat, cap: nat)

  /** All backing arrays, numbered in allocation order. */
  type Heap<T> = seq<seq<T>>

  ghost predicate Valid<T>(h: Heap<T>, s: Slice) {
    s.arr < |h| && s.len <= s.cap && s.off + s.cap <= |h[s.arr]|
  }

  /** What the slice shows: `s[0], ..., s[len(s)-1]`. */
  function Elems<T>(h: Heap<T>, s: Slice): (r: seq<T>)
    requires s.arr < |h| && s.off + s.len <= |h[s.arr]|
    ensures |r| == s.len
  {
    h[s.arr][s.off .. s.off + s.len]
  }

  /** `make([]T, len, cap)`: a fresh zeroed array; a negative length or a
      capacity below the length panics. */
  function Make<T>(h: Heap<T>, len: int, cap: int, zero: T): (r: Outcome<(Heap<T>, Slice)>)
    ensures r.Ok? <==> 0 <= len <= cap
    ensures r.Ok? ==> var (h', s) := r.value;
      && |h'| == |h| + 1 && h'[..|h|] == h && Valid(h', s) && s.arr == |h| && s.off == 0
      && s.len == len && s.cap == cap == |h'[|h|]|
      && forall k :: 0 <= k < cap ==> h'[|h|][k] == zero
  {
    if len < 0 || cap < len then Panic("makeslice: len or cap out of range")
    else Ok((h + [seq(cap, _ => zero)], Slice(|h|, 0, len, cap)))
  }

  /** `s[lo:hi]`: a view onto the same array; the bounds must satisfy
      `0 <= lo <= hi <= cap(s)`. */
  function Reslice(s: Slice, lo: int, hi: int): (r: Outcome<Slice>)
    ensures r.Ok? <==> 0 <= lo <= hi <= s.cap
    ensures r.Ok? ==> r.value == Slice(s.arr, s.off + lo, hi - lo, s.cap - lo)
  {
    if 0 <= lo <= hi <= s.cap then Ok(Slice(s.arr, s.off + lo, hi - lo, s.cap - lo))
    else Panic("slice bounds out of range")
  }

  /** A re-slice within the length shows exactly the elements `lo .. hi` of
      the original slice. */
  lemma ResliceElems<T>(h: Heap<T>, s: Slice, lo: int, hi: int)
    requires Valid(h, s) && 0 <= lo <= hi <= s.len
    ensures Reslice(s, lo, hi).Ok? && Valid(h, Reslice(s, lo, hi).value)
    ensures Elems(h, Reslice(s, lo, hi).value) == Elems(h, s)[lo..hi]
  {
  }

  /** The array `a` with `xs` written over it from position `start` on. */
  function Overwrite<T>(a: seq<T>, start: nat, xs: seq<T>): (r: seq<T>)
    requires start + |xs| <= |a|
    ensures |r| == |a|
    ensures forall k :: 0 <= k < |xs| ==> r[start + k] == xs[k]
    ensures forall k :: 0 <= k < |a| && !(start <= k < start + |xs|) ==> r[k] == a[k]
  {
    a[..start] + xs + a[start + |xs|..]
  }

  /** `append` within the capacity: the shared array is written in place. */
  function AppendInPlace<T>(h: Heap<T>, s: Slice, xs: seq<T>): (r: (Heap<T>, Slice))
    requires Valid(h, s) && s.len + |xs| <= s.cap
    ensures r.1 == s.(len := s.len + |xs|) && Valid(r.0, r.1)
    ensures |r.0| == |h| && |r.0[s.arr]| == |h[s.arr]|
    ensures forall a :: 0 <= a < |h| && a != s.arr ==> r.0[a] == h[a]
    ensures forall k :: 0 <= k < |h[s.arr]| && !(s.off + s.len <= k < s.off + s.len + |xs|) ==>
      r.0[s.arr][k] == h[s.arr][k]
    ensures Elems(r.0, r.1) == Elems(h, s) + xs
  {
    var a' := Overwrite(h[s.arr], s.off + s.len, xs);
    var h' := h[s.arr := a'];
    var s' := s.(len := s.len + |xs|);
    assert Elems(h', s') == Elems(h, s) + xs by {
      forall k | 0 <= k < s'.len
        ensures Elems(h', s')[k] == (Elems(h, s) + xs)[k]
      {
        if k >= s.len {
          assert a'[s.off + s.len + (k - s.len)] == xs[k - s.len];
        }
      }
    }
    (h', s')
  }

  /** `append` beyond the capacity: the elements move to a new array of
      capacity `NextCap`, zeroed past the new length; the old arrays are
      untouched. */
  function AppendGrow<T>(h: Heap<T>, s: Slice, xs: seq<T>, zero: T): (r: (Heap<T>, Slice))
    requires Valid(h, s) && s.cap < s.len + |xs|
    ensures |r.0| == |h| + 1 && r.0[..|h|] == h
    ensures r.1 == Slice(|h|, 0, s.len + |xs|, NextCap(s.cap, s.len + |xs|)) && Valid(r.0, r.1)
    ensures Elems(r.0, r.1) == Elems(h, s) + xs
    ensures |r.0[|h|]| == NextCap(s.cap, s.len + |xs|)
    ensures forall k :: s.len + |xs| <= k < |r.0[|h|]| ==> r.0[|h|][k] == zero
  {
    var n := s.len + |xs|;
    var c := NextCap(s.cap, n);
    var a := Elems(h, s) + xs + seq(c - n, _ => zero);
    assert a[..n] == Elems(h, s) + xs;
    (h + [a], Slice(|h|, 0, n, c))
  }

  /**
   * `append(s, xs...)`. When the new elements fit in the capacity they are
   * written into the shared array just past `len(s)`, where every other
   * slice of that array sees them; otherwise the elements are copied into a
   * new array and the old array is left alone.
   */
  function Append<T>(h: Heap<T>, s: Slice, xs: seq<T>, zero: T): (r: (Heap<T>, Slice))
    requires Valid(h, s)
    ensures Valid(r.0, r.1) && Elems(r.0, r.1) == Elems(h, s) + xs
    ensures s.len + |xs| <= s.cap ==> r == AppendInPlace(h, s, xs)
    ensures s.cap < s.len + |xs| ==> r == AppendGrow(h, s, xs, zero)
  {
    if s.len + |xs| <= s.cap then AppendInPlace(h, s, xs) else AppendGrow(h, s, xs, zero)
  }

  /**
   * `copy(dst, src)`: the first `min(len(dst), len(src))` elements of `src`
   * are written over the front of `dst`; the count is returned. Nothing
   * else in any array changes.
   */
  function Copy<T>(h: Heap<T>, dst: Slice, src: Slice): (r: (Heap<T>, nat))
    requires Valid(h, dst) && Valid(h, src)
    ensures r.1 == if dst.len < src.len then dst.len else src.len
    ensures |r.0| == |h| && |r.0[dst.arr]| == |h[dst.arr]| && Valid(r.0, dst)
    ensures forall a :: 0 <= a < |h| && a != dst.arr ==> r.0[a] == h[a]
    ensures forall k :: 0 <= k < r.1 ==> Elems(r.0, dst)[k] == Elems(h, src)[k]
    ensures forall k :: 0 <= k < |h[dst.arr]| && !(dst.off <= k < dst.off + r.1) ==>
      r.0[dst.arr][k] == h[dst.arr][k]
  {
    var n := if dst.len < src.len then dst.len else src.len;
    var a' := Overwrite(h[dst.arr], dst.off, Elems(h, src)[..n]);
    (h[dst.arr := a'], n)
  }
}
