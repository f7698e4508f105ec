/**
 * datastruct/mem_test.go: how the Go compiler lays out a struct on a 64-bit
 * target, which is what `unsafe.Sizeof` and `unsafe.Alignof` report. Each
 * field goes at the next offset that is a multiple of its alignment; a
 * struct that is not empty but ends in a zero-size field gets one byte of
 * padding so that the field's address stays inside the struct; the size is
 * then rounded up to the struct's alignment, the largest field alignment.
 */
module MemLayout {

  /** The field types the examples use; `Int` is 64 bits wide. */
  datatype Kind = Int8 | Int16 | Int32 | Int64 | Int | EmptyStruct

  function SizeOf(k: Kind): (size: nat) {
    match k
    case Int8 => 1
    case Int16 => 2
    case Int32 => 4
    case Int64 => 8
    case Int => 8
    case EmptyStruct => 0
  }

  /** The alignments a 64-bit Go target uses. */
  type Align = a: nat | a == 1 || a == 2 || a == 4 || a == 8 witness 1

  function AlignOf(k: Kind): (a: Align)
  {
    match k
    case Int8 => 1
    case Int16 => 2
    case Int32 => 4
    case Int64 => 8
    case Int => 8
    case EmptyStruct => 1
  }

  /** The least multiple of `a` that is at least `o`. */
  function RoundUp(o: nat, a: Align): (r: nat)
    ensures r % a == 0 && o <= r < o + a
  {
    if o % a == 0 then o else o + (a - o % a)
  }

  /** No aligned offset lies between `o` and `RoundUp(o, a)`. */
  lemma RoundUpLeast(o: nat, a: Align, m: nat)
    requires m % a == 0 && o <= m
    ensures RoundUp(o, a) <= m
  {
  }

  /** Where the fields go when the first may start at `start`, and the
      offset just past the last one. */
  datatype Placement = Placement(offsets: seq<nat>, end: nat)

  function Place(fields: seq<Kind>, start: nat): (p: Placement)
    ensures |p.offsets| == |fields|
    decreases |fields|
  {
    if |fields| == 0 then Placement([], start)
    else
      var here := RoundUp(start, AlignOf(fields[0]));
      var rest := Place(fields[1..], here + SizeOf(fields[0]));
      Placement([here] + rest.offsets, rest.end)
  }

  /** Every field is aligned, the fields follow each other without
      overlapping, and all of them end by `end`. */
  lemma {:induction false} PlaceIsLayout(fields: seq<Kind>, start: nat)
    ensures start <= Place(fields, start).end
    ensures forall i :: 0 <= i < |fields| ==>
      var o := Place(fields, start).offsets[i];
      start <= o && o % AlignOf(fields[i]) == 0 && o + SizeOf(fields[i]) <= Place(fields, start).end
    ensures forall i, j :: 0 <= i < j < |fields| ==>
      Place(fields, start).offsets[i] + SizeOf(fields[i]) <= Place(fields, start).offsets[j]
    decreases |fields|
  {
    if |fields| > 0 {
      var here := RoundUp(start, AlignOf(fields[0]));
      PlaceIsLayout(fields[1..], here + SizeOf(fields[0]));
      var p := Place(fields, start);
      var rest := Place(fields[1..], here + SizeOf(fields[0]));
      assert forall i :: 0 < i < |fields| ==> p.offsets[i] == rest.offsets[i - 1] && fields[i] == fields[1..][i - 1];
    }
  }

  /** `Place` one field at a time: the first field at the least aligned
      offset after `start`, the rest placed from where it ends. */
  lemma PlaceHead(fields: seq<Kind>, start: nat)
    requires 0 < |fields|
    ensures Place(fields, start).offsets[0] == RoundUp(start, AlignOf(fields[0]))
    ensures Place(fields, start).offsets[1..] == Place(fields[1..], Place(fields, start).offsets[0] + SizeOf(fields[0])).offsets
    ensures Place(fields, start).end == Place(fields[1..], Place(fields, start).offsets[0] + SizeOf(fields[0])).end
  {
  }

  /**
   * The layout is the tight one: each field sits at the least offset of its
   * alignment after the end of the previous field (after `start` for the
   * first; `RoundUpLeast` says no aligned offset is skipped). Stated for
   * field `i + 1` and the one before it.
   */
  lemma {:induction false} PlaceIsTight(fields: seq<Kind>, start: nat, i: nat)
    ensures 0 < |fields| ==> Place(fields, start).offsets[0] == RoundUp(start, AlignOf(fields[0]))
    ensures i + 1 < |fields| ==>
      Place(fields, start).offsets[i + 1] == RoundUp(Place(fields, start).offsets[i] + SizeOf(fields[i]), AlignOf(fields[i + 1]))
    decreases i
  {
    if i + 1 < |fields| {
      PlaceHead(fields, start);
      var p := Place(fields, start);
      var tail := fields[1..];
      var next := p.offsets[0] + SizeOf(fields[0]);
      var rest := Place(tail, next);
      assert fields[i + 1] == tail[i] && p.offsets[i + 1] == rest.offsets[i];
      if i == 0 {
        PlaceHead(tail, next);
      } else {
        PlaceIsTight(tail, next, i - 1);
        assert fields[i] == tail[i - 1] && p.offsets[i] == rest.offsets[i - 1];
      }
    } else if 0 < |fields| {
      PlaceHead(fields, start);
    }
  }

  /** `end` is where the last field ends, or `start` when there is none. */
  lemma {:induction false} PlaceEnd(fields: seq<Kind>, start: nat)
    ensures |fields| == 0 ==> Place(fields, start).end == start
    ensures 0 < |fields| ==> Place(fields, start).end == Place(fields, start).offsets[|fields| - 1] + SizeOf(fields[|fields| - 1])
    decreases |fields|
  {
    if |fields| > 0 {
      PlaceHead(fields, start);
      var p := Place(fields, start);
      var tail := fields[1..];
      var rest := Place(tail, p.offsets[0] + SizeOf(fields[0]));
      PlaceEnd(tail, p.offsets[0] + SizeOf(fields[0]));
      if 1 < |fields| {
        assert p.offsets[|fields| - 1] == rest.offsets[|tail| - 1] && fields[|fields| - 1] == tail[|tail| - 1];
      }
    }
  }

  /** `unsafe.Alignof` of a struct: its largest field alignment, 1 when it
      has no fields. */
  function StructAlign(fields: seq<Kind>): (a: Align)
    ensures |fields| == 0 ==> a == 1
  {
    if |fields| == 0 then 1
    else var rest := StructAlign(fields[1..]); if AlignOf(fields[0]) > rest then AlignOf(fields[0]) else rest
  }

  /** The struct's alignment is the largest of its fields' alignments: none
      exceeds it, and some field has it. */
  lemma {:induction false} StructAlignIsLargest(fields: seq<Kind>)
    ensures forall i :: 0 <= i < |fields| ==> AlignOf(fields[i]) <= StructAlign(fields)
    ensures 0 < |fields| ==> exists i :: 0 <= i < |fields| && AlignOf(fields[i]) == StructAlign(fields)
    decreases |fields|
  {
    if 0 < |fields| {
      var tail := fields[1..];
      StructAlignIsLargest(tail);
      forall i | 1 <= i < |fields|
        ensures AlignOf(fields[i]) <= StructAlign(fields)
      {
        assert fields[i] == tail[i - 1];
      }
      if AlignOf(fields[0]) < StructAlign(fields) {
        var i :| 0 <= i < |tail| && AlignOf(tail[i]) == StructAlign(tail);
        assert fields[i + 1] == tail[i];
      }
    }
  }

  /** The struct's alignment is a multiple of every field's, so aligned
      fields stay aligned in every element of an array of the struct. */
  lemma {:induction false} StructAlignCoversFields(fields: seq<Kind>, i: nat)
    requires i < |fields|
    ensures StructAlign(fields) % AlignOf(fields[i]) == 0
    decreases |fields|
  {
    if i > 0 {
      StructAlignCoversFields(fields[1..], i - 1);
    }
  }

  /** `unsafe.Sizeof` of a struct. */
  function StructSize(fields: seq<Kind>): (size: nat)
    ensures size % StructAlign(fields) == 0
    ensures Place(fields, 0).end <= size
  {
    var end := Place(fields, 0).end;
    var padded := if 0 < end && SizeOf(fields[|fields| - 1]) == 0 then end + 1 else end;
    RoundUp(padded, StructAlign(fields))
  }

  /** A size the struct could have: a multiple of its alignment that covers
      the fields, and, when the struct is not empty but ends in a zero-size
      field, leaves that field's address inside it. */
  predicate Fits(fields: seq<Kind>, m: nat) {
    var end := Place(fields, 0).end;
    && m % StructAlign(fields) == 0 && end <= m
    && (0 < |fields| && 0 < end && SizeOf(fields[|fields| - 1]) == 0 ==> end < m)
  }

  /** `unsafe.Sizeof` is the least size that fits. */
  lemma StructSizeIsLeast(fields: seq<Kind>, m: nat)
    ensures Fits(fields, StructSize(fields))
    ensures Fits(fields, m) ==> StructSize(fields) <= m
  {
    var end := Place(fields, 0).end;
    if Fits(fields, m) {
      var padded := if 0 < end && SizeOf(fields[|fields| - 1]) == 0 then end + 1 else end;
      RoundUpLeast(padded, StructAlign(fields), m);
    }
  }

  function Sum(fields: seq<Kind>): (total: nat) {
    if |fields| == 0 then 0 else SizeOf(fields[0]) + Sum(fields[1..])
  }

  /** Padding only adds: the fields' own sizes never exceed the struct's. */
  lemma {:induction false} PlaceCoversSizes(fields: seq<Kind>, start: nat)
    ensures start + Sum(fields) <= Place(fields, start).end
    decreases |fields|
  {
    if |fields| > 0 {
      PlaceCoversSizes(fields[1..], RoundUp(start, AlignOf(fields[0])) + SizeOf(fields[0]));
    }
  }

  lemma SizeAtLeastSum(fields: seq<Kind>)
    ensures Sum(fields) <= StructSize(fields)
  {
    PlaceCoversSizes(fields, 0);
  }

  /**
   * Every field, zero-size ones included, starts strictly inside a struct of
   * non-zero size: this is what the trailing padding byte is for, so that a
   * pointer to a final `struct{}` field cannot point at the next object.
   */
  lemma FieldAddressesInside(fields: seq<Kind>, i: nat)
    requires i < |fields| && 0 < StructSize(fields)
    ensures Place(fields, 0).offsets[i] < StructSize(fields)
  {
    PlaceIsLayout(fields, 0);
    var p := Place(fields, 0);
    var size := StructSize(fields);
    var o := p.offsets[i];
    assert o + SizeOf(fields[i]) <= p.end <= size;
    if 0 < o && o == p.end {
      // Field i ends where the struct's fields end, so the last field does
      // too and is zero-size: the trailing padding byte puts the size past
      // `o`.
      var last := |fields| - 1;
      assert o <= p.offsets[last] && p.offsets[last] + SizeOf(fields[last]) <= p.end;
    }
  }

  /** The structs of mem_test.go and struct_test.go, field by field. */
  const Args := [Int, Int]
  const Flag := [Int32, Int16]
  const Demo1 := [Int8, Int16, Int32]
  const Demo2 := [Int8, Int32, Int16]
  const Demo3 := [Int32, EmptyStruct]
  const Demo4 := [EmptyStruct, Int32]

  /** `unsafe.Sizeof(Args{})` and `unsafe.Alignof(Args{})` print 16 and 8. */
  lemma ArgsSize()
    ensures Place(Args, 0).offsets == [0, 8]
    ensures StructSize(Args) == 16 && StructAlign(Args) == 8
  {
    assert Args[1..] == [Int] && Args[1..][1..] == [];
    assert Place([Int], 8) == Placement([8], 16);
  }

  /** `Flag` prints size 8 and alignment 4: 6 bytes of fields, 2 of padding. */
  lemma FlagSize()
    ensures Place(Flag, 0).offsets == [0, 4]
    ensures StructSize(Flag) == 8 && StructAlign(Flag) == 4
  {
    assert Flag[1..] == [Int16] && Flag[1..][1..] == [];
    assert Place([Int16], 4) == Placement([4], 6);
  }

  /** `demo1` is 8 bytes. */
  lemma Demo1Size()
    ensures Place(Demo1, 0).offsets == [0, 2, 4]
    ensures StructSize(Demo1) == 8
  {
    assert Demo1[1..] == [Int16, Int32] && Demo1[1..][1..] == [Int32] && Demo1[1..][1..][1..] == [];
    assert Place([Int32], 4) == Placement([4], 8);
    assert Place([Int16, Int32], 1) == Placement([2, 4], 8);
  }

  /** `demo2` has the same fields in another order and is 12 bytes. */
  lemma Demo2Size()
    ensures Place(Demo2, 0).offsets == [0, 4, 8]
    ensures StructSize(Demo2) == 12
  {
    assert Demo2[1..] == [Int32, Int16] && Demo2[1..][1..] == [Int16] && Demo2[1..][1..][1..] == [];
    assert Place([Int16], 8) == Placement([8], 10);
    assert Place([Int32, Int16], 1) == Placement([4, 8], 10);
  }

  /** `demo3` ends in `struct{}` and so is padded to 8 bytes. */
  lemma Demo3Size()
    ensures Place(Demo3, 0).offsets == [0, 4]
    ensures StructSize(Demo3) == 8
  {
    assert Demo3[1..] == [EmptyStruct] && Demo3[1..][1..] == [];
    assert Place([EmptyStruct], 4) == Placement([4], 4);
  }

  /** `demo4` starts with `struct{}` and is 4 bytes. */
  lemma Demo4Size()
    ensures Place(Demo4, 0).offsets == [0, 0]
    ensures StructSize(Demo4) == 4
  {
    assert Demo4[1..] == [Int32] && Demo4[1..][1..] == [];
    assert Place([Int32], 0) == Placement([0], 4);
  }

  /** `unsafe.Sizeof(struct{}{})` prints 0. */
  lemma EmptySize()
    ensures StructSize([]) == 0
  {
  }

  /** Flag's fields take 6 bytes; the other 2 are padding. */
  lemma FlagPadding()
    ensures Sum(Flag) == 6 && StructSize(Flag) - Sum(Flag) == 2
  {
  }
}
