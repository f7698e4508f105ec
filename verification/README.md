# HighPerformance examples, modelled in Dafny

The repository is a set of Go test files. Each one shows a performance
idiom of Go: how slices share backing arrays, how `append` grows them, six
ways to build a repeated string, how the compiler pads structs, using a map
as a set, and what a `range` loop copies. This project models the functions
and test scenarios in those files. It proves what each one computes and the
aliasing, capacity and layout facts the files' comments rely on.

One Dafny module per Go file, plus a shared vocabulary module:

- `Go` (`go.dfy`) holds the vocabulary the other modules share:
  - `byte`;
  - `Outcome`, which is either a normal result or a run-time panic;
  - slices as headers `(array, offset, len, cap)` over a heap of backing
    arrays;
  - the built-ins `make`, `s[lo:hi]`, `append` and `copy`;
  - `append`'s capacity growth.
- `BubbleSort` models `benchmark/timer_test.go`.
- `TrimSpace` models `highprog/slices_test.go`.
- `StringConcat` models `datastruct/string_test.go`, including `randString`
  and a `strings.Builder` reduced to its bytes and capacity.
- `Profile` models `pprof/profile_test.go`.
- `GoSet` models the `Set` of `datastruct/struct_test.go`.
- `GoSlice` models `datastruct/slice_test.go`.
- `RangeLoops` models `datastruct/range_test.go`.
- `MemLayout` models the struct layout behind `unsafe.Sizeof` in
  `datastruct/mem_test.go`.
- `EnvConfig` models `readconfig` and the field-name cache of
  `datastruct/reflect_test.go`.

Some parts of the Go code become explicit values:

- **Strings** are sequences of bytes (`seq<byte>`), as Go strings are.
- **Randomness** is a parameter. `draws(k)` is the `k`-th result of
  `rand.Intn(52)` and `draw(k)` is the `k`-th `rand.Int()`.
- **The environment** is a map from variable names to values.
- **Reflection** sees a struct type as its list of fields.
- **Output** is returned instead of printed. A test's `fmt.Println` lines
  become the results of the method that models the test.
- **Panics** become `Panic` outcomes, not preconditions. These include:
  - a negative `make` length or capacity;
  - a negative `strings.Builder.Grow`;
  - an out-of-range re-slice;
  - storing into a nil map.

  The one panic not modelled is `reflect.Value.Set` on an unexported or
  non-`string` field; see `EnvConfig.ReadConfig` under "Left out".

## Model

| member | source | states |
|---|---|---|
| `BubbleSort.BubbleSort` | benchmark/timer_test.go:7-15 | the result is sorted and a permutation of the input; a ghost index map shows every value came from its own input slot, and equal values keep their input order (stable); an already sorted slice comes back unchanged |
| `BubbleSort.BubblePass` | benchmark/timer_test.go:9-13 | one inner loop up to `m = len-i` moves the largest of the first `m` values to slot `m-1`, keeps the values as a permutation with the index map and stability, and leaves slots from `m` on untouched |
| `BubbleSort.PassExtendsSuffix` | benchmark/timer_test.go:8-14 | after outer pass `i` the last `i+1` slots hold the largest values in sorted order |
| `BubbleSort.SwapKeepsProvenance` | benchmark/timer_test.go:10-12 | swapping a strictly out-of-order adjacent pair keeps the index map right and keeps equal values in input order |
| `BubbleSort.Swap` | benchmark/timer_test.go:11 | the parallel assignment exchanges exactly the two slots and keeps the multiset of values |
| `BubbleSort.HeadIsMinimum` | benchmark/timer_test.go:7-15 | the first slot of a sorted sequence is no greater than any value of a sequence with the same elements |
| `BubbleSort.SortedPermutationUnique` | benchmark/timer_test.go:7-15 | two sorted sequences with the same multiset are equal, so the result agrees with every other correct sort |
| `TrimSpace.TrimSpace` | highprog/slices_test.go:8-17 | the returned slice is the input with every space removed; it is written over the front of the caller's own array, whose remaining bytes are unchanged |
| `TrimSpace.RemoveSpaces` | highprog/slices_test.go:11-15 | the kept bytes contain no space and are never more than the input |
| `TrimSpace.RemoveSpacesContents` | highprog/slices_test.go:11-15 | exactly the spaces go: every other byte keeps its number of occurrences |
| `TrimSpace.RemoveSpacesAppend` | highprog/slices_test.go:11-15 | trimming works piece by piece over concatenation |
| `TrimSpace.RemoveSpacesNoSpaces` | highprog/slices_test.go:11-15 | input without spaces comes back unchanged |
| `TrimSpace.RemoveSpacesAllSpaces` | highprog/slices_test.go:11-15 | a run of spaces disappears completely |
| `TrimSpace.WordThenGap` | highprog/slices_test.go:11-15 | a word followed by a gap of spaces keeps the word and drops the gap |
| `TrimSpace.RemoveSpacesIdempotent` | highprog/slices_test.go:8-17 | trimming twice equals trimming once |
| `TrimSpace.ExampleEmpSlice` | highprog/slices_test.go:19-22 | "hello world   ,  sungn!" becomes "helloworld,sungn!" |
| `StringConcat.LetterStringIsAlphabet` | datastruct/string_test.go:11 | `letterString` is the 26 lower-case letters in order followed by the 26 upper-case ones |
| `StringConcat.LetterStringIsLetters` | datastruct/string_test.go:11 | a byte occurs in `letterString` exactly when it is an ASCII letter |
| `StringConcat.LetterStringDistinct` | datastruct/string_test.go:11 | different indices pick different letters, so each letter is as likely as each `rand.Intn` result |
| `StringConcat.RandLetters` | datastruct/string_test.go:13-19 | `randString(n)` has length `n` and consists of ASCII letters only |
| `StringConcat.RandString` | datastruct/string_test.go:13-19 | the loop fills slot `i` from the `i`-th draw; a negative `n` panics in `make` |
| `StringConcat.RepeatLength` | datastruct/string_test.go:21-27 | `str` repeated `n` times has length `n*len(str)` |
| `StringConcat.RepeatAt` | datastruct/string_test.go:21-27 | copy `q` of `str` sits at positions `q*len(str)` to `(q+1)*len(str)` |
| `StringConcat.RepeatAdd` | datastruct/string_test.go:21-27 | repeating `a` times then `b` times is repeating `a+b` times |
| `StringConcat.PlusConcat` | datastruct/string_test.go:21-27 | returns `str` repeated `max(n,0)` times (`RepeatLength` gives its length) |
| `StringConcat.SprintfTwo` | datastruct/string_test.go:32 | `Sprintf("%s%s", a, b)` is `a` followed by `b` |
| `StringConcat.SprintfConcat` | datastruct/string_test.go:29-35 | returns `str` repeated `max(n,0)` times |
| `StringConcat.Grow` | datastruct/string_test.go:39 | `Grow(n)` panics for negative `n`; otherwise it keeps the contents and leaves room for `n` more bytes; it does not reallocate when there is already room |
| `StringConcat.WriteString` | datastruct/string_test.go:41 | appends the bytes; the capacity changes exactly when they do not fit |
| `StringConcat.ProductSign` | datastruct/string_test.go:39 | `n*len(str)` is negative exactly when `n < 0` and `str` is non-empty, which is when `Grow` and `make` panic |
| `StringConcat.BuilderConcat` | datastruct/string_test.go:37-44 | panics exactly when `n` is negative and `str` non-empty, which is when `n*len(str) < 0`; otherwise returns `str` repeated `max(n,0)` times, and when something was written the one `Grow` reserved exactly the final length, so no write reallocated |
| `StringConcat.BufferConcat` | datastruct/string_test.go:46-52 | returns `str` repeated `max(n,0)` times |
| `StringConcat.ByteConcat` | datastruct/string_test.go:54-60 | returns `str` repeated `max(n,0)` times, within the final capacity |
| `StringConcat.PreByteConcat` | datastruct/string_test.go:62-68 | panics exactly when `n` is negative and `str` non-empty (a negative capacity); otherwise returns the repetition and ends with length equal to the capacity reserved by `make` |
| `Profile.TriClosedForm` | pprof/profile_test.go:20-26 | the pieces of lengths `0..n-1` add up to `n(n-1)/2` |
| `Profile.Pieces` | pprof/profile_test.go:20-26 | the joined pieces have length `Tri(n)` and are all ASCII letters |
| `Profile.PieceAt` | pprof/profile_test.go:20-26 | piece `i` is `randString(i)` drawn right after the earlier pieces' draws, at positions `Tri(i)` to `Tri(i+1)` |
| `Profile.Concat` | pprof/profile_test.go:20-26 | `concat(n)` returns the joined pieces and uses `Tri(n)` draws |
| `Profile.BuilderConcat` | pprof/profile_test.go:28-34 | `builderConcat(n)` returns the same string as `concat(n)` for the same random stream |
| `Profile.ResultLength` | pprof/profile_test.go:20-34 | both results are `n(n-1)/2` bytes long |
| `GoSet.MakeSet` | datastruct/struct_test.go:33 | `make(Set)` is a non-nil empty set |
| `GoSet.Has` | datastruct/struct_test.go:19-22 | `Has` is membership, false for every key of a nil map |
| `GoSet.Add` | datastruct/struct_test.go:24-26 | adds the key to a made map; storing into a nil map panics |
| `GoSet.Del` | datastruct/struct_test.go:28-30 | removes the key; a nil map stays nil |
| `GoSet.HasAfterAdd` | datastruct/struct_test.go:19-26 | after `Add(k)`, `Has` is true for `k` and unchanged for every other key |
| `GoSet.HasAfterDel` | datastruct/struct_test.go:19-30 | after `del(k)`, `Has` is false for `k` and unchanged for every other key |
| `GoSet.AddIdempotent` | datastruct/struct_test.go:24-26 | adding a member again changes nothing |
| `GoSet.DelAbsent` | datastruct/struct_test.go:28-30 | deleting a missing key changes nothing |
| `GoSet.DelUndoesAdd` | datastruct/struct_test.go:24-30 | adding a new key then deleting it restores the set |
| `GoSet.TestSet` | datastruct/struct_test.go:32-40 | the test prints true, false, false |
| `Go.NextCap` | datastruct/slice_test.go:17-23 | when `append` outgrows a slice, the new capacity fits the new length, and below 256 it is at most double the old capacity unless more is needed |
| `Go.CapAfterAppend` | datastruct/slice_test.go:18 | the capacity stays the same exactly when the new length fits in it |
| `Go.Make` | datastruct/slice_test.go:25 | `make` succeeds exactly when `0 <= len <= cap`, giving a fresh zeroed array of length `cap` and leaving the old arrays alone |
| `Go.Reslice` | datastruct/slice_test.go:28 | `s[lo:hi]` succeeds exactly when `0 <= lo <= hi <= cap(s)`, so it may reach past `len(s)` into the spare capacity; the view stays on the same array and keeps the room up to the array's end |
| `Go.ResliceElems` | datastruct/slice_test.go:28 | a re-slice within the length shows exactly the elements `lo` to `hi` of the original |
| `Go.Overwrite` | datastruct/slice_test.go:29 | writes exactly the given positions of an array |
| `Go.AppendInPlace` | datastruct/slice_test.go:29 | an append that fits writes only the slots just past `len` in the shared array; every other array and slot is unchanged |
| `Go.AppendGrow` | datastruct/slice_test.go:18-20 | an append that does not fit copies into a new array of length and capacity `NextCap`, zeroed past the new length; old arrays are unchanged |
| `Go.Append` | datastruct/slice_test.go:26-29 | the result shows the old elements followed by the new ones, in place or in a new array depending on capacity |
| `Go.Copy` | datastruct/slice_test.go:47 | `copy` writes `min(len(dst), len(src))` elements over the front of `dst` and nothing else |
| `GoSlice.LastNumsBySlice` | datastruct/slice_test.go:41-43 | panics on fewer than two elements; otherwise a two-element view that shares the original array up to its end |
| `GoSlice.LastNumsBySliceElems` | datastruct/slice_test.go:41-43 | that view shows the last two elements |
| `GoSlice.LastNumsByCopy` | datastruct/slice_test.go:45-49 | panics in the same case; otherwise the last two elements in a new array of capacity 2; no existing array changes |
| `GoSlice.LastNumsAgree` | datastruct/slice_test.go:41-49 | both helpers panic on the same inputs and return the same numbers; only the copy does not share the original array |
| `GoSlice.GenerateWithCap` | datastruct/slice_test.go:51-58 | panics for negative `n`; otherwise one new array holds the `n` draws in order with `len == cap == n`, so it is never reallocated |
| `GoSlice.DeleteAt` | datastruct/slice_test.go:34 | `append(s[:i], s[i+1:]...)` succeeds exactly for `0 <= i < len(s)`; it shifts the later elements down inside the same array, leaves every other slot and array alone and keeps the capacity |
| `GoSlice.TestPrintGrowth` | datastruct/slice_test.go:17-23 | the three prints show (len, cap) = (2,2), (3,4), (4,4) |
| `GoSlice.TestPrintShared` | datastruct/slice_test.go:25-35 | the four prints show `nums1` = [1 2 3 4 5], `nums2` = [3 4 50 60], then `nums1` = [1 2 3 4 50] and [1 2 3 50], and the shared array ends as [1 2 3 50 50 60 0 0] |
| `GoSlice.FillNums1` | datastruct/slice_test.go:25-27 | after `make(0, 8)` and appending 1..5 the array is [1 2 3 4 5 0 0 0] |
| `GoSlice.AppendThroughNums2` | datastruct/slice_test.go:28-31 | appending 50 and 60 to `nums1[2:4]` overwrites `nums1[4]` |
| `GoSlice.DeleteFourth` | datastruct/slice_test.go:34-35 | deleting index 3 leaves `nums1` = [1 2 3 50] over [1 2 3 50 50 60 0 0] |
| `RangeLoops.RangeDeleteSecondToLast` | datastruct/range_test.go:13-19 | the loop runs `len` times; it sees the first value, then the array after the in-place deletion, which holds the last value in both of its last two slots; a one-element slice panics; the final slice drops the second-to-last element; the second-to-last slot is the only one written, in the shared array and every other array |
| `RangeLoops.DeleteSecondToLast` | datastruct/range_test.go:16 | the deletion shifts the last element into the second-to-last slot; every other slot of that array, spare capacity included, and every other array stay as they were |
| `RangeLoops.FinalShape` | datastruct/range_test.go:16-20 | after the loop the slice drops the second-to-last element and its array repeats the last one |
| `RangeLoops.TestRangeSlice` | datastruct/range_test.go:10-22 | prints go, language, practice, practice; then `slice` is [go language practice] in the same array, which holds {go, language, practice, practice} |
| `RangeLoops.RangeAddToCopy` | datastruct/range_test.go:121-123 | changing the range copy leaves the slice unchanged |
| `RangeLoops.IndexAddInPlace` | datastruct/range_test.go:125-127 | indexing adds 100 to every element |
| `RangeLoops.TestValueCopyRange` | datastruct/range_test.go:119-129 | prints [{1} {2} {3}] then [{101} {102} {103}] |
| `RangeLoops.GenerateItems` | datastruct/range_test.go:132-138 | panics for negative `n`; otherwise one new array made with capacity `n` holds `n` pairwise different non-nil pointers, the `i`-th to a new item with id `i`; the slice never moved, and older objects and arrays are unchanged |
| `MemLayout.RoundUp` | datastruct/mem_test.go:42 | an offset that is a multiple of the alignment, at least `o` and less than `o` plus the alignment |
| `MemLayout.RoundUpLeast` | datastruct/mem_test.go:42 | no aligned offset lies between `o` and `RoundUp(o)`, so it is the least one |
| `MemLayout.Place` | datastruct/mem_test.go:42 | one offset per field |
| `MemLayout.PlaceHead` | datastruct/mem_test.go:42 | the first field goes at the least aligned offset after `start`, and the others are placed from where it ends |
| `MemLayout.PlaceIsTight` | datastruct/mem_test.go:42 | each field sits at the least offset of its own alignment after the end of the previous field, the first at the least one after the start |
| `MemLayout.PlaceEnd` | datastruct/mem_test.go:42 | the fields end where the last field ends, or at the start when there are none |
| `MemLayout.PlaceIsLayout` | datastruct/mem_test.go:42-43 | every field is aligned, fields do not overlap and follow in declaration order, and all end before the struct's end |
| `MemLayout.StructAlign` | datastruct/mem_test.go:22-25 | the alignment `unsafe.Alignof` prints; a struct with no fields has alignment 1 (`StructAlignIsLargest` covers the others) |
| `MemLayout.StructAlignIsLargest` | datastruct/mem_test.go:21-24 | `unsafe.Alignof` of a struct is the largest alignment of its fields: none exceeds it and some field has it |
| `MemLayout.StructAlignCoversFields` | datastruct/mem_test.go:21 | the struct's alignment is a multiple of every field's alignment |
| `MemLayout.StructSize` | datastruct/mem_test.go:19-20 | the size is a multiple of the struct's alignment and covers every field |
| `MemLayout.StructSizeIsLeast` | datastruct/mem_test.go:19-21 | the size is the least that fits: a multiple of the alignment covering the fields and, in a non-empty struct ending in a zero-size field, strictly past the fields' end |
| `MemLayout.PlaceCoversSizes` | datastruct/mem_test.go:19-20 | laying out fields from any offset ends at least the sum of their sizes later |
| `MemLayout.SizeAtLeastSum` | datastruct/mem_test.go:19-20 | padding only adds: the size is at least the sum of the field sizes |
| `MemLayout.FieldAddressesInside` | datastruct/mem_test.go:49-50 | in a struct of non-zero size every field starts inside it, a trailing `struct{}` included |
| `MemLayout.ArgsSize` | datastruct/mem_test.go:9-23 | `Args` has size 16 and alignment 8 |
| `MemLayout.FlagSize` | datastruct/mem_test.go:14-24 | `Flag` has fields at 0 and 4, size 8 and alignment 4 |
| `MemLayout.FlagPadding` | datastruct/mem_test.go:19-20 | 6 bytes of `Flag` are fields and 2 are padding |
| `MemLayout.Demo1Size` | datastruct/mem_test.go:30-45 | `demo1` has fields at 0, 2 and 4 and size 8 |
| `MemLayout.Demo2Size` | datastruct/mem_test.go:36-46 | `demo2` has fields at 0, 4 and 8 and size 12 |
| `MemLayout.Demo3Size` | datastruct/mem_test.go:51-62 | `demo3`, ending in `struct{}`, has size 8 |
| `MemLayout.Demo4Size` | datastruct/mem_test.go:56-63 | `demo4`, starting with `struct{}`, has size 4 |
| `MemLayout.EmptySize` | datastruct/struct_test.go:13-15 | `struct{}{}` has size 0 |
| `EnvConfig.UpperChar` | datastruct/reflect_test.go:39 | maps `a`-`z` to `A`-`Z` and leaves other characters alone; never returns a lower-case letter |
| `EnvConfig.ToUpper` | datastruct/reflect_test.go:39 | keeps the length |
| `EnvConfig.ReplaceChar` | datastruct/reflect_test.go:39 | keeps the length |
| `EnvConfig.EnvKey` | datastruct/reflect_test.go:39 | the key is `CONFIG_` followed by as many characters as the tag has |
| `EnvConfig.EnvKeyChars` | datastruct/reflect_test.go:39 | each tag character becomes upper case, or `_` for `-`, so the key has no lower-case letter and no dash |
| `EnvConfig.EnvKeyIgnoresCaseAndDash` | datastruct/reflect_test.go:39 | tags that differ only in case or in `-` versus `_` name the same variable |
| `EnvConfig.ConfigKeys` | datastruct/reflect_test.go:26-29 | the four tags give `CONFIG_SERVER_NAME`, `CONFIG_SERVER_IP`, `CONFIG_SERVER_URL` and `CONFIG_TIMEOUT` |
| `EnvConfig.FieldByName` | datastruct/reflect_test.go:41 | returns the first field with that name, or -1 when there is none |
| `EnvConfig.ReadConfig` | datastruct/reflect_test.go:32-46 | every field with a `json` tag whose variable is set holds that variable's value; every other field holds "" |
| `EnvConfig.TestEnvValues` | datastruct/reflect_test.go:48-54 | under the environment the test sets, the four fields read `global_server`, `10.0.0.1`, `sungn.com` and the empty string |
| `EnvConfig.TestConfig` | datastruct/reflect_test.go:48-54 | the config read is {global_server 10.0.0.1 sungn.com ""} |
| `EnvConfig.BuildNameCache` | datastruct/reflect_test.go:112-115 | the cache has exactly the field names as keys; each maps to the last index with that name |
| `EnvConfig.CacheAgreesWithFieldByName` | datastruct/reflect_test.go:109-121 | with distinct names, `Field(cache[name])` is `FieldByName(name)` |

## Left out

- Concurrency (`concurrency/`), channels, `worker` and `Door`:
  goroutines and synchronisation are not modelled.
- `TestRangeMap`: Go's map iteration order is unspecified, so the output
  has no single answer to model.
- Benchmarks (`Benchmark*` and the `benchmark(b, f)` driver), `printMem`
  and `testLastChars`: these measure time and memory.
- `profile.Start`: profiling is not modelled.
- `PrintLenCap`: each line becomes a returned `Printed` value.
- `rand.Seed(time.Now().UnixNano())`: the clock and the generator are
  replaced by the `draws` / `draw` streams.
- Go's `int` is 64 bits wide, and `n*len(str)` and `bubbleSort`'s values are
  unbounded integers here. Overflow is not modelled.
- Arrays mutated in place are modelled as values:
  - `bubbleSort` and `TrimSpace` return the new contents of the array;
  - `GoSlice` and `RangeLoops` thread an explicit heap of arrays, so the
    aliasing there is visible.
- `Go.NextCap`: follows the slice growth rule of the Go runtime since
  version 1.18, without rounding up to the allocator's size classes. In
  `TestPrint` the rounded values are the same.
- `StringConcat.Grow`: states only that room is reserved and the contents
  are kept. The `2*cap+n` choice is in the body.
- `StringConcat.BufferConcat`: states the contents only. The growth policy
  of `bytes.Buffer` is not modelled.
- `StringConcat.ByteConcat`: bounds the capacity only from below.
- `EnvConfig.ToUpper`: handles ASCII only. `strings.ToUpper` also maps
  non-ASCII letters, but the tags here are ASCII.
- `EnvConfig.ReadConfig`: a field list stands for exported `string` fields
  with distinct names, as `Config`'s four are. `reflect.Value.Set` panics
  on an unexported or non-`string` field, and Go allows repeated blank `_`
  field names; neither is modelled. Tags arrive already split into
  `key:"value"` pairs; `StructTag.Lookup`'s parsing is not modelled.
- Reflection's value and type objects (`reflect.New`, `Elem`, `Indirect`,
  `Set`): a struct value is the list of its field values. The source's
  note on `Elem` against `Indirect` is not modelled.
- `MemLayout`: struct layout covers the gc compiler on 64-bit targets and
  the field kinds the tests use.
- The `val [4096]byte` payload of `Item`: kept as 4096 zero bytes.
- The `for` against `range` benchmarks over `Item`: they only read fields.
