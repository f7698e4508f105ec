/**
 * datastruct/string_test.go: six ways of building the string `str`
 * repeated `n` times, and `randString`, which draws `n` letters at random.
 * The random source is a parameter: `draws(k)` is the result of the `k`-th
 * call of `rand.Intn(len(letterString))`.
 */
module StringConcat {
  import opened Go

  const LetterString: seq<byte> := "abcdefghijklmnopqrstuvwxyz" + "ABCDEFGHIJKLMNOPQRSTUVWXYZ"

  /** What `rand.Intn(len(letterString))` can return. */
  type LetterIndex = k: int | 0 <= k < 52

  /** An ASCII letter. */
  predicate IsLetter(c: byte) {
    'a' <= c <= 'z' || 'A' <= c <= 'Z'
  }

  /** `letterString` is the lower-case alphabet followed by the upper-case
      one, so every index picks a different letter. */
  lemma LetterStringIsAlphabet()
    ensures |LetterString| == 52
    ensures forall k :: 0 <= k < 26 ==> LetterString[k] as int == 'a' as int + k
    ensures forall k :: 26 <= k < 52 ==> LetterString[k] as int == 'A' as int + (k - 26)
  {
  }

  /** The bytes `randString` can produce are exactly the ASCII letters. */
  lemma LetterStringIsLetters(c: byte)
    ensures c in LetterString <==> IsLetter(c)
  {
    LetterStringIsAlphabet();
    if IsLetter(c) {
      var k := if c <= 'Z' then c as int - 'A' as int + 26 else c as int - 'a' as int;
      assert LetterString[k] == c;
    }
  }

  /** No letter is listed twice, so each of the 52 letters is drawn with the
      same chance as `rand.Intn`'s results. */
  lemma LetterStringDistinct(i: LetterIndex, j: LetterIndex)
    ensures LetterString[i] == LetterString[j] <==> i == j
  {
    LetterStringIsAlphabet();
  }

  /** The `n` letters `randString(n)` returns when the stream is at draw
      `start`. */
  function RandLetters(n: nat, draws: nat -> LetterIndex, start: nat): (b: seq<byte>)
    ensures |b| == n
    ensures forall k :: 0 <= k < n ==> IsLetter(b[k])
  {
    LetterStringIsAlphabet();
    seq(n, k requires 0 <= k < n => LetterString[draws(start + k)])
  }

  /**
   * `randString`: `make([]byte, n)` then one draw per slot, in slot order.
   * A negative `n` makes `make` panic.
   */
  method RandString(n: int, draws: nat -> LetterIndex, start: nat) returns (r: Outcome<seq<byte>>)
    ensures r.Ok? <==> 0 <= n
    ensures r.Ok? ==> r.value == RandLetters(n, draws, start)
  {
    if n < 0 {
      return Panic("makeslice: len out of range");
    }
    var b: seq<byte> := seq(n, _ => 0 as char);
    for i := 0 to n
      invariant |b| == n
      invariant b[..i] == RandLetters(i, draws, start)
    {
      b := b[i := LetterString[draws(start + i)]];
    }
    return Ok(b);
  }

  /** `str` repeated `n` times: what every concatenator below returns. */
  function Repeat(str: seq<byte>, n: nat): (r: seq<byte>)
  {
    if n == 0 then [] else Repeat(str, n - 1) + str
  }

  function Count(n: int): (times: nat) {
    if n < 0 then 0 else n
  }

  lemma {:induction false} RepeatLength(str: seq<byte>, n: nat)
    ensures |Repeat(str, n)| == n * |str|
  {
    if n > 0 {
      RepeatLength(str, n - 1);
      assert n * |str| == (n - 1) * |str| + |str|;
    }
  }

  /** Copy `q` of `str` occupies positions `q*len(str) .. (q+1)*len(str)`. */
  lemma {:induction false} RepeatAt(str: seq<byte>, n: nat, q: nat, p: nat)
    requires q < n && p < |str|
    ensures q * |str| + p < |Repeat(str, n)| && Repeat(str, n)[q * |str| + p] == str[p]
  {
    RepeatLength(str, n - 1);
    RepeatLength(str, n);
    if q < n - 1 {
      RepeatAt(str, n - 1, q, p);
      assert q * |str| + p < (n - 1) * |str| by {
        assert (q + 1) * |str| <= (n - 1) * |str|;
      }
    } else {
      assert q * |str| == |Repeat(str, n - 1)|;
    }
  }

  /** Repeating `a` times and then `b` times is repeating `a + b` times. */
  lemma {:induction false} RepeatAdd(str: seq<byte>, a: nat, b: nat)
    ensures Repeat(str, a + b) == Repeat(str, a) + Repeat(str, b)
  {
    if b > 0 {
      RepeatAdd(str, a, b - 1);
    } else {
      assert Repeat(str, a) + [] == Repeat(str, a);
    }
  }

  /** `plusConcat`: `s += str`, `n` times (no iteration when `n <= 0`). */
  method PlusConcat(n: int, str: seq<byte>) returns (s: seq<byte>)
    ensures s == Repeat(str, Count(n))
  {
    s := "";
    var i := 0;
    while i < n
      invariant 0 <= i == Count(i) <= Count(n)
      invariant s == Repeat(str, i)
    {
      s := s + str;
      i := i + 1;
    }
  }

  /** `fmt.Sprintf("%s%s", a, b)`: the two strings one after the other. */
  function SprintfTwo(a: seq<byte>, b: seq<byte>): (r: seq<byte>)
    ensures |r| == |a| + |b| && r[..|a|] == a && r[|a|..] == b
  {
    a + b
  }

  /** `sprintfConcat`: `s = fmt.Sprintf("%s%s", s, str)`, `n` times. */
  method SprintfConcat(n: int, str: seq<byte>) returns (s: seq<byte>)
    ensures s == Repeat(str, Count(n))
  {
    s := "";
    var i := 0;
    while i < n
      invariant 0 <= i == Count(i) <= Count(n)
      invariant s == Repeat(str, i)
    {
      s := SprintfTwo(s, str);
      assert s == Repeat(str, i) + str;
      i := i + 1;
    }
  }

  /** A `strings.Builder`: the bytes written so far in a buffer of capacity
      `cap`. */
  datatype Builder = Builder(buf: seq<byte>, cap: nat) {
    ghost predicate Valid() { |buf| <= cap }
  }

  /**
   * `(*strings.Builder).Grow(n)`: a negative count panics; when fewer than
   * `n` bytes are free the buffer moves to one of capacity `2*cap + n`.
   * Afterwards at least `n` more bytes fit without another allocation.
   */
  function Grow(b: Builder, n: int): (r: Outcome<Builder>)
    requires b.Valid()
    ensures r.Ok? <==> 0 <= n
    ensures r.Ok? ==> r.value.Valid() && r.value.buf == b.buf
    ensures r.Ok? ==> b.cap <= r.value.cap && |b.buf| + n <= r.value.cap
    ensures r.Ok? && |b.buf| + n <= b.cap ==> r.value == b
  {
    if n < 0 then Panic("strings.Builder.Grow: negative count")
    else if b.cap - |b.buf| < n then Ok(Builder(b.buf, 2 * b.cap + n))
    else Ok(b)
  }

  /** `(*strings.Builder).WriteString(s)`: `append(b.buf, s...)`. */
  function WriteString(b: Builder, s: seq<byte>): (r: Builder)
    requires b.Valid()
    ensures r.Valid() && r.buf == b.buf + s
    ensures r.cap == b.cap <==> |b.buf| + |s| <= b.cap
  {
    Builder(b.buf + s, CapAfterAppend(b.cap, |b.buf| + |s|))
  }

  /** The two facts about `i * len(str)` the reserving concatenators need. */
  lemma MulStep(i: nat, m: nat, len: nat)
    requires i < m
    ensures (i + 1) * len == i * len + len && (i + 1) * len <= m * len
  {
  }

  /** `n * len(str)` is negative exactly when `n` is; otherwise it is the
      number of bytes the loop writes. */
  lemma ProductSign(n: int, len: int)
    requires 0 <= len
    ensures n * len < 0 <==> n < 0 && 0 < len
    ensures 0 <= n * len ==> n * len == Count(n) * len
  {
    if n < 0 && 0 < len {
      assert n * len <= -len;
    }
  }

  /**
   * `builderConcat`: one `Grow(n*len(str))` and `n` writes. The grow panics
   * when `n*len(str)` is negative; otherwise it reserves exactly the final
   * length, so no write moves the buffer (`cap` is its final capacity).
   */
  method BuilderConcat(n: int, str: seq<byte>) returns (r: Outcome<seq<byte>>, cap: nat)
    ensures r.Ok? <==> !(n < 0 && 0 < |str|)
    ensures r.Ok? ==> r.value == Repeat(str, Count(n))
    ensures 0 < n && 0 < |str| ==> cap == |r.value|
  {
    var total := n * |str|;
    var g := Grow(Builder("", 0), total);
    if g.Panic? {
      return Panic(g.reason), 0;
    }
    var b := g.value;
    var m := Count(n);
    ProductSign(n, |str|);
    for i := 0 to m
      invariant b.Valid() && b.buf == Repeat(str, i) && |b.buf| == i * |str|
      invariant 0 < total ==> b.cap == total
    {
      MulStep(i, m, |str|);
      b := WriteString(b, str);
    }
    return Ok(b.buf), b.cap;
  }

  /** `bufferConcat`: `buf.WriteString(str)` on a `bytes.Buffer`, `n` times. */
  method BufferConcat(n: int, str: seq<byte>) returns (s: seq<byte>)
    ensures s == Repeat(str, Count(n))
  {
    var buf: seq<byte> := "";
    var i := 0;
    while i < n
      invariant 0 <= i == Count(i) <= Count(n)
      invariant buf == Repeat(str, i)
    {
      buf := buf + str;
      i := i + 1;
    }
    s := buf;
  }

  /** `byteConcat`: `append(s, str...)` on a slice made with no capacity, so
      the slice is moved whenever it outgrows its array. */
  method ByteConcat(n: int, str: seq<byte>) returns (s: seq<byte>, cap: nat)
    ensures s == Repeat(str, Count(n))
    ensures |s| <= cap
  {
    s, cap := "", 0;
    var i := 0;
    while i < n
      invariant 0 <= i == Count(i) <= Count(n)
      invariant s == Repeat(str, i) && |s| <= cap
    {
      cap := CapAfterAppend(cap, |s| + |str|);
      s := s + str;
      i := i + 1;
    }
  }

  /**
   * `preByteConcat`: `make([]byte, 0, n*len(str))`, which panics on a
   * negative capacity, then `n` appends that all fit, so the slice never
   * moves and ends exactly full.
   */
  method PreByteConcat(n: int, str: seq<byte>) returns (r: Outcome<seq<byte>>, cap: nat)
    ensures r.Ok? <==> !(n < 0 && 0 < |str|)
    ensures r.Ok? ==> r.value == Repeat(str, Count(n)) && cap == |r.value|
  {
    var total := n * |str|;
    ProductSign(n, |str|);
    if total < 0 {
      return Panic("makeslice: cap out of range"), 0;
    }
    var buf: seq<byte> := "";
    cap := total;
    var m := Count(n);
    for i := 0 to m
      invariant buf == Repeat(str, i) && |buf| == i * |str| <= cap
    {
      MulStep(i, m, |str|);
      assert CapAfterAppend(cap, |buf| + |str|) == cap;
      buf := buf + str;
    }
    return Ok(buf), cap;
  }
}
