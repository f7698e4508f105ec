/**
 * pprof/profile_test.go: `concat(n)` and `builderConcat(n)` join
 * `randString(0), randString(1), ..., randString(n-1)`, once with `+=` on a
 * string and once with a `strings.Builder`. `randString` is the same
 * function as in datastruct/string_test.go and is modelled there.
 */
module Profile {
  import opened Go
  import StringConcat

  /** `0 + 1 + ... + (n-1)`: the number of letters, and of random draws, in
      the first `n` pieces. */
  function Tri(n: nat): (total: nat) {
    if n == 0 then 0 else Tri(n - 1) + (n - 1)
  }

  lemma {:induction false} TriClosedForm(n: nat)
    ensures 2 * Tri(n) == n * (n - 1)
  {
    if n > 0 {
      TriClosedForm(n - 1);
      assert (n - 1) * (n - 2) + 2 * (n - 1) == n * (n - 1);
    }
  }

  /** The first `n` pieces, piece `i` being `randString(i)` made from the
      draws that follow those of the earlier pieces. */
  function Pieces(n: nat, draws: nat -> StringConcat.LetterIndex, start: nat): (r: seq<byte>)
    ensures |r| == Tri(n)
    ensures forall k :: 0 <= k < |r| ==> StringConcat.IsLetter(r[k])
  {
    if n == 0 then []
    else Pieces(n - 1, draws, start) + StringConcat.RandLetters(n - 1, draws, start + Tri(n - 1))
  }

  /** Piece `i` sits at positions `Tri(i) .. Tri(i+1)` of every longer
      result, so later pieces never disturb earlier ones. */
  lemma {:induction false} PieceAt(n: nat, i: nat, draws: nat -> StringConcat.LetterIndex, start: nat)
    requires i < n
    ensures Tri(i + 1) <= Tri(n)
    ensures Pieces(n, draws, start)[Tri(i)..Tri(i + 1)] == StringConcat.RandLetters(i, draws, start + Tri(i))
  {
    if i < n - 1 {
      PieceAt(n - 1, i, draws, start);
      assert Pieces(n, draws, start)[..Tri(n - 1)] == Pieces(n - 1, draws, start);
    }
  }

  /** `concat`: `a += randString(i)` for `i` from 0 to `n-1`. `used` is the
      number of draws taken from the stream. */
  method Concat(n: int, draws: nat -> StringConcat.LetterIndex, start: nat) returns (a: seq<byte>, used: nat)
    ensures a == Pieces(StringConcat.Count(n), draws, start)
    ensures used == Tri(StringConcat.Count(n)) == |a|
  {
    a, used := "", 0;
    for i := 0 to StringConcat.Count(n)
      invariant a == Pieces(i, draws, start) && used == Tri(i)
    {
      var piece := StringConcat.RandString(i, draws, start + used);
      a := a + piece.value;
      used := used + i;
    }
  }

  /** `builderConcat`: `s.WriteString(randString(i))` on a `strings.Builder`
      that starts empty, for `i` from 0 to `n-1`. */
  method BuilderConcat(n: int, draws: nat -> StringConcat.LetterIndex, start: nat) returns (s: seq<byte>, used: nat)
    ensures s == Pieces(StringConcat.Count(n), draws, start)
    ensures used == Tri(StringConcat.Count(n)) == |s|
  {
    var b := StringConcat.Builder("", 0);
    used := 0;
    for i := 0 to StringConcat.Count(n)
      invariant b.Valid() && b.buf == Pieces(i, draws, start) && used == Tri(i)
    {
      var piece := StringConcat.RandString(i, draws, start + used);
      assert Pieces(i + 1, draws, start) == b.buf + piece.value;
      b := StringConcat.WriteString(b, piece.value);
      used := used + i;
    }
    s := b.buf;
  }

  /** The length both functions promise: `n(n-1)/2` letters. */
  lemma ResultLength(n: nat, draws: nat -> StringConcat.LetterIndex, start: nat)
    ensures 2 * |Pieces(n, draws, start)| == n * (n - 1)
  {
    TriClosedForm(n);
  }
}
