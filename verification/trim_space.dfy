/**
 * `TrimSpace` from highprog/slices_test.go. It drops every space byte from a
 * byte slice, writing the kept bytes into the front of the slice's own
 * backing array (`b := s[:0]` has length 0 and the capacity of `s`), so the
 * caller's array changes too.
 */
module TrimSpace {
  import opened Go

  /** The meaning of `TrimSpace`: every byte that is not a space, in order. */
  function RemoveSpaces(s: seq<byte>): (r: seq<byte>)
    ensures |r| <= |s|
    ensures forall k :: 0 <= k < |r| ==> r[k] != ' '
  {
    if |s| == 0 then [] else (if s[0] == ' ' then [] else [s[0]]) + RemoveSpaces(s[1..])
  }

  predicate NoSpaces(s: seq<byte>) {
    forall k :: 0 <= k < |s| ==> s[k] != ' '
  }

  predicate AllSpaces(s: seq<byte>) {
    forall k :: 0 <= k < |s| ==> s[k] == ' '
  }

  /** Removing spaces works piece by piece. */
  lemma {:induction false} RemoveSpacesAppend(a: seq<byte>, b: seq<byte>)
    ensures RemoveSpaces(a + b) == RemoveSpaces(a) + RemoveSpaces(b)
  {
    if |a| == 0 {
      assert a + b == b;
    } else {
      assert (a + b)[1..] == a[1..] + b;
      RemoveSpacesAppend(a[1..], b);
    }
  }

  /**
   * The Go loop. `w` is `len(b)`: every kept byte is appended at `w`, which
   * never passes the read position `i`, so the write lands in the shared
   * array without growing it and never overwrites a byte still to be read.
   * `backing` is the contents of the array `s` and `b` share afterwards.
   */
  method TrimSpace(s: seq<byte>) returns (b: seq<byte>, backing: seq<byte>)
    ensures b == RemoveSpaces(s)
    ensures |backing| == |s| && backing[..|b|] == b && backing[|b|..] == s[|b|..]
  {
    backing := s;
    var w := 0;
    for i := 0 to |s|
      invariant w <= i && |backing| == |s|
      invariant backing[..w] == RemoveSpaces(s[..i])
      invariant backing[w..] == s[w..]
    {
      var v := backing[i];
      assert v == s[i];
      RemoveSpacesAppend(s[..i], [v]);
      assert s[..i + 1] == s[..i] + [v];
      if v != ' ' {
        backing := backing[w := v];
        w := w + 1;
      }
    }
    assert s[..|s|] == s;
    b := backing[..w];
  }

  /** Exactly the space bytes go: every other byte keeps its number of
      occurrences, so the result is `len(s)` minus the number of spaces long. */
  lemma {:induction false} RemoveSpacesContents(s: seq<byte>)
    ensures multiset(RemoveSpaces(s)) == multiset(s)[' ' := 0]
  {
    if |s| > 0 {
      var head := if s[0] == ' ' then [] else [s[0]];
      assert RemoveSpaces(s) == head + RemoveSpaces(s[1..]);
      RemoveSpacesContents(s[1..]);
      assert s == [s[0]] + s[1..];
      assert multiset(s) == multiset{s[0]} + multiset(s[1..]);
      assert multiset(RemoveSpaces(s)) == multiset(head) + multiset(s[1..])[' ' := 0];
    }
  }

  /** A slice without spaces comes back unchanged. */
  lemma {:induction false} RemoveSpacesNoSpaces(s: seq<byte>)
    requires NoSpaces(s)
    ensures RemoveSpaces(s) == s
  {
    if |s| > 0 {
      RemoveSpacesNoSpaces(s[1..]);
    }
  }

  /** A run of spaces disappears entirely. */
  lemma {:induction false} RemoveSpacesAllSpaces(s: seq<byte>)
    requires AllSpaces(s)
    ensures RemoveSpaces(s) == []
  {
    if |s| > 0 {
      RemoveSpacesAllSpaces(s[1..]);
    }
  }

  /** Trimming twice is the same as trimming once. */
  lemma RemoveSpacesIdempotent(s: seq<byte>)
    ensures RemoveSpaces(RemoveSpaces(s)) == RemoveSpaces(s)
  {
    RemoveSpacesNoSpaces(RemoveSpaces(s));
  }

  lemma WordThenGap(w: seq<byte>, g: seq<byte>, rest: seq<byte>)
    requires RemoveSpaces(w) == w && RemoveSpaces(g) == []
    ensures RemoveSpaces(w + g + rest) == w + RemoveSpaces(rest)
  {
    RemoveSpacesAppend(w, g);
    RemoveSpacesAppend(w + g, rest);
    assert w + [] == w;
  }

  /** The example of `TestEmpSlice`: "hello world   ,  sungn!" becomes
      "helloworld,sungn!". */
  lemma ExampleEmpSlice(s: seq<byte>)
    requires s == "hello world   ,  sungn!"
    ensures RemoveSpaces(s) == "helloworld,sungn!"
  {
    ExampleShape(s);
    ExamplePieces(s);
    ExampleWords(s);
  }

  lemma ExampleShape(s: seq<byte>)
    requires s == "hello world   ,  sungn!"
    ensures |s| == 23
    ensures NoSpaces(s[..5]) && AllSpaces(s[5..6]) && NoSpaces(s[6..11]) && AllSpaces(s[11..14])
    ensures NoSpaces(s[14..15]) && AllSpaces(s[15..17]) && NoSpaces(s[17..])
  {
    assert s[..5] == "hello" && s[5..6] == " " && s[6..11] == "world" && s[11..14] == "   ";
    assert s[14..15] == "," && s[15..17] == "  " && s[17..] == "sungn!";
  }

  lemma ExampleWords(s: seq<byte>)
    requires s == "hello world   ,  sungn!"
    ensures s[..5] + (s[6..11] + (s[14..15] + s[17..])) == "helloworld,sungn!"
  {
    assert s[..5] == "hello" && s[6..11] == "world" && s[14..15] == "," && s[17..] == "sungn!";
  }

  /** Words separated by runs of spaces keep only the words. */
  lemma ExamplePieces(s: seq<byte>)
    requires |s| == 23
    requires NoSpaces(s[..5]) && AllSpaces(s[5..6]) && NoSpaces(s[6..11]) && AllSpaces(s[11..14])
    requires NoSpaces(s[14..15]) && AllSpaces(s[15..17]) && NoSpaces(s[17..])
    ensures RemoveSpaces(s) == s[..5] + (s[6..11] + (s[14..15] + s[17..]))
  {
    var p1, p2, p3, p4, p5, p6, p7 := s[..5], s[5..6], s[6..11], s[11..14], s[14..15], s[15..17], s[17..];
    RemoveSpacesNoSpaces(p1);
    RemoveSpacesAllSpaces(p2);
    RemoveSpacesNoSpaces(p3);
    RemoveSpacesAllSpaces(p4);
    RemoveSpacesNoSpaces(p5);
    RemoveSpacesAllSpaces(p6);
    RemoveSpacesNoSpaces(p7);
    assert s == p1 + p2 + (p3 + p4 + (p5 + p6 + p7));
    WordThenGap(p5, p6, p7);
    WordThenGap(p3, p4, p5 + p6 + p7);
    WordThenGap(p1, p2, p3 + p4 + (p5 + p6 + p7));
  }
}
