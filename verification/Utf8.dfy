/** Strings as the program indexes them: a sequence of characters addressed by byte offsets. */
module Utf8 {
  import Seqs

  /** The number of bytes a character takes in UTF-8. */
  function CharLen(c: char): (n: nat)
    ensures 1 <= n <= 4
  {
    if c as int < 0x80 then 1
    else if c as int < 0x800 then 2
    else if c as int < 0x1_0000 then 3
    else 4
  }

  /** The length of a string in bytes. */
  function Len(s: string): nat {
    if s == [] then 0 else Len(s[..|s| - 1]) + CharLen(s[|s| - 1])
  }

  /** The byte offset of the k-th character, or of the end of the string. */
  function Off(s: string, k: nat): nat
    requires k <= |s|
  {
    Len(s[..k])
  }

  /** Byte offset b falls between two characters or at either end. */
  ghost predicate IsBoundary(s: string, b: nat) {
    exists k: nat :: k <= |s| && Off(s, k) == b
  }

  /** The number of characters that lie wholly before byte b. */
  function Index(s: string, b: nat): (k: nat)
    ensures k <= |s|
  {
    IndexFrom(s, b, 0)
  }

  function IndexFrom(s: string, b: nat, from: nat): (k: nat)
    requires from <= |s|
    ensures k <= |s|
    decreases |s| - from
  {
    if from == |s| || b < CharLen(s[from]) then from else IndexFrom(s, b - CharLen(s[from]), from + 1)
  }

  /** The index of byte b is the last character to start at or before it. */
  lemma IndexSpec(s: string, b: nat)
    ensures Off(s, Index(s, b)) <= b
    ensures Index(s, b) < |s| ==> b < Off(s, Index(s, b) + 1)
  {
    IndexFromSpec(s, b, 0);
  }

  lemma {:induction false} IndexFromSpec(s: string, b: nat, from: nat)
    requires from <= |s|
    ensures var k := IndexFrom(s, b, from);
      Off(s, k) <= b + Off(s, from) && (k < |s| ==> b + Off(s, from) < Off(s, k + 1))
    decreases |s| - from
  {
    if from < |s| {
      OffNext(s, from);
      if CharLen(s[from]) <= b {
        IndexFromSpec(s, b - CharLen(s[from]), from + 1);
      }
    }
  }

  lemma {:induction false} LenConcat(a: string, b: string)
    ensures Len(a + b) == Len(a) + Len(b)
  {
    if b == [] {
      assert a + b == a;
    } else {
      LenConcat(a, b[..|b| - 1]);
      Seqs.ConcatInit(a, b);
    }
  }

  lemma OffNext(s: string, k: nat)
    requires k < |s|
    ensures Off(s, k + 1) == Off(s, k) + CharLen(s[k])
  {
    assert s[..k + 1][..k] == s[..k];
  }

  lemma OffEnds(s: string)
    ensures Off(s, 0) == 0 && Off(s, |s|) == Len(s)
  {
    assert s[..|s|] == s;
  }

  /** Offsets grow strictly from one character to the next. */
  lemma {:induction false} OffMonotone(s: string, j: nat, k: nat)
    requires j <= k <= |s|
    ensures Off(s, j) <= Off(s, k)
    ensures j < k ==> Off(s, j) < Off(s, k)
    decreases k - j
  {
    if j < k {
      OffMonotone(s, j, k - 1);
      OffNext(s, k - 1);
    }
  }

  lemma IndexUnique(s: string, b: nat, k: nat)
    requires k <= |s| && Off(s, k) <= b && (k < |s| ==> b < Off(s, k + 1))
    ensures Index(s, b) == k
  {
    var i := Index(s, b);
    IndexSpec(s, b);
    if i < k {
      OffMonotone(s, i + 1, k);
    } else if k < i {
      OffMonotone(s, k + 1, i);
    }
  }

  lemma IndexOff(s: string, k: nat)
    requires k <= |s|
    ensures Index(s, Off(s, k)) == k
  {
    var i := Index(s, Off(s, k));
    IndexSpec(s, Off(s, k));
    if i < k {
      OffMonotone(s, i + 1, k);
    } else if k < i {
      OffMonotone(s, k, i);
    }
  }

  lemma BoundaryAt(s: string, k: nat)
    requires k <= |s|
    ensures IsBoundary(s, Off(s, k)) && Index(s, Off(s, k)) == k
  {
    IndexOff(s, k);
  }

  lemma BoundaryIndex(s: string, b: nat)
    requires IsBoundary(s, b)
    ensures Off(s, Index(s, b)) == b
    ensures b <= Len(s)
    ensures Index(s, b) < |s| <==> b < Len(s)
  {
    var k: nat :| k <= |s| && Off(s, k) == b;
    IndexOff(s, k);
    OffMonotone(s, k, |s|);
    OffEnds(s);
  }

  /** A boundary is exactly an offset that Index loses nothing of. */
  lemma BoundaryIff(s: string, b: nat)
    ensures IsBoundary(s, b) <==> Off(s, Index(s, b)) == b
  {
    if IsBoundary(s, b) {
      BoundaryIndex(s, b);
    }
  }

  /** The offset of a position in the second part of a concatenation. */
  lemma OffConcat(a: string, b: string, k: nat)
    requires k <= |b|
    ensures Off(a + b, |a| + k) == Len(a) + Off(b, k)
  {
    assert (a + b)[..|a| + k] == a + b[..k];
    LenConcat(a, b[..k]);
  }

  lemma {:induction false} LenBound(s: string)
    ensures |s| <= Len(s) <= 4 * |s|
  {
    if s != [] {
      LenBound(s[..|s| - 1]);
    }
  }
}
