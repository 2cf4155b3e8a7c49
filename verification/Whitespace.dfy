/** Unicode white space and trimming. */
module Whitespace {
  import Seqs

  predicate IsWhitespace(c: char) {
    var n := c as int;
    || 0x09 <= n <= 0x0D || n == 0x20 || n == 0x85 || n == 0xA0 || n == 0x1680
    || 0x2000 <= n <= 0x200A || n == 0x2028 || n == 0x2029 || n == 0x202F || n == 0x205F || n == 0x3000
  }

  function TrimStart(s: string): string {
    if s != [] && IsWhitespace(s[0]) then TrimStart(s[1..]) else s
  }

  function TrimEnd(s: string): string {
    if s != [] && IsWhitespace(s[|s| - 1]) then TrimEnd(s[..|s| - 1]) else s
  }

  function Trim(s: string): string {
    TrimEnd(TrimStart(s))
  }

  /** No white space on either side. */
  predicate Trimmed(s: string) {
    s != [] ==> !IsWhitespace(s[0]) && !IsWhitespace(s[|s| - 1])
  }

  lemma {:induction false} TrimEndKeepsStart(s: string)
    ensures TrimEnd(s) <= s
    ensures TrimEnd(s) != [] ==> !IsWhitespace(TrimEnd(s)[|TrimEnd(s)| - 1])
  {
    if s != [] && IsWhitespace(s[|s| - 1]) {
      TrimEndKeepsStart(s[..|s| - 1]);
    }
  }

  /** Trimming the end stops at the latest at a character that is no white space. */
  lemma {:induction false} TrimEndLeaves(s: string, k: nat)
    requires 0 < k <= |s| && !IsWhitespace(s[k - 1])
    ensures |TrimEnd(s)| >= k && TrimEnd(s) <= s
  {
    if IsWhitespace(s[|s| - 1]) {
      TrimEndLeaves(s[..|s| - 1], k);
    }
  }

  /** What stands behind a character that is no white space is trimmed on its own. */
  lemma {:induction false} TrimEndConcat(a: string, b: string)
    requires a != [] && !IsWhitespace(a[|a| - 1])
    ensures TrimEnd(a + b) == a + TrimEnd(b)
  {
    if b == [] {
      assert a + b == a;
    } else {
      Seqs.ConcatInit(a, b);
      if IsWhitespace(b[|b| - 1]) {
        TrimEndConcat(a, b[..|b| - 1]);
      }
    }
  }

  lemma {:induction false} TrimStartConcat(a: string, b: string)
    ensures TrimStart(a + b) == if TrimStart(a) == [] then TrimStart(b) else TrimStart(a) + b
  {
    if a == [] {
      assert a + b == b;
    } else {
      assert (a + b)[0] == a[0] && (a + b)[1..] == a[1..] + b;
      if IsWhitespace(a[0]) {
        TrimStartConcat(a[1..], b);
      }
    }
  }

  lemma {:induction false} TrimStartKeepsEnd(s: string)
    ensures |TrimStart(s)| <= |s| && TrimStart(s) == s[|s| - |TrimStart(s)|..]
    ensures TrimStart(s) != [] ==> !IsWhitespace(TrimStart(s)[0])
  {
    if s != [] && IsWhitespace(s[0]) {
      TrimStartKeepsEnd(s[1..]);
    }
  }

  /** Trimming leaves a string alone exactly when it has nothing to trim. */
  lemma TrimIff(s: string)
    ensures Trim(s) == s <==> Trimmed(s)
    ensures Trimmed(Trim(s))
  {
    TrimStartKeepsEnd(s);
    TrimEndKeepsStart(TrimStart(s));
  }

  predicate AllSpace(s: string) {
    forall c :: c in s ==> IsWhitespace(c)
  }

  lemma {:induction false} TrimSpace(s: string)
    requires AllSpace(s)
    ensures TrimStart(s) == ""
  {
    if s != "" {
      TrimSpace(s[1..]);
    }
  }

  lemma {:induction false} TrimStartAround(lead: string, x: string)
    requires AllSpace(lead) && x != "" && !IsWhitespace(x[0])
    ensures TrimStart(lead + x) == x
  {
    if lead == "" {
      assert lead + x == x;
    } else {
      assert (lead + x)[1..] == lead[1..] + x;
      TrimStartAround(lead[1..], x);
    }
  }

  lemma {:induction false} TrimEndAround(x: string, trail: string)
    requires AllSpace(trail) && x != "" && !IsWhitespace(x[|x| - 1])
    ensures TrimEnd(x + trail) == x
  {
    if trail == "" {
      assert x + trail == x;
    } else {
      Seqs.ConcatInit(x, trail);
      TrimEndAround(x, trail[..|trail| - 1]);
    }
  }

  /** Trimming takes off the white space around a text. */
  lemma TrimAround(lead: string, x: string, trail: string)
    requires AllSpace(lead) && AllSpace(trail) && Trimmed(x)
    ensures Trim(lead + x + trail) == x
  {
    assert lead + x + trail == lead + (x + trail);
    if x == "" {
      TrimSpace(lead + trail);
      assert lead + x + trail == lead + trail;
    } else {
      TrimStartAround(lead, x + trail);
      TrimEndAround(x, trail);
    }
  }
}
