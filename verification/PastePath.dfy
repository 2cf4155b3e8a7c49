/** Dropped paths: decoding what terminals make of a file path in a paste payload. */
module PastePath {
  import opened Pastes
  import opened Whitespace
  import Utf8
  import Seqs

  type Byte = b: int | 0 <= b < 256

  // UTF-8 ----------------------------------------------------------------------------------------

  function EncodeChar(c: char): (r: seq<Byte>)
    ensures |r| == Utf8.CharLen(c)
  {
    var n := c as int;
    var n1 := n / 0x40;
    var n2 := n1 / 0x40;
    var n3 := n2 / 0x40;
    if n < 0x80 then [n]
    else if n < 0x800 then [0xC0 + n1, 0x80 + n % 0x40]
    else if n < 0x1_0000 then [0xE0 + n2, 0x80 + n1 % 0x40, 0x80 + n % 0x40]
    else [0xF0 + n3, 0x80 + n2 % 0x40, 0x80 + n1 % 0x40, 0x80 + n % 0x40]
  }

  function Encode(s: string): seq<Byte> {
    if s == [] then [] else EncodeChar(s[0]) + Encode(s[1..])
  }

  lemma SameLength(c: char, d: char)
    requires EncodeChar(c)[0] == EncodeChar(d)[0]
    ensures |EncodeChar(c)| == |EncodeChar(d)|
  {}

  lemma EncodeCharInjective(c: char, d: char)
    requires EncodeChar(c) == EncodeChar(d)
    ensures c == d
  {
    var a, b := EncodeChar(c), EncodeChar(d);
    assert a[0] == b[0] && a[|a| - 1] == b[|b| - 1];
    if |a| == 3 {
      assert a[1] == b[1];
    } else if |a| == 4 {
      assert a[1] == b[1] && a[2] == b[2];
    }
  }

  /** A character is known from its bytes, whatever follows them. */
  lemma EncodeCharPrefix(c: char, x: seq<Byte>, d: char, y: seq<Byte>)
    requires EncodeChar(c) + x == EncodeChar(d) + y
    ensures c == d && x == y
  {
    var a, b := EncodeChar(c), EncodeChar(d);
    assert (a + x)[0] == a[0] && (b + y)[0] == b[0];
    SameLength(c, d);
    Seqs.TakeConcat(a, x);
    Seqs.TakeConcat(b, y);
    EncodeCharInjective(c, d);
  }

  lemma {:induction false} EncodeInjective(s: string, t: string)
    requires Encode(s) == Encode(t)
    ensures s == t
  {
    if s != [] && t != [] {
      EncodeCharPrefix(s[0], Encode(s[1..]), t[0], Encode(t[1..]));
      EncodeInjective(s[1..], t[1..]);
      assert s == [s[0]] + s[1..] && t == [t[0]] + t[1..];
    }
  }

  /** The bits of each byte above its mark, six to a byte. */
  function Bits(bytes: seq<Byte>, mark: nat): int {
    if bytes == [] then 0 else Bits(bytes[..|bytes| - 1], mark) * 0x40 + (bytes[|bytes| - 1] as int - mark)
  }

  /** The bytes of a character as section 3 of RFC 3629 has them: as few as hold it, the first one
      says how many, and their low bits put together are its number. */
  lemma EncodeCharBits(c: char)
    ensures var e, n := EncodeChar(c), c as int;
      && (|e| == 1 ==> n < 0x80 && e[0] == n)
      && (|e| == 2 ==> n >= 0x80 && 0xC0 <= e[0] < 0xE0 && n == Bits(e[..1], 0xC0) * 0x40 + Bits(e[1..], 0x80))
      && (|e| == 3 ==> n >= 0x800 && 0xE0 <= e[0] < 0xF0 && n == Bits(e[..1], 0xE0) * 0x1000 + Bits(e[1..], 0x80))
      && (|e| == 4 ==> n >= 0x1_0000 && 0xF0 <= e[0] < 0xF8
                       && n == Bits(e[..1], 0xF0) * 0x4_0000 + Bits(e[1..], 0x80))
      && 1 <= |e| <= 4 && forall i :: 0 < i < |e| ==> 0x80 <= e[i] < 0xC0
  {
    var e := EncodeChar(c);
    assert e[..1] == [e[0]] && [e[0]][..0] == [];
    if |e| == 2 {
      BitsOne(e[1]);
      assert e[1..] == [e[1]];
    } else if |e| == 3 {
      BitsOne(e[1]);
      assert e[1..][..1] == [e[1]];
    } else if |e| == 4 {
      BitsOne(e[1]);
      assert e[1..][..1] == [e[1]] && e[1..][..2] == [e[1], e[2]] && [e[1], e[2]][..1] == [e[1]];
    }
  }

  lemma BitsOne(b: Byte)
    ensures Bits([b], 0x80) == b as int - 0x80
  {
    assert [b][..0] == [];
  }

  /** `String::from_utf8`: the text with these bytes, if there is one. */
  ghost function FromUtf8(bytes: seq<Byte>): (s: Option<string>)
    ensures s.Some? ==> Encode(s.value) == bytes
    ensures s.None? ==> forall t :: Encode(t) != bytes
  {
    if exists t :: Encode(t) == bytes then
      var t :| Encode(t) == bytes;
      Some(t)
    else None
  }

  lemma FromUtf8Encode(s: string)
    ensures FromUtf8(Encode(s)) == Some(s)
  {
    var t := FromUtf8(Encode(s));
    assert t.Some?;
    EncodeInjective(t.value, s);
  }

  // Percent encoding ------------------------------------------------------------------------------

  function HexValue(b: Byte): Option<Byte> {
    if 0x30 <= b <= 0x39 then Some(b - 0x30)
    else if 0x61 <= b <= 0x66 then Some(b - 0x61 + 10)
    else if 0x41 <= b <= 0x46 then Some(b - 0x41 + 10)
    else None
  }

  /** `%` and two hex digits at the front. */
  predicate Triple(bytes: seq<Byte>) {
    |bytes| > 2 && bytes[0] == 0x25 && HexValue(bytes[1]).Some? && HexValue(bytes[2]).Some?
  }

  function TripleValue(bytes: seq<Byte>): Byte
    requires Triple(bytes)
  {
    var hi, lo := HexValue(bytes[1]).value, HexValue(bytes[2]).value;
    assert hi < 16 && lo < 16;
    hi * 16 + lo
  }

  function PercentDecode(bytes: seq<Byte>): seq<Byte> {
    if bytes == [] then []
    else if Triple(bytes) then [TripleValue(bytes)] + PercentDecode(bytes[3..])
    else [bytes[0]] + PercentDecode(bytes[1..])
  }

  /** The loop of `percent_decode`. */
  method ComputePercentDecode(bytes: seq<Byte>) returns (out: seq<Byte>)
    ensures out == PercentDecode(bytes)
  {
    out := [];
    var i := 0;
    while i < |bytes|
      invariant 0 <= i <= |bytes|
      invariant out + PercentDecode(bytes[i..]) == PercentDecode(bytes)
    {
      if bytes[i] == 0x25 && i + 2 < |bytes| && HexValue(bytes[i + 1]).Some? && HexValue(bytes[i + 2]).Some? {
        var value := TripleValue(bytes[i..]);
        Seqs.Assoc(out, [value], PercentDecode(bytes[i..][3..]));
        assert bytes[i..][3..] == bytes[i + 3..];
        out := out + [value];
        i := i + 3;
        continue;
      }
      Seqs.Assoc(out, [bytes[i]], PercentDecode(bytes[i..][1..]));
      assert bytes[i..][1..] == bytes[i + 1..];
      out := out + [bytes[i]];
      i := i + 1;
    }
    assert out + [] == out;
  }

  function HexDigit(d: nat): Byte
    requires d < 16
  {
    if d < 10 then 0x30 + d else 0x41 + d - 10
  }

  /** Percent encoding as section 2.1 of RFC 3986 has it, of every byte not in `keep`. */
  function PercentEncode(bytes: seq<Byte>, keep: set<Byte>): seq<Byte> {
    if bytes == [] then [] else EncodeByte(bytes[0], keep) + PercentEncode(bytes[1..], keep)
  }

  function EncodeByte(b: Byte, keep: set<Byte>): seq<Byte> {
    if b in keep then [b] else [0x25, HexDigit(b / 16), HexDigit(b % 16)]
  }

  /** A choice of bytes to leave as they are: printable ASCII with the slash, without the
      percent sign and the backslash; RFC 3986's unreserved characters and `/` are one. */
  ghost predicate Keepable(keep: set<Byte>) {
    && 0x2F in keep && 0x25 !in keep && 0x5C !in keep
    && forall b :: b in keep ==> 0x21 <= b <= 0x7E
  }

  lemma HexDigitValue(d: nat)
    requires d < 16
    ensures HexValue(HexDigit(d)) == Some(d)
  {}

  /** Percent encoding reads back. */
  lemma {:induction false} PercentRoundTrip(bytes: seq<Byte>, keep: set<Byte>)
    requires 0x25 !in keep
    ensures PercentDecode(PercentEncode(bytes, keep)) == bytes
  {
    if bytes != [] {
      var b, rest := bytes[0], PercentEncode(bytes[1..], keep);
      PercentRoundTrip(bytes[1..], keep);
      HexDigitValue(b / 16);
      HexDigitValue(b % 16);
      var e := EncodeByte(b, keep) + rest;
      if b in keep {
        assert e[1..] == rest;
      } else {
        assert e[1] == HexDigit(b / 16) && e[2] == HexDigit(b % 16) && e[3..] == rest;
      }
      assert bytes == [b] + bytes[1..];
    }
  }

  /** A triple in either case stands for its value. */
  lemma TripleDecodes(b: Byte, hi: Byte, lo: Byte, rest: seq<Byte>)
    requires hi == HexDigit(b / 16) || (b / 16 >= 10 && hi == HexDigit(b / 16) + 0x20)
    requires lo == HexDigit(b % 16) || (b % 16 >= 10 && lo == HexDigit(b % 16) + 0x20)
    ensures PercentDecode([0x25, hi, lo] + rest) == [b] + PercentDecode(rest)
  {
    var e := [0x25, hi, lo] + rest;
    assert e[1] == hi && e[2] == lo && e[3..] == rest;
  }

  // Classification ---------------------------------------------------------------------------------

  datatype Payload = Text | Path(path: string)

  const SHELL_ESCAPED := "\\'\"()[]{}!$&*;<>?|#~%`"

  /** A backslash at i that escapes white space or a backslash. */
  predicate EscapePairAt(s: string, i: nat) {
    i + 1 < |s| && s[i] == '\\' && (IsWhitespace(s[i + 1]) || s[i + 1] == '\\')
  }

  predicate HasEscapePair(s: string) {
    exists i: nat :: i < |s| && EscapePairAt(s, i)
  }

  /** `has_escape_pair`. */
  method ComputeHasEscapePair(token: string) returns (has: bool)
    ensures has == HasEscapePair(token)
  {
    for i := 0 to |token|
      invariant forall k: nat :: k < i ==> !EscapePairAt(token, k)
    {
      if token[i] == '\\' && i + 1 < |token| && (IsWhitespace(token[i + 1]) || token[i + 1] == '\\') {
        assert EscapePairAt(token, i);
        return true;
      }
    }
    return false;
  }

  predicate Escaped(c: char) {
    IsWhitespace(c) || c in SHELL_ESCAPED
  }

  function Unescape(s: string): string {
    if s == [] then []
    else if |s| > 1 && s[0] == '\\' && Escaped(s[1]) then [s[1]] + Unescape(s[2..])
    else [s[0]] + Unescape(s[1..])
  }

  /** `unescape_backslashes`. */
  method ComputeUnescape(token: string) returns (out: string)
    ensures out == Unescape(token)
  {
    out := [];
    var i := 0;
    while i < |token|
      invariant 0 <= i <= |token|
      invariant out + Unescape(token[i..]) == Unescape(token)
    {
      if token[i] == '\\' && i + 1 < |token| && Escaped(token[i + 1]) {
        Seqs.Assoc(out, [token[i + 1]], Unescape(token[i..][2..]));
        assert token[i..][2..] == token[i + 2..];
        out := out + [token[i + 1]];
        i := i + 2;
        continue;
      }
      Seqs.Assoc(out, [token[i]], Unescape(token[i..][1..]));
      assert token[i..][1..] == token[i + 1..];
      out := out + [token[i]];
      i := i + 1;
    }
    assert out + [] == out;
  }

  predicate ContainsAt(s: string, part: string, i: nat) {
    i + |part| <= |s| && s[i..i + |part|] == part
  }

  predicate Contains(s: string, part: string) {
    exists i: nat :: i <= |s| && ContainsAt(s, part, i)
  }

  function StripQuotes(token: string): string {
    if |token| >= 2 && (token[0] == '\'' || token[0] == '"') && token[|token| - 1] == token[0]
    then token[1..|token| - 1] else token
  }

  /** The path part of a token, unless it names another scheme or another host. */
  function StripScheme(token: string): Option<string> {
    if "file://" <= token then
      var rest := token[7..];
      var rest := if "localhost" <= rest then rest[9..] else rest;
      if "/" <= rest then Some(rest) else None
    else if Contains(token, "://") then None
    else Some(token)
  }

  ghost function Decode(token: string): Option<string> {
    match StripScheme(StripQuotes(token))
    case None => None
    case Some(path) =>
      var plain := if HasEscapePair(path) then Unescape(path) else path;
      var decoded := FromUtf8(PercentDecode(Encode(plain)));
      if decoded.Some? && decoded.value != "" then decoded else None
  }

  predicate IsAlphabetic(c: char) {
    'a' <= c <= 'z' || 'A' <= c <= 'Z'
  }

  predicate IsAlphanumeric(c: char) {
    IsAlphabetic(c) || '0' <= c <= '9'
  }

  /** A final dot and one to eight letters or digits after it. */
  predicate ExtensionAt(path: string, i: nat)
    requires i < |path|
  {
    path[i] == '.' && 1 <= |path| - i - 1 <= 8 && forall k :: i < k < |path| ==> IsAlphanumeric(path[k])
  }

  predicate HasExtension(path: string) {
    !Contains(path, "://") && exists i: nat :: i < |path| && ExtensionAt(path, i)
  }

  predicate LooksLikePath(path: string) {
    if '\n' in path || '\r' in path then false
    else if "/" <= path || "~/" <= path || "./" <= path || "../" <= path then path[|path| - 1] != '/'
    else if |path| >= 3 && IsAlphabetic(path[0]) && path[1] == ':' && (path[2] == '\\' || path[2] == '/') then true
    else if "\\\\" <= path then true
    else ('/' in path || '\\' in path) && HasExtension(path)
  }

  /** `classify`. */
  ghost function Classify(payload: string): Payload {
    var trimmed := Trim(payload);
    if trimmed == "" || '\n' in trimmed || '\r' in trimmed then Text
    else
      match Decode(trimmed)
      case Some(path) => if LooksLikePath(path) then Path(path) else Text
      case None => Text
  }

  // A file URI reads back ----------------------------------------------------------------------------

  function Ascii(bytes: seq<Byte>): (s: string)
    requires forall i :: 0 <= i < |bytes| ==> bytes[i] < 0x80
    ensures |s| == |bytes| && forall i :: 0 <= i < |s| ==> s[i] as int == bytes[i]
  {
    seq(|bytes|, i requires 0 <= i < |bytes| => bytes[i] as char)
  }

  lemma {:induction false} EncodeAscii(s: string, bytes: seq<Byte>)
    requires |s| == |bytes| && forall i :: 0 <= i < |s| ==> s[i] as int == bytes[i] < 0x80
    ensures Encode(s) == bytes
  {
    if s != [] {
      EncodeAscii(s[1..], bytes[1..]);
      assert bytes == [bytes[0]] + bytes[1..];
    }
  }

  /** Percent-encoded bytes are printable ASCII without a backslash. */
  lemma {:induction false} EncodedPrintable(bytes: seq<Byte>, keep: set<Byte>)
    requires Keepable(keep)
    ensures forall b :: b in PercentEncode(bytes, keep) ==> 0x21 <= b <= 0x7E && b != 0x5C
    ensures bytes != [] && bytes[0] == 0x2F ==>
      PercentEncode(bytes, keep) != [] && PercentEncode(bytes, keep)[0] == 0x2F
  {
    if bytes != [] {
      EncodedPrintable(bytes[1..], keep);
    }
  }

  /** The percent-encoded text of a path. */
  ghost function Encoded(path: string, keep: set<Byte>): string
    requires Keepable(keep)
  {
    EncodedPrintable(Encode(path), keep);
    var bytes := PercentEncode(Encode(path), keep);
    assert forall i :: 0 <= i < |bytes| ==> bytes[i] in bytes;
    Ascii(bytes)
  }

  /** The URI of an absolute path, as section 2 of RFC 8089 has it. */
  ghost function FileUri(path: string, keep: set<Byte>): string
    requires Keepable(keep)
  {
    "file://" + Encoded(path, keep)
  }

  predicate Absolute(path: string) {
    "/" <= path && '\n' !in path && '\r' !in path
  }

  lemma DecodedIs(plain: string, path: string)
    requires PercentDecode(Encode(plain)) == Encode(path)
    ensures FromUtf8(PercentDecode(Encode(plain))) == Some(path)
  {
    FromUtf8Encode(path);
  }

  /** Printable text after `file://` that starts with a slash is the path part as it is. */
  lemma PlainUri(enc: string)
    requires enc != [] && enc[0] == '/'
    requires forall i :: 0 <= i < |enc| ==> '!' <= enc[i] <= '~' && enc[i] != '\\'
    ensures var u := "file://" + enc;
      && Trim(u) == u && u != "" && '\n' !in u && '\r' !in u
      && StripScheme(StripQuotes(u)) == Some(enc) && !HasEscapePair(enc)
  {
    var u := "file://" + enc;
    TrimIff(u);
    assert u[0] == 'f' && u[|u| - 1] == enc[|enc| - 1];
    assert u[..7] == "file://" && u[7..] == enc;
    assert !("localhost" <= enc);
    assert "/" <= enc;
  }

  lemma EncodedText(path: string, keep: set<Byte>)
    requires Keepable(keep) && Absolute(path)
    ensures var enc := Encoded(path, keep);
      && enc != [] && enc[0] == '/'
      && (forall i :: 0 <= i < |enc| ==> '!' <= enc[i] <= '~' && enc[i] != '\\')
      && Encode(enc) == PercentEncode(Encode(path), keep)
  {
    var bytes, enc := PercentEncode(Encode(path), keep), Encoded(path, keep);
    EncodedPrintable(Encode(path), keep);
    assert path[0] == '/' && Encode(path)[0] == 0x2F;
    assert forall i :: 0 <= i < |bytes| ==> bytes[i] in bytes && enc[i] as int == bytes[i];
    EncodeAscii(enc, bytes);
  }

  lemma FileUriDecodes(path: string, keep: set<Byte>)
    requires Keepable(keep) && Absolute(path)
    ensures var u := FileUri(path, keep);
      Trim(u) == u && u != "" && '\n' !in u && '\r' !in u && Decode(u) == Some(path)
  {
    var enc := Encoded(path, keep);
    EncodedText(path, keep);
    PlainUri(enc);
    PercentRoundTrip(Encode(path), keep);
    DecodedIs(enc, path);
  }

  /** The percent-encoded file URI of an absolute one-line path is classified as that path,
      whatever printable bytes the terminal leaves unencoded, unless it names a directory
      by a trailing slash; then it stays text. */
  lemma FileUriRoundTrip(path: string, keep: set<Byte>)
    requires Keepable(keep) && Absolute(path)
    ensures Classify(FileUri(path, keep)) == if path[|path| - 1] != '/' then Path(path) else Text
  {
    FileUriDecodes(path, keep);
  }

  /** Of the printable ASCII characters a backslash escapes all but letters, digits and those that
      mean nothing to a shell. */
  lemma EscapedIff(c: char)
    requires '!' <= c <= '~'
    ensures Unescape(['\\', c]) == [c] <==> !IsAlphanumeric(c) && c !in "+,-./:=@^_"
  {
    assert ['\\', c][1..] == [c] && [c][1..] == [] && ['\\', c][2..] == [];
  }

  // The backslash-escaped form -------------------------------------------------------------------------

  function EscapeChar(c: char): string {
    if Escaped(c) then ['\\', c] else [c]
  }

  function ShellEscape(path: string): string {
    if path == [] then [] else EscapeChar(path[0]) + ShellEscape(path[1..])
  }

  lemma UnescapeOne(c: char, x: string)
    ensures Unescape(EscapeChar(c) + x) == [c] + Unescape(x)
  {
    var e := EscapeChar(c) + x;
    if Escaped(c) {
      assert e[2..] == x;
    } else {
      assert c != '\\' && e[1..] == x;
    }
  }

  /** An escaped text unescapes to itself, whatever follows it. */
  lemma {:induction false} UnescapeFront(path: string, x: string)
    ensures Unescape(ShellEscape(path) + x) == path + Unescape(x)
  {
    if path == [] {
      assert ShellEscape(path) + x == x && path + Unescape(x) == Unescape(x);
    } else {
      FirstApart(path, x, Unescape(x));
      UnescapeOne(path[0], ShellEscape(path[1..]) + x);
      UnescapeFront(path[1..], x);
    }
  }

  lemma FirstApart(path: string, x: string, y: string)
    requires path != []
    ensures ShellEscape(path) + x == EscapeChar(path[0]) + (ShellEscape(path[1..]) + x)
    ensures path + y == [path[0]] + (path[1..] + y)
  {
    Seqs.Assoc(EscapeChar(path[0]), ShellEscape(path[1..]), x);
    Seqs.Split(path, 1);
    Seqs.Assoc([path[0]], path[1..], y);
    assert path[..1] == [path[0]];
  }

  lemma UnescapeEscape(path: string)
    ensures Unescape(ShellEscape(path)) == path
  {
    UnescapeFront(path, []);
    assert ShellEscape(path) + [] == ShellEscape(path) && path + [] == path;
  }

  lemma {:induction false} EscapeConcat(a: string, b: string)
    ensures ShellEscape(a + b) == ShellEscape(a) + ShellEscape(b)
  {
    if a == [] {
      assert a + b == b;
    } else {
      EscapeConcat(a[1..], b);
      assert (a + b)[0] == a[0] && (a + b)[1..] == a[1..] + b;
      Seqs.Assoc(EscapeChar(a[0]), ShellEscape(a[1..]), ShellEscape(b));
    }
  }

  /** White space or a backslash anywhere: what makes an escape pair. */
  predicate HasGap(path: string) {
    exists i :: 0 <= i < |path| && (IsWhitespace(path[i]) || path[i] == '\\')
  }

  lemma EscapeOne(c: char)
    ensures ShellEscape([c]) == EscapeChar(c)
  {
    assert [c][1..] == [];
  }

  lemma {:induction false} GapMakesPair(path: string)
    requires HasGap(path)
    ensures HasEscapePair(ShellEscape(path))
  {
    var c, rest, e := path[0], ShellEscape(path[1..]), ShellEscape(path);
    if IsWhitespace(c) || c == '\\' {
      assert EscapePairAt(e, 0);
    } else {
      var i :| 0 <= i < |path| && (IsWhitespace(path[i]) || path[i] == '\\');
      assert path[1..][i - 1] == path[i];
      GapMakesPair(path[1..]);
      var k: nat :| k < |rest| && EscapePairAt(rest, k);
      var n := |EscapeChar(c)|;
      assert e[n + k] == rest[k] && e[n + k + 1] == rest[k + 1];
      assert EscapePairAt(e, n + k);
    }
  }

  /** Without a gap the escaped form has no pair, and what it escapes it marks. */
  lemma {:induction false} NoGapNoPair(path: string)
    requires !HasGap(path)
    ensures !HasEscapePair(ShellEscape(path))
    ensures ShellEscape(path) != path ==> '\\' in ShellEscape(path)
  {
    if path != [] {
      assert forall i :: 0 <= i < |path| - 1 ==> path[1..][i] == path[i + 1];
      NoGapNoPair(path[1..]);
      NoPairCons(path[0], ShellEscape(path[1..]));
      MarkedCons(path[0], path[1..], ShellEscape(path[1..]));
      assert path == [path[0]] + path[1..];
    }
  }

  lemma NoPairCons(c: char, rest: string)
    requires !IsWhitespace(c) && c != '\\' && !HasEscapePair(rest)
    ensures !HasEscapePair(EscapeChar(c) + rest)
  {
    var n, e := |EscapeChar(c)|, EscapeChar(c) + rest;
    forall k: nat | k < |e| ensures !EscapePairAt(e, k) {
      if n <= k {
        assert e[k] == rest[k - n];
        assert !EscapePairAt(rest, k - n);
      }
    }
  }

  lemma MarkedCons(c: char, tail: string, rest: string)
    requires rest != tail ==> '\\' in rest
    ensures EscapeChar(c) + rest != [c] + tail ==> '\\' in EscapeChar(c) + rest
  {
    var n, e := |EscapeChar(c)|, EscapeChar(c) + rest;
    if Escaped(c) {
      assert e[0] == '\\';
    } else if '\\' in rest {
      var k :| 0 <= k < |rest| && rest[k] == '\\';
      assert e[n + k] == '\\';
    }
  }

  /** Where a scheme separator can start: at the first character, or later. */
  lemma ContainsCons(c: char, tail: string)
    ensures Contains([c] + tail, "://")
       <==> (c == ':' && |tail| >= 2 && tail[..2] == "//") || Contains(tail, "://")
  {
    var s := [c] + tail;
    if Contains(s, "://") {
      var i: nat :| i <= |s| && ContainsAt(s, "://", i);
      if i > 0 {
        assert tail[i - 1..i + 2] == s[i..i + 3];
        assert ContainsAt(tail, "://", i - 1);
      } else {
        assert c == s[0..3][0] && tail[..2] == s[0..3][1..];
      }
    }
    if Contains(tail, "://") {
      var i: nat :| i <= |tail| && ContainsAt(tail, "://", i);
      assert s[i + 1..i + 4] == tail[i..i + 3];
      assert ContainsAt(s, "://", i + 1);
    } else if c == ':' && |tail| >= 2 && tail[..2] == "//" {
      assert s[0..3] == [c] + tail[..2];
      assert ContainsAt(s, "://", 0);
    }
  }

  lemma {:induction false} EscapeKeepsColons(path: string)
    ensures Contains(ShellEscape(path), "://") <==> Contains(path, "://")
  {
    if path != [] {
      var c, tail := path[0], path[1..];
      var rest := ShellEscape(tail);
      EscapeKeepsColons(tail);
      SlashesInFront(tail);
      ContainsCons(c, tail);
      ContainsCons(c, rest);
      assert path == [c] + tail;
      if Escaped(c) {
        ContainsCons('\\', [c] + rest);
        assert ShellEscape(path) == ['\\'] + ([c] + rest);
      }
    }
  }

  /** Slashes are not escaped. */
  lemma SlashInFront(s: string)
    requires s != []
    ensures ShellEscape(s) != [] && (s[0] == '/' <==> ShellEscape(s)[0] == '/')
    ensures s[0] == '/' ==> ShellEscape(s)[1..] == ShellEscape(s[1..])
  {}

  lemma SlashesInFront(s: string)
    ensures (|s| >= 2 && s[..2] == "//") <==> (|ShellEscape(s)| >= 2 && ShellEscape(s)[..2] == "//")
  {
    if s != [] {
      SlashInFront(s);
      if |s| > 1 {
        SlashInFront(s[1..]);
      } else {
        assert ShellEscape(s[1..]) == [];
      }
    }
  }

  lemma {:induction false} EscapeEnds(path: string)
    requires path != []
    ensures ShellEscape(path) != [] && ShellEscape(path)[|ShellEscape(path)| - 1] == path[|path| - 1]
    ensures ShellEscape(path) == ShellEscape(path[..|path| - 1]) + EscapeChar(path[|path| - 1])
  {
    var m := |path| - 1;
    EscapeConcat(path[..m], [path[m]]);
    EscapeOne(path[m]);
    assert path == path[..m] + [path[m]];
  }

  lemma {:induction false} EscapeOneLine(path: string)
    ensures forall c :: c in ShellEscape(path) ==> c == '\\' || c in path
    ensures |ShellEscape(path)| >= |path|
    ensures |ShellEscape(path)| == |path| ==> forall c :: c in path ==> !Escaped(c)
  {
    if path != [] {
      EscapeOneLine(path[1..]);
      assert path == [path[0]] + path[1..];
    }
  }

  // What decoding keeps --------------------------------------------------------------------------------

  ghost predicate HasTriple(bytes: seq<Byte>) {
    exists i: nat :: i <= |bytes| && Triple(bytes[i..])
  }

  /** Percent decoding changes a text exactly when it holds a triple; then it shortens it. */
  lemma {:induction false} DecodeIff(bytes: seq<Byte>)
    ensures HasTriple(bytes) ==> |PercentDecode(bytes)| < |bytes|
    ensures !HasTriple(bytes) ==> PercentDecode(bytes) == bytes
    ensures |PercentDecode(bytes)| <= |bytes|
  {
    if bytes == [] {
    } else if Triple(bytes) {
      assert bytes[0..] == bytes;
      DecodeIff(bytes[3..]);
    } else {
      DecodeIff(bytes[1..]);
      if HasTriple(bytes) {
        var i: nat :| i <= |bytes| && Triple(bytes[i..]);
        assert bytes[0..] == bytes;
        assert bytes[1..][i - 1..] == bytes[i..];
      } else {
        forall i: nat | i <= |bytes[1..]| ensures !Triple(bytes[1..][i..]) {
          assert bytes[1..][i..] == bytes[i + 1..];
        }
        assert bytes == [bytes[0]] + bytes[1..];
      }
    }
  }

  lemma {:induction false} BackslashSurvives(bytes: seq<Byte>)
    ensures 0x5C in bytes ==> 0x5C in PercentDecode(bytes)
  {
    if bytes != [] {
      if Triple(bytes) {
        BackslashSurvives(bytes[3..]);
        assert bytes == [bytes[0], bytes[1], bytes[2]] + bytes[3..];
      } else {
        BackslashSurvives(bytes[1..]);
        assert bytes == [bytes[0]] + bytes[1..];
      }
    }
  }

  lemma {:induction false} FinalBackslash(bytes: seq<Byte>)
    ensures PercentDecode(bytes + [0x5C]) == PercentDecode(bytes) + [0x5C]
  {
    var b := bytes + [0x5C];
    if bytes == [] {
      assert b[1..] == [];
    } else if Triple(bytes) {
      FinalBackslash(bytes[3..]);
      assert b[3..] == bytes[3..] + [0x5C];
    } else {
      FinalBackslash(bytes[1..]);
      assert b[1..] == bytes[1..] + [0x5C];
    }
  }

  lemma {:induction false} EncodeHas(s: string, c: char)
    requires c as int < 0x80
    ensures (c as int as Byte) in Encode(s) <==> c in s
  {
    if s != [] {
      EncodeHas(s[1..], c);
      assert s == [s[0]] + s[1..];
      assert forall b :: b in EncodeChar(s[0]) && b < 0x80 ==> s[0] as int == b;
    }
  }

  lemma {:induction false} EncodeConcat(a: string, b: string)
    ensures Encode(a + b) == Encode(a) + Encode(b)
  {
    if a == [] {
      assert a + b == b;
    } else {
      EncodeConcat(a[1..], b);
      assert (a + b)[0] == a[0] && (a + b)[1..] == a[1..] + b;
      Seqs.Assoc(EncodeChar(a[0]), Encode(a[1..]), Encode(b));
    }
  }

  lemma EncodeLast(a: string, c: char)
    ensures Encode(a + [c]) == Encode(a) + EncodeChar(c)
  {
    EncodeConcat(a, [c]);
    assert [c][1..] == [];
  }

  // The escaped form, classified -----------------------------------------------------------------------

  lemma EscapedLine(path: string)
    requires Absolute(path)
    ensures var e := ShellEscape(path); e != "" && e[0] == '/' && '\n' !in e && '\r' !in e
  {
    SlashInFront(path);
    EscapeOneLine(path);
  }

  /** Text that starts with a slash is neither quoted nor a URI. */
  lemma SlashFirst(t: string)
    requires t != "" && t[0] == '/'
    ensures StripQuotes(t) == t && !("file://" <= t)
  {}

  /** A path that ends in white space loses it to trimming, and its escape is left dangling. */
  lemma TrailingSpaceLost(path: string)
    requires Absolute(path) && IsWhitespace(path[|path| - 1])
    ensures Classify(ShellEscape(path)) != Path(path)
  {
    var front, last := path[..|path| - 1], path[|path| - 1];
    var t := ShellEscape(front) + ['\\'];
    TrailingEscape(path);
    TrimTail(t, last);
    DanglingDecodes(front, t, path);
    NotClassified(t + [last], path);
  }

  lemma TrailingEscape(path: string)
    requires Absolute(path) && IsWhitespace(path[|path| - 1])
    ensures var t := ShellEscape(path[..|path| - 1]) + ['\\'];
      ShellEscape(path) == t + [path[|path| - 1]] && (t + [path[|path| - 1]])[0] == '/'
  {
    EscapeEnds(path);
    SpaceEscape(ShellEscape(path[..|path| - 1]), path[|path| - 1]);
    EscapedLine(path);
  }

  lemma SpaceEscape(front: string, c: char)
    requires IsWhitespace(c)
    ensures front + EscapeChar(c) == front + ['\\'] + [c]
  {
    Seqs.Assoc(front, ['\\'], [c]);
    assert EscapeChar(c) == ['\\'] + [c];
  }

  lemma NotClassified(payload: string, path: string)
    requires Decode(Trim(payload)) != Some(path)
    ensures Classify(payload) != Path(path)
  {}

  lemma TrimTail(t: string, last: char)
    requires IsWhitespace(last) && t != "" && t[|t| - 1] == '\\' && (t + [last])[0] == '/'
    ensures Trim(t + [last]) == t && t[0] == '/'
  {
    Seqs.ConcatInit(t, [last]);
    assert t + [] == t;
    TrimEscaped(t + [last], t);
  }

  lemma DanglingDecodes(front: string, t: string, path: string)
    requires t == ShellEscape(front) + ['\\'] && t[0] == '/'
    requires path != "" && IsWhitespace(path[|path| - 1])
    ensures Decode(t) != Some(path)
  {
    SlashFirst(t);
    UnescapeDangling(front);
    DanglingDiffers(t, ShellEscape(front), path);
    DanglingDiffers(Unescape(t), front, path);
  }

  lemma TrimEscaped(e: string, t: string)
    requires e != "" && e[0] == '/' && IsWhitespace(e[|e| - 1]) && t == e[..|e| - 1]
    requires t != "" && t[|t| - 1] == '\\'
    ensures Trim(e) == t
  {
    assert t[0] == e[0];
    assert TrimStart(e) == e;
    assert TrimEnd(t) == t;
    assert TrimEnd(e) == TrimEnd(e[..|e| - 1]);
  }

  lemma UnescapeDangling(path: string)
    ensures Unescape(ShellEscape(path) + ['\\']) == path + ['\\']
  {
    UnescapeFront(path, ['\\']);
    assert Unescape(['\\'][1..]) == [];
  }

  /** What ends in a backslash does not decode to a path that ends in white space. */
  lemma DanglingDiffers(plain: string, init: string, path: string)
    requires plain == init + ['\\'] && path != "" && IsWhitespace(path[|path| - 1])
    ensures FromUtf8(PercentDecode(Encode(plain))) != Some(path)
  {
    var m := |path| - 1;
    EncodeLast(init, '\\');
    FinalBackslash(Encode(init));
    assert path == path[..m] + [path[m]];
    EncodeLast(path[..m], path[m]);
    SpaceIsNoBackslash(PercentDecode(Encode(init)), Encode(path[..m]), path[m]);
  }

  lemma SpaceIsNoBackslash(x: seq<Byte>, y: seq<Byte>, c: char)
    requires IsWhitespace(c)
    ensures x + [0x5C] != y + EncodeChar(c)
  {
    Seqs.ConcatInit(x, [0x5C]);
    Seqs.ConcatInit(y, EncodeChar(c));
    assert EncodeChar(c)[|EncodeChar(c)| - 1] != 0x5C;
  }

  /** A text without percent signs decodes to itself. */
  lemma PlainDecodes(path: string)
    requires '%' !in path
    ensures PercentDecode(Encode(path)) == Encode(path)
  {
    EncodeHas(path, '%');
    var b := Encode(path);
    forall i: nat | i <= |b| ensures !Triple(b[i..]) {
      assert |b[i..]| > 2 ==> b[i..][0] in b;
    }
    DecodeIff(b);
  }

  /** The decoded text of an escaped path whose last character is kept. */
  lemma EscapedDecodes(path: string)
    requires Absolute(path) && !Contains(path, "://")
    ensures Decode(ShellEscape(path)) == Some(path)
       <==> if HasGap(path) then !HasTriple(Encode(path)) else ShellEscape(path) == path
  {
    var e := ShellEscape(path);
    EscapedLine(path);
    EscapeKeepsColons(path);
    SlashFirst(e);
    if HasGap(path) {
      GapMakesPair(path);
      UnescapeEscape(path);
      DecodeIff(Encode(path));
      FromUtf8Encode(path);
    } else {
      NoGapNoPair(path);
      if e == path {
        EscapeOneLine(path);
        PlainDecodes(path);
        FromUtf8Encode(path);
      } else {
        EncodeHas(e, '\\');
        EncodeHas(path, '\\');
        BackslashSurvives(Encode(e));
        assert '\\' !in path;
      }
    }
  }

  /** The backslash-escaped form of an absolute one-line path that names no directory is
      classified as that path exactly when the path does not end in white space, holds no
      "://", and either holds white space or a backslash but no percent triple, or needs no
      escaping at all. */
  lemma ShellEscapeRoundTripIff(path: string)
    requires Absolute(path) && path[|path| - 1] != '/'
    ensures Classify(ShellEscape(path)) == Path(path)
       <==> && !IsWhitespace(path[|path| - 1])
            && !Contains(path, "://")
            && if HasGap(path) then !HasTriple(Encode(path)) else ShellEscape(path) == path
  {
    if IsWhitespace(path[|path| - 1]) {
      TrailingSpaceLost(path);
    } else {
      ClassifiedAsDecoded(path);
      if Contains(path, "://") {
        SchemeRefused(path);
      } else {
        EscapedDecodes(path);
      }
    }
  }

  lemma ClassifiedAsDecoded(path: string)
    requires Absolute(path) && path[|path| - 1] != '/' && !IsWhitespace(path[|path| - 1])
    ensures Classify(ShellEscape(path)) == Path(path) <==> Decode(ShellEscape(path)) == Some(path)
  {
    EscapedLine(path);
    EscapeEnds(path);
    TrimIff(ShellEscape(path));
  }

  lemma SchemeRefused(path: string)
    requires Absolute(path) && Contains(path, "://")
    ensures Decode(ShellEscape(path)) == None
  {
    EscapedLine(path);
    SlashFirst(ShellEscape(path));
    EscapeKeepsColons(path);
  }
  /** Paths for which it fails: one that is escaped without a gap, */
  lemma ParenthesisFails()
    ensures Classify(ShellEscape("/(")) != Path("/(")
  {
    EscapedNoGap();
    ShellEscapeRoundTripIff("/(");
  }

  /** one with a gap and a percent triple, */
  lemma TripleFails()
    ensures Classify(ShellEscape("/ %41")) != Path("/ %41")
  {
    GapAndTriple();
    ShellEscapeRoundTripIff("/ %41");
  }

  /** and one that ends in white space. */
  lemma SpaceFails()
    ensures Classify(ShellEscape("/a ")) != Path("/a ")
  {
    ShellEscapeRoundTripIff("/a ");
  }

  lemma EscapedNoGap()
    ensures !HasGap("/(") && ShellEscape("/(") != "/("
  {
    assert "/("[1..] == "(";
    EscapeOne('(');
    assert EscapeChar('(') == "\\(" && EscapeChar('/') == "/";
    assert |ShellEscape("/(")| == 3;
  }

  lemma GapAndTriple()
    ensures HasGap("/ %41") && HasTriple(Encode("/ %41"))
  {
    var path, bytes := "/ %41", [0x2F, 0x20, 0x25, 0x34, 0x31];
    assert IsWhitespace(path[1]);
    EncodeAscii(path, bytes);
    assert Triple(bytes[2..]);
  }

  // Quoted paths -----------------------------------------------------------------------------------------

  function Quoted(q: char, path: string): string {
    [q] + path + [q]
  }

  lemma QuotesStripped(q: char, path: string)
    requires q == '\'' || q == '"'
    ensures StripQuotes(Quoted(q, path)) == path && Trim(Quoted(q, path)) == Quoted(q, path)
    ensures '\n' in Quoted(q, path) <==> '\n' in path
    ensures '\r' in Quoted(q, path) <==> '\r' in path
  {
    TrimIff(Quoted(q, path));
  }

  /** Unescaping takes bytes away exactly when it changes something. */
  lemma {:induction false} UnescapeShorter(s: string)
    ensures |Encode(Unescape(s))| <= |Encode(s)|
    ensures HasEscapePair(s) ==> |Encode(Unescape(s))| < |Encode(s)|
  {
    if s == [] {
    } else if |s| > 1 && s[0] == '\\' && Escaped(s[1]) {
      UnescapeShorter(s[2..]);
      assert s[1..][1..] == s[2..];
    } else {
      UnescapeShorter(s[1..]);
      if HasEscapePair(s) {
        var i: nat :| i < |s| && EscapePairAt(s, i);
        assert i > 0 && EscapePairAt(s[1..], i - 1);
      }
    }
  }

  /** A text without a scheme separator stays whole; what is left of one with it is shorter. */
  lemma SchemeCut(path: string)
    ensures !Contains(path, "://") ==> StripScheme(path) == Some(path)
    ensures Contains(path, "://") && StripScheme(path).Some? ==>
      |Encode(StripScheme(path).value)| < |Encode(path)|
  {
    if "file://" <= path {
      assert path[4..7] == "file://"[4..7] == "://";
      assert ContainsAt(path, "://", 4);
      if StripScheme(path).Some? {
        var p := StripScheme(path).value;
        var n := |path| - |p|;
        assert path[n..] == p && path == path[..n] + p;
        EncodeConcat(path[..n], p);
      }
    }
  }

  /** What the part of a text behind its scheme decodes to. */
  ghost function Plain(path: string): Option<string> {
    FromUtf8(PercentDecode(Encode(if HasEscapePair(path) then Unescape(path) else path)))
  }

  lemma PlainIff(p: string, path: string)
    requires p == path || |Encode(p)| < |Encode(path)|
    ensures Plain(p) == Some(path) <==> p == path && !HasEscapePair(p) && !HasTriple(Encode(p))
  {
    UnescapeShorter(p);
    DecodeIff(Encode(if HasEscapePair(p) then Unescape(p) else p));
    FromUtf8Encode(path);
  }

  /** A path in quotes is classified as that path exactly when it looks like one and holds nothing
      that is decoded: no scheme separator, no backslash before white space or a backslash, no
      percent triple. */
  lemma QuotedRoundTripIff(q: char, path: string)
    requires q == '\'' || q == '"'
    ensures Classify(Quoted(q, path)) == Path(path)
       <==> LooksLikePath(path) && !Contains(path, "://") && !HasEscapePair(path) && !HasTriple(Encode(path))
  {
    QuotesStripped(q, path);
    SchemeCut(path);
    if StripScheme(path).Some? {
      PlainIff(StripScheme(path).value, path);
    }
  }

  // What looks like a path ----------------------------------------------------------------------------------

  /** Letters and digits, one to eight of them. */
  predicate IsExtension(ext: string) {
    1 <= |ext| <= 8 && forall i :: 0 <= i < |ext| ==> IsAlphanumeric(ext[i])
  }

  /** Neither absolute nor relative to home, this or the parent directory, nor one of the forms of
      another system. */
  predicate Bare(path: string) {
    && !("/" <= path) && !("~/" <= path) && !("./" <= path) && !("../" <= path) && !("\\\\" <= path)
    && !(|path| >= 3 && IsAlphabetic(path[0]) && path[1] == ':' && (path[2] == '\\' || path[2] == '/'))
  }

  /** A bare text of one line looks like a path exactly when a separator stands in it, no scheme
      does, and what follows its last dot is an extension. */
  lemma BareLooksIff(stem: string, ext: string)
    requires var path := stem + "." + ext; Bare(path) && '\n' !in path && '\r' !in path
    requires '.' !in ext
    ensures var path := stem + "." + ext;
      LooksLikePath(path) <==> ('/' in path || '\\' in path) && !Contains(path, "://") && IsExtension(ext)
  {
    var path := stem + "." + ext;
    var n := |stem|;
    LastDot(stem, ext);
    forall k | 0 <= k < |ext| ensures path[n + 1 + k] == ext[k] {}
    if IsExtension(ext) {
      assert ExtensionAt(path, n);
    }
    if i: nat :| i < |path| && ExtensionAt(path, i) {
      assert i == n;
      forall k | 0 <= k < |ext| ensures IsAlphanumeric(ext[k]) {
        assert IsAlphanumeric(path[n + 1 + k]);
      }
    }
  }

  lemma LastDot(stem: string, ext: string)
    requires '.' !in ext
    ensures var path := stem + "." + ext;
      path[|stem|] == '.' && !IsAlphanumeric('.') && forall k :: |stem| < k < |path| ==> path[k] != '.'
  {
    var path := stem + "." + ext;
    forall k | |stem| < k < |path| ensures path[k] != '.' {
      assert path[k] == ext[k - |stem| - 1] && ext[k - |stem| - 1] in ext;
    }
  }

  /** Without a dot it does not. */
  lemma BareWithoutDot(path: string)
    requires Bare(path) && '.' !in path
    ensures !LooksLikePath(path)
  {}

  /** A text behind one of the other openings looks like a path unless it is several lines, or the
      opening is one of ours and it ends in a slash. */
  lemma OpenedLooksIff(opening: string, rest: string)
    requires opening in ["/", "~/", "./", "../", "\\\\", "c:\\", "c:/", "Z:\\", "Z:/"]
    ensures var path := opening + rest;
      LooksLikePath(path) <==>
        && '\n' !in path && '\r' !in path
        && (opening in ["/", "~/", "./", "../"] ==> path[|path| - 1] != '/')
  {
    var path := opening + rest;
    assert opening <= path && path[0] == opening[0];
  }

  /** Nothing but one line that looks like a path is ever classified as one, and several lines
      never are. */
  lemma ClassifiedLooks(payload: string)
    ensures Classify(payload).Path? ==>
      var path := Classify(payload).path; path != "" && LooksLikePath(path) && '\n' !in path && '\r' !in path
    ensures '\n' in Trim(payload) || '\r' in Trim(payload) ==> Classify(payload) == Text
  {}

  /** A file URI may name this host. */
  lemma LocalUri(path: string, keep: set<Byte>)
    requires Keepable(keep) && Absolute(path)
    ensures Classify("file://" + ("localhost" + Encoded(path, keep))) == Classify(FileUri(path, keep))
  {
    EncodedText(path, keep);
    PlainUri(Encoded(path, keep));
    LocalStripped(Encoded(path, keep));
  }

  /** What stands behind a scheme is read on its own. */
  lemma SchemeRead(rest: string)
    ensures var u := "file://" + rest;
      && StripQuotes(u) == u
      && StripScheme(u) == var path := if "localhost" <= rest then rest[9..] else rest;
                           if "/" <= path then Some(path) else None
  {
    Seqs.TakeConcat("file://", rest);
  }

  lemma LocalStripped(enc: string)
    requires enc != [] && enc[0] == '/'
    requires forall i :: 0 <= i < |enc| ==> '!' <= enc[i] <= '~' && enc[i] != '\\'
    ensures var u := "file://" + ("localhost" + enc);
      && Trim(u) == u && u != "" && '\n' !in u && '\r' !in u
      && StripScheme(StripQuotes(u)) == Some(enc)
  {
    SchemeRead("localhost" + enc);
    Seqs.TakeConcat("localhost", enc);
    assert "/" <= enc;
    OneLine("file://", "localhost" + enc);
  }

  /** Printable text of some length is trimmed, and one line. */
  lemma OneLine(a: string, b: string)
    requires a != [] && b != []
    requires forall i :: 0 <= i < |a| ==> '!' <= a[i] <= '~'
    requires forall i :: 0 <= i < |b| ==> '!' <= b[i] <= '~'
    ensures var u := a + b; Trim(u) == u && u != "" && '\n' !in u && '\r' !in u
  {
    TrimIff(a + b);
  }

  /** A file URI of another host stays text. */
  lemma RemoteUri(host: string, tail: string)
    requires host != "" && '/' !in host && host != "localhost" && Trimmed("file://" + (host + "/" + tail))
    ensures Classify("file://" + (host + "/" + tail)) == Text
  {
    var rest := host + "/" + tail;
    TrimIff("file://" + rest);
    SchemeRead(rest);
    LocalhostAlone(host, tail);
    assert host[0] in host && rest[0] == host[0];
    assert |host| > 9 ==> rest[9] == host[9] && host[9] in host;
  }

  lemma LocalhostAlone(host: string, tail: string)
    requires '/' !in host && host != "localhost"
    ensures "localhost" <= host + "/" + tail ==> |host| > 9
  {
    var rest := host + "/" + tail;
    if |host| < 9 {
      assert rest[|host|] == '/' && "localhost"[|host|] != '/';
    } else {
      assert |host| == 9 ==> rest[..9] == host;
    }
  }
}
