/** Lexical paths: components, normalization, and the roots the attachment picker names. */
module Paths {
  import opened Pastes
  import opened Whitespace
  import Seqs

  datatype Component = RootDir | CurDir | ParentDir | Normal(name: string) {
    predicate Valid() {
      Normal? ==> name != [] && '/' !in name && name != "." && name != ".."
    }

    function Text(): string {
      match this
      case RootDir => ""
      case CurDir => "."
      case ParentDir => ".."
      case Normal(name) => name
    }
  }

  type Path = seq<Component>

  /** What `components()` can yield: the root only in front, `.` only in front of a relative
      path. */
  ghost predicate WellFormed(p: Path) {
    forall i :: 0 <= i < |p| ==> p[i].Valid() && (i > 0 ==> p[i] != RootDir && p[i] != CurDir)
  }

  predicate IsAbsolute(p: Path) {
    p != [] && p[0] == RootDir
  }

  /** `join`: an absolute path replaces, a leading `.` adds nothing. */
  function Join(a: Path, b: Path): Path {
    if IsAbsolute(b) || a == [] then b else if b != [] && b[0] == CurDir then a + b[1..] else a + b
  }

  // Normalization ------------------------------------------------------------------------------

  /** One step of the loop: what a component does to the path built so far. */
  function Step(out: Path, c: Component): Path {
    match c
    case CurDir => out
    case ParentDir => if out != [] && out[|out| - 1].Normal? then out[..|out| - 1] else out + [c]
    case RootDir => [RootDir]
    case Normal(_) => out + [c]
  }

  function FoldFrom(out: Path, p: Path): Path {
    if p == [] then out else Step(FoldFrom(out, p[..|p| - 1]), p[|p| - 1])
  }

  function Normalize(p: Path): Path {
    FoldFrom([], p)
  }

  /** `normalize`. */
  method ComputeNormalize(path: Path) returns (out: Path)
    ensures out == Normalize(path)
  {
    out := [];
    for i := 0 to |path|
      invariant out == Normalize(path[..i])
    {
      var c := path[i];
      Seqs.TakeTake(path, i, i + 1);
      match c {
        case CurDir =>
        case ParentDir =>
          var foldable := out != [] && out[|out| - 1].Normal?;
          if foldable {
            out := out[..|out| - 1];
          } else {
            out := out + [c];
          }
        case RootDir => out := [RootDir];
        case Normal(_) => out := out + [c];
      }
    }
    assert path[..|path|] == path;
  }

  /** Root, then parents, then names, each part possibly missing. */
  ghost predicate NormalForm(p: Path) {
    && (forall i :: 0 <= i < |p| ==> p[i] != CurDir && (p[i] == RootDir ==> i == 0))
    && (forall i, j :: 0 <= i < j < |p| && p[i].Normal? ==> p[j].Normal?)
  }

  lemma {:induction false} FoldNormal(p: Path)
    ensures NormalForm(Normalize(p))
  {
    if p != [] {
      FoldNormal(p[..|p| - 1]);
    }
  }

  lemma {:induction false} FoldConcat(out: Path, a: Path, b: Path)
    ensures FoldFrom(out, a + b) == FoldFrom(FoldFrom(out, a), b)
  {
    if b == [] {
      assert a + b == a;
    } else {
      FoldConcat(out, a, b[..|b| - 1]);
      Seqs.ConcatInit(a, b);
    }
  }

  /** Folding a path that is in normal form rebuilds it. */
  lemma {:induction false} FoldRebuilds(p: Path)
    requires NormalForm(p)
    ensures Normalize(p) == p
  {
    if p != [] {
      var n := |p| - 1;
      FoldRebuilds(p[..n]);
      assert p == p[..n] + [p[n]];
      assert n > 0 ==> p[..n][n - 1] == p[n - 1];
    }
  }

  /** Normalizing yields the normal form, leaves a normal form alone, and so is idempotent. */
  lemma NormalizeIsNormal(p: Path)
    ensures NormalForm(Normalize(p))
    ensures NormalForm(p) <==> Normalize(p) == p
    ensures Normalize(Normalize(p)) == Normalize(p)
  {
    FoldNormal(p);
    FoldRebuilds(Normalize(p));
    if NormalForm(p) {
      FoldRebuilds(p);
    }
  }

  /** Normalizing in the middle of a relative walk changes nothing. */
  lemma NormalizeJoin(a: Path, b: Path)
    ensures Normalize(a + b) == Normalize(Normalize(a) + b)
    ensures Normalize(Join(a, b)) == Normalize(Join(Normalize(a), b))
  {
    NormalizeIsNormal(a);
    FoldConcat([], a, b);
    FoldConcat([], Normalize(a), b);
    if b != [] && b[0] == CurDir {
      var c := b[1..];
      FoldConcat([], a, c);
      FoldConcat([], Normalize(a), c);
      if Normalize(a) == [] {
        FoldConcat([], [CurDir], c);
        assert b == [CurDir] + c;
        assert FoldFrom([], [CurDir]) == [] by { assert [CurDir][..0] == []; }
      }
      if a == [] {
        assert Normalize(a) == [];
      }
    } else {
      assert a == [] ==> a + b == b;
      assert Normalize(a) == [] ==> Normalize(a) + b == b;
    }
  }

  /** Where one component leads from a directory of a tree without links; the root is its own
      parent. */
  function WalkOne(at: seq<string>, c: Component): seq<string> {
    match c
    case RootDir => []
    case CurDir => at
    case ParentDir => if at == [] then [] else at[..|at| - 1]
    case Normal(name) => at + [name]
  }

  function Walk(at: seq<string>, p: Path): seq<string> {
    if p == [] then at else WalkOne(Walk(at, p[..|p| - 1]), p[|p| - 1])
  }

  /** Normalizing keeps the meaning: from any directory both paths lead to the same place. */
  lemma {:induction false} NormalizeKeepsMeaning(at: seq<string>, p: Path)
    ensures Walk(at, Normalize(p)) == Walk(at, p)
  {
    if p != [] {
      var out, c := Normalize(p[..|p| - 1]), p[|p| - 1];
      NormalizeKeepsMeaning(at, p[..|p| - 1]);
      WalkSnoc(at, out, c);
      if c.ParentDir? && out != [] && out[|out| - 1].Normal? {
        WalkSnoc(at, out[..|out| - 1], out[|out| - 1]);
      } else if c.RootDir? {
        WalkSnoc(at, [], RootDir);
      }
    }
  }

  lemma WalkSnoc(at: seq<string>, p: Path, c: Component)
    ensures Walk(at, p + [c]) == WalkOne(Walk(at, p), c)
  {
    Seqs.TakeConcat(p, [c]);
  }

  /** Walking a joined path is walking its parts one after the other. */
  lemma WalkJoin(at: seq<string>, a: Path, b: Path)
    requires WellFormed(b)
    ensures Walk(at, Join(a, b)) == Walk(Walk(at, a), b)
  {
    if IsAbsolute(b) {
      WalkFromRoot(at, Walk(at, a), b);
    } else if b != [] && b[0] == CurDir {
      WalkConcat(at, a, b[1..]);
      WalkConcat(Walk(at, a), [CurDir], b[1..]);
      assert b == [CurDir] + b[1..] && [CurDir][..0] == [];
    } else {
      WalkConcat(at, a, b);
    }
  }

  lemma {:induction false} WalkConcat(at: seq<string>, a: Path, b: Path)
    ensures Walk(at, a + b) == Walk(Walk(at, a), b)
  {
    if b == [] {
      assert a + b == a;
    } else {
      WalkConcat(at, a, b[..|b| - 1]);
      Seqs.ConcatInit(a, b);
    }
  }

  lemma {:induction false} WalkFromRoot(at: seq<string>, there: seq<string>, p: Path)
    requires IsAbsolute(p)
    ensures Walk(at, p) == Walk(there, p)
  {
    if |p| > 1 {
      WalkFromRoot(at, there, p[..|p| - 1]);
    }
  }

  // Printing and parsing -------------------------------------------------------------------------

  function JoinText(p: Path): string {
    if p == [] then "" else if |p| == 1 then p[0].Text() else p[0].Text() + "/" + JoinText(p[1..])
  }

  /** A path as text. */
  function Print(p: Path): string {
    if IsAbsolute(p) then "/" + JoinText(p[1..]) else JoinText(p)
  }

  /** The text up to the first slash. */
  function Head(s: string): (r: string)
    ensures '/' !in r && |r| <= |s| && r == s[..|r|]
    ensures |r| < |s| ==> s[|r|] == '/'
  {
    if s == [] || s[0] == '/' then [] else [s[0]] + Head(s[1..])
  }

  function Piece(text: string, first: bool): Path {
    if text == "" then []
    else if text == "." then (if first then [CurDir] else [])
    else if text == ".." then [ParentDir]
    else [Normal(text)]
  }

  /** The components of a text between slashes. */
  function Pieces(s: string, first: bool): Path
    decreases |s|
  {
    var h := Head(s);
    if |h| == |s| then Piece(h, first) else Piece(h, first) + Pieces(s[|h| + 1..], false)
  }

  /** `components()` of a text: empty pieces vanish, and so does `.` except in front of a
      relative path. */
  function Parse(s: string): Path {
    if s != [] && s[0] == '/' then [RootDir] + Pieces(s[1..], false) else Pieces(s, true)
  }

  lemma {:induction false} HeadOf(t: string, rest: string)
    requires '/' !in t && (rest == [] || rest[0] == '/')
    ensures Head(t + rest) == t
  {
    if t == [] {
      assert t + rest == rest;
    } else {
      HeadOf(t[1..], rest);
      assert (t + rest)[1..] == t[1..] + rest;
    }
  }

  lemma PiecesCons(t: string, s: string, first: bool)
    requires '/' !in t
    ensures Pieces(t + "/" + s, first) == Piece(t, first) + Pieces(s, false)
    ensures Pieces(t, first) == Piece(t, first)
  {
    HeadOf(t, "/" + s);
    Seqs.Assoc(t, "/", s);
    assert (t + ("/" + s))[|t| + 1..] == s;
    HeadOf(t, []);
    assert t + [] == t;
  }

  lemma PieceOf(c: Component, first: bool)
    requires c.Valid() && c != RootDir && (c == CurDir ==> first)
    ensures '/' !in c.Text() && Piece(c.Text(), first) == [c]
  {}

  lemma {:induction false} PiecesOfJoin(p: Path, first: bool)
    requires WellFormed(p) && !IsAbsolute(p) && (p != [] && p[0] == CurDir ==> first)
    ensures Pieces(JoinText(p), first) == p
  {
    if p != [] {
      PieceOf(p[0], first);
      PiecesCons(p[0].Text(), JoinText(p[1..]), first);
      Seqs.Split(p, 1);
      if |p| > 1 {
        assert p[1..][0] == p[1];
        PiecesOfJoin(p[1..], false);
      }
    }
  }

  lemma ParseRoot(s: string)
    ensures Parse("/" + s) == [RootDir] + Pieces(s, false)
  {
    assert ("/" + s)[1..] == s;
  }

  lemma ParseRelative(p: Path)
    requires WellFormed(p) && p != [] && !IsAbsolute(p)
    ensures JoinText(p) != "" && JoinText(p)[0] != '/'
  {
    PieceOf(p[0], true);
    assert JoinText(p)[0] == p[0].Text()[0] && p[0].Text()[0] in p[0].Text();
  }

  /** A path reads back from its text. */
  lemma ParsePrint(p: Path)
    requires WellFormed(p)
    ensures Parse(Print(p)) == p
  {
    if IsAbsolute(p) {
      assert |p| > 1 ==> p[1..][0] == p[1];
      ParseRoot(JoinText(p[1..]));
      PiecesOfJoin(p[1..], false);
      Seqs.Split(p, 1);
    } else if p != [] {
      ParseRelative(p);
      PiecesOfJoin(p, true);
    }
  }

  lemma {:induction false} PiecesWellFormed(s: string, first: bool)
    ensures WellFormed(Pieces(s, first)) && !IsAbsolute(Pieces(s, first))
    ensures !first && Pieces(s, first) != [] ==> Pieces(s, first)[0] != CurDir
    decreases |s|
  {
    var h := Head(s);
    if |h| < |s| {
      PiecesWellFormed(s[|h| + 1..], false);
    }
  }

  /** Whatever the text, its components are what `components()` can yield. */
  lemma ParseWellFormed(s: string)
    ensures WellFormed(Parse(s))
  {
    if s != [] && s[0] == '/' {
      PiecesWellFormed(s[1..], false);
    } else {
      PiecesWellFormed(s, true);
    }
  }

  lemma {:induction false} PiecesConcat(a: string, b: string, first: bool)
    ensures Pieces(a + "/" + b, first) == Pieces(a, first) + Pieces(b, false)
    decreases |a|
  {
    var h := Head(a);
    if |h| == |a| {
      PiecesCons(a, b, first);
    } else {
      var rest := a[|h| + 1..];
      assert a == h + "/" + rest && a + "/" + b == h + "/" + (rest + "/" + b);
      PiecesCons(h, rest, first);
      PiecesCons(h, rest + "/" + b, first);
      PiecesConcat(rest, b, false);
      Seqs.Assoc(Piece(h, first), Pieces(rest, false), Pieces(b, false));
    }
  }

  /** The mark of a first piece makes no difference but for a `.`. */
  lemma PiecesFirstOnly(s: string)
    requires s == [] || s[0] != '/'
    ensures Pieces(s, false) == var p := Pieces(s, true); if p != [] && p[0] == CurDir then p[1..] else p
  {
    var h := Head(s);
    var rest := if |h| < |s| then Pieces(s[|h| + 1..], false) else [];
    assert Pieces(s, true) == Piece(h, true) + rest && Pieces(s, false) == Piece(h, false) + rest;
    assert h == "" ==> s == [] && rest == [];
    assert h == "." ==> ([CurDir] + rest)[1..] == rest && [] + rest == rest;
  }

  lemma ParseConcat(a: string, b: string)
    requires a != ""
    ensures Parse(a + "/" + b) == Parse(a) + Pieces(b, false)
  {
    if a[0] == '/' {
      assert (a + "/" + b)[1..] == a[1..] + "/" + b;
      PiecesConcat(a[1..], b, false);
      Seqs.Assoc([RootDir], Pieces(a[1..], false), Pieces(b, false));
    } else {
      PiecesConcat(a, b, true);
    }
  }

  /** Joining two texts with a slash joins the paths they stand for; more slashes say no more. */
  lemma ParseJoined(a: string, b: string)
    requires a != ""
    ensures (b == "" || b[0] != '/') ==> Parse(a + "/" + b) == Join(Parse(a), Parse(b))
    ensures Parse(a + "//" + b) == Parse(a + "/" + b)
  {
    ParseConcat(a, b);
    ParseNonEmpty(a);
    if b == "" || b[0] != '/' {
      JoinRelative(Parse(a), b);
    }
    ParseSlashes(a, b);
  }

  lemma JoinRelative(x: Path, b: string)
    requires x != [] && (b == "" || b[0] != '/')
    ensures x + Pieces(b, false) == Join(x, Parse(b))
  {
    PiecesFirstOnly(b);
    PiecesWellFormed(b, true);
    assert x + [] == x;
  }

  lemma ParseSlashes(a: string, b: string)
    requires a != ""
    ensures Parse(a + "//" + b) == Parse(a + "/" + b)
  {
    ParseConcat(a, b);
    ParseConcat(a, "/" + b);
    EmptyPiece(b);
    assert "/" + "/" == "//";
    Seqs.Assoc(a, "/", "/");
    Seqs.Assoc(a + "/", "/", b);
  }

  lemma EmptyPiece(b: string)
    ensures Pieces("/" + b, false) == Pieces(b, false)
  {
    assert Head("/" + b) == "" && ("/" + b)[1..] == b;
  }

  lemma ParseNonEmpty(a: string)
    requires a != ""
    ensures Parse(a) != []
  {
    if a[0] != '/' {
      assert Head(a) != "";
    }
  }

  // Roots ------------------------------------------------------------------------------------------

  /** Home makes up for reading the first directory below ws as a `~`: it is that very
      directory; or, where trimming loses the last one, the directory after it, and from there
      on all directories have one name. */
  predicate MakesUp(home: Path, ws: Path, rel: Path)
    requires rel != []
  {
    var last := rel[|rel| - 1].Text();
    if |rel| == 1 || TrimEnd(last) == last then home == ws + rel[..1]
    else
      && (TrimEnd(last) == "" || TrimEnd(last) == ".")
      && home == ws + rel[..2]
      && forall i :: 1 <= i < |rel| - 1 ==> rel[i] == rel[i + 1]
  }

  datatype Roots = Roots(workspace: Path, home: Option<Path>) {
    /** The directory a path argument names. */
    function RootFor(arg: Option<string>): Path {
      var trimmed := if arg.Some? then Trim(arg.value) else "";
      if trimmed == "" then workspace else Named(trimmed)
    }

    function Named(arg: string): Path {
      var path :=
        if arg == "~" then home.GetOr([])
        else if "~/" <= arg && home.Some? then Join(home.value, Parse(arg[2..]))
        else Parse(arg);
      if IsAbsolute(path) || workspace == [] then path else Join(workspace, path)
    }

    /** The root as the dialog titles it. */
    function Label(dir: Path): string {
      if workspace != [] && workspace <= dir then
        var rel := dir[|workspace|..];
        if rel == [] then "." else Print(rel)
      else if home.Some? && dir == home.value then "~"
      else if home.Some? && home.value <= dir then "~/" + Print(dir[|home.value|..])
      else Print(dir)
    }

    /** The label, once trimmed, opens with a `~` that was a workspace directory. */
    predicate TildeRead(dir: Path) {
      && workspace != [] && workspace < dir
      && var rel := dir[|workspace|..];
         if |rel| == 1 then Trim(rel[0].Text()) == "~" else TrimStart(rel[0].Text()) == "~"
    }

    predicate HomeMakesUp(dir: Path)
      requires TildeRead(dir) && home.Some?
    {
      MakesUp(home.value, workspace, dir[|workspace|..])
    }

    /** Reading the label of the directory as an argument names the directory again. */
    predicate ReadsBack(dir: Path) {
      if !TildeRead(dir) then Trimmed(Label(dir))
      else if home.Some? then HomeMakesUp(dir)
      else Trimmed(Label(dir)) && |dir| > |workspace| + 1
    }

    ghost predicate Valid() {
      && WellFormed(workspace) && (home.Some? ==> WellFormed(home.value) && IsAbsolute(home.value))
    }
  }

  lemma SuffixWellFormed(dir: Path, n: nat)
    requires WellFormed(dir) && 0 < n <= |dir|
    ensures WellFormed(dir[n..]) && !IsAbsolute(dir[n..]) && (dir[n..] != [] ==> dir[n..][0] != CurDir)
  {}

  lemma TildePrefix(t: string, rest: string)
    requires '/' !in t && t != []
    ensures "~/" <= t + "/" + rest <==> t == "~"
    ensures !("~/" <= t) && t + "/" + rest != "~"
    ensures t == "~" ==> (t + "/" + rest)[2..] == rest
  {
    var x := t + "/" + rest;
    assert forall i :: 0 <= i < |t| ==> t[i] != '/' && x[i] == t[i];
    assert x[|t|] == '/' && t[0] == x[0];
    assert "~/" <= x <==> |x| >= 2 && x[0] == '~' && x[1] == '/';
  }

  lemma TextTilde(p: Path)
    requires WellFormed(p) && !IsAbsolute(p) && p != []
    ensures JoinText(p) == "~" <==> p == [Normal("~")]
    ensures "~/" <= JoinText(p) <==> |p| > 1 && p[0] == Normal("~")
    ensures JoinText(p) != ""
    ensures |p| > 1 && p[0] == Normal("~") ==> JoinText(p)[2..] == JoinText(p[1..])
  {
    TildePrefix(p[0].Text(), JoinText(p[1..]));
  }

  // Texts that trimming shortens -------------------------------------------------------------------

  /** Reading a text never makes it longer. */
  lemma {:induction false} PiecesLength(s: string, first: bool)
    ensures |JoinText(Pieces(s, first))| <= |s|
    ensures !IsAbsolute(Pieces(s, first))
    decreases |s|
  {
    var h := Head(s);
    if |h| < |s| {
      var rest := Pieces(s[|h| + 1..], false);
      PiecesLength(s[|h| + 1..], false);
      var front := Piece(h, first);
      if front == [] {
        assert front + rest == rest;
      } else {
        assert (front + rest)[1..] == rest;
      }
    }
  }

  lemma ParseLength(s: string)
    ensures |Print(Parse(s))| <= |s|
    ensures IsAbsolute(Parse(s)) <==> s != [] && s[0] == '/'
  {
    if s != [] && s[0] == '/' {
      PiecesLength(s[1..], false);
      assert Parse(s)[1..] == Pieces(s[1..], false);
    } else {
      PiecesLength(s, true);
    }
  }

  lemma {:induction false} SuffixLength(a: Path, b: Path)
    ensures |JoinText(b)| <= |JoinText(a + b)|
  {
    if a == [] {
      assert a + b == b;
    } else {
      SuffixLength(a[1..], b);
      assert (a + b)[1..] == a[1..] + b;
    }
  }

  lemma PrintLength(a: Path, b: Path)
    requires a != []
    ensures |JoinText(b)| <= |Print(a + b)|
  {
    SuffixLength(a[1..], b);
    SuffixLength(a, b);
    assert (a + b)[1..] == a[1..] + b;
  }

  lemma Cancel(base: Path, q: Path, r: Path)
    requires base + q == base + r
    ensures q == r
  {
    Seqs.TakeConcat(base, q);
    Seqs.TakeConcat(base, r);
  }

  /** What is left of a relative path when it is joined to a base. */
  lemma JoinedTail(base: Path, q: Path) returns (q': Path)
    requires base != [] && !IsAbsolute(q)
    ensures Join(base, q) == base + q' && |JoinText(q')| <= |JoinText(q)|
  {
    if q != [] && q[0] == CurDir {
      q' := q[1..];
      Seqs.Split(q, 1);
      SuffixLength(q[..1], q');
    } else {
      q' := q;
    }
  }

  lemma RelativeMisses(base: Path, low: Path, rel: Path, q: Path)
    requires base != [] && !IsAbsolute(q) && |JoinText(q)| < |JoinText(rel)|
    ensures Join(base, q) != base + (low + rel)
  {
    var q' := JoinedTail(base, q);
    SuffixLength(low, rel);
    if base + q' == base + (low + rel) {
      Cancel(base, q', low + rel);
    }
  }

  /** No text shorter than a path's own resolves to that path from any directory above it. */
  lemma ShorterMisses(base: Path, low: Path, rel: Path, text: string)
    requires base != [] && |text| < |JoinText(rel)|
    ensures Join(base, Parse(text)) != base + (low + rel) && Parse(text) != base + (low + rel)
  {
    ParseLength(text);
    SuffixLength(low, rel);
    PrintLength(base, low + rel);
    if !IsAbsolute(Parse(text)) {
      RelativeMisses(base, low, rel, Parse(text));
    }
  }

  lemma {:induction false} TrimShortens(s: string)
    requires !Trimmed(s)
    ensures |Trim(s)| < |s|
    ensures Trim(s) != [] && !IsWhitespace(s[0]) ==> Trim(s)[0] == s[0]
  {
    TrimIff(s);
    TrimStartKeepsEnd(s);
    TrimEndKeepsStart(TrimStart(s));
  }

  lemma JoinedBelow(base: Path, q: Path)
    requires base != []
    ensures IsAbsolute(q) || base <= Join(base, q)
  {}

  lemma HomeMisses(roots: Roots, dir: Path)
    requires roots.Valid() && WellFormed(dir) && IsAbsolute(dir) && !Trimmed(roots.Label(dir))
    requires !(roots.workspace != [] && roots.workspace <= dir)
    requires roots.home.Some? && roots.home.value <= dir
    ensures roots.RootFor(Some(roots.Label(dir))) != dir
  {
    var h, rel, label' := roots.home.value, dir[|roots.home.value|..], roots.Label(dir);
    Seqs.Split(dir, |h|);
    SuffixWellFormed(dir, |h|);
    assert label' == "~/" + Print(rel);
    TrimShortens(label');
    TrimEndLeaves(label', 2);
    assert TrimStart(label') == label';
    HomeNamedMisses(roots, rel, Trim(label'));
  }

  lemma HomeNamedMisses(roots: Roots, rel: Path, t: string)
    requires roots.Valid() && roots.home.Some?
    requires "~/" <= t && |t| - 2 < |JoinText(rel)|
    ensures roots.Named(t) != roots.home.value + rel
  {
    assert [] + rel == rel;
    ShorterMisses(roots.home.value, [], rel, t[2..]);
    JoinedBelow(roots.home.value, Parse(t[2..]));
  }

  lemma PrintedMisses(roots: Roots, dir: Path)
    requires roots.Valid() && WellFormed(dir) && IsAbsolute(dir) && !Trimmed(roots.Label(dir))
    requires !(roots.workspace != [] && roots.workspace <= dir)
    requires !(roots.home.Some? && roots.home.value <= dir)
    ensures roots.RootFor(Some(roots.Label(dir))) != dir
  {
    TrimShortens(Print(dir));
    TrimEndLeaves(Print(dir), 1);
    ParseLength(Trim(Print(dir)));
  }

  lemma InHome(roots: Roots, dir: Path)
    requires roots.Valid() && WellFormed(dir) && IsAbsolute(dir) && Trimmed(roots.Label(dir))
    requires !(roots.workspace != [] && roots.workspace <= dir)
    requires roots.home.Some? && roots.home.value <= dir
    ensures roots.RootFor(Some(roots.Label(dir))) == dir
  {
    TrimIff(roots.Label(dir));
    var h, rel := roots.home.value, dir[|roots.home.value|..];
    assert dir == h + rel;
    if rel != [] {
      SuffixWellFormed(dir, |h|);
      ParsePrint(rel);
      assert ("~/" + Print(rel))[2..] == Print(rel);
    }
  }

  lemma Elsewhere(roots: Roots, dir: Path)
    requires roots.Valid() && WellFormed(dir) && IsAbsolute(dir) && Trimmed(roots.Label(dir))
    requires !(roots.workspace != [] && roots.workspace <= dir)
    requires !(roots.home.Some? && roots.home.value <= dir)
    ensures roots.RootFor(Some(roots.Label(dir))) == dir
  {
    TrimIff(roots.Label(dir));
    ParsePrint(dir);
    assert Print(dir)[0] == '/';
  }

  // Labels inside the workspace --------------------------------------------------------------------

  /** White space around a text with a slash is white space around its two parts. */
  lemma TrimSlash(x: string, rest: string)
    ensures Trim(x + "/" + rest) == TrimStart(x) + "/" + TrimEnd(rest)
  {
    TrimStartConcat(x, "/" + rest);
    Seqs.Assoc(x, "/", rest);
    assert TrimStart("/" + rest) == "/" + rest;
    Seqs.Assoc(TrimStart(x), "/", rest);
    assert TrimStart(x + "/" + rest) == TrimStart(x) + "/" + rest;
    TrimEndSlash(TrimStart(x), rest);
  }

  lemma TrimEndSlash(x: string, rest: string)
    ensures TrimEnd(x + "/" + rest) == x + "/" + TrimEnd(rest)
  {
    TrimEndConcat(x + "/", rest);
  }

  lemma PiecesFirst(c: Component, s: string, first: bool)
    requires c.Valid() && c != RootDir && c != CurDir
    ensures Pieces(c.Text() + "/" + s, first) == [c] + Pieces(s, false)
    ensures Pieces(c.Text(), first) == [c]
  {
    PiecesCons(c.Text(), s, first);
  }

  /** What trimming the end of its text makes of a path: only the last component can suffer. */
  function Shortened(p: Path, first: bool): Path
    requires p != []
  {
    p[..|p| - 1] + Piece(TrimEnd(p[|p| - 1].Text()), first && |p| == 1)
  }

  lemma ShortenedCons(p: Path, first: bool)
    requires |p| > 1
    ensures Shortened(p, first) == [p[0]] + Shortened(p[1..], false)
  {
    var n := |p| - 1;
    var tail := Piece(TrimEnd(p[n].Text()), false);
    assert p[1..][..n - 1] == p[1..n] && p[1..][n - 1] == p[n];
    Seqs.Assoc([p[0]], p[1..n], tail);
    assert p[..n] == [p[0]] + p[1..n];
  }

  lemma {:induction false} TrimmedPieces(p: Path, first: bool)
    requires WellFormed(p) && p != [] && !IsAbsolute(p) && p[0] != CurDir
    ensures Pieces(TrimEnd(JoinText(p)), first) == Shortened(p, first)
  {
    if |p| == 1 {
      OnePiece(p[0], first);
      assert p[..0] == [];
    } else {
      assert p[1..][0] == p[1];
      TrimmedPieces(p[1..], false);
      FirstPiece(p, first);
      ShortenedCons(p, first);
    }
  }

  lemma FirstPiece(p: Path, first: bool)
    requires |p| > 1 && p[0].Valid() && p[0] != RootDir && p[0] != CurDir
    ensures Pieces(TrimEnd(JoinText(p)), first) == [p[0]] + Pieces(TrimEnd(JoinText(p[1..])), false)
  {
    TrimEndSlash(p[0].Text(), JoinText(p[1..]));
    PiecesFirst(p[0], TrimEnd(JoinText(p[1..])), first);
  }

  lemma OnePiece(c: Component, first: bool)
    requires c.Valid()
    ensures Pieces(TrimEnd(c.Text()), first) == Piece(TrimEnd(c.Text()), first)
  {
    TrimEndKeepsStart(c.Text());
    PiecesCons(TrimEnd(c.Text()), "", first);
  }

  /** What a trimmed label looks like when it opens with a `~`. */
  lemma TildeShape(rel: Path)
    requires WellFormed(rel) && rel != [] && !IsAbsolute(rel) && rel[0] != CurDir
    ensures var t := Trim(JoinText(rel));
      && (|rel| == 1 ==> t == Trim(rel[0].Text()) && !("~/" <= t))
      && (|rel| > 1 ==>
            && t != "~" && (TrimStart(rel[0].Text()) == "~" <==> "~/" <= t)
            && ("~/" <= t ==> t[2..] == TrimEnd(JoinText(rel[1..]))))
  {
    if |rel| == 1 {
      TrimmedNoSlash(rel[0].Text());
    } else {
      TildeMore(rel[0].Text(), JoinText(rel[1..]));
    }
  }

  lemma TrimmedNoSlash(x: string)
    requires '/' !in x
    ensures !("~/" <= Trim(x))
  {
    TrimStartKeepsEnd(x);
    TrimEndKeepsStart(TrimStart(x));
    assert forall c :: c in Trim(x) ==> c in x;
    NoSlash(Trim(x));
  }

  lemma NoSlash(t: string)
    requires '/' !in t
    ensures !("~/" <= t)
  {
    assert |t| > 1 ==> t[1] in t;
  }

  lemma TildeMore(x: string, rest: string)
    requires '/' !in x
    ensures var t := Trim(x + "/" + rest);
      && t != "~" && (TrimStart(x) == "~" <==> "~/" <= t)
      && ("~/" <= t ==> t[2..] == TrimEnd(rest))
  {
    TrimSlash(x, rest);
    TrimStartKeepsEnd(x);
    if TrimStart(x) == "" {
      assert Trim(x + "/" + rest)[0] == '/';
    } else {
      TildePrefix(TrimStart(x), TrimEnd(rest));
    }
  }

  /** What home with the rest of the label names. */
  lemma HomeJoins(home: Path, p: Path)
    requires IsAbsolute(home) && WellFormed(p) && p != [] && !IsAbsolute(p) && p[0] != CurDir
    ensures Join(home, Parse(TrimEnd(JoinText(p))))
         == home + (p[..|p| - 1] + Piece(TrimEnd(p[|p| - 1].Text()), false))
  {
    ParseTrimmed(p);
    JoinPieces(home, p[..|p| - 1], TrimEnd(p[|p| - 1].Text()));
  }

  lemma ParseTrimmed(p: Path)
    requires WellFormed(p) && p != [] && !IsAbsolute(p) && p[0] != CurDir
    ensures var m := |p| - 1;
      Parse(TrimEnd(JoinText(p))) == p[..m] + Piece(TrimEnd(p[m].Text()), p[..m] == [])
  {
    TrimEndKeepsStart(JoinText(p));
    assert JoinText(p)[0] == p[0].Text()[0] && p[0].Text()[0] in p[0].Text();
    TrimmedPieces(p, true);
  }

  lemma JoinPieces(home: Path, front: Path, cut: string)
    requires IsAbsolute(home) && (front != [] ==> front[0] != RootDir && front[0] != CurDir)
    ensures Join(home, front + Piece(cut, front == [])) == home + (front + Piece(cut, false))
  {
    if front == [] {
      assert [] + Piece(cut, true) == Piece(cut, true) && [] + Piece(cut, false) == Piece(cut, false);
    }
  }

  /** When that is the directory the label was made from. */
  lemma HomeNames(home: Path, ws: Path, rel: Path)
    requires WellFormed(rel) && |rel| > 1 && !IsAbsolute(rel) && rel[0] != CurDir
    ensures var m, last := |rel| - 1, rel[|rel| - 1].Text();
      home + (rel[1..m] + Piece(TrimEnd(last), false)) == ws + rel <==> MakesUp(home, ws, rel)
  {
    var m := |rel| - 1;
    var last := rel[m].Text();
    var cut := TrimEnd(last);
    if cut == last {
      assert Piece(last, false) == [rel[m]];
      assert rel[1..m] + [rel[m]] == rel[1..];
      HomeFirst(home, ws, rel);
    } else if cut == "" || cut == "." {
      assert rel[1..m] + [] == rel[1..m];
      HomeSecond(home, ws, rel);
    } else {
      var tail := Piece(cut, false);
      assert |tail| == 1 && tail[0].Text() == cut;
      Seqs.ConcatInit(home, rel[1..m] + tail);
      Seqs.ConcatInit(ws, rel);
    }
  }

  lemma HomeFirst(home: Path, ws: Path, rel: Path)
    requires rel != []
    ensures home + rel[1..] == ws + rel <==> home == ws + rel[..1]
  {
    Seqs.Split(rel, 1);
    Seqs.Assoc(ws, rel[..1], rel[1..]);
    SameTail(home, ws + rel[..1], rel[1..]);
  }

  lemma SameTail(a: Path, b: Path, tail: Path)
    ensures a + tail == b + tail <==> a == b
  {
    Seqs.TakeConcat(a, tail);
    Seqs.TakeConcat(b, tail);
    assert |a + tail| == |a| + |tail| && |b + tail| == |b| + |tail|;
  }

  lemma HomeSecond(home: Path, ws: Path, rel: Path)
    requires |rel| > 1
    ensures home + rel[1..|rel| - 1] == ws + rel
       <==> home == ws + rel[..2] && forall i :: 1 <= i < |rel| - 1 ==> rel[i] == rel[i + 1]
  {
    var m := |rel| - 1;
    var low, high := rel[1..m], rel[2..];
    assert |low| == |high| && forall i :: 0 <= i < |low| ==> low[i] == rel[i + 1] && high[i] == rel[i + 2];
    assert low == high <==> forall i :: 1 <= i < m ==> rel[i] == rel[i + 1] by {
      if low == high {
        forall i | 1 <= i < m ensures rel[i] == rel[i + 1] {
          assert low[i - 1] == high[i - 1];
        }
      }
    }
    Seqs.Split(rel, 2);
    Seqs.Assoc(ws, rel[..2], high);
    SameParts(home, low, ws + rel[..2], high);
  }

  lemma SameParts(a: Path, x: Path, b: Path, y: Path)
    requires |x| == |y|
    ensures a + x == b + y <==> a == b && x == y
  {
    Seqs.TakeConcat(a, x);
    Seqs.TakeConcat(b, y);
    assert |a + x| == |a| + |x| && |b + y| == |b| + |y|;
  }

  lemma TildeNamed(roots: Roots, dir: Path)
    requires roots.Valid() && WellFormed(dir) && IsAbsolute(dir)
    requires roots.TildeRead(dir) && roots.home.Some?
    ensures roots.RootFor(Some(roots.Label(dir))) == dir <==> roots.HomeMakesUp(dir)
  {
    WorkspaceLabel(roots, dir);
    TildeShape(dir[|roots.workspace|..]);
    if |dir| == |roots.workspace| + 1 {
      OneNamed(roots, dir);
    } else {
      ManyNamed(roots, dir, Trim(roots.Label(dir)));
    }
  }

  lemma OneNamed(roots: Roots, dir: Path)
    requires roots.Valid() && roots.home.Some? && |dir| == |roots.workspace| + 1 && roots.TildeRead(dir)
    ensures roots.Named("~") == dir <==> roots.HomeMakesUp(dir)
  {
    var rel := dir[|roots.workspace|..];
    assert rel[..1] == rel;
    Seqs.Split(dir, |roots.workspace|);
  }

  lemma ManyNamed(roots: Roots, dir: Path, t: string)
    requires roots.Valid() && WellFormed(dir) && IsAbsolute(dir) && roots.home.Some?
    requires |dir| > |roots.workspace| + 1 && roots.TildeRead(dir)
    requires "~/" <= t && t[2..] == TrimEnd(JoinText(dir[|roots.workspace|..][1..]))
    ensures roots.Named(t) == dir <==> roots.HomeMakesUp(dir)
  {
    var n := |roots.workspace|;
    var rel := dir[n..];
    assert dir == roots.workspace + rel by {
      Seqs.Split(dir, n);
    }
    SuffixWellFormed(dir, n);
    assert WellFormed(rel[1..]) && !IsAbsolute(rel[1..]) && rel[1..][0] != CurDir by {
      SuffixWellFormed(dir, n + 1);
      assert rel[1..] == dir[n + 1..];
    }
    TildeMoreNamed(roots, rel, t);
  }

  /** The label of a directory inside the workspace, as an argument. */
  lemma WorkspaceLabel(roots: Roots, dir: Path)
    requires roots.Valid() && WellFormed(dir) && roots.workspace != [] && roots.workspace < dir
    ensures var rel := dir[|roots.workspace|..]; var t := Trim(JoinText(rel));
      && dir == roots.workspace + rel && WellFormed(rel) && rel != [] && !IsAbsolute(rel) && rel[0] != CurDir
      && roots.Label(dir) == JoinText(rel)
      && roots.RootFor(Some(roots.Label(dir))) == if t == "" then roots.workspace else roots.Named(t)
  {
    Seqs.Split(dir, |roots.workspace|);
    SuffixWellFormed(dir, |roots.workspace|);
  }

  lemma TildeMoreNamed(roots: Roots, rel: Path, t: string)
    requires roots.Valid() && roots.home.Some?
    requires WellFormed(rel) && |rel| > 1 && !IsAbsolute(rel) && rel[0] != CurDir
    requires WellFormed(rel[1..]) && !IsAbsolute(rel[1..]) && rel[1..][0] != CurDir
    requires "~/" <= t && t[2..] == TrimEnd(JoinText(rel[1..]))
    ensures roots.Named(t) == roots.workspace + rel <==> MakesUp(roots.home.value, roots.workspace, rel)
  {
    HomeJoins(roots.home.value, rel[1..]);
    HomeNames(roots.home.value, roots.workspace, rel);
    assert rel[1..][..|rel| - 2] == rel[1..|rel| - 1];
    JoinAbsolute(roots.home.value, Parse(t[2..]));
  }

  lemma JoinAbsolute(base: Path, q: Path)
    requires IsAbsolute(base)
    ensures IsAbsolute(Join(base, q))
  {}

  /** A label that is not read as a `~` names what its trimmed text names below the workspace. */
  lemma PlainNamed(roots: Roots, rel: Path, t: string)
    requires roots.workspace != [] && WellFormed(rel) && rel != [] && !IsAbsolute(rel) && rel[0] != CurDir
    requires t != "" && t != "~" && (roots.home.None? || !("~/" <= t))
    requires t == Trim(JoinText(rel))
    ensures roots.Named(t) == roots.workspace + rel <==> Trimmed(JoinText(rel))
  {
    TrimIff(JoinText(rel));
    if Trimmed(JoinText(rel)) {
      ParsePrint(rel);
    } else {
      TrimShortens(JoinText(rel));
      assert [] + rel == rel;
      ShorterMisses(roots.workspace, [], rel, t);
    }
  }

  lemma InWorkspace(roots: Roots, dir: Path)
    requires roots.Valid() && WellFormed(dir) && IsAbsolute(dir)
    requires roots.workspace != [] && roots.workspace < dir && !(roots.TildeRead(dir) && roots.home.Some?)
    ensures roots.RootFor(Some(roots.Label(dir))) == dir <==> roots.ReadsBack(dir)
  {
    var ws, rel := roots.workspace, dir[|roots.workspace|..];
    WorkspaceLabel(roots, dir);
    TildeShape(rel);
    TextTilde(rel);
    var t := Trim(JoinText(rel));
    TrimIff(JoinText(rel));
    if t != "" && t != "~" {
      PlainNamed(roots, rel, t);
    } else {
      assert Join(ws, []) == ws;
    }
  }

  /** Re-resolving a root's label names the root again exactly when the label has no outer
      white space and is not read as a `~`, or home makes up for that: for every root, every
      workspace and every home. */
  lemma LabelRoundTrip(roots: Roots, dir: Path)
    requires roots.Valid() && WellFormed(dir) && IsAbsolute(dir)
    ensures roots.RootFor(Some(roots.Label(dir))) == dir <==> roots.ReadsBack(dir)
  {
    if roots.workspace != [] && roots.workspace <= dir {
      if roots.workspace == dir {
        WorkspaceItself(roots);
      } else if roots.TildeRead(dir) && roots.home.Some? {
        TildeNamed(roots, dir);
      } else {
        InWorkspace(roots, dir);
      }
    } else if roots.home.Some? && roots.home.value <= dir {
      if Trimmed(roots.Label(dir)) {
        InHome(roots, dir);
      } else {
        HomeMisses(roots, dir);
      }
    } else if Trimmed(roots.Label(dir)) {
      Elsewhere(roots, dir);
    } else {
      PrintedMisses(roots, dir);
    }
  }

  lemma HomeTooShort(home: Path, ws: Path, rel: Path)
    requires rel != [] && |home| <= |ws|
    ensures !MakesUp(home, ws, rel)
  {}

  /** A root that does not read back: `x` in a workspace directory called `~` is taken for `x`
      in the home directory. */
  lemma TildeFails(roots: Roots)
    requires roots == Roots([RootDir, Normal("w")], Some([RootDir, Normal("h")]))
    ensures var dir := [RootDir, Normal("w"), Normal("~"), Normal("x")];
      roots.Valid() && WellFormed(dir) && roots.RootFor(Some(roots.Label(dir))) != dir
  {
    var dir, rel := [RootDir, Normal("w"), Normal("~"), Normal("x")], [Normal("~"), Normal("x")];
    assert dir[2..] == rel && dir[..2] == roots.workspace;
    assert TrimStart("~") == "~";
    HomeTooShort(roots.home.value, roots.workspace, rel);
    LabelRoundTrip(roots, dir);
  }

  /** Another one: the space in front of a directory's name is trimmed off its label. */
  lemma SpaceFails(roots: Roots)
    requires roots == Roots([RootDir, Normal("w")], Some([RootDir, Normal("h")]))
    ensures var dir := [RootDir, Normal("w"), Normal(" a")];
      roots.Valid() && WellFormed(dir) && roots.RootFor(Some(roots.Label(dir))) != dir
  {
    var dir, rel := [RootDir, Normal("w"), Normal(" a")], [Normal(" a")];
    assert dir[2..] == rel && dir[..2] == roots.workspace;
    HomeTooShort(roots.home.value, roots.workspace, rel);
    WorkspaceLabel(roots, dir);
    assert JoinText(rel) == " a" && !Trimmed(" a");
    LabelRoundTrip(roots, dir);
  }

  lemma WorkspaceItself(roots: Roots)
    requires roots.workspace != []
    ensures roots.RootFor(Some(roots.Label(roots.workspace))) == roots.workspace
    ensures roots.ReadsBack(roots.workspace)
  {
    TrimIff(".");
    assert Head(".") == ".";
    assert Parse(".") == [CurDir];
    assert roots.workspace + [] == roots.workspace;
  }

  /** How the roots are titled: the workspace as a dot, what is in it by the way from there, home
      and what is in it behind a `~`, and anything else in full. */
  lemma LabelShows(roots: Roots, rel: Path, other: Path)
    requires roots.Valid() && rel != [] && !IsAbsolute(rel)
    ensures roots.workspace != [] ==>
      && roots.Label(roots.workspace) == "." && roots.Label(roots.workspace + rel) == JoinText(rel)
    ensures roots.home.Some? && !(roots.workspace != [] && roots.workspace <= roots.home.value) ==>
      roots.Label(roots.home.value) == "~"
    ensures roots.home.Some? && !(roots.workspace != [] && roots.workspace <= roots.home.value + rel) ==>
      roots.Label(roots.home.value + rel) == "~/" + JoinText(rel)
    ensures !(roots.workspace != [] && roots.workspace <= other) && !(roots.home.Some? && roots.home.value <= other) ==>
      roots.Label(other) == Print(other)
  {
    Seqs.TakeConcat(roots.workspace, rel);
    if roots.home.Some? {
      Seqs.TakeConcat(roots.home.value, rel);
    }
  }

  lemma ArgumentRead(roots: Roots, lead: string, arg: string, trail: string)
    requires AllSpace(lead) && AllSpace(trail) && Trimmed(arg) && arg != ""
    ensures roots.RootFor(Some(lead + arg + trail)) == roots.Named(arg)
  {
    TrimAround(lead, arg, trail);
  }

  /** What an argument names, whatever white space is around it: without one, the workspace; a `~`,
      home, */
  lemma HomeArgument(roots: Roots, lead: string, trail: string)
    requires roots.Valid() && AllSpace(lead) && AllSpace(trail)
    ensures roots.RootFor(None) == roots.RootFor(Some(lead)) == roots.workspace
    ensures roots.home.Some? ==> roots.RootFor(Some(lead + "~" + trail)) == roots.home.value
  {
    TrimSpace(lead);
    ArgumentRead(roots, lead, "~", trail);
  }

  /** what follows a `~`, the way from home; an absolute path itself, and a relative one the way from
      the workspace. */
  lemma PathArgument(roots: Roots, lead: string, p: Path, trail: string)
    requires roots.Valid() && AllSpace(lead) && AllSpace(trail)
    requires WellFormed(p) && p != [] && p[0] != CurDir
    ensures Trimmed(Print(p)) && p[0] != Normal("~") ==>
      roots.RootFor(Some(lead + Print(p) + trail)) == if IsAbsolute(p) then p else roots.workspace + p
    ensures roots.home.Some? && !IsAbsolute(p) && Trimmed("~/" + JoinText(p)) ==>
      roots.RootFor(Some(lead + ("~/" + JoinText(p)) + trail)) == roots.home.value + p
  {
    if Trimmed(Print(p)) && p[0] != Normal("~") {
      PlainArgument(roots, p);
      ArgumentRead(roots, lead, Print(p), trail);
    }
    if !IsAbsolute(p) && Trimmed("~/" + JoinText(p)) {
      HomePathNamed(roots, p);
      ArgumentRead(roots, lead, "~/" + JoinText(p), trail);
    }
  }

  lemma PlainArgument(roots: Roots, p: Path)
    requires WellFormed(p) && p != [] && p[0] != CurDir && p[0] != Normal("~")
    ensures Print(p) != "" && roots.Named(Print(p)) == if IsAbsolute(p) then p else roots.workspace + p
  {
    ParsePrint(p);
    NoTilde(p);
    assert [] + p == p;
  }

  lemma NoTilde(p: Path)
    requires WellFormed(p) && p != [] && p[0] != Normal("~")
    ensures Print(p) != "" && Print(p) != "~" && !("~/" <= Print(p))
  {
    if !IsAbsolute(p) {
      TextTilde(p);
    }
  }

  lemma HomePathNamed(roots: Roots, p: Path)
    requires roots.Valid() && WellFormed(p) && p != [] && p[0] != CurDir && !IsAbsolute(p)
    ensures roots.home.Some? ==> roots.Named("~/" + JoinText(p)) == roots.home.value + p
  {
    ParsePrint(p);
    assert ("~/" + JoinText(p))[2..] == JoinText(p);
  }
}
