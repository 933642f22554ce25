/** POSIX path resolution as done by Node's `path.resolve`, on paths kept as
    sequences of segments. An absolute path is the list of its segments below
    the root `/`; the root itself is the empty sequence. */
module Paths {

  type Path = seq<string>

  /** A segment of a normalised path: not empty, not `.` or `..`, and free of `/`. */
  predicate IsSegment(s: string) {
    s != "" && s != "." && s != ".." && '/' !in s
  }

  /** A normalised absolute path: every segment is a proper one. */
  predicate IsNormal(p: Path) {
    forall i :: 0 <= i < |p| ==> IsSegment(p[i])
  }

  /** `target` is `root` itself or lies below it: `root` is a segment-prefix of `target`. */
  predicate IsWithin(root: Path, target: Path) {
    |root| <= |target| && target[..|root|] == root
  }

  /** Splits a string at every `/`; the pieces between slashes, possibly empty. */
  function Split(s: string): (parts: seq<string>)
    ensures |parts| >= 1
    ensures forall i :: 0 <= i < |parts| ==> '/' !in parts[i]
    ensures '/' !in s ==> parts == [s]
    decreases |s|
  {
    if |s| == 0 then [""]
    else
      var rest := Split(s[1..]);
      assert s == [s[0]] + s[1..];
      if s[0] == '/' then [""] + rest
      else [[s[0]] + rest[0]] + rest[1..]
  }

  /** Puts the pieces back together with a `/` between each two. */
  function Join(parts: seq<string>): string
    decreases |parts|
  {
    if |parts| == 0 then ""
    else if |parts| == 1 then parts[0]
    else parts[0] + "/" + Join(parts[1..])
  }

  /** One normalisation step: empty pieces and `.` are skipped, `..` drops the
      last segment (and does nothing at the root), anything else is appended. */
  function Step(p: Path, piece: string): Path {
    if piece == "" || piece == "." then p
    else if piece == ".." then (if p == [] then [] else p[..|p| - 1])
    else p + [piece]
  }

  /** Applies `Step` to the pieces from left to right, starting at `start`. */
  function Normalize(start: Path, pieces: seq<string>): (r: Path)
    requires forall i :: 0 <= i < |pieces| ==> '/' !in pieces[i]
    ensures IsNormal(start) ==> IsNormal(r)
    decreases |pieces|
  {
    if pieces == [] then start
    else Normalize(Step(start, pieces[0]), pieces[1..])
  }

  predicate IsAbsolute(p: string) {
    |p| > 0 && p[0] == '/'
  }

  /** `path.resolve(base, p)` for an already resolved absolute `base`: an
      absolute `p` starts again from the root, a relative one from `base`. */
  function Resolve(base: Path, p: string): (r: Path)
    ensures IsNormal(base) ==> IsNormal(r)
    ensures IsAbsolute(p) ==> IsNormal(r)
  {
    Normalize(if IsAbsolute(p) then [] else base, Split(p))
  }

  /** The printed form of an absolute path: `/` followed by the segments joined with `/`. */
  function Format(p: Path): string {
    "/" + Join(p)
  }

  // ---------------------------------------------------------------- lemmas

  /** Containment is exactly "the target is the root followed by more segments". */
  lemma {:induction false} WithinIff(root: Path, target: Path)
    ensures IsWithin(root, target) <==> exists rest: Path :: target == root + rest
  {
    if IsWithin(root, target) {
      assert target == root + target[|root|..];
    }
    if exists rest: Path :: target == root + rest {
      var rest: Path :| target == root + rest;
      assert target[..|root|] == root;
    }
  }

  lemma WithinTransitive(a: Path, b: Path, c: Path)
    requires IsWithin(a, b) && IsWithin(b, c)
    ensures IsWithin(a, c)
  {
  }

  /** Splitting at a slash that was put between two strings splits both halves. */
  lemma {:induction false} SplitConcat(a: string, b: string)
    ensures Split(a + "/" + b) == Split(a) + Split(b)
    decreases |a|
  {
    if |a| == 0 {
      assert a + "/" + b == "/" + b;
      assert ("/" + b)[1..] == b;
    } else {
      var s := a + "/" + b;
      assert s[0] == a[0];
      assert s[1..] == a[1..] + "/" + b;
      SplitConcat(a[1..], b);
    }
  }

  /** Joining a first piece onto at least one more puts a slash between them. */
  lemma JoinCons(first: string, rest: seq<string>)
    requires |rest| >= 1
    ensures Join([first] + rest) == first + "/" + Join(rest)
  {
    assert ([first] + rest)[1..] == rest;
  }

  /** Joining what was split gives back the string. */
  lemma {:induction false} JoinSplit(s: string)
    ensures Join(Split(s)) == s
    decreases |s|
  {
    if |s| > 0 {
      JoinSplit(s[1..]);
      var rest := Split(s[1..]);
      assert s == [s[0]] + s[1..];
      if s[0] == '/' {
        assert Split(s) == [""] + rest;
        JoinCons("", rest);
      } else {
        assert Split(s) == [[s[0]] + rest[0]] + rest[1..];
        if |rest| > 1 {
          assert rest == [rest[0]] + rest[1..];
          JoinCons(rest[0], rest[1..]);
          JoinCons([s[0]] + rest[0], rest[1..]);
        }
      }
    }
  }

  /** Splitting what was joined gives back the pieces, when none holds a slash. */
  lemma {:induction false} SplitJoin(parts: seq<string>)
    requires |parts| >= 1
    requires forall i :: 0 <= i < |parts| ==> '/' !in parts[i]
    ensures Split(Join(parts)) == parts
    decreases |parts|
  {
    if |parts| > 1 {
      SplitJoin(parts[1..]);
      SplitConcat(parts[0], Join(parts[1..]));
      assert parts == [parts[0]] + parts[1..];
    }
  }

  /** Normalising proper segments only appends them. */
  lemma {:induction false} NormalizeSegments(start: Path, pieces: seq<string>)
    requires IsNormal(pieces)
    ensures Normalize(start, pieces) == start + pieces
    decreases |pieces|
  {
    if pieces != [] {
      NormalizeSegments(start + [pieces[0]], pieces[1..]);
      assert start + [pieces[0]] + pieces[1..] == start + pieces;
    }
  }

  /** Without any `..` piece, normalisation never leaves the starting directory. */
  lemma {:induction false} NormalizeStaysWithin(start: Path, pieces: seq<string>)
    requires forall i :: 0 <= i < |pieces| ==> '/' !in pieces[i] && pieces[i] != ".."
    ensures IsWithin(start, Normalize(start, pieces))
    decreases |pieces|
  {
    if pieces != [] {
      var next := Step(start, pieces[0]);
      assert IsWithin(start, next);
      NormalizeStaysWithin(next, pieces[1..]);
      WithinTransitive(start, next, Normalize(next, pieces[1..]));
    }
  }

  /** A relative path with no `..` piece resolves inside its base. */
  lemma ResolveRelativeStaysWithin(base: Path, p: string)
    requires !IsAbsolute(p)
    requires forall i :: 0 <= i < |Split(p)| ==> Split(p)[i] != ".."
    ensures IsWithin(base, Resolve(base, p))
  {
    NormalizeStaysWithin(base, Split(p));
  }

  /** Resolution through a known split of the path into pieces. */
  lemma ResolvePieces(base: Path, p: string, pieces: seq<string>)
    requires |pieces| >= 1 && forall i :: 0 <= i < |pieces| ==> '/' !in pieces[i]
    requires Join(pieces) == p
    ensures Resolve(base, p) == Normalize(if IsAbsolute(p) then [] else base, pieces)
  {
    SplitJoin(pieces);
  }

  /** A plain name resolves to the child of that name. */
  lemma ResolveName(base: Path, name: string)
    requires IsSegment(name)
    ensures Resolve(base, name) == base + [name]
  {
    NormalizeSegments(base, [name]);
  }

  /** An absolute path resolves the same way whatever the base. */
  lemma ResolveAbsolute(base1: Path, base2: Path, p: string)
    requires IsAbsolute(p)
    ensures Resolve(base1, p) == Resolve(base2, p)
  {
  }

  /** Resolving the printed form of a normalised path gives the path back. */
  lemma {:induction false} ResolveFormat(base: Path, p: Path)
    requires IsNormal(p)
    ensures Resolve(base, Format(p)) == p
  {
    var s := Format(p);
    assert s == "" + "/" + Join(p);
    SplitConcat("", Join(p));
    if p == [] {
      assert Split(s) == ["", ""];
      assert Split(s)[1..] == [""] && [""][1..] == [];
      assert Normalize([], [""]) == [];
      assert Normalize([], ["", ""]) == [];
    } else {
      SplitJoin(p);
      assert Split(s) == [""] + p;
      assert Split(s)[1..] == p;
      NormalizeSegments([], p);
    }
  }

  /** Resolution is idempotent: resolving its printed result changes nothing. */
  lemma ResolveIdempotent(base: Path, other: Path, p: string)
    requires IsNormal(base)
    ensures Resolve(other, Format(Resolve(base, p))) == Resolve(base, p)
  {
    ResolveFormat(other, Resolve(base, p));
  }
}
