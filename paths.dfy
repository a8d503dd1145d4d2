/** POSIX pathlib, lexically: parsing a string into a path, `/` (joining),
    `resolve()` without symlinks, `.parents`, `relative_to`, `.name`,
    `.suffix` and `as_posix()`. */
module Paths {
  import opened Wrappers
  import opened Text

  /** A PurePosixPath: whether it has the root `/`, and its parts. Parsing
      drops empty parts and `.` parts; `..` parts stay until resolution. */
  datatype Path = Path(absolute: bool, parts: seq<string>)

  /** A part as a parsed path holds it. */
  predicate IsPart(x: string) {
    x != [] && x != "." && '/' !in x
  }

  /** A resolved part: neither empty, `.` nor `..`. */
  predicate IsPlainPart(x: string) {
    x != [] && x != "." && x != ".."
  }

  predicate AllPlain(ps: seq<string>) {
    forall k :: 0 <= k < |ps| ==> IsPlainPart(ps[k])
  }

  /** The pieces of a split path string that pathlib keeps: exactly the
      non-empty pieces other than `.`, in order (KeptPiecesAppend). */
  function KeptPieces(pieces: seq<string>): (r: seq<string>)
    ensures forall k :: 0 <= k < |r| ==> r[k] in pieces && r[k] != [] && r[k] != "."
    ensures forall x :: x in r <==> x in pieces && x != [] && x != "."
  {
    if pieces == [] then []
    else (if pieces[0] == [] || pieces[0] == "." then [] else [pieces[0]]) + KeptPieces(pieces[1..])
  }

  /** Path(s): the parts are the non-empty pieces between slashes other
      than `.`. A leading `//` is treated like `/`. */
  function Parse(s: string): (p: Path)
    ensures p.absolute <==> StartsWith(s, "/")
    ensures forall k :: 0 <= k < |p.parts| ==> IsPart(p.parts[k])
    ensures p.parts == KeptPieces(Split(s, '/'))
    ensures forall x :: x in p.parts <==> x in Split(s, '/') && x != [] && x != "."
  {
    Path(StartsWith(s, "/"), KeptPieces(Split(s, '/')))
  }

  /** Keeping pieces works piece by piece, so the kept pieces stay in their order. */
  lemma {:induction false} KeptPiecesAppend(a: seq<string>, b: seq<string>)
    ensures KeptPieces(a + b) == KeptPieces(a) + KeptPieces(b)
  {
    if a != [] {
      assert (a + b)[1..] == a[1..] + b;
      KeptPiecesAppend(a[1..], b);
    } else {
      assert a + b == b;
    }
  }

  /** as_posix() (the same as str() on POSIX). */
  function AsPosix(p: Path): string {
    if p.absolute then "/" + Join(p.parts, '/')
    else if p.parts == [] then "."
    else Join(p.parts, '/')
  }

  lemma {:induction false} KeptPiecesOfParts(ps: seq<string>)
    requires forall k :: 0 <= k < |ps| ==> IsPart(ps[k])
    ensures KeptPieces(ps) == ps
  {
    if ps != [] {
      KeptPiecesOfParts(ps[1..]);
      assert [ps[0]] + ps[1..] == ps;
    }
  }

  lemma JoinStartsWithFirst(parts: seq<string>, sep: char)
    requires |parts| >= 1 && parts[0] != []
    ensures |Join(parts, sep)| > 0 && Join(parts, sep)[0] == parts[0][0]
  {
  }

  lemma StartsWithSlash(s: string)
    ensures StartsWith(s, "/") <==> |s| > 0 && s[0] == '/'
  {
    if |s| > 0 && s[0] == '/' {
      assert s[0..1] == "/";
    }
  }

  /** Rendering a parsed path and parsing it again gives the same path. */
  lemma ParseAsPosix(p: Path)
    requires forall k :: 0 <= k < |p.parts| ==> IsPart(p.parts[k])
    ensures Parse(AsPosix(p)) == p
  {
    var s := AsPosix(p);
    StartsWithSlash(s);
    if p.parts == [] {
      if p.absolute {
        assert s == [] + ['/'] + [];
        SplitAtSep([], [], '/');
        SplitNoSep([], '/');
      } else {
        SplitNoSep(".", '/');
      }
    } else {
      SplitJoin(p.parts, '/');
      KeptPiecesOfParts(p.parts);
      if p.absolute {
        assert s == [] + ['/'] + Join(p.parts, '/');
        SplitAtSep([], Join(p.parts, '/'), '/');
        assert ([[]] + p.parts)[1..] == p.parts;
      } else {
        JoinStartsWithFirst(p.parts, '/');
      }
    }
  }

  /** `.name`: the final part, empty for `/` and `.`. */
  function Name(p: Path): string {
    if p.parts == [] then [] else p.parts[|p.parts| - 1]
  }

  /** str.rfind(c) for one character. */
  function FindLast(s: string, c: char): (r: Option<nat>)
    ensures r.Some? ==> r.value < |s| && s[r.value] == c && c !in s[r.value + 1..]
    ensures r.None? ==> c !in s
  {
    if s == [] then None
    else if s[|s| - 1] == c then Some(|s| - 1)
    else
      var r := FindLast(s[..|s| - 1], c);
      assert s == s[..|s| - 1] + [s[|s| - 1]];
      r
  }

  /** `.suffix`: from the last dot of the name, unless that dot starts or ends
      the name; it is non-empty exactly when the name has such a last dot. */
  function Suffix(p: Path): (r: string)
    ensures r == [] || (2 <= |r| < |Name(p)| && r[0] == '.' && '.' !in r[1..] && EndsWith(Name(p), r))
    ensures r != [] <==> exists i :: 0 < i < |Name(p)| - 1 && Name(p)[i] == '.' && '.' !in Name(p)[i + 1..]
  {
    var name := Name(p);
    match FindLast(name, '.')
    case Some(i) => if 0 < i < |name| - 1 then name[i..] else []
    case None => []
  }

  /** `base / rel`: joining with an absolute path discards the base. */
  function JoinPath(base: Path, rel: Path): (r: Path)
    ensures rel.absolute ==> r == rel
    ensures !rel.absolute ==> r.absolute == base.absolute && r.parts == base.parts + rel.parts
  {
    if rel.absolute then rel else Path(base.absolute, base.parts + rel.parts)
  }

  /** Joining a relative path onto a base and taking it relative to that
      base gives the relative path back. */
  lemma RelativeToJoin(base: Path, rel: Path)
    requires !rel.absolute
    ensures RelativeTo(JoinPath(base, rel), base) == Some(rel)
  {
    var joined := JoinPath(base, rel);
    assert joined.parts[..|base.parts|] == base.parts;
    assert joined.parts[|base.parts|..] == rel.parts;
  }

  /** The lexical part of os.path.realpath on absolute parts: empty and `.`
      parts vanish, `..` drops the previous part and stays put at the root. */
  function Normalize(ps: seq<string>): (r: seq<string>)
    ensures AllPlain(r)
    ensures |r| <= |ps|
  {
    if ps == [] then []
    else
      var head := Normalize(ps[..|ps| - 1]);
      var last := ps[|ps| - 1];
      if last == ".." then (if head == [] then [] else head[..|head| - 1])
      else if last == [] || last == "." then head
      else head + [last]
  }

  /** `resolve()`: a relative path is taken from the working directory `cwd`.
      Symbolic links are not followed. */
  function Resolve(p: Path, cwd: seq<string>): seq<string> {
    Normalize(if p.absolute then p.parts else cwd + p.parts)
  }

  /** `.parents` of an absolute path, nearest first: every proper prefix. */
  function Parents(parts: seq<string>): (r: seq<seq<string>>)
    ensures |r| == |parts|
  {
    if parts == [] then []
    else [parts[..|parts| - 1]] + Parents(parts[..|parts| - 1])
  }

  /** `a` is a strict ancestor of `b`. */
  predicate StrictlyUnder(a: seq<string>, b: seq<string>) {
    |a| < |b| && b[..|a|] == a
  }

  /** Membership in `.parents` is exactly being a strict ancestor. */
  lemma {:induction false} ParentsAreStrictAncestors(a: seq<string>, b: seq<string>)
    ensures a in Parents(b) <==> StrictlyUnder(a, b)
  {
    if b != [] {
      var up := b[..|b| - 1];
      ParentsAreStrictAncestors(a, up);
      assert Parents(b) == [up] + Parents(up);
      if StrictlyUnder(a, b) && a != up {
        assert |a| < |up|;
        assert up[..|a|] == b[..|a|];
      }
      if StrictlyUnder(a, up) {
        assert b[..|a|] == up[..|a|];
      }
    }
  }

  /** Appending plain parts to a path just extends its normal form. */
  lemma {:induction false} NormalizeAppend(a: seq<string>, b: seq<string>)
    requires AllPlain(b)
    ensures Normalize(a + b) == Normalize(a) + b
  {
    if b != [] {
      var b' := b[..|b| - 1];
      assert (a + b)[..|a + b| - 1] == a + b';
      NormalizeAppend(a, b');
    } else {
      assert a + b == a;
    }
  }

  /** Appending one `..` drops the last part of the normal form, and leaves
      an empty normal form (the root) as it is. */
  lemma NormalizeUp(a: seq<string>)
    ensures Normalize(a + [".."]) == (var n := Normalize(a); if n == [] then [] else n[..|n| - 1])
  {
    assert (a + [".."])[..|a + [".."]| - 1] == a;
  }

  /** `p.relative_to(root)`: None where pathlib raises ValueError. */
  function RelativeTo(p: Path, root: Path): (r: Option<Path>)
    ensures r.Some? <==> p.absolute == root.absolute && |root.parts| <= |p.parts| && p.parts[..|root.parts|] == root.parts
    ensures r.Some? ==> !r.value.absolute && root.parts + r.value.parts == p.parts
  {
    if p.absolute == root.absolute && |root.parts| <= |p.parts| && p.parts[..|root.parts|] == root.parts
    then
      assert root.parts + p.parts[|root.parts|..] == p.parts;
      Some(Path(false, p.parts[|root.parts|..]))
    else None
  }
}
