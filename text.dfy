/** The Python string builtins the core relies on: str.isspace, str.strip,
    str.startswith / str.endswith, str.find, the `in` substring test,
    str.split / str.join on one separator character, and ASCII str.lower. */
module Text {
  import opened Wrappers

  /** Python's str.isspace() for one code point: the characters str.strip()
      removes when called without arguments. */
  predicate IsSpace(c: char) {
    var n := c as int;
    (0x09 <= n <= 0x0D) || (0x1C <= n <= 0x20) || n == 0x85 || n == 0xA0 || n == 0x1680 ||
    (0x2000 <= n <= 0x200A) || n == 0x2028 || n == 0x2029 || n == 0x202F || n == 0x205F || n == 0x3000
  }

  predicate AllSpace(s: string) {
    forall i :: 0 <= i < |s| ==> IsSpace(s[i])
  }

  /** Neither end of `s` is whitespace. */
  predicate Trimmed(s: string) {
    s == [] || (!IsSpace(s[0]) && !IsSpace(s[|s| - 1]))
  }

  /** `r` is the contiguous piece of `s` that starts at index `i`. */
  predicate SliceAt(s: string, i: nat, r: string) {
    i + |r| <= |s| && s[i..i + |r|] == r
  }

  /** A piece of a piece of `s` is a piece of `s`. */
  lemma SliceOfSlice(s: string, i: nat, t: string, j: nat, u: string)
    requires SliceAt(s, i, t) && SliceAt(t, j, u)
    ensures SliceAt(s, i + j, u)
  {
    forall k | 0 <= k < |u|
      ensures s[i + j + k] == u[k]
    {
      assert u[k] == t[j + k] == s[i + j + k];
    }
    assert s[i + j..i + j + |u|] == u;
  }

  /** Being a contiguous piece is transitive. */
  lemma PieceOfPiece(s: string, t: string, u: string)
    requires exists i: nat :: SliceAt(s, i, t)
    requires exists j: nat :: SliceAt(t, j, u)
    ensures exists k: nat :: SliceAt(s, k, u)
  {
    var i: nat :| SliceAt(s, i, t);
    var j: nat :| SliceAt(t, j, u);
    SliceOfSlice(s, i, t, j, u);
  }

  /** `sub` occurs in `s` starting at index `i`. */
  predicate OccursAt(s: string, sub: string, i: nat) {
    i + |sub| <= |s| && s[i..i + |sub|] == sub
  }

  predicate StartsWith(s: string, prefix: string) {
    OccursAt(s, prefix, 0)
  }

  predicate EndsWith(s: string, suffix: string) {
    |suffix| <= |s| && s[|s| - |suffix|..] == suffix
  }

  /** str.lstrip(): drops the leading whitespace. */
  function StripLeft(s: string): (r: string)
    ensures |r| <= |s| && r == s[|s| - |r|..]
    ensures AllSpace(s[..|s| - |r|])
    ensures r == [] || !IsSpace(r[0])
  {
    if |s| > 0 && IsSpace(s[0]) then
      var r := StripLeft(s[1..]);
      SpaceThenSuffix(s, r);
      r
    else s
  }

  lemma SpaceThenSuffix(s: string, r: string)
    requires |s| > 0 && IsSpace(s[0])
    requires |r| <= |s| - 1 && r == s[1..][|s| - 1 - |r|..]
    requires AllSpace(s[1..][..|s| - 1 - |r|])
    ensures r == s[|s| - |r|..] && AllSpace(s[..|s| - |r|])
  {
    var w := s[..|s| - |r|];
    assert forall i :: 1 <= i < |w| ==> w[i] == s[1..][..|s| - 1 - |r|][i - 1];
  }

  /** str.rstrip(): drops the trailing whitespace. */
  function StripRight(s: string): (r: string)
    ensures |r| <= |s| && r == s[..|r|]
    ensures AllSpace(s[|r|..])
    ensures r == [] || !IsSpace(r[|r| - 1])
  {
    if |s| > 0 && IsSpace(s[|s| - 1]) then
      var r := StripRight(s[..|s| - 1]);
      PrefixThenSpace(s, r);
      r
    else s
  }

  lemma PrefixThenSpace(s: string, r: string)
    requires |s| > 0 && IsSpace(s[|s| - 1])
    requires |r| <= |s| - 1 && r == s[..|s| - 1][..|r|]
    requires AllSpace(s[..|s| - 1][|r|..])
    ensures r == s[..|r|] && AllSpace(s[|r|..])
  {
    var w := s[|r|..];
    assert forall i :: 0 <= i < |w| - 1 ==> w[i] == s[..|s| - 1][|r|..][i];
  }

  /** str.strip(): the result is a trimmed slice of `s`; see StripAround for
      the fact that it is the unique such slice with only whitespace around it. */
  function Strip(s: string): (r: string)
    ensures Trimmed(r)
    ensures |r| <= |s|
    ensures exists i: nat :: SliceAt(s, i, r)
  {
    var left := StripLeft(s);
    var r := StripRight(left);
    assert s[|s| - |left|..][..|r|] == s[|s| - |left|..|s| - |left| + |r|];
    assert SliceAt(s, |s| - |left|, r);
    r
  }

  lemma {:induction false} StripLeftSkips(w: string, t: string)
    requires AllSpace(w)
    requires t == [] || !IsSpace(t[0])
    ensures StripLeft(w + t) == t
  {
    if w != [] {
      assert (w + t)[1..] == w[1..] + t;
      StripLeftSkips(w[1..], t);
    } else {
      assert w + t == t;
    }
  }

  lemma {:induction false} StripRightSkips(t: string, w: string)
    requires AllSpace(w)
    requires t == [] || !IsSpace(t[|t| - 1])
    ensures StripRight(t + w) == t
  {
    if w != [] {
      assert (t + w)[..|t + w| - 1] == t + w[..|w| - 1];
      StripRightSkips(t, w[..|w| - 1]);
    } else {
      assert t + w == t;
    }
  }

  /** Whitespace around a trimmed text is exactly what strip() removes. */
  lemma StripAround(w1: string, t: string, w2: string)
    requires AllSpace(w1) && AllSpace(w2) && Trimmed(t)
    ensures Strip(w1 + t + w2) == t
  {
    if t == [] {
      assert w1 + t + w2 == w1 + w2;
      StripLeftSkips(w1 + w2, []);
      assert w1 + w2 + [] == w1 + w2;
    } else {
      assert w1 + t + w2 == w1 + (t + w2);
      StripLeftSkips(w1, t + w2);
      StripRightSkips(t, w2);
    }
  }

  /** A trimmed text is a fixed point of strip(). */
  lemma StripTrimmed(s: string)
    requires Trimmed(s)
    ensures Strip(s) == s
  {
    assert [] + s + [] == s;
    StripAround([], s, []);
  }

  /** The lowest index at which `sub` occurs in `t`. */
  function IndexOf(t: string, sub: string): (r: Option<nat>)
    ensures r.Some? ==> OccursAt(t, sub, r.value)
    ensures r.Some? ==> forall j :: 0 <= j < r.value ==> !OccursAt(t, sub, j)
    ensures r.None? ==> forall j :: 0 <= j ==> !OccursAt(t, sub, j)
  {
    if |sub| > |t| then None
    else if t[..|sub|] == sub then Some(0)
    else
      var r := IndexOf(t[1..], sub);
      assert forall j :: 1 <= j ==> (OccursAt(t, sub, j) <==> OccursAt(t[1..], sub, j - 1));
      if r.None? then None else Some(r.value + 1)
  }

  /** str.find(sub, start): None where Python returns -1 (also when `start`
      is past the end); FindIsFirst states which index it returns. */
  function Find(s: string, sub: string, start: nat): (r: Option<nat>)
    ensures r.Some? ==> start <= r.value && r.value + |sub| <= |s|
  {
    if start > |s| then None
    else
      var r := IndexOf(s[start..], sub);
      if r.None? then None else Some(r.value + start)
  }

  /** `str.find` returns the lowest index at or after `start` where `sub`
      occurs, and -1 exactly when there is none. */
  lemma FindIsFirst(s: string, sub: string, start: nat)
    ensures var r := Find(s, sub, start);
            (r.Some? ==> OccursAt(s, sub, r.value) && forall j :: start <= j < r.value ==> !OccursAt(s, sub, j)) &&
            (r.None? ==> forall j :: start <= j ==> !OccursAt(s, sub, j))
  {
    if start <= |s| {
      assert forall j :: start <= j ==> (OccursAt(s, sub, j) <==> OccursAt(s[start..], sub, j - start));
    }
  }

  /** Python's `sub in s` on two strings. */
  predicate Contains(s: string, sub: string) {
    Find(s, sub, 0).Some?
  }

  /** str.split(sep) for a one-character separator: always at least one piece,
      and no piece holds the separator. */
  function Split(s: string, sep: char): (r: seq<string>)
    ensures |r| >= 1
    ensures forall k :: 0 <= k < |r| ==> sep !in r[k]
  {
    if |s| == 0 then [[]]
    else
      var rest := Split(s[1..], sep);
      if s[0] == sep then [[]] + rest
      else [[s[0]] + rest[0]] + rest[1..]
  }

  /** sep.join(parts) for a one-character separator. */
  function Join(parts: seq<string>, sep: char): string {
    if |parts| == 0 then []
    else if |parts| == 1 then parts[0]
    else parts[0] + [sep] + Join(parts[1..], sep)
  }

  /** Splitting and joining again gives back the text. */
  lemma {:induction false} JoinSplit(s: string, sep: char)
    ensures Join(Split(s, sep), sep) == s
  {
    if |s| > 0 {
      var rest := Split(s[1..], sep);
      JoinSplit(s[1..], sep);
      if s[0] == sep {
        assert ([[]] + rest)[1..] == rest;
        assert s == [] + [sep] + s[1..];
      } else {
        var r := [[s[0]] + rest[0]] + rest[1..];
        if |rest| == 1 {
          assert Join(rest, sep) == rest[0];
        } else {
          assert r[1..] == rest[1..];
          assert Join(rest, sep) == rest[0] + [sep] + Join(rest[1..], sep);
        }
        assert s == [s[0]] + s[1..];
      }
    }
  }

  lemma {:induction false} SplitNoSep(a: string, sep: char)
    requires sep !in a
    ensures Split(a, sep) == [a]
  {
    if |a| > 0 {
      SplitNoSep(a[1..], sep);
      assert [a[0]] + a[1..] == a;
    }
  }

  lemma {:induction false} SplitAtSep(a: string, b: string, sep: char)
    requires sep !in a
    ensures Split(a + [sep] + b, sep) == [a] + Split(b, sep)
  {
    if |a| == 0 {
      assert a + [sep] + b == [sep] + b;
      assert ([sep] + b)[1..] == b;
    } else {
      assert (a + [sep] + b)[1..] == a[1..] + [sep] + b;
      SplitAtSep(a[1..], b, sep);
      assert [a[0]] + a[1..] == a;
    }
  }

  /** Joining pieces free of the separator and splitting again gives back the pieces. */
  lemma {:induction false} SplitJoin(parts: seq<string>, sep: char)
    requires |parts| >= 1
    requires forall k :: 0 <= k < |parts| ==> sep !in parts[k]
    ensures Split(Join(parts, sep), sep) == parts
  {
    if |parts| == 1 {
      SplitNoSep(parts[0], sep);
    } else {
      SplitJoin(parts[1..], sep);
      SplitAtSep(parts[0], Join(parts[1..], sep), sep);
      assert [parts[0]] + parts[1..] == parts;
    }
  }

  /** str.lower() on the ASCII letters. */
  function Lower(s: string): (r: string)
    ensures |r| == |s|
    ensures forall i :: 0 <= i < |s| ==> r[i] == (if 'A' <= s[i] <= 'Z' then (s[i] as int + 32) as char else s[i])
  {
    if s == [] then []
    else [if 'A' <= s[0] <= 'Z' then (s[0] as int + 32) as char else s[0]] + Lower(s[1..])
  }
}
