/** accumulate_code: reads a list of files and concatenates them, each after a
    `--- FILE: <path> ---` header, optionally scrubbing comments first. */
module Accumulate {
  import opened Wrappers
  import opened Text
  import opened Paths

  /** Single-line comment markers per lower-cased file extension. */
  function LineMarkers(ext: string): seq<string> {
    if ext in {".py", ".sh", ".rb", ".pl"} then ["#"]
    else if ext in {".js", ".ts", ".java", ".c", ".cpp", ".h", ".hpp", ".go", ".rs", ".swift", ".kt"} then ["//"]
    else if ext == ".php" then ["//", "#"]
    else if ext in {".lua", ".sql"} then ["--"]
    else []
  }

  /** Multi-line comment delimiter pairs per lower-cased file extension; Python
      gets two pairs (docstrings in both quote styles). */
  function DelimiterPairs(ext: string): seq<(string, string)> {
    if ext == ".py" then [("\"\"\"", "\"\"\""), ("'''", "'''")]
    else if ext in {".c", ".cpp", ".h", ".hpp", ".java", ".js", ".ts", ".go", ".cs", ".swift", ".php", ".rs", ".sql"}
    then [("/*", "*/")]
    else []
  }

  /** A pair the removal loop terminates on: with both delimiters empty the
      Python loop would never end; every pair in the table is non-empty. */
  predicate UsablePair(pair: (string, string)) {
    |pair.0| + |pair.1| > 0
  }

  lemma TablePairsUsable(ext: string)
    ensures forall k :: 0 <= k < |DelimiterPairs(ext)| ==> UsablePair(DelimiterPairs(ext)[k])
  {
  }

  /** `i` is the first place `sub` occurs in `s`. */
  ghost predicate FirstAt(s: string, sub: string, i: nat) {
    OccursAt(s, sub, i) && forall j :: 0 <= j < i ==> !OccursAt(s, sub, j)
  }

  /** The first start delimiter in `s` has an end delimiter somewhere after it
      (never overlapping it). */
  ghost predicate ClosedComment(s: string, sd: string, ed: string) {
    exists i: nat, e: nat :: FirstAt(s, sd, i) && i + |sd| <= e && OccursAt(s, ed, e)
  }

  lemma FirstIsUnique(s: string, sub: string, i: nat, j: nat)
    requires FirstAt(s, sub, i) && FirstAt(s, sub, j)
    ensures i == j
  {
  }

  /** The content without the span `c[s..e]`: the prefix and the suffix kept verbatim. */
  function Cut(c: string, s: nat, e: nat): (r: string)
    requires s <= e <= |c|
    ensures |r| == |c| - (e - s)
  {
    c[..s] + c[e..]
  }

  /** One pass of the removal loop: the content without the span from the
      first start delimiter through the first end delimiter after it, or None
      when the loop breaks (no start delimiter, or no end after it). */
  function NextCut(c: string, sd: string, ed: string): (r: Option<string>)
    requires |sd| + |ed| > 0
    ensures r.Some? ==> |r.value| <= |c| - |sd| - |ed|
  {
    var start := Find(c, sd, 0);
    if start.None? then None
    else
      var end := Find(c, ed, start.value + |sd|);
      if end.None? then None
      else Some(Cut(c, start.value, end.value + |ed|))
  }

  /** The result of repeating passes while there is a span to cut. */
  function ScrubPair(c: string, sd: string, ed: string): (r: string)
    requires |sd| + |ed| > 0
    ensures |r| <= |c|
    decreases |c|
  {
    match NextCut(c, sd, ed)
    case None => c
    case Some(next) => ScrubPair(next, sd, ed)
  }

  /** `r` is `c` without the span from the first start delimiter (at `s`)
      through the first end delimiter at or after its end (at `e`), the text
      before and after that span kept verbatim. */
  ghost predicate CutsSpan(c: string, sd: string, ed: string, s: nat, e: nat, r: string) {
    FirstAt(c, sd, s) && s + |sd| <= e && OccursAt(c, ed, e) &&
    (forall j :: s + |sd| <= j < e ==> !OccursAt(c, ed, j)) &&
    r == c[..s] + c[e + |ed|..]
  }

  /** What a pass cuts: exactly that span. */
  lemma NextCutSpan(c: string, sd: string, ed: string)
    requires |sd| + |ed| > 0
    ensures NextCut(c, sd, ed).Some? ==> exists s: nat, e: nat :: CutsSpan(c, sd, ed, s, e, NextCut(c, sd, ed).value)
  {
    var start := Find(c, sd, 0);
    if start.Some? {
      var end := Find(c, ed, start.value + |sd|);
      if end.Some? {
        SpanFound(c, sd, ed, start.value, end.value);
      }
    }
  }

  lemma SpanFound(c: string, sd: string, ed: string, s: nat, e: nat)
    requires Find(c, sd, 0) == Some(s) && Find(c, ed, s + |sd|) == Some(e)
    ensures CutsSpan(c, sd, ed, s, e, Cut(c, s, e + |ed|))
  {
    FindIsFirst(c, sd, 0);
    FindIsFirst(c, ed, s + |sd|);
  }

  /** No start delimiter: nothing is closed. */
  lemma NoStartNotClosed(c: string, sd: string, ed: string)
    requires Find(c, sd, 0).None?
    ensures !ClosedComment(c, sd, ed)
  {
    FindIsFirst(c, sd, 0);
  }

  /** The first start delimiter has no end after it: nothing is closed. */
  lemma NoEndNotClosed(c: string, sd: string, ed: string, s: nat)
    requires Find(c, sd, 0) == Some(s) && Find(c, ed, s + |sd|).None?
    ensures !ClosedComment(c, sd, ed)
  {
    FindIsFirst(c, sd, 0);
    FindIsFirst(c, ed, s + |sd|);
    assert FirstAt(c, sd, s);
    forall i: nat, e: nat | FirstAt(c, sd, i) && i + |sd| <= e
      ensures !OccursAt(c, ed, e)
    {
      FirstIsUnique(c, sd, i, s);
    }
  }

  /** Both delimiters found: the comment is closed. */
  lemma BothFoundClosed(c: string, sd: string, ed: string, s: nat, e: nat)
    requires Find(c, sd, 0) == Some(s) && Find(c, ed, s + |sd|) == Some(e)
    ensures ClosedComment(c, sd, ed)
  {
    FindIsFirst(c, sd, 0);
    FindIsFirst(c, ed, s + |sd|);
    assert FirstAt(c, sd, s) && s + |sd| <= e && OccursAt(c, ed, e);
  }

  /** A pass cuts something iff there is a closed comment. */
  lemma NextCutIff(c: string, sd: string, ed: string)
    requires |sd| + |ed| > 0
    ensures NextCut(c, sd, ed).Some? <==> ClosedComment(c, sd, ed)
  {
    var start := Find(c, sd, 0);
    if start.None? {
      NoStartNotClosed(c, sd, ed);
    } else {
      var end := Find(c, ed, start.value + |sd|);
      if end.None? {
        NoEndNotClosed(c, sd, ed, start.value);
      } else {
        BothFoundClosed(c, sd, ed, start.value, end.value);
      }
    }
  }

  /** The content is left exactly as it is iff it holds no closed comment (an
      unclosed start delimiter stops the pass; nothing is cut to the end of the
      text), and every cut removes at least both delimiters. */
  lemma ScrubPairUnchangedIff(c: string, sd: string, ed: string)
    requires |sd| + |ed| > 0
    ensures ScrubPair(c, sd, ed) == c <==> !ClosedComment(c, sd, ed)
    ensures ClosedComment(c, sd, ed) ==> |ScrubPair(c, sd, ed)| <= |c| - |sd| - |ed|
  {
    NextCutIff(c, sd, ed);
  }

  /** After scrubbing, no closed comment is left: either the start delimiter
      does not occur at all, or its first occurrence has no end after it. */
  lemma {:induction false} ScrubPairSettled(c: string, sd: string, ed: string)
    requires |sd| + |ed| > 0
    ensures !ClosedComment(ScrubPair(c, sd, ed), sd, ed)
    decreases |c|
  {
    NextCutIff(c, sd, ed);
    match NextCut(c, sd, ed) {
      case None =>
      case Some(next) => ScrubPairSettled(next, sd, ed);
    }
  }

  /** Scrubbing a delimiter pair twice is the same as scrubbing it once. */
  lemma ScrubPairIdempotent(c: string, sd: string, ed: string)
    requires |sd| + |ed| > 0
    ensures ScrubPair(ScrubPair(c, sd, ed), sd, ed) == ScrubPair(c, sd, ed)
  {
    ScrubPairSettled(c, sd, ed);
    ScrubPairUnchangedIff(ScrubPair(c, sd, ed), sd, ed);
  }

  /** The end search starts after the opener, so a text in which the
      delimiter `q` (such as a docstring quote) occurs at most once is left
      as it is: a lone opener is not closed by itself. */
  lemma LoneOpenerStays(c: string, q: string)
    requires |q| > 0
    requires forall j, k :: OccursAt(c, q, j) && OccursAt(c, q, k) ==> j == k
    ensures ScrubPair(c, q, q) == c
  {
    var start := Find(c, q, 0);
    if start.Some? {
      FindIsFirst(c, q, 0);
      FindIsFirst(c, q, start.value + |q|);
      assert Find(c, q, start.value + |q|).None?;
    }
    assert NextCut(c, q, q).None?;
  }

  /** The `while True` loop of one delimiter pair; each pass is NextCut. */
  method RemoveDelimitedSpans(content: string, sd: string, ed: string) returns (r: string)
    requires |sd| + |ed| > 0
    ensures r == ScrubPair(content, sd, ed)
    ensures !ClosedComment(r, sd, ed)
  {
    r := content;
    while true
      invariant ScrubPair(r, sd, ed) == ScrubPair(content, sd, ed)
      decreases |r|
    {
      var next := NextCut(r, sd, ed);
      if next.None? {
        break;
      }
      r := next.value;
    }
    ScrubPairSettled(content, sd, ed);
  }

  /** All delimiter pairs, in table order. */
  function ScrubDelimited(c: string, pairs: seq<(string, string)>): (r: string)
    requires forall k :: 0 <= k < |pairs| ==> UsablePair(pairs[k])
    ensures |r| <= |c|
  {
    if pairs == [] then c
    else
      var last := pairs[|pairs| - 1];
      assert UsablePair(last);
      ScrubPair(ScrubDelimited(c, pairs[..|pairs| - 1]), last.0, last.1)
  }

  /** Multi-line scrubbing of one file's content by its extension. */
  method ScrubMultiLine(content: string, ext: string) returns (r: string)
    ensures r == ScrubDelimited(content, DelimiterPairs(ext))
    ensures |r| <= |content|
  {
    var pairs := DelimiterPairs(ext);
    r := content;
    if pairs != [] {
      for k := 0 to |pairs|
        invariant r == ScrubDelimited(content, pairs[..k])
      {
        assert pairs[..k + 1][..k] == pairs[..k];
        var (sd, ed) := pairs[k];
        r := RemoveDelimitedSpans(r, sd, ed);
      }
      assert pairs[..|pairs|] == pairs;
    }
  }

  /** The stripped line starts with one of the markers. */
  predicate IsCommentLine(line: string, markers: seq<string>) {
    exists k :: 0 <= k < |markers| && StartsWith(Strip(line), markers[k])
  }

  /** The lines that are not comment lines, in their original order. */
  function KeptLines(lines: seq<string>, markers: seq<string>): (r: seq<string>)
    ensures |r| <= |lines|
  {
    if lines == [] then []
    else
      var last := lines[|lines| - 1];
      KeptLines(lines[..|lines| - 1], markers) + (if IsCommentLine(last, markers) then [] else [last])
  }

  /** A line survives iff it is an input line that is not a comment line. */
  lemma {:induction false} KeptLinesExactly(lines: seq<string>, markers: seq<string>)
    ensures forall l :: l in KeptLines(lines, markers) <==> l in lines && !IsCommentLine(l, markers)
  {
    if lines != [] {
      var init := lines[..|lines| - 1];
      KeptLinesExactly(init, markers);
      assert lines == init + [lines[|lines| - 1]];
    }
  }

  /** When no line is a comment line, every line is kept. */
  lemma {:induction false} KeptLinesAll(lines: seq<string>, markers: seq<string>)
    requires forall k :: 0 <= k < |lines| ==> !IsCommentLine(lines[k], markers)
    ensures KeptLines(lines, markers) == lines
  {
    if lines != [] {
      var init := lines[..|lines| - 1];
      KeptLinesAll(init, markers);
      assert lines == init + [lines[|lines| - 1]];
    }
  }

  /** Single-line scrubbing of a text. */
  function ScrubLines(c: string, markers: seq<string>): string {
    Join(KeptLines(Split(c, '\n'), markers), '\n')
  }

  /** If no line is dropped the text comes back unchanged; in particular with
      no markers at all. */
  lemma ScrubLinesUnchanged(c: string, markers: seq<string>)
    requires forall k :: 0 <= k < |Split(c, '\n')| ==> !IsCommentLine(Split(c, '\n')[k], markers)
    ensures ScrubLines(c, markers) == c
  {
    KeptLinesAll(Split(c, '\n'), markers);
    JoinSplit(c, '\n');
  }

  lemma NoMarkersUnchanged(c: string)
    ensures ScrubLines(c, []) == c
  {
    ScrubLinesUnchanged(c, []);
  }

  lemma KeptLinesStep(lines: seq<string>, i: nat, markers: seq<string>)
    requires i < |lines|
    ensures KeptLines(lines[..i + 1], markers) ==
      KeptLines(lines[..i], markers) + (if IsCommentLine(lines[i], markers) then [] else [lines[i]])
  {
    assert lines[..i + 1][..i] == lines[..i];
  }

  /** The for loop over the lines of one file. */
  method ScrubSingleLine(content: string, markers: seq<string>) returns (r: string)
    ensures r == ScrubLines(content, markers)
  {
    var lines := Split(content, '\n');
    var uncommented: seq<string> := [];
    for i := 0 to |lines|
      invariant uncommented == KeptLines(lines[..i], markers)
    {
      KeptLinesStep(lines, i, markers);
      var line := lines[i];
      if IsCommentLine(line, markers) {
        continue;
      }
      uncommented := uncommented + [line];
    }
    assert lines[..|lines|] == lines;
    r := Join(uncommented, '\n');
  }

  /** What scrubbing makes of one file's content. */
  function Scrubbed(path: Path, content: string): string {
    var ext := Lower(Suffix(path));
    TablePairsUsable(ext);
    ScrubLines(ScrubDelimited(content, DelimiterPairs(ext)), LineMarkers(ext))
  }

  /** Both scrubbing passes for one file, with the early exit for extensions
      that have no single-line markers. */
  method ScrubFile(path: Path, content: string) returns (r: string)
    ensures r == Scrubbed(path, content)
  {
    var ext := Lower(Suffix(path));
    var c := ScrubMultiLine(content, ext);
    var markers := LineMarkers(ext);
    if markers == [] {
      NoMarkersUnchanged(c);
      r := c;
      return;
    }
    r := ScrubSingleLine(c, markers);
  }

  function Header(path: Path): string {
    "\n--- FILE: " + AsPosix(path) + " ---\n"
  }

  /** What one file contributes: nothing when reading it raises (it is not in
      `files`), otherwise its header and its processed content. */
  function FileBlock(path: Path, files: map<Path, string>, scrub: bool): string {
    if path !in files then []
    else Header(path) + (if scrub then Scrubbed(path, files[path]) else files[path])
  }

  /** The blocks of a list of files, concatenated in list order. */
  function Blocks(paths: seq<Path>, block: Path -> string): string {
    if paths == [] then []
    else Blocks(paths[..|paths| - 1], block) + block(paths[|paths| - 1])
  }

  lemma {:induction false} BlocksAppend(a: seq<Path>, b: seq<Path>, block: Path -> string)
    ensures Blocks(a + b, block) == Blocks(a, block) + Blocks(b, block)
  {
    if b == [] {
      assert a + b == a;
    } else {
      var b' := b[..|b| - 1];
      assert (a + b)[..|a + b| - 1] == a + b';
      BlocksAppend(a, b', block);
    }
  }

  function BlockOf(files: map<Path, string>, scrub: bool): Path -> string {
    path => FileBlock(path, files, scrub)
  }

  /** What accumulate_code returns for a list of files. */
  function Accumulated(paths: seq<Path>, files: map<Path, string>, scrub: bool): string {
    Blocks(paths, BlockOf(files, scrub))
  }

  /** The result is the concatenation of the files' blocks in list order. */
  lemma AccumulatedAppend(a: seq<Path>, b: seq<Path>, files: map<Path, string>, scrub: bool)
    ensures Accumulated(a + b, files, scrub) == Accumulated(a, files, scrub) + Accumulated(b, files, scrub)
  {
    BlocksAppend(a, b, BlockOf(files, scrub));
  }

  /** A file that cannot be read contributes nothing and does not stop the others. */
  lemma UnreadableContributesNothing(a: seq<Path>, p: Path, b: seq<Path>, files: map<Path, string>, scrub: bool)
    requires p !in files
    ensures Accumulated(a + [p] + b, files, scrub) == Accumulated(a + b, files, scrub)
  {
    AccumulatedAppend(a + [p], b, files, scrub);
    AccumulatedAppend(a, [p], files, scrub);
    AccumulatedAppend(a, b, files, scrub);
    assert [p][..0] == [];
    assert Accumulated([p], files, scrub) == Accumulated([], files, scrub) + FileBlock(p, files, scrub);
  }

  function Concat(pieces: seq<string>): string {
    if pieces == [] then [] else Concat(pieces[..|pieces| - 1]) + pieces[|pieces| - 1]
  }

  lemma AccumulatedStep(paths: seq<Path>, i: nat, files: map<Path, string>, scrub: bool)
    requires i < |paths|
    ensures Accumulated(paths[..i + 1], files, scrub) == Accumulated(paths[..i], files, scrub) + FileBlock(paths[i], files, scrub)
  {
    assert paths[..i + 1][..i] == paths[..i];
  }

  lemma AppendAssociates(a: string, b: string, c: string)
    ensures a + b + c == a + (b + c)
  {
  }

  lemma ConcatStep(pieces: seq<string>, piece: string)
    ensures Concat(pieces + [piece]) == Concat(pieces) + piece
  {
    assert (pieces + [piece])[..|pieces|] == pieces;
  }

  /** The loop over the file list, collecting pieces that are joined at the end. */
  method AccumulateCode(paths: seq<Path>, files: map<Path, string>, scrub: bool) returns (r: string)
    ensures r == Accumulated(paths, files, scrub)
  {
    var pieces: seq<string> := [];
    for i := 0 to |paths|
      invariant Concat(pieces) == Accumulated(paths[..i], files, scrub)
    {
      AccumulatedStep(paths, i, files, scrub);
      var path := paths[i];
      if path !in files {
        continue;
      }
      var content := files[path];
      ghost var before := Concat(pieces);
      ConcatStep(pieces, Header(path));
      pieces := pieces + [Header(path)];
      if scrub {
        content := ScrubFile(path, content);
      }
      assert FileBlock(path, files, scrub) == Header(path) + content;
      ConcatStep(pieces, content);
      pieces := pieces + [content];
      AppendAssociates(before, Header(path), content);
    }
    assert paths[..|paths|] == paths;
    r := Concat(pieces);
  }
}
