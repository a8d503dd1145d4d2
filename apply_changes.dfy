/** apply_code_changes: writes each `{file_path, code}` entry of a parsed
    model response under an output directory, refusing any destination that
    is not strictly inside that directory. */
module ApplyChanges {
  import opened Wrappers
  import opened Text
  import opened Paths
  import opened Json

  /** The file tree: resolved absolute path parts to file content. */
  class FileTree {
    var files: map<seq<string>, string>

    constructor (initial: map<seq<string>, string>)
      ensures files == initial
    {
      files := initial;
    }

    /** Path.write_text: creates or overwrites one file. */
    method WriteText(path: seq<string>, content: string)
      modifies this
      ensures files == old(files)[path := content]
    {
      files := files[path := content];
    }
  }

  /** What one pass of the loop body does with one entry. */
  datatype Outcome =
    | Skipped                                  // a key is missing: warning, continue
    | Rejected                                 // destination outside the directory: continue
    | Written(dest: seq<string>, code: string) // the file is written and counted
    | Aborted                                  // a TypeError ends the whole loop

  /** Python's `key in v`: dictionary keys, a substring of a string, an element
      of a list; None where it raises TypeError (null, booleans, numbers). */
  function HasKey(v: Json, key: string): (r: Option<bool>)
    ensures r.Some? <==> (v.JObject? || v.JString? || v.JArray?)
  {
    match v
    case JObject(fields) => Some(key in fields)
    case JString(s) => Some(Contains(s, key))
    case JArray(items) => Some(JString(key) in items)
    case _ => None
  }

  /** Where an entry's `file_path` lands: `(output_dir / relative_path).resolve()`. */
  function Destination(outputDir: Path, filePath: string, cwd: seq<string>): seq<string> {
    Resolve(JoinPath(outputDir, Parse(filePath)), cwd)
  }

  /** The loop body for one entry. Only a dictionary can be subscripted with a
      string, only a string can become a Path, and only a string can be
      written: anything else raises TypeError. */
  function Classify(entry: Json, outputDir: Path, cwd: seq<string>): Outcome {
    match HasKey(entry, "file_path")
    case None => Aborted
    case Some(hasPath) =>
      if !hasPath || !HasKey(entry, "code").value then Skipped
      else if !entry.JObject? then Aborted
      else
        var pathValue := entry.fields["file_path"];
        var codeValue := entry.fields["code"];
        if !pathValue.JString? then Aborted
        else
          var dest := Destination(outputDir, pathValue.s, cwd);
          if Resolve(outputDir, cwd) !in Parents(dest) then Rejected
          else if !codeValue.JString? then Aborted
          else Written(dest, codeValue.s)
  }

  /** The writes the loop performs, in order, up to the first abort. */
  function Plan(entries: seq<Json>, outputDir: Path, cwd: seq<string>): seq<(seq<string>, string)> {
    if entries == [] then []
    else
      match Classify(entries[0], outputDir, cwd)
      case Aborted => []
      case Written(dest, code) => [(dest, code)] + Plan(entries[1..], outputDir, cwd)
      case _ => Plan(entries[1..], outputDir, cwd)
  }

  lemma PlanStep(entries: seq<Json>, i: nat, outputDir: Path, cwd: seq<string>)
    requires i < |entries|
    ensures Plan(entries[i..], outputDir, cwd) ==
      match Classify(entries[i], outputDir, cwd)
      case Aborted => []
      case Written(dest, code) => [(dest, code)] + Plan(entries[i + 1..], outputDir, cwd)
      case _ => Plan(entries[i + 1..], outputDir, cwd)
  {
    assert entries[i..][0] == entries[i];
    assert entries[i..][1..] == entries[i + 1..];
  }

  /** The writes of a whole response: none when it does not parse or is not a list. */
  function Writes(parsed: Option<Json>, outputDir: Path, cwd: seq<string>): seq<(seq<string>, string)> {
    if parsed.Some? && parsed.value.JArray? then Plan(parsed.value.items, outputDir, cwd) else []
  }

  /** The file tree after the writes, in order. */
  function AfterWrites(files: map<seq<string>, string>, ws: seq<(seq<string>, string)>): map<seq<string>, string> {
    if ws == [] then files
    else
      var last := ws[|ws| - 1];
      AfterWrites(files, ws[..|ws| - 1])[last.0 := last.1]
  }

  /** One more write updates the tree the earlier writes left. */
  lemma AfterWritesStep(files: map<seq<string>, string>, ws: seq<(seq<string>, string)>, k: seq<string>, v: string)
    ensures AfterWrites(files, ws + [(k, v)]) == AfterWrites(files, ws)[k := v]
  {
    assert (ws + [(k, v)])[..|ws|] == ws;
  }

  /** The content the last write to `k` leaves, if any write goes to `k`. */
  function LastWrite(ws: seq<(seq<string>, string)>, k: seq<string>): (r: Option<string>)
    ensures r.None? <==> forall i :: 0 <= i < |ws| ==> ws[i].0 != k
    ensures r.Some? ==> exists i :: 0 <= i < |ws| && ws[i] == (k, r.value) && forall j :: i < j < |ws| ==> ws[j].0 != k
  {
    if ws == [] then None
    else if ws[|ws| - 1].0 == k then Some(ws[|ws| - 1].1)
    else
      var r := LastWrite(ws[..|ws| - 1], k);
      assert forall i :: 0 <= i < |ws| - 1 ==> ws[..|ws| - 1][i] == ws[i];
      LastWriteFound(ws[..|ws| - 1], ws[|ws| - 1], k, r);
      assert ws[..|ws| - 1] + [ws[|ws| - 1]] == ws;
      r
  }

  /** A write found in `init`, followed by a write elsewhere, is still the
      last write to `k`. */
  lemma LastWriteFound(init: seq<(seq<string>, string)>, last: (seq<string>, string), k: seq<string>, r: Option<string>)
    requires last.0 != k
    requires r.Some? ==> exists i :: 0 <= i < |init| && init[i] == (k, r.value) && forall j :: i < j < |init| ==> init[j].0 != k
    ensures r.Some? ==>
      exists i :: 0 <= i < |init + [last]| && (init + [last])[i] == (k, r.value) &&
        forall j :: i < j < |init + [last]| ==> (init + [last])[j].0 != k
  {
    if r.Some? {
      var i :| 0 <= i < |init| && init[i] == (k, r.value) && forall j :: i < j < |init| ==> init[j].0 != k;
      assert (init + [last])[i] == (k, r.value);
    }
  }

  /** Each path ends up with its last write, or with what it held before. */
  lemma {:induction false} AfterWritesAt(files: map<seq<string>, string>, ws: seq<(seq<string>, string)>, k: seq<string>)
    ensures k in AfterWrites(files, ws) <==> k in files || LastWrite(ws, k).Some?
    ensures k in AfterWrites(files, ws) ==>
      AfterWrites(files, ws)[k] == (if LastWrite(ws, k).Some? then LastWrite(ws, k).value else files[k])
  {
    if ws != [] {
      AfterWritesAt(files, ws[..|ws| - 1], k);
    }
  }

  /** Writing the same sequence twice leaves the same tree as writing it once. */
  lemma AfterWritesIdempotent(files: map<seq<string>, string>, ws: seq<(seq<string>, string)>)
    ensures AfterWrites(AfterWrites(files, ws), ws) == AfterWrites(files, ws)
  {
    var once := AfterWrites(files, ws);
    var twice := AfterWrites(once, ws);
    forall k
      ensures k in twice <==> k in once
      ensures k in twice ==> twice[k] == once[k]
    {
      AfterWritesAt(files, ws, k);
      AfterWritesAt(once, ws, k);
    }
  }

  /** An entry is written exactly when its destination is strictly inside the
      resolved output directory; a destination equal to the directory, or one
      outside it, is rejected. */
  lemma WellFormedEntry(p: string, code: string, outputDir: Path, cwd: seq<string>)
    ensures var entry := JObject(map["file_path" := JString(p), "code" := JString(code)]);
            var dest := Destination(outputDir, p, cwd);
            Classify(entry, outputDir, cwd) ==
              if StrictlyUnder(Resolve(outputDir, cwd), dest) then Written(dest, code) else Rejected
  {
    ParentsAreStrictAncestors(Resolve(outputDir, cwd), Destination(outputDir, p, cwd));
  }

  /** Every write the plan makes is strictly inside the resolved output directory. */
  lemma {:induction false} PlanContained(entries: seq<Json>, outputDir: Path, cwd: seq<string>)
    ensures forall i :: 0 <= i < |Plan(entries, outputDir, cwd)| ==>
      StrictlyUnder(Resolve(outputDir, cwd), Plan(entries, outputDir, cwd)[i].0)
  {
    if entries != [] {
      PlanContained(entries[1..], outputDir, cwd);
      var o := Classify(entries[0], outputDir, cwd);
      if o.Written? {
        ParentsAreStrictAncestors(Resolve(outputDir, cwd), o.dest);
      }
    }
  }

  /** No path outside the resolved output directory is created, changed or removed. */
  lemma OutsideUntouched(files: map<seq<string>, string>, parsed: Option<Json>, outputDir: Path, cwd: seq<string>, k: seq<string>)
    requires !StrictlyUnder(Resolve(outputDir, cwd), k)
    ensures var after := AfterWrites(files, Writes(parsed, outputDir, cwd));
            (k in after <==> k in files) && (k in files ==> after[k] == files[k])
  {
    var ws := Writes(parsed, outputDir, cwd);
    if parsed.Some? && parsed.value.JArray? {
      PlanContained(parsed.value.items, outputDir, cwd);
    }
    AfterWritesAt(files, ws, k);
  }

  /** Applying the same response twice gives the same tree as applying it once. */
  lemma ApplyTwiceSameAsOnce(files: map<seq<string>, string>, parsed: Option<Json>, outputDir: Path, cwd: seq<string>)
    ensures var ws := Writes(parsed, outputDir, cwd);
            AfterWrites(AfterWrites(files, ws), ws) == AfterWrites(files, ws)
  {
    AfterWritesIdempotent(files, Writes(parsed, outputDir, cwd));
  }

  /** An entry that lacks `file_path` or `code` is passed over: the other
      entries are written as if it were not there. */
  lemma {:induction false} MissingKeyIgnored(before: seq<Json>, entry: Json, after: seq<Json>, outputDir: Path, cwd: seq<string>)
    requires entry.JObject? && ("file_path" !in entry.fields || "code" !in entry.fields)
    ensures Plan(before + [entry] + after, outputDir, cwd) == Plan(before + after, outputDir, cwd)
  {
    if before == [] {
      assert before + [entry] + after == [entry] + after;
      assert ([entry] + after)[1..] == after;
      assert before + after == after;
    } else {
      assert (before + [entry] + after)[0] == before[0];
      assert (before + [entry] + after)[1..] == before[1..] + [entry] + after;
      assert (before + after)[1..] == before[1..] + after;
      MissingKeyIgnored(before[1..], entry, after, outputDir, cwd);
    }
  }

  /** A response that is not a list, or does not parse, writes nothing. */
  lemma NonListWritesNothing(parsed: Option<Json>, outputDir: Path, cwd: seq<string>, files: map<seq<string>, string>)
    requires parsed.None? || !parsed.value.JArray?
    ensures AfterWrites(files, Writes(parsed, outputDir, cwd)) == files
  {
  }

  /** A relative path of plain parts lands right under the output directory. */
  lemma PlainRelativeLandsInside(outputDir: Path, rel: Path, cwd: seq<string>)
    requires !rel.absolute && AllPlain(rel.parts) && rel.parts != []
    ensures Resolve(JoinPath(outputDir, rel), cwd) == Resolve(outputDir, cwd) + rel.parts
    ensures StrictlyUnder(Resolve(outputDir, cwd), Resolve(JoinPath(outputDir, rel), cwd))
  {
    var base := if outputDir.absolute then outputDir.parts else cwd + outputDir.parts;
    assert (if outputDir.absolute then outputDir.parts + rel.parts else cwd + (outputDir.parts + rel.parts))
        == base + rel.parts;
    NormalizeAppend(base, rel.parts);
  }

  /** The empty path (and `.`) resolves to the output directory itself: rejected. */
  lemma EmptyPathIsTheDirectory(outputDir: Path, cwd: seq<string>)
    ensures Destination(outputDir, "", cwd) == Resolve(outputDir, cwd)
    ensures Destination(outputDir, ".", cwd) == Resolve(outputDir, cwd)
    ensures !StrictlyUnder(Resolve(outputDir, cwd), Destination(outputDir, "", cwd))
  {
    SplitNoSep([], '/');
    SplitNoSep(".", '/');
    assert outputDir.parts + [] == outputDir.parts;
  }

  /** `n` parent parts. */
  function Dots(n: nat): (r: seq<string>)
    ensures |r| == n
  {
    if n == 0 then [] else Dots(n - 1) + [".."]
  }

  /** Appending `..` parts never makes the resolved path longer. */
  lemma {:induction false} DotsNeverDescend(base: seq<string>, n: nat)
    ensures |Normalize(base + Dots(n))| <= |Normalize(base)|
  {
    if n > 0 {
      var shorter := base + Dots(n - 1);
      var longer := base + Dots(n);
      DotsOneMore(base, n);
      assert longer == shorter + [".."];
      NormalizeUpShorter(shorter);
      assert |Normalize(longer)| <= |Normalize(shorter)|;
      DotsNeverDescend(base, n - 1);
    } else {
      assert base + Dots(0) == base;
    }
  }

  lemma DotsOneMore(base: seq<string>, n: nat)
    requires n > 0
    ensures base + Dots(n) == (base + Dots(n - 1)) + [".."]
  {
  }

  lemma NormalizeUpShorter(a: seq<string>)
    ensures |Normalize(a + [".."])| <= |Normalize(a)|
  {
    NormalizeUp(a);
  }

  /** A path made only of `..` parts is rejected. */
  lemma ParentPathsRejected(outputDir: Path, n: nat, cwd: seq<string>)
    ensures !StrictlyUnder(Resolve(outputDir, cwd), Resolve(JoinPath(outputDir, Path(false, Dots(n))), cwd))
  {
    var base := if outputDir.absolute then outputDir.parts else cwd + outputDir.parts;
    assert (if outputDir.absolute then outputDir.parts + Dots(n) else cwd + (outputDir.parts + Dots(n))) == base + Dots(n);
    DotsNeverDescend(base, n);
  }

  /** The loop of apply_code_changes. A TypeError from any entry ends the loop
      (it reaches the function's outer `except Exception`), keeping the writes
      already made; the returned count is the number of files written. */
  method ApplyCodeChanges(tree: FileTree, parsed: Option<Json>, outputDir: Path, cwd: seq<string>) returns (count: nat)
    modifies tree
    ensures tree.files == AfterWrites(old(tree.files), Writes(parsed, outputDir, cwd))
    ensures count == |Writes(parsed, outputDir, cwd)|
  {
    count := 0;
    if parsed.None? || !parsed.value.JArray? {
      assert Writes(parsed, outputDir, cwd) == [];
      return;
    }
    var entries := parsed.value.items;
    ghost var written: seq<(seq<string>, string)> := [];
    for i := 0 to |entries|
      invariant Writes(parsed, outputDir, cwd) == written + Plan(entries[i..], outputDir, cwd)
      invariant tree.files == AfterWrites(old(tree.files), written)
      invariant count == |written|
    {
      var outcome := Classify(entries[i], outputDir, cwd);
      PlanStep(entries, i, outputDir, cwd);
      if outcome.Aborted? {
        assert Writes(parsed, outputDir, cwd) == written;
        return;
      }
      if outcome.Skipped? || outcome.Rejected? {
        continue;
      }
      tree.WriteText(outcome.dest, outcome.code);
      AfterWritesStep(old(tree.files), written, outcome.dest, outcome.code);
      written := written + [(outcome.dest, outcome.code)];
      count := count + 1;
    }
    assert entries[|entries|..] == [];
    assert written + [] == written;
  }
}
