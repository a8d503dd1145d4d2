/** The runner's string and path decisions: clean_markdown_json, which peels
    one markdown fence off a model response without touching its inside, and
    save_script, which chooses where each model-supplied file is saved. */
module Runner {
  import opened Wrappers
  import opened Text
  import opened Paths
  import opened Json

  const Fence: string := "```"
  const JsonFence: string := "```json"

  /** One leading "```json" (tested first) or "```" dropped, then stripped. */
  function DropOpening(s: string): (r: string)
    ensures |r| <= |s|
    ensures Trimmed(s) ==> Trimmed(r)
  {
    if StartsWith(s, JsonFence) then Strip(s[|JsonFence|..])
    else if StartsWith(s, Fence) then Strip(s[|Fence|..])
    else s
  }

  /** One trailing "```" dropped, then stripped. */
  function DropClosing(s: string): (r: string)
    ensures |r| <= |s|
    ensures Trimmed(s) ==> Trimmed(r)
  {
    if EndsWith(s, Fence) then Strip(s[..|s| - |Fence|]) else s
  }

  /** The fence peeling of clean_markdown_json: strip, drop one opening
      fence, strip, drop one closing fence, strip. */
  function StripFences(response: string): (r: string)
    ensures Trimmed(r)
    ensures |r| <= |response|
  {
    DropClosing(DropOpening(Strip(response)))
  }

  const ScriptsKey: string := "scripts"

  /** The parse succeeded and gave a dictionary with a "scripts" key. */
  predicate HasScripts(parsed: Option<Json>) {
    parsed.Some? && parsed.value.JObject? && ScriptsKey in parsed.value.fields
  }

  /** clean_markdown_json. json.loads and json.dumps are the parameters `parse`
      (None where it raises JSONDecodeError) and `dumps`. */
  function CleanMarkdownJson(response: string, parse: string -> Option<Json>, dumps: Json -> string): string {
    var cleaned := StripFences(response);
    var parsed := parse(cleaned);
    if HasScripts(parsed) then dumps(parsed.value.fields[ScriptsKey]) else cleaned
  }

  /** The response a model gives when it fences its JSON. */
  function Wrap(x: string): string {
    JsonFence + "\n" + x + "\n" + Fence
  }

  lemma JsonFenceIsFence(s: string)
    requires StartsWith(s, JsonFence)
    ensures StartsWith(s, Fence)
  {
    assert s[..3] == s[..7][..3];
  }

  lemma DropOpeningIsSlice(s: string)
    ensures exists i: nat :: SliceAt(s, i, DropOpening(s))
  {
    if StartsWith(s, JsonFence) || StartsWith(s, Fence) {
      var k := if StartsWith(s, JsonFence) then |JsonFence| else |Fence|;
      var rest := s[k..];
      assert SliceAt(s, k, rest);
      var r := Strip(rest);
      assert r == DropOpening(s);
      var j: nat :| SliceAt(rest, j, r);
      SliceOfSlice(s, k, rest, j, r);
    } else {
      assert DropOpening(s) == s;
      assert SliceAt(s, 0, s);
    }
  }

  lemma DropClosingIsSlice(s: string)
    ensures exists i: nat :: SliceAt(s, i, DropClosing(s))
  {
    if EndsWith(s, Fence) {
      var body := s[..|s| - |Fence|];
      assert SliceAt(s, 0, body);
      var r := Strip(body);
      assert r == DropClosing(s);
      var j: nat :| SliceAt(body, j, r);
      SliceOfSlice(s, 0, body, j, r);
    } else {
      assert DropClosing(s) == s;
      assert SliceAt(s, 0, s);
    }
  }

  /** The fence-peeled result is one contiguous piece of the response: nothing
      inside it is rewritten. */
  lemma StripFencesIsSlice(response: string)
    ensures exists i: nat :: SliceAt(response, i, StripFences(response))
  {
    var cleaned := Strip(response);
    var unfenced := DropOpening(cleaned);
    DropOpeningIsSlice(cleaned);
    PieceOfPiece(response, cleaned, unfenced);
    DropClosingIsSlice(unfenced);
    PieceOfPiece(response, unfenced, DropClosing(unfenced));
    assert StripFences(response) == DropClosing(unfenced);
  }

  /** The response comes back as it is iff it is already trimmed and neither
      starts nor ends with a fence: at most one fence is peeled from each end. */
  lemma StripFencesFixedIff(s: string)
    ensures StripFences(s) == s <==> Trimmed(s) && !StartsWith(s, Fence) && !EndsWith(s, Fence)
  {
    if Trimmed(s) {
      StripTrimmed(s);
      if StartsWith(s, JsonFence) {
        JsonFenceIsFence(s);
        assert |DropOpening(s)| < |s|;
      } else if StartsWith(s, Fence) {
        assert |DropOpening(s)| < |s|;
      } else {
        assert DropOpening(s) == s;
        if EndsWith(s, Fence) {
          assert |DropClosing(s)| < |s|;
        }
      }
    }
  }

  lemma DropOpeningJsonFence(r: string)
    ensures DropOpening(JsonFence + r) == Strip(r)
  {
    var w := JsonFence + r;
    assert w[..|JsonFence|] == JsonFence;
    assert w[|JsonFence|..] == r;
  }

  lemma DropClosingFence(t: string)
    ensures DropClosing(t + Fence) == Strip(t)
  {
    var w := t + Fence;
    assert w[|w| - |Fence|..] == Fence;
    assert w[..|w| - |Fence|] == t;
  }

  lemma NewlinesAreSpace()
    ensures AllSpace("\n") && AllSpace("\n\n")
  {
  }

  /** The text between the fences, with its newlines, strips to the text and
      the closing fence. */
  lemma StripInsideFences(x: string)
    requires Trimmed(x)
    ensures Strip("\n" + x + "\n" + Fence) == (if x == [] then Fence else x + "\n" + Fence)
  {
    NewlinesAreSpace();
    var nl: string := "\n";
    if x == [] {
      assert nl + x + nl + Fence == (nl + nl) + Fence + [];
      StripAround(nl + nl, Fence, []);
    } else {
      assert nl + x + nl + Fence == nl + (x + nl + Fence) + [];
      StripAround(nl, x + nl + Fence, []);
    }
  }

  /** The text followed by a newline strips to the text. */
  lemma StripTrailingNewline(x: string)
    requires Trimmed(x)
    ensures Strip(x + "\n") == x
  {
    NewlinesAreSpace();
    assert x + "\n" == [] + x + "\n";
    StripAround([], x, "\n");
  }

  lemma WrapParts(x: string)
    ensures Wrap(x) == JsonFence + ("\n" + x + "\n" + Fence)
    ensures Trimmed(Wrap(x))
  {
  }

  /** What is left after the opening fence loses its closing fence. */
  lemma DropClosingInside(x: string)
    requires Trimmed(x)
    ensures DropClosing(if x == [] then Fence else x + "\n" + Fence) == x
  {
    if x == [] {
      assert Fence == [] + Fence;
      DropClosingFence([]);
      StripTrimmed([]);
    } else {
      DropClosingFence(x + "\n");
      StripTrailingNewline(x);
    }
  }

  /** Fencing a trimmed text and peeling the fences gives the text back, even
      when the text itself starts or ends with "```". */
  lemma FenceRoundTrip(x: string)
    requires Trimmed(x)
    ensures StripFences(Wrap(x)) == x
  {
    WrapParts(x);
    StripTrimmed(Wrap(x));
    DropOpeningJsonFence("\n" + x + "\n" + Fence);
    StripInsideFences(x);
    DropClosingInside(x);
  }

  /** Cleaning a fenced unfenced text gives what cleaning the text gives. */
  lemma CleanFenceRoundTrip(x: string, parse: string -> Option<Json>, dumps: Json -> string)
    requires Trimmed(x) && !StartsWith(x, Fence) && !EndsWith(x, Fence)
    ensures CleanMarkdownJson(Wrap(x), parse, dumps) == CleanMarkdownJson(x, parse, dumps)
  {
    FenceRoundTrip(x);
    StripFencesFixedIff(x);
    SameStrippedSameClean(Wrap(x), x, parse, dumps);
  }

  /** Cleaning depends on the response only through its fence-peeled form. */
  lemma SameStrippedSameClean(a: string, b: string, parse: string -> Option<Json>, dumps: Json -> string)
    requires StripFences(a) == StripFences(b)
    ensures CleanMarkdownJson(a, parse, dumps) == CleanMarkdownJson(b, parse, dumps)
  {
  }

  /** A trimmed, unfenced response that does not parse to a dictionary with a
      "scripts" key comes back unchanged; a parse failure never raises. */
  lemma CleanUnfencedUnchanged(x: string, parse: string -> Option<Json>, dumps: Json -> string)
    requires Trimmed(x) && !StartsWith(x, Fence) && !EndsWith(x, Fence)
    requires !HasScripts(parse(x))
    ensures CleanMarkdownJson(x, parse, dumps) == x
  {
    StripFencesFixedIff(x);
  }

  /** A dictionary with a "scripts" key is replaced by that value alone,
      serialised. */
  lemma ScriptsUnwrapped(response: string, parse: string -> Option<Json>, dumps: Json -> string, fields: map<string, Json>)
    requires parse(StripFences(response)) == Some(JObject(fields)) && ScriptsKey in fields
    ensures CleanMarkdownJson(response, parse, dumps) == dumps(fields[ScriptsKey])
  {
  }

  /** One entry of the parsed response list. */
  datatype CodeOutput = CodeOutput(filePath: string, codeContent: string)

  /** The path save_script passes on for one entry: a relative path as it is,
      an absolute path under the project root relative to the root, any other
      absolute path reduced to its final name. The result is never absolute. */
  function ChooseRelativePath(filePath: string, projectRoot: Path): (r: Path)
    ensures !r.absolute
  {
    var modelPath := Parse(filePath);
    if modelPath.absolute then
      match RelativeTo(modelPath, projectRoot)
      case Some(rel) => rel
      case None =>
        var name := Name(modelPath);
        assert name != [] ==> name[0] != '/';
        StartsWithSlash(name);
        Parse(name)
    else modelPath
  }

  /** A relative path from the model is used as it is. */
  lemma RelativePathKept(filePath: string, projectRoot: Path)
    requires !StartsWith(filePath, "/")
    ensures ChooseRelativePath(filePath, projectRoot) == Parse(filePath)
  {
  }

  /** An absolute path under the project root is made relative to it: joined
      back onto the root it gives the model's path. */
  lemma InsideRootRejoins(filePath: string, projectRoot: Path)
    requires StartsWith(filePath, "/") && projectRoot.absolute
    requires StrictlyUnder(projectRoot.parts, Parse(filePath).parts) || projectRoot.parts == Parse(filePath).parts
    ensures JoinPath(projectRoot, ChooseRelativePath(filePath, projectRoot)) == Parse(filePath)
  {
  }

  /** An absolute path outside the project root keeps only its final name. */
  lemma OutsideRootKeepsName(filePath: string, projectRoot: Path)
    requires StartsWith(filePath, "/")
    requires RelativeTo(Parse(filePath), projectRoot).None?
    ensures ChooseRelativePath(filePath, projectRoot).parts ==
      (if Parse(filePath).parts == [] then [] else [Parse(filePath).parts[|Parse(filePath).parts| - 1]])
  {
    var name := Name(Parse(filePath));
    if name != [] {
      assert IsPart(name);
      SplitNoSep(name, '/');
      assert KeptPieces([name]) == [name] + KeptPieces([]);
    } else {
      SplitNoSep(name, '/');
    }
  }

  /** The loop of save_script: one save per entry, in list order. The save
      itself (save_code_to_beecode) is not part of this model; the result is
      the sequence of saves it is called with. */
  method SaveScripts(scripts: seq<CodeOutput>, projectRoot: Path) returns (saves: seq<(Path, string)>)
    ensures |saves| == |scripts|
    ensures forall i :: 0 <= i < |scripts| ==>
      saves[i] == (ChooseRelativePath(scripts[i].filePath, projectRoot), scripts[i].codeContent)
  {
    saves := [];
    for i := 0 to |scripts|
      invariant |saves| == i
      invariant forall j :: 0 <= j < i ==>
        saves[j] == (ChooseRelativePath(scripts[j].filePath, projectRoot), scripts[j].codeContent)
    {
      var script := scripts[i];
      var relativePath := ChooseRelativePath(script.filePath, projectRoot);
      saves := saves + [(relativePath, script.codeContent)];
    }
  }
}
