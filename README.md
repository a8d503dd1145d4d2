# agentbee core, modelled in Dafny

agentbee sends a project's source code to a language model and writes the model's answer back to disk. This project models the three parts of that round trip that decide what is sent and what is written:

- **`accumulate_code`** (`agentbee/core/file_io.py`). It reads a list of files and concatenates them. Each file's text follows a `--- FILE: <path> ---` header. When scrubbing is on, comments are stripped first:
  - the multi-line delimiter pairs of the file's extension are cut out by a `while` loop built on `str.find`;
  - then every line whose stripped form starts with one of the extension's single-line markers is dropped.
- **`apply_code_changes`** (`agentbee/core/file_io.py`). It takes the parsed JSON answer and writes each `{file_path, code}` entry under an output directory. A destination is refused unless the resolved output directory is one of its `.parents`.
- **`runner.py`**:
  - `clean_markdown_json` peels one markdown fence off the model's answer and unwraps a `scripts` key;
  - `save_script` chooses the path each model-supplied file is saved under.

The modules are:

- `Text` models the Python string builtins the code relies on: `str.isspace`, `strip`, `find`, `startswith`, `endswith`, one-character `split` and `join`, and `lower`.
- `Paths` models the `pathlib` behaviour it relies on:
  - parsing and `as_posix`;
  - `/`, which discards the base for an absolute right side;
  - lexical `resolve`, where `..` stays put at the root;
  - `.parents`, `relative_to`, `.name` and `.suffix`.
- `Json` is the parsed JSON value.
- `Accumulate`, `ApplyChanges` and `Runner` follow the three source functions:
  - In `Accumulate`, `Scrubbed` is what one file's text becomes, `FileBlock` is its header plus that text, and `Accumulated` is the concatenation of the blocks over the path list.
  - In `ApplyChanges`, `Classify` is one pass of the loop body (skip, refuse, write, or a TypeError that ends the loop), `Plan` folds it over the entries, and `Writes` is the list of writes for a whole answer.
  - In `Runner`, `StripFences` and `CleanMarkdownJson` are `clean_markdown_json`, and `ChooseRelativePath` is the path choice of `save_script`.

State is modelled as follows:

- The loops of the source are methods with loop invariants.
- Each method is proved equal to a specification function, and the properties the code promises are proved as lemmas about those functions.
- The file system that `apply_code_changes` writes to is the class `ApplyChanges.FileTree`, whose map of files `WriteText` updates in place.
- The files `accumulate_code` reads are a map from path to decoded text. A path missing from the map is a file whose `open` or `read` raises.
- `json.loads` and `json.dumps` are parameters of `Runner.CleanMarkdownJson`. `loads` returns `None` where it raises `JSONDecodeError`.
- `apply_code_changes` works on the already-parsed value, `None` when parsing failed.

## Model

| member | source | states |
|---|---|---|
| Text.Strip | agentbee/core/runner.py:43 | `str.strip()` returns a contiguous piece of its input with no whitespace (Python's `isspace` set) at either end |
| Text.StripAround | agentbee/core/runner.py:43-52 | stripping whitespace that surrounds a trimmed text gives exactly that text |
| Text.StripTrimmed | agentbee/core/runner.py:43 | a text with no whitespace at either end is a fixed point of `strip()` |
| Text.Find | agentbee/core/file_io.py:51-55 | a found index lies at or after `start` and leaves room for the whole of `sub` |
| Text.FindIsFirst | agentbee/core/file_io.py:51-55 | `str.find(sub, start)` gives the lowest index at or after `start` where `sub` occurs, and gives no index (Python's -1) exactly when there is none, including when `start` is past the end |
| Text.IndexOf | agentbee/core/file_io.py:51 | the lowest occurrence of `sub`, or none when it occurs nowhere |
| Text.Split | agentbee/core/file_io.py:66 | `split('\n')` always yields at least one piece and no piece holds the separator |
| Text.JoinSplit | agentbee/core/file_io.py:66-75 | joining the pieces of a split with the same separator gives the text back, so a text with no dropped line is unchanged |
| Text.SplitJoin | agentbee/core/file_io.py:66-75 | splitting a join of separator-free pieces gives the pieces back |
| Text.Lower | agentbee/core/file_io.py:42 | `lower()` maps each ASCII capital to its small letter and keeps every other character and the length |
| Paths.Parse | agentbee/core/file_io.py:100 | `Path(s)` is absolute iff `s` starts with `/`, and its parts are the kept pieces of `s` split at `/`: a string is a part iff it is a piece that is neither empty nor `.` (so `./src/a.py` and `src//a.py` both give `src`, `a.py`) |
| Paths.KeptPieces | agentbee/core/file_io.py:100 | a string is kept iff it is one of the pieces and is neither empty nor `.` |
| Paths.KeptPiecesAppend | agentbee/core/file_io.py:100 | pieces are kept one by one, so the parts keep the order of the pieces |
| Paths.ParseAsPosix | agentbee/core/file_io.py:39 | rendering a path with `as_posix()` and parsing it again gives the same path |
| Paths.FindLast | agentbee/core/file_io.py:42 | the last position of a character, none when it does not occur |
| Paths.Suffix | agentbee/core/file_io.py:42 | `.suffix` is non-empty exactly when the name has a last dot that neither starts nor ends it (`a.py` has `.py`, `.bashrc` and `a.` have none), and then it is that dot and everything after it |
| Paths.RelativeToJoin | agentbee/core/runner.py:78 | `(base / rel).relative_to(base)` gives back any relative `rel`: joining and `relative_to` undo each other |
| Paths.Normalize | agentbee/core/file_io.py:103 | lexical resolution leaves no `.`, `..` or empty part, and never gains parts |
| Paths.NormalizeAppend | agentbee/core/file_io.py:103 | appending plain parts to a path extends its resolved form by exactly those parts |
| Paths.NormalizeUp | agentbee/core/file_io.py:103 | one more `..` removes the last resolved part, and at the root stays at the root |
| Paths.Parents | agentbee/core/file_io.py:104 | a path has exactly as many `.parents` as parts |
| Paths.ParentsAreStrictAncestors | agentbee/core/file_io.py:104 | a path is among another's `.parents` iff it is a proper prefix of it |
| Paths.RelativeTo | agentbee/core/runner.py:78 | `relative_to` succeeds iff the root has the same anchor and is a prefix of the path, and then the root's parts followed by the result's parts are the path's parts |
| Accumulate.TablePairsUsable | agentbee/core/file_io.py:15-23 | every delimiter pair in the table has a non-empty delimiter, so the removal loop terminates |
| Accumulate.NextCut | agentbee/core/file_io.py:51-58 | one pass of the loop removes at least both delimiters when it removes anything |
| Accumulate.NextCutSpan | agentbee/core/file_io.py:51-58 | a pass removes exactly the span from the first start delimiter through the first end delimiter at or after the start delimiter's end, and keeps the text before and after that span verbatim |
| Accumulate.NextCutIff | agentbee/core/file_io.py:51-58 | a pass removes a span iff the first start delimiter has an end delimiter at or after its end; otherwise the loop breaks |
| Accumulate.NoEndNotClosed | agentbee/core/file_io.py:54-57 | when no end delimiter follows the first start delimiter, the text holds no closed comment, so the loop breaks |
| Accumulate.ScrubPair | agentbee/core/file_io.py:49-58 | repeated removal of delimited spans never lengthens the text |
| Accumulate.ScrubPairUnchangedIff | agentbee/core/file_io.py:49-58 | the text is left as it is iff its first start delimiter has no end delimiter after it, so an unclosed comment stops the pass; each removal takes out at least both delimiters |
| Accumulate.ScrubPairSettled | agentbee/core/file_io.py:49-58 | after the loop no closed comment is left |
| Accumulate.ScrubPairIdempotent | agentbee/core/file_io.py:49-58 | scrubbing a pair twice gives what scrubbing it once gives |
| Accumulate.LoneOpenerStays | agentbee/core/file_io.py:54 | the end search starts after the start delimiter, so a text in which a delimiter used as both start and end (such as `"""`) occurs at most once is left unchanged |
| Accumulate.RemoveDelimitedSpans | agentbee/core/file_io.py:50-58 | the `while True` loop computes the repeated removal and leaves no closed comment |
| Accumulate.ScrubDelimited | agentbee/core/file_io.py:46-58 | applying the pairs in table order never lengthens the text |
| Accumulate.ScrubMultiLine | agentbee/core/file_io.py:45-58 | the loop over the extension's pairs computes the pairs' removals in table order, and an unclosed comment stops only its own pair |
| Accumulate.KeptLinesExactly | agentbee/core/file_io.py:67-73 | a line survives iff it is an input line whose stripped form starts with none of the markers |
| Accumulate.KeptLinesAll | agentbee/core/file_io.py:67-73 | when no line is a comment line, every line is kept in order |
| Accumulate.ScrubLinesUnchanged | agentbee/core/file_io.py:66-74 | when no line is a comment line, single-line scrubbing returns the text unchanged |
| Accumulate.NoMarkersUnchanged | agentbee/core/file_io.py:61-64 | with no markers, single-line scrubbing returns the text unchanged |
| Accumulate.ScrubSingleLine | agentbee/core/file_io.py:66-74 | the `for` loop over the lines computes the join of the lines that are not comment lines |
| Accumulate.ScrubFile | agentbee/core/file_io.py:41-74 | both scrubbing passes, with the early exit for extensions without markers, give the file's scrubbed text |
| Accumulate.AccumulatedAppend | agentbee/core/file_io.py:35-82 | the result for a list of files is the result for its first part followed by the result for the rest |
| Accumulate.UnreadableContributesNothing | agentbee/core/file_io.py:78-79 | a file that cannot be read adds neither a header nor text, and does not stop the files after it |
| Accumulate.AccumulateCode | agentbee/core/file_io.py:26-82 | the loop's result is each readable file's header and (scrubbed) text, in list order |
| ApplyChanges.FileTree.WriteText | agentbee/core/file_io.py:110 | `write_text` creates or replaces exactly one file |
| ApplyChanges.HasKey | agentbee/core/file_io.py:96 | `key in entry` has an answer exactly for dictionaries, strings and lists, and raises TypeError for the other JSON values |
| ApplyChanges.LastWrite | agentbee/core/file_io.py:110 | no write is found for a path iff no write goes to it; a found content is that of a write to the path after which no other write goes to it |
| ApplyChanges.AfterWritesAt | agentbee/core/file_io.py:110 | after the writes each path holds its last write, or what it held before when nothing was written to it |
| ApplyChanges.AfterWritesIdempotent | agentbee/core/file_io.py:110 | repeating the same writes leaves the tree as it was after the first time |
| ApplyChanges.WellFormedEntry | agentbee/core/file_io.py:96-111 | an entry with a string path and string code is written to its resolved destination iff the resolved output directory is a strict ancestor of it, and is refused otherwise |
| ApplyChanges.PlanContained | agentbee/core/file_io.py:103-107 | every write of the loop is strictly inside the resolved output directory |
| ApplyChanges.OutsideUntouched | agentbee/core/file_io.py:103-107 | no file outside the resolved output directory is created, changed or removed |
| ApplyChanges.ApplyTwiceSameAsOnce | agentbee/core/file_io.py:85-118 | applying the same answer twice gives the same tree as applying it once |
| ApplyChanges.MissingKeyIgnored | agentbee/core/file_io.py:96-98 | a dictionary entry missing `file_path` or `code` is skipped: the other entries are written as if it were not there |
| ApplyChanges.NonListWritesNothing | agentbee/core/file_io.py:89-91 | an answer that does not parse, or is not a list, writes nothing |
| ApplyChanges.PlainRelativeLandsInside | agentbee/core/file_io.py:100-104 | a relative path of plain parts lands exactly that deep under the output directory and is accepted |
| ApplyChanges.EmptyPathIsTheDirectory | agentbee/core/file_io.py:100-106 | an empty or `.` path resolves to the output directory itself and is refused, since a directory is not its own parent |
| ApplyChanges.DotsNeverDescend | agentbee/core/file_io.py:103 | `..` parts never make a resolved path longer |
| ApplyChanges.ParentPathsRejected | agentbee/core/file_io.py:103-106 | a path made only of `..` parts is always refused |
| ApplyChanges.ApplyCodeChanges | agentbee/core/file_io.py:85-118 | the loop performs exactly the planned writes, in order, up to the first entry that raises TypeError; the count is the number of files written |
| Runner.DropOpening | agentbee/core/runner.py:46-49 | dropping the opening fence never lengthens the text and keeps a trimmed text trimmed |
| Runner.DropClosing | agentbee/core/runner.py:51-52 | dropping the closing fence never lengthens the text and keeps a trimmed text trimmed |
| Runner.StripFences | agentbee/core/runner.py:43-52 | the peeled answer has no whitespace at either end and is no longer than the answer |
| Runner.StripFencesIsSlice | agentbee/core/runner.py:38-52 | the peeled answer is one contiguous piece of the answer: nothing inside it is rewritten |
| Runner.StripFencesFixedIff | agentbee/core/runner.py:43-52 | the answer comes back as it is iff it is trimmed and neither starts nor ends with a fence |
| Runner.FenceRoundTrip | agentbee/core/runner.py:46-52 | a trimmed text wrapped in a json fence is given back exactly, even when the text itself starts or ends with three backticks: one fence is peeled from each side |
| Runner.CleanFenceRoundTrip | agentbee/core/runner.py:35-62 | cleaning a fenced text gives what cleaning the text gives |
| Runner.SameStrippedSameClean | agentbee/core/runner.py:54-62 | cleaning depends on the answer only through its peeled form |
| Runner.CleanUnfencedUnchanged | agentbee/core/runner.py:54-62 | an unfenced, trimmed answer that is not a dictionary with `scripts` (including one that does not parse) comes back unchanged |
| Runner.ScriptsUnwrapped | agentbee/core/runner.py:57-58 | a dictionary with a `scripts` key is replaced by that value, serialised |
| Runner.ChooseRelativePath | agentbee/core/runner.py:72-84 | the path passed to the save is never absolute |
| Runner.RelativePathKept | agentbee/core/runner.py:82-84 | a relative path from the model is used as it is |
| Runner.InsideRootRejoins | agentbee/core/runner.py:75-78 | an absolute path under the project root is made relative to it, and joined back onto the root it gives the model's path |
| Runner.OutsideRootKeepsName | agentbee/core/runner.py:79-81 | an absolute path that `relative_to` refuses keeps only its final name |
| Runner.SaveScripts | agentbee/core/runner.py:71-90 | one save per entry, in list order, with the chosen path and the entry's code |

## Left out

- Console output (`print`), the `errors='ignore'` decoding of file contents and the reading of files themselves are not modelled. Reading is a map from path to decoded text.
- `json.loads` and `json.dumps` are not modelled. They are parameters, and `apply_code_changes` takes the parsed value. JSON numbers are integers; floats are not modelled.
- Directory creation (`mkdir` of the output directory and of each destination's parent) is not modelled, and neither are operating-system errors on writing. An `OSError` during a write would end the loop like a TypeError does; the model assumes writes succeed. In particular a `file_path` holding the character U+0000 (JSON `\u0000`) makes `resolve`, `mkdir` or `write_text` raise ValueError (embedded null byte), which ends the loop at its outer handler; `ApplyChanges.Classify` instead writes such a path when it is contained and goes on with the next entry.
- Symbolic links are not modelled: `resolve()` is lexical. A link inside the output directory that points elsewhere would let a write escape, and the model cannot show it.
- Paths.Parse: a leading `//` is treated like `/`. POSIX pathlib keeps exactly two leading slashes as a distinct anchor.
- Text.Lower: only ASCII letters are lowered. The extensions in the tables are ASCII, so only a non-ASCII suffix could differ.
- `save_code_to_beecode`, `get_project_root`, `accumulator.get_file_paths`, the git patch helpers and the LLM calls are not part of this model. `save_script` is modelled up to the sequence of saves it asks for.
- Runner.ChooseRelativePath: the chosen path may contain `..` in two ways: a relative path from the model is passed on unchecked, and `relative_to` is lexical, so an absolute path such as `/root/proj/../../etc/x` taken relative to `/root/proj` gives `../../etc/x`. The model does the same in both branches and promises nothing about `..`; whether the save keeps the file inside `.beecode.d` is decided by code outside this model.
- `accumulate`, `format_for_prompt` and `log_model_output` in `runner.py` only pass values through or print them, so they are not modelled.
- ApplyChanges.ApplyCodeChanges: `count` is only printed by the source, never returned; the model returns it so that its value can be stated.
- Accumulate.ScrubMultiLine: for `.py` the second pair (`'''`) runs on the output of the first. The model follows that order but proves no property of the combination, such as a `'''` created by removing a `"""` span.
