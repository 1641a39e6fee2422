# codeloom, modelled in Dafny

codeloom maps a source tree into a JSON tree of files and directories
(`lib/mapper.mjs`). It then weaves the files of that tree into one text
artifact, with a delimiter around each `FILE_PATH:` header
(`lib/concatenator.mjs`). Next it asks a language model about the map and
the artifact, and recovers JSON from the free-text replies
(`lib/analyzer.mjs`). Last, it rewrites the files the model calls critical
with the code it returns (`lib/file-optimizer.mjs`).

This project models the deterministic core of those four files. Each
module is proved against a specification of its own.

- `text.dfy` (module `Text`) holds the ECMAScript string operations the
  code relies on: `trim`, the `\s` class, `split` with a string
  separator, `join`, `replace` with a string pattern (first occurrence
  only), and `.length` in UTF-16 code units. It also proves their laws, such as `join(split(s)) == s` and that
  splitting on a character gives one piece more than its occurrences.
- `tree.dfy` (module `Tree`) holds the map's node type, which the walker
  and the weaver share, and the depth-first list of file paths below a
  node.
- `mapper.dfy` (module `Mapper`) models the walker.
  - The filesystem is a value: a directory holds its listing or a listing
    failure, and a file holds its text or a read failure.
  - The gitignore rules are an opaque predicate on root-relative paths.
  - `mapDirectory` and the target loop of `mapCodebase` are methods with
    loops. Each is proved equal to a recursive specification.
  - Lemmas about that specification prove what the walker promises:
    - line counts;
    - which entries survive;
    - no empty directory below the synthetic root;
    - enumeration and argument order;
    - ignored paths are never descended into.
- `weaver.dfy` (module `Weaver`) models the weaver.
  - `isBinaryContent` is a counted loop with an early return.
  - `weaveCodebase`/`processNode` append to an `OutputStream` object whose
    log of writes is its state.
  - File reads are a function from path to bytes or an error, and UTF-8
    decoding is an opaque function.
  - The lemmas prove what a weave writes: four writes per file node, in
    traversal order, with the header written even when the read fails.
- `analyzer.dfy` (module `Analyzer`) models the analyzer.
  - The reader of the artifact is split, filter, then per-segment parsing.
  - Fence stripping follows `/```json\n?|\n?```/g`.
  - The brace-expression scanner follows
    `/\{(?:[^{}]|(\{(?:[^{}]|\1)*\}))*\}/g`. While group 1 is open its
    capture is undefined, so `\1` matches the empty string. The pattern
    therefore only matches brace expressions nested at most two levels
    deep. The scanner tracks that depth, and it is proved to find exactly
    those expressions, left to right and without overlap.
  - Selection of the longest candidate takes the last one on ties.
  - The parse-and-fallback tree of `getAIAnalysis` takes `JSON.parse` as a
    parameter.
  - The model covers the success/error branch of `analyzeCodebase`.
- `optimizer.dfy` (module `Optimizer`) models the optimizer.
  - Code-block extraction follows
    `/```(?:[\w-]+)?\s*([\s\S]*?)\s*```|^[\s\S]+$/`. Its second
    alternative matches at position 0 for any non-empty reply, so a fenced
    block is only taken from a reply that begins with a fence.
  - The optimizer loop rewrites files held by a `Workspace` object.

Facts of the code that the model keeps:

- Weaver and reader use different delimiters:
  - the weaver writes `//==== CODELOOM_DELIMITER ====/` (lib/concatenator.mjs:5);
  - the reader splits on `//==== CODELOOM_DELIMITER ====//` (lib/analyzer.mjs:14).

  Even with equal delimiters, a header and its file text would land in
  different segments. No weave/read round trip holds, and none is claimed.
  `Analyzer.FramingLinesLackReaderDelimiter` and `Analyzer.HeaderSegment`
  state what does hold.
- The weaver rebuilds a file's path from the names of its ancestors below
  the synthetic root. A directory node's name is the last segment of its
  target, so a nested target such as `src/lib` yields paths below `lib`.
- Candidate selection in `extractJSON` (lib/analyzer.mjs:144-152):
  - the `reduce` at line 149 keeps the accumulator only when it is
    strictly longer, so ties go to the later candidate;
  - lengths are JavaScript `.length`, in UTF-16 code units, so a
    character beyond the Basic Multilingual Plane counts twice;
  - the regex at line 145 counts braces inside string literals like any
    other, and only matches brace expressions up to depth two.
- A reply without any candidate becomes `{rawResponse}`
  (lib/analyzer.mjs:172-176). It has no `error` field, so
  `analyzeCodebase` saves it down its success branch
  (lib/analyzer.mjs:217).
- The code filters files only through the ignore rules and the line
  ceiling (lib/mapper.mjs:40, 52). It has no extension filter, the weaver
  checks no excluded paths (lib/concatenator.mjs:27-57), and
  `optimizeFiles` iterates `criticalFiles` as it comes
  (lib/file-optimizer.mjs:138-140). None of these is modelled.

## Model

| member | source | states |
|---|---|---|
| Text.Split | lib/mapper.mjs:23 | `split` with a string separator always yields at least one piece |
| Text.SplitCharCount | lib/mapper.mjs:23 | splitting on one character yields the number of its occurrences plus one pieces |
| Text.JoinSplit | lib/analyzer.mjs:39-42 | joining the pieces of a split with the same separator restores the text |
| Text.Trim | lib/analyzer.mjs:39 | `trim` leaves no whitespace at either end, never lengthens, and yields "" exactly for all-whitespace text |
| Text.TrimFramed | lib/analyzer.mjs:39 | trimming whitespace-framed trimmed text yields that text |
| Text.Utf16Length | lib/analyzer.mjs:149 | `.length` counts UTF-16 code units: between one and two per character |
| Text.Utf16LengthBmp | lib/analyzer.mjs:149 | `.length` is exactly the number of characters when all lie in the Basic Multilingual Plane |
| Mapper.CountLines | lib/mapper.mjs:21-24 | a file's line count is its number of newlines plus one, so it is at least 1 and an empty file counts 1 |
| Mapper.ExtName | lib/mapper.mjs:56 | the extension is the suffix from the last '.' when that '.' is not the first character (except for the name ".."); it is empty without a '.' or when the only '.' leads |
| Mapper.MapEntry | lib/mapper.mjs:36-65 | an entry contributes at most one node, named after it and never for an ignored path; a file's node carries its extension and line count within `maxLines`; a directory's node has children; other entries contribute nothing |
| Mapper.EntryOutcome | lib/mapper.mjs:36-65 | an ignored entry, an entry neither file nor directory and an unreadable file contribute nothing; a readable file contributes its node exactly when its count is within `maxLines`, with its name, extension and count; a directory contributes its node only when it has children; an unlistable directory contributes nothing |
| Mapper.MapDirectory | lib/mapper.mjs:26-72 | the loop over the entries builds the node the recursive specification gives, children in enumeration order |
| Mapper.MapCodebase | lib/mapper.mjs:87-108 | the target loop builds the synthetic `root` node whose children are the targets' non-empty directory nodes in argument order, each of them well-formed |
| Mapper.MapTarget | lib/mapper.mjs:94-107 | a target contributes at most one node, and only the directory map of a directory found at that path, when it has children |
| Mapper.TargetOutcome | lib/mapper.mjs:94-107 | a missing target, a target that is not a directory, an unlistable target and a directory whose map has no children contribute nothing; a directory whose map has children contributes exactly that map |
| Mapper.MapDirWellFormed | lib/mapper.mjs:44-58 | every node under a directory is a file within the line ceiling carrying its own extension, or a directory with at least one child |
| Mapper.MapChildrenWellFormed | lib/mapper.mjs:36-66 | all nodes emitted for a list of entries are well-formed |
| Mapper.MapEntryWellFormed | lib/mapper.mjs:44-65 | the node an entry contributes, if any, is well-formed |
| Mapper.MapTargetsWellFormed | lib/mapper.mjs:93-108 | every subtree under the synthetic root is well-formed |
| Mapper.WellFormedHasFile | lib/mapper.mjs:44-48 | a kept directory has at least one file below it |
| Mapper.MapChildrenAppend | lib/mapper.mjs:36 | entries contribute in enumeration order: the children of `a + b` are those of `a` followed by those of `b` |
| Mapper.MapTargetsAppend | lib/mapper.mjs:93-101 | top-level subtrees follow the order of the `directories` argument, each target contributing independently of the others |
| Mapper.MapDirAvoidsIgnored | lib/mapper.mjs:37-42 | no file under a directory's node lies at or below an ignored root-relative path, so ignored directories are never descended into |
| Mapper.MapChildrenAvoidsIgnored | lib/mapper.mjs:36-45 | the same for the nodes of a list of entries |
| Mapper.MapEntryAvoidsIgnored | lib/mapper.mjs:37-45 | the same for the node of one entry |
| Weaver.IsBinaryContent | lib/concatenator.mjs:17-22 | true exactly when a zero byte sits at an index below both the length and 8000 |
| Weaver.BinaryIgnoresTail | lib/concatenator.mjs:17-22 | bytes from index 8000 on never change the verdict |
| Weaver.OutputStream.Open | lib/concatenator.mjs:25 | the output starts empty |
| Weaver.OutputStream.Write | lib/concatenator.mjs:32-34 | a write appends its string to the log and to the file's contents |
| Weaver.ProcessNode | lib/concatenator.mjs:27-52 | a node appends exactly the writes the traversal specification gives for it |
| Weaver.ProcessChildren | lib/concatenator.mjs:48-50 | children are processed in order, each appending its own writes |
| Weaver.WeaveCodebase | lib/concatenator.mjs:24-59 | a fresh output receives the writes of the root's children with an empty current path; a root without children writes nothing and fails |
| Weaver.NodeWritesAreSections | lib/concatenator.mjs:27-52 | a node writes one section per file node below it, in depth-first, children-in-order order |
| Weaver.ChildrenWritesAreSections | lib/concatenator.mjs:47-56 | the same for a list of children |
| Weaver.SectionsWritesAt | lib/concatenator.mjs:32-46 | each section is exactly four writes, and section k occupies writes 4k to 4k+3 |
| Weaver.WeaveShape | lib/concatenator.mjs:28-56 | the k-th file of the map is written as the opening delimiter line, `FILE_PATH: ` with its path below the root, the closing delimiter line, then its body |
| Weaver.BodyCases | lib/concatenator.mjs:36-46 | the body is the placeholder for binary content, the decoded content otherwise, and an `Error reading file:` line on a read failure |
| Weaver.NonFileNodesWriteNothing | lib/concatenator.mjs:27-51 | nodes of another type and directory records without children write nothing |
| Analyzer.NonEmpty | lib/analyzer.mjs:37 | `.filter(Boolean)` keeps every non-empty segment as often as it occurs and drops every empty one; a list without empty segments is kept as it is |
| Analyzer.NonEmptyAppend | lib/analyzer.mjs:37 | the filter keeps order: filtering `a + b` gives the filtered `a` followed by the filtered `b` |
| Analyzer.Segments | lib/analyzer.mjs:37 | the segments are exactly the non-empty pieces of the split, one per non-empty piece |
| Analyzer.ParseSegment | lib/analyzer.mjs:39-43 | a record's path and content are trimmed, and its path holds no newline |
| Analyzer.ReadWoven | lib/analyzer.mjs:34-44 | there is one record per non-empty delimiter-split segment, each with a trimmed one-line path and trimmed content |
| Analyzer.ReadWovenRecords | lib/analyzer.mjs:37-44 | every record is parsed from a non-empty segment, and every non-empty segment yields a record |
| Analyzer.ReadWovenInOrder | lib/analyzer.mjs:37-44 | when no segment is empty, the k-th record is parsed from the k-th segment |
| Analyzer.ReadWovenWithoutDelimiter | lib/analyzer.mjs:37-44 | a text without the reader's delimiter is read as a single record |
| Analyzer.SplitAbsent | lib/analyzer.mjs:37 | splitting text that lacks the separator yields the text alone |
| Analyzer.FramingLinesLackReaderDelimiter | lib/analyzer.mjs:14 | the reader's delimiter differs from the weaver's and occurs in neither of the weaver's framing lines |
| Analyzer.HeaderSegment | lib/analyzer.mjs:39-43 | a header segment framed as the weaver writes it yields its path and empty content |
| Analyzer.FirstLineAndRest | lib/analyzer.mjs:39-43 | for any first line and rest of the trimmed segment, the path is the first line without its first `FILE_PATH: `, trimmed, and the content is the rest, trimmed |
| Analyzer.OneLineSegment | lib/analyzer.mjs:39-43 | a segment of one line after trimming yields that line without its first `FILE_PATH: `, trimmed, and empty content |
| Analyzer.WeaverSectionAsRead | lib/analyzer.mjs:39-43 | text that starts as each weaver section does is read with the weaver's delimiter as its path, and the header lands in the content, whatever whitespace ends the text |
| Analyzer.WovenTextAsRead | lib/analyzer.mjs:34-44 | a woven text in which the reader's delimiter does not occur is read as one record whose path is the weaver's delimiter, also when it ends in a newline or other whitespace |
| Analyzer.PathAndContent | lib/analyzer.mjs:39-43 | a segment whose trimmed text is a `FILE_PATH:` line and more lines yields that path and the rest, each trimmed |
| Analyzer.StripFences | lib/analyzer.mjs:139-141 | fence stripping never lengthens the text |
| Analyzer.CleanResponse | lib/analyzer.mjs:139-141 | the cleaned reply has no whitespace at either end |
| Analyzer.StripWithoutBackticks | lib/analyzer.mjs:140 | text without a backtick is left unchanged |
| Analyzer.StripOpeningFence | lib/analyzer.mjs:140 | "```json" with its following newline is removed |
| Analyzer.StripTagWithoutNewline | lib/analyzer.mjs:140 | "```json" that no newline follows is removed alone |
| Analyzer.StripBareFence | lib/analyzer.mjs:140 | "```" not followed by `json` is removed |
| Analyzer.StripKeepsTagAfterNewline | lib/analyzer.mjs:140 | a "```json" fence after a newline loses only "\n```", so its `json` tag remains |
| Analyzer.Close | lib/analyzer.mjs:145 | the scanner ends a match inside the text, after where it starts |
| Analyzer.MatchAt | lib/analyzer.mjs:145 | a match starting at a position ends after it and inside the text |
| Analyzer.Spans | lib/analyzer.mjs:145-146 | every match found lies inside the text from the start position on, and ends after it starts |
| Analyzer.Candidates | lib/analyzer.mjs:145-146 | one candidate per match, each at least two characters long, opening with `{` and closing with `}` |
| Analyzer.CloseSound | lib/analyzer.mjs:145 | whatever the scanner closes is a brace expression of depth at most two |
| Analyzer.CloseComplete | lib/analyzer.mjs:145 | the scanner closes every brace expression of depth at most two at its end |
| Analyzer.MatchAtExact | lib/analyzer.mjs:145 | the match at a position is exactly the brace expression starting there |
| Analyzer.SpansExact | lib/analyzer.mjs:145-146 | every match found is a brace expression of depth at most two; none is skipped before the first match, or at all when nothing matches; the search resumes at the end of each match |
| Analyzer.SpansOrdered | lib/analyzer.mjs:145-146 | matches come left to right and do not overlap |
| Analyzer.Longest | lib/analyzer.mjs:149 | the reduce returns one of the candidates, and none is longer in UTF-16 code units |
| Analyzer.LongestIsLastMaximal | lib/analyzer.mjs:149 | the reduce selects a candidate of maximal UTF-16 length with every later candidate strictly shorter, so ties go to the later one |
| Analyzer.ExtractJson | lib/analyzer.mjs:144-152 | `extractJSON` returns null exactly when there is no candidate |
| Analyzer.ExtractJsonIsLongestCandidate | lib/analyzer.mjs:144-152 | the extracted text is a brace expression found by the scan and no candidate is longer in UTF-16 code units; with no result, the cleaned text holds no brace expression of depth at most two |
| Analyzer.Analyze | lib/analyzer.mjs:133-184 | a failed call gives the error object; otherwise the result is the parse of the whole cleaned reply, or `{rawResponse: cleaned}` when it does not parse and has no candidate, or the parse of a candidate or the `Failed to parse extracted JSON:` error object for it; nothing escapes |
| Analyzer.AnalyzeCleaned | lib/analyzer.mjs:154-177 | once the reply is cleaned: its parse, or `{rawResponse: cleaned}` when it does not parse and has no candidate, or the parse of a candidate or the error object for it |
| Analyzer.CleanedOutcomes | lib/analyzer.mjs:154-177 | for any cleaned text, which of the four outcomes the fallback gives, with the longest candidate the one parsed |
| Analyzer.AnalyzeOutcomes | lib/analyzer.mjs:154-177 | the whole cleaned text wins if it parses; else the longest candidate's value; with no candidate `{rawResponse: cleaned}` without an `error` field; a candidate that does not parse gives the `Failed to parse extracted JSON:` error object |
| Analyzer.ErrorObject | lib/analyzer.mjs:178-184 | the caught error becomes an object with exactly `error` and `rawResponse` |
| Analyzer.Get | lib/analyzer.mjs:217 | a field is present only on objects that hold it |
| Analyzer.Decide | lib/analyzer.mjs:217-241 | only `null` aborts; a truthy result without a truthy `error` is written unchanged; otherwise exactly the `error` and `rawResponse` fields it has are written, with their values |
| Analyzer.ErrorObjectWrittenAsIs | lib/analyzer.mjs:217-241 | every error object of the analysis is written as it is |
| Analyzer.RawResponseWrittenAsSuccess | lib/analyzer.mjs:172-176 | a reply without candidates is written as the `{rawResponse}` object, down the success branch |
| Optimizer.TagEnd | lib/file-optimizer.mjs:112 | the tag is the longest run of `[\w-]` characters |
| Optimizer.SpaceEnd | lib/file-optimizer.mjs:112 | the whitespace after the tag is the longest run |
| Optimizer.FenceFrom | lib/file-optimizer.mjs:112 | the closing fence is the first fence after the opening |
| Optimizer.SpaceBefore | lib/file-optimizer.mjs:112 | the lazy body ends where the whitespace before the closing fence begins |
| Optimizer.CodeGroup | lib/file-optimizer.mjs:112-113 | a fenced group exists only for a reply that begins with a fence |
| Optimizer.CodeGroupAt | lib/file-optimizer.mjs:112 | located by the ends of tag, whitespace, body and the first closing fence after the body's start, the group is the body, whatever single backticks it holds |
| Optimizer.ExtractCode | lib/file-optimizer.mjs:112-122 | the result has no whitespace at either end; an empty reply yields ""; a reply that does not begin with a fence yields itself trimmed |
| Optimizer.CodeGroupShape | lib/file-optimizer.mjs:112 | the fenced group is already trimmed and contains no fence |
| Optimizer.ExtractCodeCases | lib/file-optimizer.mjs:115-122 | the result is the whole reply trimmed, or a non-empty fenced group taken verbatim from a reply that begins with a fence |
| Optimizer.FencedReply | lib/file-optimizer.mjs:112-116 | a fence, a tag, whitespace, a body and a closing fence yield the body, when no fence starts before the closing one; the body may hold backticks |
| Optimizer.TemplateLiteralKept | lib/file-optimizer.mjs:112-116 | a fenced body holding a template literal comes out whole |
| Optimizer.TagIsEaten | lib/file-optimizer.mjs:112 | "```return x```" yields "x": the word after the fence is taken as the tag |
| Optimizer.EmptyFenceFallsBack | lib/file-optimizer.mjs:116 | an empty fenced body falls back to the whole reply trimmed |
| Optimizer.Workspace.Open | lib/file-optimizer.mjs:142 | the workspace holds the project files as given |
| Optimizer.Workspace.Write | lib/file-optimizer.mjs:41-49 | a write replaces the text at one path and nothing else |
| Optimizer.Step | lib/file-optimizer.mjs:144-163 | one iteration creates or deletes no file; unless it reports a rewrite it changes nothing; a rewrite replaces only the listed file, which exists and is writable, with trimmed code that differs from its old text trimmed |
| Optimizer.Optimize | lib/file-optimizer.mjs:140-164 | every listed file gets exactly one outcome |
| Optimizer.OptimizeFiles | lib/file-optimizer.mjs:125-167 | the loop leaves the files and outcomes the per-file specification gives, in list order |
| Optimizer.RewrittenIffChanged | lib/file-optimizer.mjs:144-160 | a file is reported rewritten exactly when its text changes, and then it is existing, answered, writable, and holds extracted code that differs from its old text trimmed; conversely an existing, answered, writable file whose extracted code differs from its text trimmed is rewritten with that code |
| Optimizer.StepOutcome | lib/file-optimizer.mjs:144-163 | the outcome of each branch: a missing file or a failed call fails, code equal to the trimmed text leaves it unchanged, a write that is not allowed fails, otherwise the code is written and reported rewritten |
| Optimizer.OptimizeKeepsPaths | lib/file-optimizer.mjs:144-163 | no file is created or deleted |
| Optimizer.StepKeepsOthers | lib/file-optimizer.mjs:144-163 | one iteration leaves every other file's text as it was |
| Optimizer.StepKeepsOrTrims | lib/file-optimizer.mjs:155-157 | one iteration leaves a file's text as it was or trimmed |
| Optimizer.OptimizeUnlisted | lib/file-optimizer.mjs:140-164 | a file that is not listed keeps its text |
| Optimizer.OptimizeAppend | lib/file-optimizer.mjs:140-164 | later files are processed from the state the earlier ones left, failures included, so one error never stops the loop |
| Optimizer.RewrittenFilesTrimmed | lib/file-optimizer.mjs:155-157 | every file is either unchanged or holds trimmed text |

## Left out

- The model calls, prompts, safety and generation settings, and
  `result.response.text()` are network I/O. A reply is an input string,
  or an error message when the call throws.
- The `error.rawResponse` field of an error thrown by the model library is
  library behaviour: the modelled error object always carries the
  fallback text.
- gitignore pattern semantics of the `ignore` library, including the added
  output-directory pattern, are foreign code. They are an opaque predicate
  on root-relative paths. `ig.ignores` throwing on a path it refuses is not
  modelled.
- `JSON.parse` is an opaque function to a value or a syntax error.
  `JSON.stringify` and the files holding the map and the suggestions are
  not modelled: the map is handed to the weaver as a value, and the
  analyzer's output is the decision of what to write.
- Filesystem calls and UTF-8 decoding are abstract inputs and functions:
  `readdir`, `stat`, `readFile`, `open`/`write`/`close`, `mkdir` and
  `writeFile`. A failing write to the woven output or to a suggestions file
  is not modelled. A failing write of an optimized file is a predicate on
  its path.
- `path.join`/`path.resolve` normalisation is not modelled. Paths are
  sequences of segments joined with "/", and the optimizer's files are
  keyed by the listed path.
- A target path through a file, or through a directory that cannot be
  listed, is simply not found.
- MapTarget, MapCodebase: `fs.stat` at lib/mapper.mjs:96 follows symbolic
  links, so the code maps a target that is a link to a directory. The
  model has no link targets: such a target is an `OtherEntry` and is
  skipped. Links met inside a directory are skipped, as in the code.
- Optimizer.Step, Optimizer.Workspace.Write: a failing `fs.writeFile`
  (lib/file-optimizer.mjs:41-49) may leave the file truncated or partly
  written. The model keeps the old text on a failed write.
- `dotenv`, the API-key check, `process.exit`, the delay between calls,
  console output, `bin/codeloom.mjs` and `lib/index.mjs` are left out.
  `lib/index.mjs` passes `(directories, outputDir)` to a function taking
  `(directories, maxLines, outputDir)`. That is plumbing and is not
  modelled.
- Mapper.MapCodebase: `maxLines` is an integer. A `NaN` ceiling, for which
  every comparison is false, is not modelled.
- Optimizer.OptimizeFiles: a `criticalFiles` field that is not an array,
  and list entries without a `path`, are not modelled. The list is a
  sequence of records.
- The prompt-building code of `getAIAnalysis` and `optimizeFile` is left
  out. This includes `parseInt(args[0]) || 3`, which only feeds the prompt.
