/** lib/file-optimizer.mjs: extracting code from a model reply, and the loop
    that rewrites each critical file. Files are a map from path to text held
    by a `Workspace`; the model call is a function parameter. */
module Optimizer {
  import opened Text
  import Analyzer

  const FENCE := "```"

  /** The class `[\w-]`. */
  predicate IsTagChar(c: char) {
    ('a' <= c <= 'z') || ('A' <= c <= 'Z') || ('0' <= c <= '9') || c == '_' || c == '-'
  }

  predicate AllTag(s: string) {
    forall i :: 0 <= i < |s| ==> IsTagChar(s[i])
  }

  predicate FenceAt(s: string, k: nat) {
    k <= |s| && StartsWith(s[k..], FENCE)
  }

  /** End of the longest run of tag characters from i (`[\w-]+` is greedy). */
  function TagEnd(s: string, i: nat): (j: nat)
    requires i <= |s|
    ensures i <= j <= |s|
    ensures forall k :: i <= k < j ==> IsTagChar(s[k])
    ensures j < |s| ==> !IsTagChar(s[j])
    decreases |s| - i
  {
    if i < |s| && IsTagChar(s[i]) then TagEnd(s, i + 1) else i
  }

  /** End of the longest run of whitespace from i (`\s*` is greedy). */
  function SpaceEnd(s: string, i: nat): (j: nat)
    requires i <= |s|
    ensures i <= j <= |s|
    ensures forall k :: i <= k < j ==> IsSpace(s[k])
    ensures j < |s| ==> !IsSpace(s[j])
    decreases |s| - i
  {
    if i < |s| && IsSpace(s[i]) then SpaceEnd(s, i + 1) else i
  }

  /** The first fence at or after i. */
  function FenceFrom(s: string, i: nat): (r: Option<nat>)
    requires i <= |s|
    ensures r.Some? ==>
      i <= r.value && FenceAt(s, r.value) && forall k :: i <= k < r.value ==> !FenceAt(s, k)
    ensures r.None? ==> forall k :: i <= k <= |s| ==> !FenceAt(s, k)
    decreases |s| - i
  {
    if FenceAt(s, i) then Some(i)
    else if i == |s| then None
    else FenceFrom(s, i + 1)
  }

  /** Start of the whitespace run that ends at q, not going below p. */
  function SpaceBefore(s: string, p: nat, q: nat): (e: nat)
    requires p <= q <= |s|
    ensures p <= e <= q
    ensures forall k :: e <= k < q ==> IsSpace(s[k])
    ensures e > p ==> !IsSpace(s[e - 1])
    decreases q - p
  {
    if q > p && IsSpace(s[q - 1]) then SpaceBefore(s, p, q - 1) else q
  }

  /** Group 1 of /```(?:[\w-]+)?\s*([\s\S]*?)\s*```|^[\s\S]+$/ when the first
      alternative matches. It can only match at position 0: otherwise the
      second alternative matches there first. The tag and the whitespace
      after it are greedy, the body is lazy, so it ends where the whitespace
      before the first later fence begins. */
  function CodeGroup(s: string): (g: Option<string>)
    ensures g.Some? ==> StartsWith(s, FENCE)
  {
    if !StartsWith(s, FENCE) then None
    else
      var p := SpaceEnd(s, TagEnd(s, 3));
      match FenceFrom(s, p)
      case None => None
      case Some(q) => Some(s[p..SpaceBefore(s, p, q)])
  }

  /** The code `optimizeFile` returns for a reply: the fenced body when there
      is a non-empty one, otherwise the whole reply trimmed. */
  function ExtractCode(reply: string): (r: string)
    ensures Trimmed(r)
    ensures reply == [] ==> r == []
    ensures !StartsWith(reply, FENCE) ==> r == Trim(reply)
  {
    match CodeGroup(reply)
    case Some(g) => if g != [] then Trim(g) else Trim(reply)
    case None => Trim(reply)
  }

  /** The fenced body is already trimmed and holds no fence. */
  lemma CodeGroupShape(s: string)
    ensures CodeGroup(s).Some? ==>
      var g := CodeGroup(s).value;
      Trimmed(g) && forall k :: 0 <= k <= |g| ==> !FenceAt(g, k)
  {
    if CodeGroup(s).Some? {
      var p := SpaceEnd(s, TagEnd(s, 3));
      var q := FenceFrom(s, p).value;
      var e := SpaceBefore(s, p, q);
      var g := s[p..e];
      assert CodeGroup(s) == Some(g);
      if g != [] {
        assert g[0] == s[p] && g[|g| - 1] == s[e - 1];
      }
      forall k | 0 <= k <= |g| ensures !FenceAt(g, k) {
        if k + 3 <= |g| {
          FenceAtShift(s, g, p, k);
        }
      }
    }
  }

  /** What comes back is either the whole reply trimmed, or a non-empty
      fenced body taken verbatim: then the reply starts with a fence. */
  lemma ExtractCodeCases(reply: string)
    ensures ExtractCode(reply) == Trim(reply)
      || (StartsWith(reply, FENCE) && ExtractCode(reply) != [] && ExtractCode(reply) == CodeGroup(reply).value)
  {
    CodeGroupShape(reply);
    if CodeGroup(reply).Some? && CodeGroup(reply).value != [] {
      TrimOfTrimmed(CodeGroup(reply).value);
    }
  }

  lemma TagEndIs(s: string, i: nat, j: nat)
    requires i <= j <= |s|
    requires forall k :: i <= k < j ==> IsTagChar(s[k])
    requires j < |s| ==> !IsTagChar(s[j])
    ensures TagEnd(s, i) == j
    decreases j - i
  {
    if i < j {
      TagEndIs(s, i + 1, j);
    }
  }

  lemma SpaceEndIs(s: string, i: nat, j: nat)
    requires i <= j <= |s|
    requires forall k :: i <= k < j ==> IsSpace(s[k])
    requires j < |s| ==> !IsSpace(s[j])
    ensures SpaceEnd(s, i) == j
    decreases j - i
  {
    if i < j {
      SpaceEndIs(s, i + 1, j);
    }
  }

  lemma SpaceBeforeIs(s: string, p: nat, e: nat, q: nat)
    requires p < e <= q <= |s|
    requires forall k :: e <= k < q ==> IsSpace(s[k])
    requires !IsSpace(s[e - 1])
    ensures SpaceBefore(s, p, q) == e
    decreases q - e
  {
    if e < q {
      SpaceBeforeIs(s, p, e, q - 1);
    }
  }

  lemma FenceFromIs(s: string, i: nat, q: nat)
    requires i <= q && FenceAt(s, q)
    requires forall k :: i <= k < q ==> !FenceAt(s, k)
    ensures FenceFrom(s, i) == Some(q)
    decreases q - i
  {
    if i < q {
      FenceFromIs(s, i + 1, q);
    }
  }

  /** The group, located by positions: the tag ends at t, the whitespace
      after it at p, the body at e, and the closing fence starts at q. */
  lemma CodeGroupAt(s: string, t: nat, p: nat, e: nat, q: nat)
    requires StartsWith(s, FENCE) && 3 <= t <= p < e <= q
    requires FenceAt(s, q)
    requires forall k :: 3 <= k < t ==> IsTagChar(s[k])
    requires !IsTagChar(s[t])
    requires forall k :: t <= k < p ==> IsSpace(s[k])
    requires !IsSpace(s[p]) && !IsSpace(s[e - 1])
    requires forall k :: e <= k < q ==> IsSpace(s[k])
    requires forall k :: p <= k < q ==> !FenceAt(s, k)
    ensures CodeGroup(s) == Some(s[p..e])
  {
    TagEndIs(s, 3, t);
    SpaceEndIs(s, t, p);
    FenceFromIs(s, p, q);
    SpaceBeforeIs(s, p, e, q);
  }

  /** A reply opening with a fence, a tag and whitespace, then a body, then
      a closing fence, gives back the body. The body may hold backticks, as
      long as no run of three starts before the closing fence. The tag is
      whatever run of `[\w-]` follows the fence, so it is eaten even when it
      is code. */
  lemma FencedReply(tag: string, ws: string, body: string, ws2: string, rest: string)
    requires AllTag(tag) && AllSpace(ws) && AllSpace(ws2)
    requires body != [] && Trimmed(body)
    requires forall k :: 0 <= k < |body| + |ws2| ==> !FenceAt(body + ws2 + FENCE, k)
    requires ws == [] ==> !IsTagChar(body[0])
    ensures ExtractCode(FENCE + tag + ws + body + ws2 + FENCE + rest) == body
  {
    var x := body + ws2 + FENCE;
    var head := FENCE + tag + ws;
    var s := head + x + rest;
    assert s == FENCE + tag + ws + body + ws2 + FENCE + rest;
    assert s[..|head|] == head;
    assert s[|head|..|head| + |x|] == x;
    FencedGroup(s, tag, ws, body, ws2);
    NonEmptyGroup(s, body);
  }

  /** The group of a reply that holds a fence, a tag, whitespace, then a
      body, whitespace and the first fence after the body starts. */
  lemma FencedGroup(s: string, tag: string, ws: string, body: string, ws2: string)
    requires AllTag(tag) && AllSpace(ws) && AllSpace(ws2)
    requires body != [] && Trimmed(body)
    requires forall k :: 0 <= k < |body| + |ws2| ==> !FenceAt(body + ws2 + FENCE, k)
    requires ws == [] ==> !IsTagChar(body[0])
    requires StartsWith(s, FENCE + tag + ws)
    requires |FENCE + tag + ws| + |body + ws2 + FENCE| <= |s|
    requires s[|FENCE + tag + ws|..|FENCE + tag + ws| + |body + ws2 + FENCE|] == body + ws2 + FENCE
    ensures CodeGroup(s) == Some(body)
  {
    var head := FENCE + tag + ws;
    var t, p := 3 + |tag|, |head|;
    HeadShape(s, tag, ws);
    TailShape(s, p, body, ws2);
    assert !IsTagChar(s[t]) by {
      if ws != [] {
        assert s[t] == head[t] == ws[0];
      } else {
        assert t == p;
      }
    }
    CodeGroupAt(s, t, p, p + |body|, p + |body| + |ws2|);
    assert s[p..p + |body|] == body;
    assert CodeGroup(s) == Some(s[p..p + |body|]);
  }

  /** The rest of a reply: a trimmed body, whitespace, then the first
      fence after the body starts. */
  lemma TailShape(s: string, p: nat, body: string, ws2: string)
    requires body != [] && Trimmed(body) && AllSpace(ws2)
    requires p + |body + ws2 + FENCE| <= |s| && s[p..p + |body + ws2 + FENCE|] == body + ws2 + FENCE
    requires forall k :: 0 <= k < |body| + |ws2| ==> !FenceAt(body + ws2 + FENCE, k)
    ensures var e := p + |body|; var q := e + |ws2|;
      && s[p..e] == body && FenceAt(s, q)
      && !IsSpace(s[p]) && !IsSpace(s[e - 1])
      && (forall k :: e <= k < q ==> IsSpace(s[k]))
      && (forall k :: p <= k < q ==> !FenceAt(s, k))
  {
    var x := body + ws2 + FENCE;
    var e := p + |body|;
    var q := e + |ws2|;
    assert s[p..e] == s[p..p + |x|][..|body|] == body;
    FenceAtShift(s, x, p, q - p);
    assert x[q - p..] == FENCE;
    assert s[p] == x[0] == body[0];
    assert s[e - 1] == x[|body| - 1] == body[|body| - 1];
    forall k | e <= k < q ensures IsSpace(s[k]) {
      assert s[k] == x[k - p] == ws2[k - e];
    }
    forall k | p <= k < q ensures !FenceAt(s, k) {
      FenceAtShift(s, x, p, k - p);
    }
  }

  /** The opening of a reply: a fence, then the tag, then the whitespace. */
  lemma HeadShape(s: string, tag: string, ws: string)
    requires AllTag(tag) && AllSpace(ws)
    requires StartsWith(s, FENCE + tag + ws)
    ensures StartsWith(s, FENCE)
    ensures forall k :: 3 <= k < 3 + |tag| ==> IsTagChar(s[k])
    ensures forall k :: 3 + |tag| <= k < 3 + |tag| + |ws| ==> IsSpace(s[k])
  {
    var head := FENCE + tag + ws;
    assert s[..3] == head[..3] == FENCE;
    forall k | 3 <= k < 3 + |tag| ensures IsTagChar(s[k]) {
      assert s[k] == head[k] == tag[k - 3];
    }
    forall k | 3 + |tag| <= k < 3 + |tag| + |ws| ensures IsSpace(s[k]) {
      assert s[k] == head[k] == ws[k - 3 - |tag|];
    }
  }

  /** A fence in `x` is a fence in any text holding `x` at p, and back. */
  lemma FenceAtShift(s: string, x: string, p: nat, i: nat)
    requires p + |x| <= |s| && s[p..p + |x|] == x && i + 3 <= |x|
    ensures FenceAt(s, p + i) <==> FenceAt(x, i)
  {
    forall j | 0 <= j < 3 ensures s[p + i..][..3][j] == x[i..][..3][j] {
      assert s[p..p + |x|][i + j] == s[p + i + j];
    }
    assert s[p + i..][..3] == x[i..][..3];
  }

  /** Code holding a template literal comes out whole. */
  lemma TemplateLiteralKept()
    ensures ExtractCode("```js\nf(`x`)\n```") == "f(`x`)"
  {
    var body := "f(`x`)";
    var x := body + "\n" + FENCE;
    forall k | 0 <= k < |body| + 1 ensures !FenceAt(x, k) {
      assert x[k..][..3][0] == x[k] && x[k..][..3][1] == x[k + 1];
    }
    assert "```js\nf(`x`)\n```" == FENCE + "js" + "\n" + body + "\n" + FENCE + "";
    FencedReply("js", "\n", body, "\n", "");
  }

  lemma NonEmptyGroup(s: string, g: string)
    requires CodeGroup(s) == Some(g) && g != [] && Trimmed(g)
    ensures ExtractCode(s) == g
  {
    TrimOfTrimmed(g);
  }

  /** The reply "```return x```" yields "x": "return" is taken for the tag. */
  lemma TagIsEaten()
    ensures ExtractCode("```return x```") == "x"
  {
    assert "```return x```" == FENCE + "return" + " " + "x" + "" + FENCE + "";
    assert !FenceAt("x" + "" + FENCE, 0) by {
      assert ("x" + "" + FENCE)[0..][..3][0] == 'x';
    }
    FencedReply("return", " ", "x", "", "");
  }

  /** A fence with nothing between it and the next one falls back to the
      whole reply trimmed. */
  lemma EmptyFenceFallsBack(tag: string, ws: string, rest: string)
    requires AllTag(tag) && AllSpace(ws)
    ensures ExtractCode(FENCE + tag + ws + FENCE + rest) == Trim(FENCE + tag + ws + FENCE + rest)
  {
    var s := FENCE + tag + ws + FENCE + rest;
    var t := 3 + |tag|;
    var p := t + |ws|;
    assert s[..3] == FENCE;
    assert forall k :: 3 <= k < t ==> s[k] == tag[k - 3];
    assert forall k :: t <= k < p ==> s[k] == ws[k - t];
    assert s[p..p + 3] == FENCE;
    assert FenceAt(s, p) by {
      assert s[p..][..3] == s[p..p + 3];
    }
    assert !IsTagChar(s[t]) by {
      if ws != [] {
        assert IsSpace(s[t]);
      } else {
        assert s[t] == s[p..p + 3][0];
      }
    }
    EmptyGroupAt(s, t, p);
  }

  /** The group is empty when the whitespace after the tag runs up to the
      next fence. */
  lemma EmptyGroupAt(s: string, t: nat, p: nat)
    requires StartsWith(s, FENCE) && 3 <= t <= p
    requires FenceAt(s, p)
    requires forall k :: 3 <= k < t ==> IsTagChar(s[k])
    requires !IsTagChar(s[t])
    requires forall k :: t <= k < p ==> IsSpace(s[k])
    ensures CodeGroup(s) == Some([])
  {
    assert s[p] == s[p..][..3][0];
    TagEndIs(s, 3, t);
    SpaceEndIs(s, t, p);
    FenceFromIs(s, p, p);
    assert SpaceBefore(s, p, p) == p;
    assert CodeGroup(s) == Some(s[p..p]);
    assert s[p..p] == [];
  }

  // ---------------------------------------------------------------------
  // optimizeFiles

  /** One entry of `criticalFiles`. */
  datatype CriticalFile = CriticalFile(path: string, reason: string, suggestedImprovements: string)

  /** What happened to one listed file. */
  datatype Outcome = Rewritten | Unchanged | Failed

  /** The project files, by path, as the loop reads and rewrites them. */
  class Workspace {
    var files: map<string, string>

    constructor Open(initial: map<string, string>)
      ensures files == initial
    {
      files := initial;
    }

    /** `writeFileContent` that succeeds. */
    method Write(path: string, content: string)
      modifies this
      ensures files == old(files)[path := content]
    {
      files := files[path := content];
    }
  }

  datatype StepResult = StepResult(files: map<string, string>, outcome: Outcome)

  /** One iteration: read the file, ask the model, and write the extracted
      code back only when it differs from the current text trimmed. A
      missing file, a failed call or a failed write is caught and leaves the
      files as they were. */
  function Step(files: map<string, string>, f: CriticalFile,
                ask: (CriticalFile, string) -> Analyzer.Reply, writable: string -> bool): (r: StepResult)
    ensures r.files.Keys == files.Keys
    ensures r.outcome != Rewritten ==> r.files == files
    ensures r.outcome == Rewritten ==>
      && f.path in files && writable(f.path)
      && Trimmed(r.files[f.path]) && r.files[f.path] != Trim(files[f.path])
      && forall p :: p in files && p != f.path ==> r.files[p] == files[p]
  {
    if f.path !in files then StepResult(files, Failed)
    else
      match ask(f, files[f.path])
      case CallFailed(_) => StepResult(files, Failed)
      case Answer(text) =>
        var code := ExtractCode(text);
        if code == Trim(files[f.path]) then StepResult(files, Unchanged)
        else if !writable(f.path) then StepResult(files, Failed)
        else StepResult(files[f.path := code], Rewritten)
  }

  datatype Run = Run(files: map<string, string>, outcomes: seq<Outcome>)

  /** The whole loop: every listed file in turn, from the state the previous
      ones left. */
  function Optimize(files: map<string, string>, list: seq<CriticalFile>,
                    ask: (CriticalFile, string) -> Analyzer.Reply, writable: string -> bool): (r: Run)
    ensures |r.outcomes| == |list|
  {
    if list == [] then Run(files, [])
    else
      var prev := Optimize(files, list[..|list| - 1], ask, writable);
      var step := Step(prev.files, list[|list| - 1], ask, writable);
      Run(step.files, prev.outcomes + [step.outcome])
  }

  method OptimizeFiles(ws: Workspace, criticalFiles: seq<CriticalFile>,
                       ask: (CriticalFile, string) -> Analyzer.Reply, writable: string -> bool)
    returns (outcomes: seq<Outcome>)
    modifies ws
    ensures Run(ws.files, outcomes) == Optimize(old(ws.files), criticalFiles, ask, writable)
  {
    outcomes := [];
    var i := 0;
    while i < |criticalFiles|
      invariant 0 <= i <= |criticalFiles|
      invariant Run(ws.files, outcomes) == Optimize(old(ws.files), criticalFiles[..i], ask, writable)
    {
      var file := criticalFiles[i];
      ghost var expected := Step(ws.files, file, ask, writable);
      assert Optimize(old(ws.files), criticalFiles[..i + 1], ask, writable)
          == Run(expected.files, outcomes + [expected.outcome]) by {
        assert criticalFiles[..i + 1][..i] == criticalFiles[..i];
      }
      var outcome: Outcome;
      if file.path !in ws.files {
        outcome := Failed;
      } else {
        var fileContent := ws.files[file.path];
        var reply := ask(file, fileContent);
        match reply
        case CallFailed(_) =>
          outcome := Failed;
        case Answer(text) =>
          var optimizedContent := ExtractCode(text);
          if optimizedContent == Trim(fileContent) {
            outcome := Unchanged;
          } else if !writable(file.path) {
            outcome := Failed;
          } else {
            ws.Write(file.path, optimizedContent);
            outcome := Rewritten;
          }
      }
      assert ws.files == expected.files && outcome == expected.outcome;
      outcomes := outcomes + [outcome];
      i := i + 1;
    }
    assert criticalFiles[..i] == criticalFiles;
  }

  /** A file is reported rewritten exactly when its text changes, and then
      it holds the extracted code, which differs from the old text trimmed. */
  lemma RewrittenIffChanged(files: map<string, string>, f: CriticalFile,
                            ask: (CriticalFile, string) -> Analyzer.Reply, writable: string -> bool)
    ensures var r := Step(files, f, ask, writable);
      && (r.outcome == Rewritten <==> r.files != files)
      && (r.files != files ==>
            && f.path in files && ask(f, files[f.path]).Answer?
            && var code := ExtractCode(ask(f, files[f.path]).text);
            && code != Trim(files[f.path]) && writable(f.path)
            && r.files == files[f.path := code])
      && (f.path in files && ask(f, files[f.path]).Answer?
          && ExtractCode(ask(f, files[f.path]).text) != Trim(files[f.path]) && writable(f.path) ==>
            && r.outcome == Rewritten
            && r.files == files[f.path := ExtractCode(ask(f, files[f.path]).text)])
  {
    var r := Step(files, f, ask, writable);
    if f.path in files && ask(f, files[f.path]).Answer? {
      var content := files[f.path];
      var code := ExtractCode(ask(f, content).text);
      if code != Trim(content) && writable(f.path) {
        assert r == StepResult(files[f.path := code], Rewritten);
        TrimmedDiffers(code, content);
        assert r.files[f.path] != files[f.path];
      } else {
        assert r.files == files && r.outcome != Rewritten;
      }
    } else {
      assert r == StepResult(files, Failed);
    }
  }

  /** The outcome of one iteration in each branch of its `try`: a missing
      file or a failed call fails, extracted code equal to the trimmed text
      leaves it unchanged, a write that is not allowed fails, and otherwise
      the extracted code is written. */
  lemma StepOutcome(files: map<string, string>, f: CriticalFile,
                    ask: (CriticalFile, string) -> Analyzer.Reply, writable: string -> bool)
    ensures f.path !in files ==> Step(files, f, ask, writable) == StepResult(files, Failed)
    ensures f.path in files && ask(f, files[f.path]).CallFailed? ==>
      Step(files, f, ask, writable) == StepResult(files, Failed)
    ensures f.path in files && ask(f, files[f.path]).Answer? ==>
      var code := ExtractCode(ask(f, files[f.path]).text);
      && (code == Trim(files[f.path]) ==> Step(files, f, ask, writable) == StepResult(files, Unchanged))
      && (code != Trim(files[f.path]) && !writable(f.path) ==> Step(files, f, ask, writable) == StepResult(files, Failed))
      && (code != Trim(files[f.path]) && writable(f.path) ==>
            Step(files, f, ask, writable) == StepResult(files[f.path := code], Rewritten))
  {
  }

  /** Trimmed text that differs from another text trimmed differs from it. */
  lemma TrimmedDiffers(code: string, content: string)
    requires Trimmed(code) && code != Trim(content)
    ensures code != content
  {
    if Trimmed(content) {
      TrimOfTrimmed(content);
    }
  }

  /** No file is created or deleted. */
  lemma {:induction false} OptimizeKeepsPaths(files: map<string, string>, list: seq<CriticalFile>,
                                             ask: (CriticalFile, string) -> Analyzer.Reply, writable: string -> bool)
    ensures Optimize(files, list, ask, writable).files.Keys == files.Keys
    decreases |list|
  {
    if list != [] {
      OptimizeKeepsPaths(files, list[..|list| - 1], ask, writable);
    }
  }

  /** A file that is not listed keeps its text. */
  lemma {:induction false} OptimizeUnlisted(files: map<string, string>, list: seq<CriticalFile>,
                                           ask: (CriticalFile, string) -> Analyzer.Reply, writable: string -> bool,
                                           path: string)
    requires path in files
    requires forall k :: 0 <= k < |list| ==> list[k].path != path
    ensures path in Optimize(files, list, ask, writable).files
    ensures Optimize(files, list, ask, writable).files[path] == files[path]
    decreases |list|
  {
    if list != [] {
      var init, last := list[..|list| - 1], list[|list| - 1];
      assert forall k :: 0 <= k < |init| ==> init[k] == list[k];
      OptimizeUnlisted(files, init, ask, writable, path);
      var prev := Optimize(files, init, ask, writable);
      StepKeepsOthers(prev.files, last, ask, writable, path);
      assert Optimize(files, list, ask, writable).files == Step(prev.files, last, ask, writable).files;
    }
  }

  /** A step changes at most the file it was given. */
  lemma StepKeepsOthers(files: map<string, string>, f: CriticalFile,
                        ask: (CriticalFile, string) -> Analyzer.Reply, writable: string -> bool, path: string)
    requires path in files && f.path != path
    ensures path in Step(files, f, ask, writable).files
    ensures Step(files, f, ask, writable).files[path] == files[path]
  {
    var r := Step(files, f, ask, writable);
    if r.outcome == Rewritten {
      assert r.files[path] == files[path];
    } else {
      assert r.files == files;
    }
  }

  /** A step leaves a file's text as it was or trimmed. */
  lemma StepKeepsOrTrims(files: map<string, string>, f: CriticalFile,
                         ask: (CriticalFile, string) -> Analyzer.Reply, writable: string -> bool, path: string)
    requires path in files
    ensures path in Step(files, f, ask, writable).files
    ensures Step(files, f, ask, writable).files[path] == files[path] || Trimmed(Step(files, f, ask, writable).files[path])
  {
    var r := Step(files, f, ask, writable);
    if r.outcome != Rewritten {
      assert r.files == files;
    } else if f.path == path {
      assert Trimmed(r.files[f.path]);
    } else {
      StepKeepsOthers(files, f, ask, writable, path);
    }
  }

  /** The later files are processed from whatever state the earlier ones
      left, failures included: the loop never stops early. */
  lemma {:induction false} OptimizeAppend(files: map<string, string>, a: seq<CriticalFile>, b: seq<CriticalFile>,
                                         ask: (CriticalFile, string) -> Analyzer.Reply, writable: string -> bool)
    ensures var first := Optimize(files, a, ask, writable);
      var second := Optimize(first.files, b, ask, writable);
      Optimize(files, a + b, ask, writable) == Run(second.files, first.outcomes + second.outcomes)
    decreases |b|
  {
    if b == [] {
      assert a + b == a;
    } else {
      var init, last := b[..|b| - 1], b[|b| - 1];
      assert (a + b)[..|a + b| - 1] == a + init;
      assert (a + b)[|a + b| - 1] == last;
      OptimizeAppend(files, a, init, ask, writable);
      var first := Optimize(files, a, ask, writable);
      var mid := Optimize(first.files, init, ask, writable);
      var step := Step(mid.files, last, ask, writable);
      assert Optimize(first.files, b, ask, writable) == Run(step.files, mid.outcomes + [step.outcome]);
      assert Optimize(files, a + b, ask, writable) == Run(step.files, first.outcomes + mid.outcomes + [step.outcome]);
      assert first.outcomes + mid.outcomes + [step.outcome] == first.outcomes + (mid.outcomes + [step.outcome]);
    }
  }

  /** Every file the loop rewrites is left trimmed. */
  lemma {:induction false} RewrittenFilesTrimmed(files: map<string, string>, list: seq<CriticalFile>,
                                                ask: (CriticalFile, string) -> Analyzer.Reply, writable: string -> bool,
                                                path: string)
    requires path in files
    ensures var r := Optimize(files, list, ask, writable).files;
      path in r && (r[path] == files[path] || Trimmed(r[path]))
    decreases |list|
  {
    if list != [] {
      var init, last := list[..|list| - 1], list[|list| - 1];
      RewrittenFilesTrimmed(files, init, ask, writable, path);
      var prev := Optimize(files, init, ask, writable);
      StepKeepsOrTrims(prev.files, last, ask, writable, path);
      assert Optimize(files, list, ask, writable).files == Step(prev.files, last, ask, writable).files;
    }
  }
}
