/** The pure logic of lib/analyzer.mjs: reading the woven artifact back into
    records, cleaning a model reply, finding JSON-looking candidates in it,
    the parse-and-fallback decision of `getAIAnalysis`, and the
    success/error branch of `analyzeCodebase`. The model call and
    `JSON.parse` are parameters; the reply arrives as an input. */
module Analyzer {
  import opened Text
  import Weaver

  /** The delimiter the reader splits on: one `/` longer than the weaver's. */
  const CODELOOM_DELIMITER := "//==== CODELOOM_DELIMITER ====//"
  const FILE_PATH_PREFIX := "FILE_PATH: "

  /** `s` contains `sep` somewhere. */
  predicate Occurs(s: string, sep: string) {
    exists i :: 0 <= i <= |s| - |sep| && StartsWith(s[i..], sep)
  }

  // ---------------------------------------------------------------------
  // readWovenCodebase

  /** One `{path, content}` record of the woven artifact. */
  datatype WovenFile = WovenFile(path: string, content: string)

  /** `.filter(Boolean)` on strings: drop the empty ones, keep the order. */
  function NonEmpty(parts: seq<string>): (r: seq<string>)
    ensures forall k :: 0 <= k < |r| ==> r[k] != []
    ensures multiset(r) == multiset(parts)[[] := 0]
    ensures (forall k :: 0 <= k < |parts| ==> parts[k] != []) ==> r == parts
  {
    if parts == [] then []
    else
      var init, last := parts[..|parts| - 1], parts[|parts| - 1];
      assert parts == init + [last];
      NonEmpty(init) + (if last == [] then [] else [last])
  }

  /** The filter works piece by piece: filtering a concatenation filters
      each part, in order. */
  lemma {:induction false} NonEmptyAppend(a: seq<string>, b: seq<string>)
    ensures NonEmpty(a + b) == NonEmpty(a) + NonEmpty(b)
    decreases |b|
  {
    if b == [] {
      assert a + b == a;
    } else {
      var init, last := b[..|b| - 1], b[|b| - 1];
      assert (a + b)[..|a + b| - 1] == a + init;
      assert (a + b)[|a + b| - 1] == last;
      NonEmptyAppend(a, init);
    }
  }

  /** The segments the reader turns into records: every non-empty piece of
      the split, as often as it occurs, and no other. */
  function Segments(data: string): (r: seq<string>)
    ensures forall x :: x in r <==> x in Split(data, CODELOOM_DELIMITER) && x != []
    ensures |r| == |Split(data, CODELOOM_DELIMITER)| - multiset(Split(data, CODELOOM_DELIMITER))[[]]
  {
    var parts := Split(data, CODELOOM_DELIMITER);
    var r := NonEmpty(parts);
    assert forall x :: x in r <==> x in multiset(r);
    assert forall x :: x in parts <==> x in multiset(parts);
    assert |multiset(r)| == |r|;
    MultisetWithoutEmpty(parts);
    r
  }

  /** Removing every empty string from a multiset of pieces removes as many
      elements as there were empty pieces. */
  lemma {:induction false} MultisetWithoutEmpty(parts: seq<string>)
    ensures |multiset(parts)[[] := 0]| == |parts| - multiset(parts)[[]]
    decreases |parts|
  {
    if parts != [] {
      var init, last := parts[..|parts| - 1], parts[|parts| - 1];
      assert parts == init + [last];
      MultisetWithoutEmpty(init);
      assert multiset(parts) == multiset(init) + multiset{last};
      if last == [] {
        assert multiset(parts)[[] := 0] == multiset(init)[[] := 0];
      } else {
        assert multiset(parts)[[] := 0] == multiset(init)[[] := 0] + multiset{last};
      }
    }
  }

  /** One segment: its trimmed first line, with the first `FILE_PATH: `
      removed and trimmed again, is the path; the other lines, joined back
      and trimmed, are the content. */
  function ParseSegment(segment: string): (r: WovenFile)
    ensures Trimmed(r.path) && Trimmed(r.content)
    ensures '\n' !in r.path
  {
    var lines := Split(Trim(segment), "\n");
    SplitCharPieces(Trim(segment), '\n');
    assert '\n' !in lines[0];
    ReplaceFirstKeeps(lines[0], FILE_PATH_PREFIX, "", '\n');
    TrimKeeps(ReplaceFirst(lines[0], FILE_PATH_PREFIX, ""), '\n');
    WovenFile(Trim(ReplaceFirst(lines[0], FILE_PATH_PREFIX, "")), Trim(Join(lines[1..], "\n")))
  }

  /** `readWovenCodebase` after the file has been read into `data`: one
      record per non-empty segment, each with a trimmed path on one line
      and trimmed content. */
  function ReadWoven(data: string): (r: seq<WovenFile>)
    ensures |r| == |Split(data, CODELOOM_DELIMITER)| - multiset(Split(data, CODELOOM_DELIMITER))[[]]
    ensures forall k :: 0 <= k < |r| ==> Trimmed(r[k].path) && Trimmed(r[k].content) && '\n' !in r[k].path
  {
    MapSeq(ParseSegment, Segments(data))
  }

  /** Every record is parsed from a non-empty segment, and every non-empty
      segment gives a record. */
  lemma ReadWovenRecords(data: string)
    ensures forall w :: w in ReadWoven(data) <==>
      exists x :: x in Split(data, CODELOOM_DELIMITER) && x != [] && w == ParseSegment(x)
  {
    MapSeqMembers(ParseSegment, Segments(data));
  }

  /** The values of a map are the images of the elements. */
  lemma MapSeqMembers<A, B>(f: A -> B, xs: seq<A>)
    ensures forall y :: y in MapSeq(f, xs) <==> exists x :: x in xs && y == f(x)
  {
    var r := MapSeq(f, xs);
    forall y | y in r
      ensures exists x :: x in xs && y == f(x)
    {
      var k :| 0 <= k < |r| && r[k] == y;
      assert xs[k] in xs;
    }
    forall x | x in xs
      ensures f(x) in r
    {
      var k :| 0 <= k < |xs| && xs[k] == x;
      assert r[k] == f(x);
    }
  }

  /** When no segment is empty, the k-th record is parsed from the k-th
      segment. */
  lemma ReadWovenInOrder(data: string)
    requires forall k :: 0 <= k < |Split(data, CODELOOM_DELIMITER)| ==> Split(data, CODELOOM_DELIMITER)[k] != []
    ensures |ReadWoven(data)| == |Split(data, CODELOOM_DELIMITER)|
    ensures forall k :: 0 <= k < |ReadWoven(data)| ==> ReadWoven(data)[k] == ParseSegment(Split(data, CODELOOM_DELIMITER)[k])
  {
    assert Segments(data) == Split(data, CODELOOM_DELIMITER);
  }

  /** `Array.prototype.map` with a function of the element alone. */
  function MapSeq<A, B>(f: A -> B, xs: seq<A>): (r: seq<B>)
    ensures |r| == |xs|
    ensures forall k :: 0 <= k < |xs| ==> r[k] == f(xs[k])
  {
    if xs == [] then [] else [f(xs[0])] + MapSeq(f, xs[1..])
  }

  /** A character absent from the text and the replacement is absent from the result. */
  lemma {:induction false} ReplaceFirstKeeps(s: string, pattern: string, replacement: string, c: char)
    requires pattern != []
    requires c !in s && c !in replacement
    ensures c !in ReplaceFirst(s, pattern, replacement)
    decreases |s|
  {
    if !StartsWith(s, pattern) && s != [] {
      ReplaceFirstKeeps(s[1..], pattern, replacement, c);
    } else if StartsWith(s, pattern) {
      assert forall k :: 0 <= k < |s[|pattern|..]| ==> s[|pattern|..][k] == s[|pattern| + k];
    }
  }

  /** Trimming does not introduce characters. */
  lemma TrimKeeps(s: string, c: char)
    requires c !in s
    ensures c !in Trim(s)
  {
    var t := TrimStart(s);
    var r := TrimEnd(t);
    var i := |s| - |t|;
    assert r == s[i..i + |r|] by {
      assert t == s[i..];
      assert r == t[..|r|];
    }
    SliceKeeps(s, i, i + |r|, c);
  }

  lemma SliceKeeps(s: string, i: nat, j: nat, c: char)
    requires i <= j <= |s| && c !in s
    ensures c !in s[i..j]
  {
    forall k | 0 <= k < j - i
      ensures s[i..j][k] != c
    {
      assert s[i..j][k] == s[i + k];
    }
  }

  /** Text without the delimiter is a single segment. */
  lemma {:induction false} SplitAbsent(s: string, sep: string)
    requires sep != []
    requires !Occurs(s, sep)
    ensures Split(s, sep) == [s]
    decreases |s|
  {
    if s != [] {
      assert s[0..] == s;
      assert !StartsWith(s, sep);
      forall i | 0 <= i <= |s[1..]| - |sep|
        ensures !StartsWith(s[1..][i..], sep)
      {
        assert s[1..][i..] == s[i + 1..];
      }
      SplitAbsent(s[1..], sep);
      assert [s[0]] + s[1..] == s;
    } else {
      assert !StartsWith(s, sep);
    }
  }

  /** A woven text in which the reader's delimiter never occurs is read as
      one record, whatever the weaver's own delimiters inside it. */
  lemma ReadWovenWithoutDelimiter(data: string)
    requires data != [] && !Occurs(data, CODELOOM_DELIMITER)
    ensures ReadWoven(data) == [ParseSegment(data)]
  {
    SegmentsWithoutDelimiter(data);
    ReadSingleSegment(data);
  }

  lemma ReadSingleSegment(data: string)
    requires Segments(data) == [data]
    ensures ReadWoven(data) == [ParseSegment(data)]
  {
    MapSeqSingle(ParseSegment, data);
  }

  lemma MapSeqSingle<A, B>(f: A -> B, x: A)
    ensures MapSeq(f, [x]) == [f(x)]
  {
    assert MapSeq(f, [x]) == [f(x)] + MapSeq(f, []);
  }

  lemma SegmentsWithoutDelimiter(data: string)
    requires data != [] && !Occurs(data, CODELOOM_DELIMITER)
    ensures Segments(data) == [data]
  {
    SplitAbsent(data, CODELOOM_DELIMITER);
    assert [data][..0] == [];
    assert NonEmpty([data]) == NonEmpty([]) + [data];
  }

  /** The reader's delimiter occurs in neither of the weaver's framing lines. */
  lemma FramingLinesLackReaderDelimiter()
    ensures !Occurs(Weaver.OPENING_LINE, CODELOOM_DELIMITER)
    ensures !Occurs(Weaver.CLOSING_LINE, CODELOOM_DELIMITER)
    ensures Weaver.CODELOOM_DELIMITER != CODELOOM_DELIMITER
  {
    var d := CODELOOM_DELIMITER;
    assert |d| == 32 && d[31] == '/';
    assert |Weaver.CLOSING_LINE| == 32 && Weaver.CLOSING_LINE[31] == '\n';
    assert |Weaver.OPENING_LINE| == 34;
    forall i | 0 <= i <= |Weaver.OPENING_LINE| - |d|
      ensures !StartsWith(Weaver.OPENING_LINE[i..], d)
    {
      assert Weaver.OPENING_LINE[i..][0] == Weaver.OPENING_LINE[i];
      if i == 2 {
        assert Weaver.OPENING_LINE[i..][31] == '\n';
      }
    }
    assert Weaver.CLOSING_LINE[0..][31] == '\n';
  }

  /** A header segment as the weaver frames it, were the delimiters equal:
      the path comes back, and the content is empty because the file's text
      lies in the next segment. */
  lemma HeaderSegment(p: string)
    requires p != [] && Trimmed(p) && '\n' !in p
    ensures ParseSegment("\n" + FILE_PATH_PREFIX + p + "\n") == WovenFile(p, "")
  {
    var x := FILE_PATH_PREFIX + p;
    var seg := "\n" + FILE_PATH_PREFIX + p + "\n";
    assert seg == "\n" + x + "\n";
    HeaderLineTrimmed(p);
    TrimFramed("\n", x, "\n");
    HeaderLineLacksNewline(p);
    SplitCharAbsent(x, '\n');
    HeaderOnly(seg, p);
  }

  lemma HeaderOnly(seg: string, p: string)
    requires Trimmed(p)
    requires Split(Trim(seg), "\n") == [FILE_PATH_PREFIX + p]
    ensures ParseSegment(seg) == WovenFile(p, "")
  {
    var x := FILE_PATH_PREFIX + p;
    assert [x] == [x] + [];
    ParseSegmentLines(seg, x, []);
    RemovePrefix(p);
    TrimOfTrimmed(p);
    TrimOfTrimmed("");
  }

  lemma HeaderLineTrimmed(p: string)
    requires p != [] && Trimmed(p)
    ensures Trimmed(FILE_PATH_PREFIX + p)
  {
    var x := FILE_PATH_PREFIX + p;
    assert x[0] == 'F' && x[|x| - 1] == p[|p| - 1];
  }

  /** A segment whose trimmed text is a first line and more lines: the path
      is that line with its first `FILE_PATH: ` removed, trimmed; the content
      is the rest, trimmed. */
  lemma FirstLineAndRest(segment: string, line: string, rest: string)
    requires '\n' !in line
    requires Trim(segment) == line + "\n" + rest
    ensures ParseSegment(segment) == WovenFile(Trim(ReplaceFirst(line, FILE_PATH_PREFIX, "")), Trim(rest))
  {
    SplitAfterLine(line, rest);
    JoinSplit(rest, "\n");
    ParseSegmentLines(segment, line, Split(rest, "\n"));
  }

  /** A segment of one line after trimming: the path comes from that line
      and the content is empty. */
  lemma OneLineSegment(segment: string, line: string)
    requires '\n' !in line
    requires Trim(segment) == line
    ensures ParseSegment(segment) == WovenFile(Trim(ReplaceFirst(line, FILE_PATH_PREFIX, "")), "")
  {
    SplitCharAbsent(line, '\n');
    assert [line] == [line] + [];
    ParseSegmentLines(segment, line, []);
  }

  /** A segment whose trimmed text is a `FILE_PATH:` line followed by more
      lines yields that path and the rest, trimmed. */
  lemma PathAndContent(segment: string, p: string, c: string)
    requires '\n' !in p
    requires Trim(segment) == FILE_PATH_PREFIX + p + "\n" + c
    ensures ParseSegment(segment) == WovenFile(Trim(p), Trim(c))
  {
    HeaderLineLacksNewline(p);
    FirstLineAndRest(segment, FILE_PATH_PREFIX + p, c);
    RemovePrefix(p);
  }

  /** What the reader makes of text that starts as each of the weaver's
      sections does: the weaver's delimiter line is taken for the path
      line, so the path is the weaver's delimiter itself, and the
      `FILE_PATH:` header lands in the content. The whitespace `ws` that
      ends it (a body's last newline, say) is trimmed away. */
  lemma WeaverSectionAsRead(rest: string, ws: string)
    requires rest != [] && !IsSpace(rest[|rest| - 1]) && AllSpace(ws)
    ensures ParseSegment(Weaver.OPENING_LINE + rest + ws) == WovenFile(Weaver.CODELOOM_DELIMITER, Trim(rest))
  {
    var d := Weaver.CODELOOM_DELIMITER;
    var x := d + "\n" + rest;
    assert Weaver.OPENING_LINE + rest + ws == "\n\n" + x + ws;
    assert x[0] == '/' && x[|x| - 1] == rest[|rest| - 1];
    TrimFramed("\n\n", x, ws);
    WeaverDelimiterShape();
    FirstLineAndRest(Weaver.OPENING_LINE + rest + ws, d, rest);
    ReplaceFirstAbsent(d, FILE_PATH_PREFIX, "");
    TrimOfTrimmed(d);
  }

  /** A whole woven text without the reader's delimiter is one record,
      named after the weaver's delimiter. */
  lemma WovenTextAsRead(rest: string, ws: string)
    requires rest != [] && !IsSpace(rest[|rest| - 1]) && AllSpace(ws)
    requires !Occurs(Weaver.OPENING_LINE + rest + ws, CODELOOM_DELIMITER)
    ensures ReadWoven(Weaver.OPENING_LINE + rest + ws) == [WovenFile(Weaver.CODELOOM_DELIMITER, Trim(rest))]
  {
    ReadWovenWithoutDelimiter(Weaver.OPENING_LINE + rest + ws);
    WeaverSectionAsRead(rest, ws);
  }

  lemma WeaverDelimiterShape()
    ensures '\n' !in Weaver.CODELOOM_DELIMITER && 'F' !in Weaver.CODELOOM_DELIMITER
    ensures Trimmed(Weaver.CODELOOM_DELIMITER)
  {
  }

  /** Text without the pattern's first character is left as it is. */
  lemma {:induction false} ReplaceFirstAbsent(s: string, pattern: string, replacement: string)
    requires pattern != [] && pattern[0] !in s
    ensures ReplaceFirst(s, pattern, replacement) == s
    decreases |s|
  {
    if s != [] {
      assert s[0] in s;
      assert !StartsWith(s, pattern) by {
        if |pattern| <= |s| {
          assert s[..|pattern|][0] == s[0];
        }
      }
      assert forall c :: c in s[1..] ==> c in s;
      ReplaceFirstAbsent(s[1..], pattern, replacement);
      assert [s[0]] + s[1..] == s;
    }
  }

  /** ParseSegment in terms of the lines of the trimmed segment. */
  lemma ParseSegmentLines(segment: string, first: string, rest: seq<string>)
    requires Split(Trim(segment), "\n") == [first] + rest
    ensures ParseSegment(segment) == WovenFile(Trim(ReplaceFirst(first, FILE_PATH_PREFIX, "")), Trim(Join(rest, "\n")))
  {
    assert ([first] + rest)[1..] == rest;
  }

  lemma HeaderLineLacksNewline(p: string)
    requires '\n' !in p
    ensures '\n' !in FILE_PATH_PREFIX + p
  {
    assert '\n' !in FILE_PATH_PREFIX;
  }

  lemma RemovePrefix(p: string)
    ensures ReplaceFirst(FILE_PATH_PREFIX + p, FILE_PATH_PREFIX, "") == p
  {
    var x := FILE_PATH_PREFIX + p;
    assert x[..|FILE_PATH_PREFIX|] == FILE_PATH_PREFIX;
    assert x[|FILE_PATH_PREFIX|..] == p;
  }

  /** Splitting on newlines after a first line without one. */
  lemma {:induction false} SplitAfterLine(x: string, c: string)
    requires '\n' !in x
    ensures Split(x + "\n" + c, "\n") == [x] + Split(c, "\n")
    decreases |x|
  {
    var s := x + "\n" + c;
    if x == [] {
      assert s[..1] == "\n";
      assert s[1..] == c;
    } else {
      assert s[0] == x[0] && x[0] != '\n';
      assert !StartsWith(s, "\n") by {
        assert s[..1][0] == s[0];
      }
      assert s[1..] == x[1..] + "\n" + c;
      SplitAfterLine(x[1..], c);
      assert [x[0]] + x[1..] == x;
    }
  }

  // ---------------------------------------------------------------------
  // Cleaning the reply: `.replace(/```json\n?|\n?```/g, '').trim()`

  /** Left to right, remove each "```json" with an optional following
      newline, and each "```" with an optional preceding newline. At a given
      position the first alternative is tried first, and `\n?` is greedy. */
  function StripFences(s: string): (r: string)
    ensures |r| <= |s|
    decreases |s|
  {
    if StartsWith(s, "```json") then
      (if StartsWith(s[7..], "\n") then StripFences(s[8..]) else StripFences(s[7..]))
    else if StartsWith(s, "\n```") then StripFences(s[4..])
    else if StartsWith(s, "```") then StripFences(s[3..])
    else if s == [] then []
    else [s[0]] + StripFences(s[1..])
  }

  function CleanResponse(reply: string): (r: string)
    ensures Trimmed(r)
  {
    Trim(StripFences(reply))
  }

  /** Text without a backtick is left as it is. */
  lemma {:induction false} StripWithoutBackticks(s: string)
    requires '`' !in s
    ensures StripFences(s) == s
    decreases |s|
  {
    if s != [] {
      assert !StartsWith(s, "```json") && !StartsWith(s, "```") by {
        assert s[0] != '`';
      }
      assert !StartsWith(s, "\n```") by {
        if |s| >= 4 { assert s[1] != '`'; }
      }
      StripWithoutBackticks(s[1..]);
      assert [s[0]] + s[1..] == s;
    }
  }

  /** An opening "```json" fence vanishes together with its newline. */
  lemma StripOpeningFence(x: string)
    ensures StripFences("```json\n" + x) == StripFences(x)
  {
    var s := "```json\n" + x;
    assert StartsWith(s, "```json");
    assert s[7..] == "\n" + x && StartsWith(s[7..], "\n");
    assert s[8..] == x;
  }

  /** A "```json" fence that no newline follows vanishes on its own. */
  lemma StripTagWithoutNewline(x: string)
    requires !StartsWith(x, "\n")
    ensures StripFences("```json" + x) == StripFences(x)
  {
    var s := "```json" + x;
    assert s[..7] == "```json";
    assert s[7..] == x;
  }

  /** A fence that does not open "```json" and follows no newline vanishes. */
  lemma StripBareFence(x: string)
    requires !StartsWith(x, "json")
    ensures StripFences("```" + x) == StripFences(x)
  {
    var s := "```" + x;
    assert !StartsWith(s, "```json") by {
      if |s| >= 7 {
        assert s[3..7] == x[..4];
      }
    }
    assert !StartsWith(s, "\n```") by {
      assert s[0] == '`';
    }
    assert s[..3] == "```";
    assert s[3..] == x;
  }

  /** A "```json" fence after a newline loses only "\n```": its tag stays. */
  lemma StripKeepsTagAfterNewline(x: string)
    ensures StripFences("\n```json" + x) == "json" + StripFences(x)
  {
    assert "\n```json" + x == "\n```" + ("json" + x);
    DropNewlineFence("json" + x);
    KeepWord(x);
  }

  lemma DropNewlineFence(y: string)
    ensures StripFences("\n```" + y) == StripFences(y)
  {
    var s := "\n```" + y;
    NoFenceAt(s, '\n');
    assert s[..4] == "\n```";
    assert s[4..] == y;
  }

  lemma KeepWord(x: string)
    ensures StripFences("json" + x) == "json" + StripFences(x)
  {
    KeepChars("json", x);
  }

  /** Characters that start no fence are kept. */
  lemma {:induction false} KeepChars(w: string, x: string)
    requires '`' !in w && '\n' !in w
    ensures StripFences(w + x) == w + StripFences(x)
    decreases |w|
  {
    if w != [] {
      var c, v := w[0], w[1..];
      assert w == [c] + v;
      assert c in w;
      forall k | 0 <= k < |v|
        ensures v[k] != '`' && v[k] != '\n'
      {
        assert v[k] == w[k + 1];
        assert w[k + 1] in w;
      }
      calc {
        StripFences(w + x);
        { assert w + x == [c] + (v + x); }
        StripFences([c] + (v + x));
        { KeepChar(c, v + x); }
        [c] + StripFences(v + x);
        { KeepChars(v, x); }
        [c] + (v + StripFences(x));
        w + StripFences(x);
      }
    } else {
      assert w + x == x;
    }
  }

  /** No fence starts with a letter or a newline. */
  lemma NoFenceAt(s: string, c: char)
    requires s != [] && s[0] == c && c != '`'
    ensures !StartsWith(s, "```json") && !StartsWith(s, "```")
  {
    if |s| >= 3 {
      assert s[..3][0] == c;
    }
  }

  /** A character that starts no fence is kept. */
  lemma KeepChar(c: char, x: string)
    requires c != '`' && c != '\n'
    ensures StripFences([c] + x) == [c] + StripFences(x)
  {
    var s := [c] + x;
    NoFenceAt(s, c);
    if |s| >= 4 {
      assert s[..4][0] == c;
    }
    assert s[1..] == x;
  }

  // ---------------------------------------------------------------------
  // extractJSON: /\{(?:[^{}]|(\{(?:[^{}]|\1)*\}))*\}/g
  //
  // While group 1 is being matched its capture is undefined, so `\1`
  // matches the empty string and the inner group is `\{[^{}]*\}`: the
  // pattern is a brace expression nested at most two levels deep. The
  // match never needs to backtrack, and a scan that tracks the depth finds
  // the same end.

  function Step(c: char): int {
    if c == '{' then 1 else if c == '}' then -1 else 0
  }

  /** Opening minus closing braces in t[a..k]. */
  function Balance(t: string, a: nat, k: nat): int
    requires a <= k <= |t|
    decreases k - a
  {
    if k == a then 0 else Balance(t, a, k - 1) + Step(t[k - 1])
  }

  /** t[a..b] is a brace expression of depth at most two: it opens with a
      brace, stays open at depth one or two throughout and closes at b. */
  predicate BraceSpan(t: string, a: nat, b: nat) {
    a < b <= |t| && t[a] == '{' && Balance(t, a, b) == 0
    && forall k :: a < k < b ==> 1 <= Balance(t, a, k) <= 2
  }

  /** Scanning from i at depth d (1 or 2): the end of the expression, if it closes. */
  function Close(t: string, i: nat, d: int): (r: Option<nat>)
    requires i <= |t| && 1 <= d <= 2
    ensures r.Some? ==> i < r.value <= |t|
    decreases |t| - i
  {
    if i == |t| then None
    else if t[i] == '}' then (if d == 1 then Some(i + 1) else Close(t, i + 1, 1))
    else if t[i] == '{' then (if d == 2 then None else Close(t, i + 1, 2))
    else Close(t, i + 1, d)
  }

  /** The candidate starting at a, if there is one. */
  function MatchAt(t: string, a: nat): (r: Option<nat>)
    requires a < |t|
    ensures r.Some? ==> a < r.value <= |t|
  {
    if t[a] == '{' then Close(t, a + 1, 1) else None
  }

  /** The spans of the global match from position i: left to right, each
      search resuming where the previous match ended. */
  function Spans(t: string, i: nat): (r: seq<(nat, nat)>)
    requires i <= |t|
    ensures forall k :: 0 <= k < |r| ==> i <= r[k].0 < r[k].1 <= |t|
    decreases |t| - i
  {
    if i == |t| then []
    else match MatchAt(t, i)
      case Some(j) => [(i, j)] + Spans(t, j)
      case None => Spans(t, i + 1)
  }

  /** `text.match(jsonRegex)` as strings; the empty sequence stands for
      `null`. Every candidate opens with `{` and closes with `}`. */
  function Candidates(t: string): (r: seq<string>)
    ensures |r| == |Spans(t, 0)|
    ensures forall k :: 0 <= k < |r| ==> BraceText(r[k])
  {
    var spans := Spans(t, 0);
    SpansAreBraceTexts(t);
    seq(|spans|, k requires 0 <= k < |spans| => t[spans[k].0..spans[k].1])
  }

  /** The text of every span found is a brace text. */
  lemma SpansAreBraceTexts(t: string)
    ensures forall k :: 0 <= k < |Spans(t, 0)| ==> BraceText(t[Spans(t, 0)[k].0..Spans(t, 0)[k].1])
  {
    var spans := Spans(t, 0);
    SpansExact(t, 0);
    BraceSpansEnd(t, spans);
    forall k | 0 <= k < |spans|
      ensures BraceText(t[spans[k].0..spans[k].1])
    {
      var c := t[spans[k].0..spans[k].1];
      assert c[0] == t[spans[k].0] && c[|c| - 1] == t[spans[k].1 - 1];
    }
  }

  /** Text that opens with `{` and closes with a separate `}`. */
  predicate BraceText(c: string) {
    2 <= |c| && c[0] == '{' && c[|c| - 1] == '}'
  }

  /** A brace expression is at least `{}` long and ends with `}`. */
  lemma BraceSpanEnds(t: string, a: nat, b: nat)
    requires BraceSpan(t, a, b)
    ensures a + 2 <= b && t[b - 1] == '}'
  {
    assert Balance(t, a, a + 1) == 1;
    assert Balance(t, a, b) == Balance(t, a, b - 1) + Step(t[b - 1]);
  }

  lemma BraceSpansEnd(t: string, spans: seq<(nat, nat)>)
    requires forall k :: 0 <= k < |spans| ==> BraceSpan(t, spans[k].0, spans[k].1)
    ensures forall k :: 0 <= k < |spans| ==>
      spans[k].0 + 2 <= spans[k].1 <= |t| && t[spans[k].0] == '{' && t[spans[k].1 - 1] == '}'
  {
    forall k | 0 <= k < |spans|
      ensures spans[k].0 + 2 <= spans[k].1 <= |t| && t[spans[k].1 - 1] == '}'
    {
      BraceSpanEnds(t, spans[k].0, spans[k].1);
    }
  }

  lemma {:induction false} CloseSound(t: string, a: nat, i: nat, d: int)
    requires a < i <= |t| && 1 <= d <= 2
    requires t[a] == '{' && Balance(t, a, i) == d
    requires forall k :: a < k <= i ==> 1 <= Balance(t, a, k) <= 2
    ensures Close(t, i, d).Some? ==> BraceSpan(t, a, Close(t, i, d).value)
    decreases |t| - i
  {
    if i < |t| {
      if t[i] == '}' && d == 1 {
      } else if t[i] == '}' {
        CloseSound(t, a, i + 1, 1);
      } else if t[i] == '{' && d == 1 {
        CloseSound(t, a, i + 1, 2);
      } else if t[i] != '{' {
        CloseSound(t, a, i + 1, d);
      }
    }
  }

  lemma {:induction false} CloseComplete(t: string, a: nat, i: nat, d: int, b: nat)
    requires a < i <= b && 1 <= d <= 2
    requires BraceSpan(t, a, b) && Balance(t, a, i) == d
    ensures Close(t, i, d) == Some(b)
    decreases |t| - i
  {
    assert i != b;
    assert Balance(t, a, i + 1) == d + Step(t[i]);
    if i + 1 < b {
      assert 1 <= Balance(t, a, i + 1) <= 2;
      CloseComplete(t, a, i + 1, d + Step(t[i]), b);
    }
  }

  /** The scanner at a finds exactly the brace expression starting at a. */
  lemma MatchAtExact(t: string, a: nat)
    requires a < |t|
    ensures MatchAt(t, a).Some? ==> BraceSpan(t, a, MatchAt(t, a).value)
    ensures forall b: nat :: BraceSpan(t, a, b) ==> MatchAt(t, a) == Some(b)
  {
    if t[a] == '{' {
      assert Balance(t, a, a + 1) == 1;
      CloseSound(t, a, a + 1, 1);
      forall b: nat | BraceSpan(t, a, b) ensures MatchAt(t, a) == Some(b) {
        CloseComplete(t, a, a + 1, 1, b);
      }
    }
  }

  /** No brace expression starts in [i, e). */
  predicate NoSpanIn(t: string, i: nat, e: nat) {
    forall a, b :: i <= a < e && a < b <= |t| ==> !BraceSpan(t, a, b)
  }

  /** Each span found is a brace expression; none is skipped before the
      first one found, or at all when none is found; and the search goes on
      from the end of the first. */
  lemma {:induction false} SpansExact(t: string, i: nat)
    requires i <= |t|
    ensures forall k :: 0 <= k < |Spans(t, i)| ==> BraceSpan(t, Spans(t, i)[k].0, Spans(t, i)[k].1)
    ensures Spans(t, i) == [] ==> NoSpanIn(t, i, |t|)
    ensures Spans(t, i) != [] ==>
      NoSpanIn(t, i, Spans(t, i)[0].0) && Spans(t, i)[1..] == Spans(t, Spans(t, i)[0].1)
    decreases |t| - i
  {
    if i < |t| {
      MatchAtExact(t, i);
      match MatchAt(t, i)
      case Some(j) =>
        SpansExact(t, j);
      case None =>
        SpansExact(t, i + 1);
    }
  }

  /** Found spans are ordered and do not overlap. */
  lemma {:induction false} SpansOrdered(t: string, i: nat)
    requires i <= |t|
    ensures forall k :: 0 <= k < |Spans(t, i)| - 1 ==> Spans(t, i)[k].1 <= Spans(t, i)[k + 1].0
    decreases |t| - i
  {
    if i < |t| {
      match MatchAt(t, i)
      case Some(j) =>
        SpansOrdered(t, j);
      case None =>
        SpansOrdered(t, i + 1);
    }
  }

  // ---------------------------------------------------------------------
  // Selection: matches.reduce((a, b) => (a.length > b.length ? a : b))

  /** The reduce keeps the accumulator only when it is strictly longer, in
      UTF-16 code units. The result is a longest candidate. */
  function Longest(cs: seq<string>): (r: string)
    requires cs != []
    ensures r in cs
    ensures forall c :: c in cs ==> Utf16Length(c) <= Utf16Length(r)
    decreases |cs|
  {
    if |cs| == 1 then cs[0]
    else
      var init := cs[..|cs| - 1];
      var a := Longest(init);
      var b := cs[|cs| - 1];
      assert cs == init + [b];
      if Utf16Length(a) > Utf16Length(b) then a else b
  }

  /** cs[k] is a longest element and every later one is strictly shorter. */
  predicate LastMaximal(cs: seq<string>, k: nat)
    requires k < |cs|
  {
    && (forall j :: 0 <= j < |cs| ==> Utf16Length(cs[j]) <= Utf16Length(cs[k]))
    && (forall j :: k < j < |cs| ==> Utf16Length(cs[j]) < Utf16Length(cs[k]))
  }

  /** The selected candidate is the last one of maximal length. */
  lemma LongestIsLastMaximal(cs: seq<string>)
    requires cs != []
    ensures exists k: nat :: k < |cs| && cs[k] == Longest(cs) && LastMaximal(cs, k)
  {
    var k := LastMaxIndex(cs);
    LastMaxIndexSelects(cs);
    LastMaxIndexMaximal(cs);
    assert cs[k] == Longest(cs) && LastMaximal(cs, k);
  }

  /** The position of the accumulator of the reduce. */
  function LastMaxIndex(cs: seq<string>): (i: nat)
    requires cs != []
    ensures i < |cs|
    decreases |cs|
  {
    if |cs| == 1 then 0
    else
      var i := LastMaxIndex(cs[..|cs| - 1]);
      if Utf16Length(cs[i]) > Utf16Length(cs[|cs| - 1]) then i else |cs| - 1
  }

  lemma {:induction false} LastMaxIndexSelects(cs: seq<string>)
    requires cs != []
    ensures cs[LastMaxIndex(cs)] == Longest(cs)
    decreases |cs|
  {
    if |cs| > 1 {
      var init := cs[..|cs| - 1];
      LastMaxIndexSelects(init);
      assert init[LastMaxIndex(init)] == cs[LastMaxIndex(init)];
      LongestStep(cs);
    }
  }

  lemma {:induction false} LastMaxIndexMaximal(cs: seq<string>)
    requires cs != []
    ensures LastMaximal(cs, LastMaxIndex(cs))
    decreases |cs|
  {
    if |cs| > 1 {
      var init := cs[..|cs| - 1];
      LastMaxIndexMaximal(init);
      var i := LastMaxIndex(init);
      if Utf16Length(cs[i]) > Utf16Length(cs[|cs| - 1]) {
        KeepEarlier(cs, i);
      } else {
        KeepLast(cs, i);
      }
    }
  }

  /** The last step of the reduce, with the accumulator named. */
  lemma LongestStep(cs: seq<string>)
    requires |cs| >= 2
    ensures Longest(cs) ==
      (if Utf16Length(Longest(cs[..|cs| - 1])) > Utf16Length(cs[|cs| - 1])
       then Longest(cs[..|cs| - 1]) else cs[|cs| - 1])
  {
  }

  lemma KeepEarlier(cs: seq<string>, k: nat)
    requires k < |cs| - 1 && LastMaximal(cs[..|cs| - 1], k)
    requires Utf16Length(cs[k]) > Utf16Length(cs[|cs| - 1])
    ensures LastMaximal(cs, k)
  {
    assert forall j :: 0 <= j < |cs| - 1 ==> cs[..|cs| - 1][j] == cs[j];
  }

  lemma KeepLast(cs: seq<string>, k: nat)
    requires k < |cs| - 1 && LastMaximal(cs[..|cs| - 1], k)
    requires Utf16Length(cs[k]) <= Utf16Length(cs[|cs| - 1])
    ensures LastMaximal(cs, |cs| - 1)
  {
    assert forall j :: 0 <= j < |cs| - 1 ==> cs[..|cs| - 1][j] == cs[j];
  }

  /** `extractJSON`: the longest candidate, or `null` when there is none. */
  function ExtractJson(text: string): (r: Option<string>)
    ensures r.None? <==> Candidates(text) == []
    ensures r.Some? ==> r.value in Candidates(text)
  {
    var cs := Candidates(text);
    if cs == [] then None else Some(Longest(cs))
  }

  /** The extracted text is one of the brace expressions found, none longer. */
  lemma ExtractJsonIsLongestCandidate(text: string)
    ensures ExtractJson(text).Some? ==>
      (exists k :: 0 <= k < |Spans(text, 0)| && ExtractJson(text).value == text[Spans(text, 0)[k].0..Spans(text, 0)[k].1]
        && BraceSpan(text, Spans(text, 0)[k].0, Spans(text, 0)[k].1))
      && forall c :: c in Candidates(text) ==> Utf16Length(c) <= Utf16Length(ExtractJson(text).value)
    ensures ExtractJson(text).None? ==> NoSpanIn(text, 0, |text|)
  {
    var cs := Candidates(text);
    SpansExact(text, 0);
    if cs != [] {
      LongestIsLastMaximal(cs);
      var k: nat :| k < |cs| && cs[k] == Longest(cs) && LastMaximal(cs, k);
      assert ExtractJson(text).value == text[Spans(text, 0)[k].0..Spans(text, 0)[k].1];
    }
  }

  // ---------------------------------------------------------------------
  // Parsing and fallback in getAIAnalysis

  /** A JSON value as `JSON.parse` returns it. */
  datatype Json =
    | JNull
    | JBool(b: bool)
    | JNumber(n: real)
    | JString(s: string)
    | JArray(items: seq<Json>)
    | JObject(fields: map<string, Json>)

  /** What `JSON.parse` does with a text: a value, or a SyntaxError message. */
  datatype ParseOutcome = Parsed(value: Json) | SyntaxError(message: string)

  /** What the model call gives back: the reply text, or an error thrown by
      the call with its message. */
  datatype Reply = Answer(text: string) | CallFailed(message: string)

  const FAILED_EXTRACTED_PREFIX := "Failed to parse extracted JSON: "
  const NO_RAW_RESPONSE := "No raw response available"

  /** The object the outer `catch` returns for an error that carries no
      `rawResponse` of its own. */
  function ErrorObject(message: string): (r: Json)
    ensures r.JObject? && r.fields.Keys == {"error", "rawResponse"}
  {
    JObject(map["error" := JString(message), "rawResponse" := JString(NO_RAW_RESPONSE)])
  }

  /** `getAIAnalysis` after the model call, with `parse` standing for `JSON.parse`. */
  function Analyze(reply: Reply, parse: string -> ParseOutcome): (r: Json)
    ensures reply.CallFailed? ==> r == ErrorObject(reply.message)
    ensures reply.Answer? ==>
      var cleaned := CleanResponse(reply.text);
      || (parse(cleaned).Parsed? && r == parse(cleaned).value)
      || (parse(cleaned).SyntaxError? && Candidates(cleaned) == [] && r == JObject(map["rawResponse" := JString(cleaned)]))
      || (parse(cleaned).SyntaxError? && exists c :: c in Candidates(cleaned) && r == ParseCandidate(c, parse))
  {
    match reply
    case CallFailed(message) => ErrorObject(message)
    case Answer(text) => AnalyzeCleaned(CleanResponse(text), parse)
  }

  /** The parse and its fallback on the reply once it has been cleaned. */
  function AnalyzeCleaned(cleaned: string, parse: string -> ParseOutcome): (r: Json)
    ensures
      || (parse(cleaned).Parsed? && r == parse(cleaned).value)
      || (parse(cleaned).SyntaxError? && Candidates(cleaned) == [] && r == JObject(map["rawResponse" := JString(cleaned)]))
      || (parse(cleaned).SyntaxError? && exists c :: c in Candidates(cleaned) && r == ParseCandidate(c, parse))
  {
    match parse(cleaned)
    case Parsed(v) => v
    case SyntaxError(_) =>
      match ExtractJson(cleaned)
      case None => JObject(map["rawResponse" := JString(cleaned)])
      case Some(candidate) => ParseCandidate(candidate, parse)
  }

  /** The inner `try`: the candidate's value, or the error its SyntaxError
      turns into once the outer `catch` has caught it. */
  function ParseCandidate(candidate: string, parse: string -> ParseOutcome): Json {
    match parse(candidate)
    case Parsed(v) => v
    case SyntaxError(m) => ErrorObject(FAILED_EXTRACTED_PREFIX + m)
  }

  /** The four outcomes of a reply: the whole cleaned text parsed, the
      longest candidate parsed, the raw text without an error field, or the
      error object for a candidate that does not parse. */
  lemma AnalyzeOutcomes(text: string, parse: string -> ParseOutcome)
    ensures var cleaned := CleanResponse(text);
      var r := Analyze(Answer(text), parse);
      && (parse(cleaned).Parsed? ==> r == parse(cleaned).value)
      && (parse(cleaned).SyntaxError? && Candidates(cleaned) == [] ==>
            r == JObject(map["rawResponse" := JString(cleaned)]) && "error" !in r.fields)
      && (parse(cleaned).SyntaxError? && Candidates(cleaned) != [] ==>
            var c := Longest(Candidates(cleaned));
            (parse(c).Parsed? ==> r == parse(c).value)
            && (parse(c).SyntaxError? ==> r == ErrorObject(FAILED_EXTRACTED_PREFIX + parse(c).message)))
  {
    var cleaned := CleanResponse(text);
    assert Analyze(Answer(text), parse) == AnalyzeCleaned(cleaned, parse);
    CleanedOutcomes(cleaned, parse);
  }

  /** The outcomes of the parse and its fallback, for any cleaned text. */
  lemma CleanedOutcomes(cleaned: string, parse: string -> ParseOutcome)
    ensures var r := AnalyzeCleaned(cleaned, parse);
      && (parse(cleaned).Parsed? ==> r == parse(cleaned).value)
      && (parse(cleaned).SyntaxError? && Candidates(cleaned) == [] ==>
            r == JObject(map["rawResponse" := JString(cleaned)]) && "error" !in r.fields)
      && (parse(cleaned).SyntaxError? && Candidates(cleaned) != [] ==>
            var c := Longest(Candidates(cleaned));
            (parse(c).Parsed? ==> r == parse(c).value)
            && (parse(c).SyntaxError? ==> r == ErrorObject(FAILED_EXTRACTED_PREFIX + parse(c).message)))
  {
    var r := AnalyzeCleaned(cleaned, parse);
    if parse(cleaned).SyntaxError? {
      var cs := Candidates(cleaned);
      if cs == [] {
        assert ExtractJson(cleaned) == None;
        assert r == JObject(map["rawResponse" := JString(cleaned)]);
      } else {
        var c := Longest(cs);
        assert ExtractJson(cleaned) == Some(c);
        if parse(c).Parsed? {
          assert r == parse(c).value;
        } else {
          assert r == ErrorObject(FAILED_EXTRACTED_PREFIX + parse(c).message);
        }
      }
    } else {
      assert r == parse(cleaned).value;
    }
  }

  // ---------------------------------------------------------------------
  // The success/error branch of analyzeCodebase

  /** JavaScript truthiness of a value; an absent property is `undefined`. */
  predicate Truthy(v: Option<Json>) {
    match v
    case None => false
    case Some(JNull) => false
    case Some(JBool(b)) => b
    case Some(JNumber(n)) => n != 0.0
    case Some(JString(s)) => s != []
    case Some(_) => true
  }

  /** `value[key]` for a key that is not an array index or a built-in
      property: only objects have it. */
  function Get(value: Json, key: string): (r: Option<Json>)
    ensures r.Some? <==> value.JObject? && key in value.fields
  {
    if value.JObject? && key in value.fields then Some(value.fields[key]) else None
  }

  /** What gets written to the suggestions file. */
  datatype Persist = WriteJson(value: Json) | Abort

  /** Written unchanged when truthy without a truthy `error`; otherwise an
      object with only the `error` and `rawResponse` fields the result has.
      Reading `.error` of `null` throws, which ends the whole analysis. */
  function Decide(result: Json): (d: Persist)
    ensures d.Abort? <==> result == JNull
    ensures result != JNull && !(Truthy(Some(result)) && !Truthy(Get(result, "error"))) ==>
      && d.WriteJson?
      && d.value.JObject? && d.value.fields.Keys <= {"error", "rawResponse"}
      && (forall k :: k in d.value.fields ==> Get(result, k) == Some(d.value.fields[k]))
      && (forall k :: k in {"error", "rawResponse"} && Get(result, k).Some? ==> k in d.value.fields)
    ensures Truthy(Some(result)) && !Truthy(Get(result, "error")) ==> d == WriteJson(result)
  {
    if Truthy(Some(result)) && !Truthy(Get(result, "error")) then WriteJson(result)
    else if result == JNull then Abort
    else
      var keep := map k | k in {"error", "rawResponse"} && Get(result, k).Some? :: Get(result, k).value;
      WriteJson(JObject(keep))
  }

  /** Every error object of getAIAnalysis is written as it is. */
  lemma ErrorObjectWrittenAsIs(message: string)
    ensures Decide(ErrorObject(message)) == WriteJson(ErrorObject(message))
  {
    var e := ErrorObject(message);
    if Truthy(Get(e, "error")) {
      var keep := map k | k in {"error", "rawResponse"} && Get(e, k).Some? :: Get(e, k).value;
      assert keep == e.fields;
    }
  }

  /** A reply without any brace expression is saved as a success: the
      object holding the raw text has no `error` field. */
  lemma RawResponseWrittenAsSuccess(text: string, parse: string -> ParseOutcome)
    requires parse(CleanResponse(text)).SyntaxError?
    requires Candidates(CleanResponse(text)) == []
    ensures Decide(Analyze(Answer(text), parse)) == WriteJson(JObject(map["rawResponse" := JString(CleanResponse(text))]))
  {
  }
}
