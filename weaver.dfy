/** The weaver of lib/concatenator.mjs: `isBinaryContent` and the
    depth-first `processNode` traversal of `weaveCodebase`, which appends
    framed file sections to one open output stream. File reads are a
    function from root-relative path to bytes or an error; UTF-8 decoding is
    an opaque function. */
module Weaver {
  import opened Text
  import opened Tree

  newtype byte = b: int | 0 <= b < 256

  const BINARY_CHECK_BYTES: nat := 8000
  const CODELOOM_DELIMITER := "//==== CODELOOM_DELIMITER ====/"
  const BINARY_PLACEHOLDER := "[Binary file content not included]\n"

  /** The outcome of `fs.readFile` on a file of the tree. */
  datatype ReadResult = Bytes(data: seq<byte>) | ReadError(message: string)

  /** The binary heuristic: a zero byte among the first 8000 bytes. */
  predicate IsBinary(buffer: seq<byte>) {
    exists i :: 0 <= i < |buffer| && i < BINARY_CHECK_BYTES && buffer[i] == 0
  }

  /** `isBinaryContent`: a counted loop with an early return. */
  method IsBinaryContent(buffer: seq<byte>) returns (binary: bool)
    ensures binary <==> exists i :: 0 <= i < |buffer| && i < BINARY_CHECK_BYTES && buffer[i] == 0
  {
    var limit := if |buffer| < BINARY_CHECK_BYTES then |buffer| else BINARY_CHECK_BYTES;
    for i := 0 to limit
      invariant forall j :: 0 <= j < i ==> buffer[j] != 0
    {
      if buffer[i] == 0 {
        return true;
      }
    }
    return false;
  }

  /** Bytes from index 8000 on never change the verdict. */
  lemma BinaryIgnoresTail(head: seq<byte>, tail1: seq<byte>, tail2: seq<byte>)
    requires |head| >= BINARY_CHECK_BYTES
    ensures IsBinary(head + tail1) == IsBinary(head + tail2)
  {
    if IsBinary(head + tail1) {
      var i :| 0 <= i < |head + tail1| && i < BINARY_CHECK_BYTES && (head + tail1)[i] == 0;
      assert (head + tail2)[i] == 0;
    }
    if IsBinary(head + tail2) {
      var i :| 0 <= i < |head + tail2| && i < BINARY_CHECK_BYTES && (head + tail2)[i] == 0;
      assert (head + tail1)[i] == 0;
    }
  }

  /** The line that opens a section, and the one that closes its header. */
  const OPENING_LINE := "\n\n" + CODELOOM_DELIMITER + "\n"
  const CLOSING_LINE := CODELOOM_DELIMITER + "\n"

  function PathLine(path: Path): string {
    "FILE_PATH: " + JoinPath(path) + "\n"
  }

  /** What follows the header of a file's section. */
  function Body(r: ReadResult, decode: seq<byte> -> string): string {
    match r
    case Bytes(data) => if IsBinary(data) then BINARY_PLACEHOLDER else decode(data)
    case ReadError(message) => "Error reading file: " + message + "\n"
  }

  /** The four writes made for the file at `path`. */
  function SectionWrites(path: Path, read: Path -> ReadResult, decode: seq<byte> -> string): seq<string> {
    [OPENING_LINE, PathLine(path), CLOSING_LINE, Body(read(path), decode)]
  }

  /** The writes `processNode(node, currentPath)` makes. */
  function NodeWrites(node: Node, currentPath: Path, read: Path -> ReadResult, decode: seq<byte> -> string): seq<string>
    decreases node
  {
    match node
    case File(name, _, _) => SectionWrites(currentPath + [name], read, decode)
    case Directory(name, children) => ChildrenWrites(children, currentPath + [name], read, decode)
    case _ => []
  }

  /** The writes for the children of the directory at `dir`, in order. */
  function ChildrenWrites(children: seq<Node>, dir: Path, read: Path -> ReadResult, decode: seq<byte> -> string): seq<string>
    decreases children
  {
    if children == [] then []
    else
      ChildrenWrites(children[..|children| - 1], dir, read, decode)
        + NodeWrites(children[|children| - 1], dir, read, decode)
  }

  /** The writes of a whole weave; None when the map's root has no
      `children` to iterate (the weave then rejects with a TypeError). */
  function WeaveWrites(codebaseMap: Node, read: Path -> ReadResult, decode: seq<byte> -> string): Option<seq<string>> {
    match codebaseMap
    case Directory(_, children) => Some(ChildrenWrites(children, [], read, decode))
    case _ => None
  }

  /** The open output file: the strings written to it, in order. */
  class OutputStream {
    var writes: seq<string>

    /** `fs.open(outputFile, 'w')`: the file starts empty. */
    constructor Open()
      ensures writes == []
    {
      writes := [];
    }

    /** What the file holds. */
    function Contents(): string
      reads this
    {
      Concat(writes)
    }

    method Write(s: string)
      modifies this
      ensures writes == old(writes) + [s]
      ensures Contents() == old(Contents()) + s
    {
      writes := writes + [s];
      assert writes[..|writes| - 1] == old(writes);
    }
  }

  /** `processNode`: a file writes its header, then its content, the binary
      placeholder or an inline error; a directory with children recurses into
      them in order; anything else writes nothing. */
  method ProcessNode(out: OutputStream, node: Node, currentPath: Path,
                     read: Path -> ReadResult, decode: seq<byte> -> string)
    modifies out
    ensures out.writes == old(out.writes) + NodeWrites(node, currentPath, read, decode)
    decreases node
  {
    match node {
      case File(name, _, _) =>
        var filePath := currentPath + [name];
        out.Write("\n\n" + CODELOOM_DELIMITER + "\n");
        out.Write("FILE_PATH: " + JoinPath(filePath) + "\n");
        out.Write(CODELOOM_DELIMITER + "\n");
        assert out.writes == old(out.writes) + [OPENING_LINE, PathLine(filePath), CLOSING_LINE];
        match read(filePath) {
          case Bytes(content) =>
            var binary := IsBinaryContent(content);
            if binary {
              out.Write(BINARY_PLACEHOLDER);
            } else {
              out.Write(decode(content));
            }
          case ReadError(message) =>
            out.Write("Error reading file: " + message + "\n");
        }
      case Directory(name, children) =>
        ProcessChildren(out, children, currentPath + [name], read, decode);
      case ChildlessDirectory(_) =>
      case OtherNode(_) =>
    }
  }

  /** The `for (const child of children)` loop, shared by `processNode` and
      the top level of `weaveCodebase`. */
  method ProcessChildren(out: OutputStream, children: seq<Node>, dir: Path,
                         read: Path -> ReadResult, decode: seq<byte> -> string)
    modifies out
    ensures out.writes == old(out.writes) + ChildrenWrites(children, dir, read, decode)
    decreases children, 0
  {
    var i := 0;
    while i < |children|
      invariant 0 <= i <= |children|
      invariant out.writes == old(out.writes) + ChildrenWrites(children[..i], dir, read, decode)
    {
      assert children[..i + 1][..i] == children[..i];
      ProcessNode(out, children[i], dir, read, decode);
      i := i + 1;
    }
    assert children[..|children|] == children;
  }

  /** `weaveCodebase`: opens the output, then processes the root's children
      with an empty current path, so the root's own name never appears.
      `ok` is false when the root has no `children` to iterate. */
  method WeaveCodebase(codebaseMap: Node, read: Path -> ReadResult, decode: seq<byte> -> string)
    returns (out: OutputStream, ok: bool)
    ensures fresh(out)
    ensures ok <==> codebaseMap.Directory?
    ensures ok ==> Some(out.writes) == WeaveWrites(codebaseMap, read, decode)
    ensures !ok ==> out.writes == []
  {
    out := new OutputStream.Open();
    ok := codebaseMap.Directory?;
    if ok {
      ProcessChildren(out, codebaseMap.children, [], read, decode);
      assert [] + ChildrenWrites(codebaseMap.children, [], read, decode)
          == ChildrenWrites(codebaseMap.children, [], read, decode);
      assert WeaveWrites(codebaseMap, read, decode) == Some(ChildrenWrites(codebaseMap.children, [], read, decode));
    }
  }

  /** The sections of the files at `paths`, one after another. */
  function SectionsWrites(paths: seq<Path>, read: Path -> ReadResult, decode: seq<byte> -> string): seq<string> {
    if paths == [] then []
    else SectionsWrites(paths[..|paths| - 1], read, decode) + SectionWrites(paths[|paths| - 1], read, decode)
  }

  lemma {:induction false} SectionsWritesAppend(a: seq<Path>, b: seq<Path>, read: Path -> ReadResult, decode: seq<byte> -> string)
    ensures SectionsWrites(a + b, read, decode) == SectionsWrites(a, read, decode) + SectionsWrites(b, read, decode)
    decreases |b|
  {
    if b == [] {
      assert a + b == a;
    } else {
      assert (a + b)[..|a + b| - 1] == a + b[..|b| - 1];
      SectionsWritesAppend(a, b[..|b| - 1], read, decode);
    }
  }

  /** A node writes exactly one section per file node below it, in
      depth-first, children-in-order order. */
  lemma {:induction false} NodeWritesAreSections(node: Node, currentPath: Path, read: Path -> ReadResult, decode: seq<byte> -> string)
    ensures NodeWrites(node, currentPath, read, decode) == SectionsWrites(Files(node, currentPath), read, decode)
    decreases node
  {
    match node
    case File(name, _, _) =>
      assert Files(node, currentPath) == [currentPath + [name]];
      assert [currentPath + [name]][..0] == [];
    case Directory(name, children) =>
      ChildrenWritesAreSections(children, currentPath + [name], read, decode);
    case ChildlessDirectory(_) =>
    case OtherNode(_) =>
  }

  lemma {:induction false} ChildrenWritesAreSections(children: seq<Node>, dir: Path, read: Path -> ReadResult, decode: seq<byte> -> string)
    ensures ChildrenWrites(children, dir, read, decode) == SectionsWrites(ChildrenFiles(children, dir), read, decode)
    decreases children
  {
    if children != [] {
      var init, last := children[..|children| - 1], children[|children| - 1];
      ChildrenWritesAreSections(init, dir, read, decode);
      NodeWritesAreSections(last, dir, read, decode);
      SectionsWritesAppend(ChildrenFiles(init, dir), Files(last, dir), read, decode);
    }
  }

  /** Section `k` occupies writes 4k to 4k+3. */
  lemma {:induction false} SectionsWritesAt(paths: seq<Path>, read: Path -> ReadResult, decode: seq<byte> -> string)
    ensures |SectionsWrites(paths, read, decode)| == 4 * |paths|
    ensures forall k, j :: 0 <= k < |paths| && 0 <= j < 4 ==>
      SectionsWrites(paths, read, decode)[4 * k + j] == SectionWrites(paths[k], read, decode)[j]
    decreases |paths|
  {
    if paths != [] {
      var init := paths[..|paths| - 1];
      SectionsWritesAt(init, read, decode);
      var ws := SectionsWrites(paths, read, decode);
      forall k, j | 0 <= k < |paths| && 0 <= j < 4
        ensures ws[4 * k + j] == SectionWrites(paths[k], read, decode)[j]
      {
        if k < |init| {
          assert paths[k] == init[k];
        }
      }
    }
  }

  /** The shape of a whole weave: four writes per file node of the map, in
      traversal order. The k-th file's section opens with the delimiter line,
      names the file's path below the root (the root's own name is not part of
      it), closes the header with the delimiter line whatever the read then
      gives, and ends with the body the read decides. */
  lemma WeaveShape(codebaseMap: Node, read: Path -> ReadResult, decode: seq<byte> -> string)
    requires codebaseMap.Directory?
    ensures var ws := WeaveWrites(codebaseMap, read, decode).value;
      var files := ChildrenFiles(codebaseMap.children, []);
      && |ws| == 4 * |files|
      && forall k :: 0 <= k < |files| ==>
           && ws[4 * k] == "\n\n" + CODELOOM_DELIMITER + "\n"
           && ws[4 * k + 1] == "FILE_PATH: " + JoinPath(files[k]) + "\n"
           && ws[4 * k + 2] == CODELOOM_DELIMITER + "\n"
           && ws[4 * k + 3] == Body(read(files[k]), decode)
  {
    var files := ChildrenFiles(codebaseMap.children, []);
    ChildrenWritesAreSections(codebaseMap.children, [], read, decode);
    SectionsWritesAt(files, read, decode);
    var ws := WeaveWrites(codebaseMap, read, decode).value;
    forall k | 0 <= k < |files|
      ensures ws[4 * k] == "\n\n" + CODELOOM_DELIMITER + "\n"
      ensures ws[4 * k + 1] == "FILE_PATH: " + JoinPath(files[k]) + "\n"
      ensures ws[4 * k + 2] == CODELOOM_DELIMITER + "\n"
      ensures ws[4 * k + 3] == Body(read(files[k]), decode)
    {
      assert ws[4 * k + 0] == SectionWrites(files[k], read, decode)[0];
      assert ws[4 * k + 1] == SectionWrites(files[k], read, decode)[1];
      assert ws[4 * k + 2] == SectionWrites(files[k], read, decode)[2];
      assert ws[4 * k + 3] == SectionWrites(files[k], read, decode)[3];
    }
  }

  /** The body is the placeholder for binary content, the decoded content
      otherwise, and an inline error line when the read fails. */
  lemma BodyCases(r: ReadResult, decode: seq<byte> -> string)
    ensures r.ReadError? ==> Body(r, decode) == "Error reading file: " + r.message + "\n"
    ensures r.Bytes? && (exists i :: 0 <= i < |r.data| && i < BINARY_CHECK_BYTES && r.data[i] == 0) ==>
      Body(r, decode) == "[Binary file content not included]\n"
    ensures r.Bytes? && (forall i :: 0 <= i < |r.data| && i < BINARY_CHECK_BYTES ==> r.data[i] != 0) ==>
      Body(r, decode) == decode(r.data)
  {
  }

  /** Nodes that are neither files nor directories, and directory records
      without children, write nothing. */
  lemma NonFileNodesWriteNothing(node: Node, currentPath: Path, read: Path -> ReadResult, decode: seq<byte> -> string)
    requires node.ChildlessDirectory? || node.OtherNode?
    ensures NodeWrites(node, currentPath, read, decode) == []
  {
  }
}
