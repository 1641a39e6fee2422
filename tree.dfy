/** The codebase map: the tree the walker builds (lib/mapper.mjs) and the
    weaver walks again (lib/concatenator.mjs). */
module Tree {
  import Text

  /** A root-relative path, as its segments. */
  type Path = seq<string>

  /** One node of the map. The walker only builds `File` and `Directory`;
      the weaver reads the map back from its JSON file, where a node may also
      be a directory record without a `children` field or carry some other
      `type`. */
  datatype Node =
    | File(name: string, extension: string, lines: int)
    | Directory(name: string, children: seq<Node>)
    | ChildlessDirectory(name: string)
    | OtherNode(name: string)

  /** `path.join` of plain segments. */
  function JoinPath(p: Path): string {
    Text.Join(p, "/")
  }

  /** Paths of the file nodes under `n`, depth-first with children in order;
      `parent` is the path of the directory that holds `n`. */
  function Files(n: Node, parent: Path): seq<Path>
    decreases n
  {
    match n
    case File(name, _, _) => [parent + [name]]
    case Directory(name, children) => ChildrenFiles(children, parent + [name])
    case _ => []
  }

  function ChildrenFiles(children: seq<Node>, dir: Path): seq<Path>
    decreases children
  {
    if children == [] then []
    else ChildrenFiles(children[..|children| - 1], dir) + Files(children[|children| - 1], dir)
  }

  lemma {:induction false} ChildrenFilesAppend(a: seq<Node>, b: seq<Node>, dir: Path)
    ensures ChildrenFiles(a + b, dir) == ChildrenFiles(a, dir) + ChildrenFiles(b, dir)
    decreases |b|
  {
    if b == [] {
      assert a + b == a;
    } else {
      assert (a + b)[..|a + b| - 1] == a + b[..|b| - 1];
      ChildrenFilesAppend(a, b[..|b| - 1], dir);
    }
  }
}
