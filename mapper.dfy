/** The directory walker of lib/mapper.mjs: `countLines`, `mapDirectory`
    and the target loop of `mapCodebase`. The filesystem is a value of type
    `Entry`, the gitignore rules an opaque predicate on root-relative paths. */
module Mapper {
  import opened Text
  import opened Tree

  /** A directory entry as the filesystem reports it. */
  datatype Entry =
      /** A regular file with its UTF-8 text, or None when reading it fails. */
    | FileEntry(name: string, text: Option<string>)
      /** A directory and the outcome of listing it. */
    | DirEntry(name: string, listing: Listing)
      /** A symbolic link, socket, FIFO or device: neither file nor directory. */
    | OtherEntry(name: string)

  /** What `fs.readdir` gives for a directory: its entries in enumeration
      order, or a failure (permission denied, removed meanwhile). */
  datatype Listing = Listed(entries: seq<Entry>) | Unlistable

  /** Name of the synthetic node that collects the scanned targets. */
  const ROOT_NAME := "root"

  /** `countLines`: the number of pieces of `text.split('\n')`, which is
      the number of newline characters plus one, so an empty file has one
      line. */
  function CountLines(text: string): (n: nat)
    ensures n == Count(text, '\n') + 1
  {
    SplitCharCount(text, '\n');
    |Split(text, "\n")|
  }

  /** Index of the last '.' in `name`. */
  function LastDot(name: string): (k: Option<nat>)
    ensures k.Some? ==> k.value < |name| && name[k.value] == '.'
    ensures k.Some? ==> forall i :: k.value < i < |name| ==> name[i] != '.'
    ensures k.None? ==> '.' !in name
  {
    if name == [] then None
    else if name[|name| - 1] == '.' then Some(|name| - 1)
    else LastDot(name[..|name| - 1])
  }

  /** `path.extname` of an entry name (a name holds no '/'). */
  function ExtName(name: string): (ext: string)
    ensures ext == [] || (ext[0] == '.' && '.' !in ext[1..])
    ensures |ext| <= |name| && ext == name[|name| - |ext|..]
    ensures ('.' !in name || (name[0] == '.' && '.' !in name[1..])) ==> ext == []
    ensures name != [] && name[0] != '.' && '.' in name ==> ext != []
    ensures forall k :: 0 < k < |name| && name[k] == '.' && '.' !in name[k + 1..] && name != ".." ==>
      ext == name[k..]
  {
    match LastDot(name)
    case None => []
    case Some(k) => if k == 0 || name == ".." then [] else name[k..]
  }

  /** What one entry contributes to the children of the directory at `dir`:
      nothing, or a single node (lines 37-65 of `mapDirectory`). */
  function MapEntry(e: Entry, dir: Path, ignores: Path -> bool, maxLines: int): (r: seq<Node>)
    ensures |r| <= 1
    ensures r != [] ==> !ignores(dir + [e.name]) && r[0].name == e.name
    ensures r != [] && e.FileEntry? ==>
      && e.text.Some?
      && r[0] == File(e.name, ExtName(e.name), CountLines(e.text.value))
      && r[0].lines <= maxLines
    ensures r != [] && e.DirEntry? ==> r[0].Directory? && r[0].children != []
    ensures e.OtherEntry? ==> r == []
    decreases e, 1
  {
    var rel := dir + [e.name];
    if ignores(rel) then []
    else
      match e
      case DirEntry(_, _) =>
        var sub := MapDir(e, rel, ignores, maxLines);
        if |sub.children| > 0 then [sub] else []
      case FileEntry(name, text) =>
        (match text
         case None => []
         case Some(t) =>
           if CountLines(t) <= maxLines then [File(name, ExtName(name), CountLines(t))] else [])
      case OtherEntry(_) => []
  }

  /** The node `mapDirectory` builds for the directory `d` found at `rel`. */
  function MapDir(d: Entry, rel: Path, ignores: Path -> bool, maxLines: int): (n: Node)
    requires d.DirEntry?
    ensures n.Directory? && n.name == d.name
    decreases d, 0
  {
    match d.listing
    case Unlistable => Directory(d.name, [])
    case Listed(entries) => Directory(d.name, MapChildren(entries, rel, ignores, maxLines))
  }

  /** The children contributed by `entries`, in enumeration order. */
  function MapChildren(entries: seq<Entry>, dir: Path, ignores: Path -> bool, maxLines: int): seq<Node>
    decreases entries
  {
    if entries == [] then []
    else
      MapChildren(entries[..|entries| - 1], dir, ignores, maxLines)
        + MapEntry(entries[|entries| - 1], dir, ignores, maxLines)
  }

  /** The first entry of `entries` called `name`. */
  function Find(entries: seq<Entry>, name: string): (r: Option<Entry>)
    ensures r.Some? ==> r.value in entries && r.value.name == name
  {
    if entries == [] then None
    else if entries[0].name == name then Some(entries[0])
    else Find(entries[1..], name)
  }

  /** What `fs.stat` finds at the root-relative path `p`. */
  function Lookup(root: Entry, p: Path): Option<Entry>
    decreases p
  {
    if p == [] then Some(root)
    else
      match root
      case DirEntry(_, Listed(entries)) =>
        (match Find(entries, p[0])
         case Some(child) => Lookup(child, p[1..])
         case None => None)
      case _ => None
  }

  /** What one scan target contributes to the synthetic root (lines 94-107). */
  function MapTarget(root: Entry, target: Path, ignores: Path -> bool, maxLines: int): (r: seq<Node>)
    ensures |r| <= 1
    ensures r != [] ==>
      && Lookup(root, target).Some? && Lookup(root, target).value.DirEntry?
      && r == [MapDir(Lookup(root, target).value, target, ignores, maxLines)]
      && r[0].name == Lookup(root, target).value.name && r[0].children != []
  {
    match Lookup(root, target)
    case Some(d) =>
      if d.DirEntry? then
        var n := MapDir(d, target, ignores, maxLines);
        if |n.children| > 0 then [n] else []
      else []
    case None => []
  }

  /** The children of the synthetic root, in the order of the targets. */
  function MapTargets(root: Entry, targets: seq<Path>, ignores: Path -> bool, maxLines: int): seq<Node>
  {
    if targets == [] then []
    else
      MapTargets(root, targets[..|targets| - 1], ignores, maxLines)
        + MapTarget(root, targets[|targets| - 1], ignores, maxLines)
  }

  /** `mapDirectory`: the loop over the entries of `d`, pushing onto the
      children of a fresh directory node and recursing into subdirectories. */
  method MapDirectory(d: Entry, rel: Path, ignores: Path -> bool, maxLines: int) returns (node: Node)
    requires d.DirEntry?
    ensures node == MapDir(d, rel, ignores, maxLines)
    decreases d
  {
    var children: seq<Node> := [];
    match d.listing {
      case Unlistable =>
      case Listed(entries) =>
        var i := 0;
        while i < |entries|
          invariant 0 <= i <= |entries|
          invariant children == MapChildren(entries[..i], rel, ignores, maxLines)
        {
          var entry := entries[i];
          var entryRel := rel + [entry.name];
          assert entries[..i + 1][..i] == entries[..i];
          if !ignores(entryRel) {
            match entry {
              case DirEntry(_, _) =>
                var sub := MapDirectory(entry, entryRel, ignores, maxLines);
                if |sub.children| > 0 {
                  children := children + [sub];
                }
              case FileEntry(name, text) =>
                match text {
                  case None =>
                  case Some(t) =>
                    var lineCount := CountLines(t);
                    if lineCount <= maxLines {
                      children := children + [File(name, ExtName(name), lineCount)];
                    }
                }
              case OtherEntry(_) =>
            }
          }
          i := i + 1;
        }
        assert entries[..|entries|] == entries;
    }
    node := Directory(d.name, children);
  }

  /** The target loop of `mapCodebase`: each target that is a directory and
      yields a non-empty node is pushed onto the synthetic root. */
  method MapCodebase(root: Entry, directories: seq<Path>, ignores: Path -> bool, maxLines: int)
    returns (codebaseMap: Node)
    ensures codebaseMap == Directory(ROOT_NAME, MapTargets(root, directories, ignores, maxLines))
    ensures AllWellFormed(codebaseMap.children, maxLines)
  {
    var children: seq<Node> := [];
    var i := 0;
    while i < |directories|
      invariant 0 <= i <= |directories|
      invariant children == MapTargets(root, directories[..i], ignores, maxLines)
    {
      var target := directories[i];
      assert directories[..i + 1][..i] == directories[..i];
      match Lookup(root, target) {
        case Some(d) =>
          if d.DirEntry? {
            var dirMap := MapDirectory(d, target, ignores, maxLines);
            if |dirMap.children| > 0 {
              children := children + [dirMap];
            }
          }
        case None =>
      }
      i := i + 1;
    }
    assert directories[..|directories|] == directories;
    codebaseMap := Directory(ROOT_NAME, children);
    MapTargetsWellFormed(root, directories, ignores, maxLines);
  }

  /** The shape of every node the walker emits below the synthetic root: a
      file within the line ceiling, carrying its own extension; a directory
      with at least one child, each of them of this shape. */
  predicate WellFormed(n: Node, maxLines: int)
    decreases n
  {
    match n
    case File(name, ext, lines) => 1 <= lines <= maxLines && ext == ExtName(name)
    case Directory(_, children) =>
      |children| > 0 && forall i :: 0 <= i < |children| ==> WellFormed(children[i], maxLines)
    case _ => false
  }

  predicate HasFile(n: Node)
    decreases n
  {
    match n
    case File(_, _, _) => true
    case Directory(_, children) => exists i :: 0 <= i < |children| && HasFile(children[i])
    case _ => false
  }

  /** A well-formed directory has at least one file below it. */
  lemma {:induction false} WellFormedHasFile(n: Node, maxLines: int)
    requires WellFormed(n, maxLines)
    ensures HasFile(n)
    decreases n
  {
    if n.Directory? {
      WellFormedHasFile(n.children[0], maxLines);
    }
  }

  /** Each entry yields nothing or one node, decided as the walker decides:
      ignored entries and entries that are neither files nor directories
      yield nothing, a directory yields its node when that node has children,
      an unreadable file yields nothing, and a readable file yields its node
      exactly when its line count is within `maxLines`. */
  lemma EntryOutcome(e: Entry, dir: Path, ignores: Path -> bool, maxLines: int)
    ensures ignores(dir + [e.name]) ==> MapEntry(e, dir, ignores, maxLines) == []
    ensures e.OtherEntry? ==> MapEntry(e, dir, ignores, maxLines) == []
    ensures e.FileEntry? && e.text.None? ==> MapEntry(e, dir, ignores, maxLines) == []
    ensures e.FileEntry? && e.text.Some? && !ignores(dir + [e.name]) ==>
      (MapEntry(e, dir, ignores, maxLines) != [] <==> CountLines(e.text.value) <= maxLines)
    ensures e.FileEntry? && e.text.Some? && !ignores(dir + [e.name]) && CountLines(e.text.value) <= maxLines ==>
      MapEntry(e, dir, ignores, maxLines)
        == [File(e.name, ExtName(e.name), Count(e.text.value, '\n') + 1)]
    ensures e.DirEntry? && !ignores(dir + [e.name]) ==>
      var sub := MapDir(e, dir + [e.name], ignores, maxLines);
      MapEntry(e, dir, ignores, maxLines) == (if sub.children == [] then [] else [sub])
    ensures e.DirEntry? && e.listing.Unlistable? ==> MapEntry(e, dir, ignores, maxLines) == []
  {
    if e.FileEntry? && e.text.Some? {
    }
  }

  predicate AllWellFormed(ns: seq<Node>, maxLines: int) {
    forall i :: 0 <= i < |ns| ==> WellFormed(ns[i], maxLines)
  }

  lemma AllWellFormedAppend(a: seq<Node>, b: seq<Node>, maxLines: int)
    requires AllWellFormed(a, maxLines) && AllWellFormed(b, maxLines)
    ensures AllWellFormed(a + b, maxLines)
  {
    forall i | 0 <= i < |a + b| ensures WellFormed((a + b)[i], maxLines) {
      if i < |a| {
        assert (a + b)[i] == a[i];
      } else {
        assert (a + b)[i] == b[i - |a|];
      }
    }
  }

  /** Every node emitted for a list of entries is well-formed. */
  lemma {:induction false} MapChildrenWellFormed(entries: seq<Entry>, dir: Path, ignores: Path -> bool, maxLines: int)
    ensures AllWellFormed(MapChildren(entries, dir, ignores, maxLines), maxLines)
    decreases entries
  {
    if entries != [] {
      var init, last := entries[..|entries| - 1], entries[|entries| - 1];
      MapChildrenWellFormed(init, dir, ignores, maxLines);
      MapEntryWellFormed(last, dir, ignores, maxLines);
      AllWellFormedAppend(MapChildren(init, dir, ignores, maxLines), MapEntry(last, dir, ignores, maxLines), maxLines);
    }
  }

  lemma {:induction false} MapEntryWellFormed(e: Entry, dir: Path, ignores: Path -> bool, maxLines: int)
    ensures AllWellFormed(MapEntry(e, dir, ignores, maxLines), maxLines)
    decreases e, 1
  {
    var rel := dir + [e.name];
    if !ignores(rel) {
      match e
      case DirEntry(_, listing) =>
        MapDirWellFormed(e, rel, ignores, maxLines);
      case FileEntry(_, text) =>
        if text.Some? {
        }
      case OtherEntry(_) =>
    }
  }

  /** The node built for a directory is well-formed once it has a child. */
  lemma {:induction false} MapDirWellFormed(d: Entry, rel: Path, ignores: Path -> bool, maxLines: int)
    requires d.DirEntry?
    ensures AllWellFormed(MapDir(d, rel, ignores, maxLines).children, maxLines)
    ensures MapDir(d, rel, ignores, maxLines).children != [] ==> WellFormed(MapDir(d, rel, ignores, maxLines), maxLines)
    decreases d, 0
  {
    if d.listing.Listed? {
      MapChildrenWellFormed(d.listing.entries, rel, ignores, maxLines);
    }
  }

  /** Every subtree under the synthetic root is well-formed: no directory
      below the root is empty and no file exceeds the line ceiling. */
  lemma {:induction false} MapTargetsWellFormed(root: Entry, targets: seq<Path>, ignores: Path -> bool, maxLines: int)
    ensures AllWellFormed(MapTargets(root, targets, ignores, maxLines), maxLines)
    decreases |targets|
  {
    if targets != [] {
      var init, t := targets[..|targets| - 1], targets[|targets| - 1];
      MapTargetsWellFormed(root, init, ignores, maxLines);
      var found := Lookup(root, t);
      if found.Some? && found.value.DirEntry? {
        MapDirWellFormed(found.value, t, ignores, maxLines);
      }
      AllWellFormedAppend(MapTargets(root, init, ignores, maxLines), MapTarget(root, t, ignores, maxLines), maxLines);
    }
  }

  /** Children keep the enumeration order: the entries of `a` contribute
      before those of `b`. */
  lemma {:induction false} MapChildrenAppend(a: seq<Entry>, b: seq<Entry>, dir: Path, ignores: Path -> bool, maxLines: int)
    ensures MapChildren(a + b, dir, ignores, maxLines)
         == MapChildren(a, dir, ignores, maxLines) + MapChildren(b, dir, ignores, maxLines)
    decreases |b|
  {
    if b == [] {
      assert a + b == a;
    } else {
      assert (a + b)[..|a + b| - 1] == a + b[..|b| - 1];
      MapChildrenAppend(a, b[..|b| - 1], dir, ignores, maxLines);
    }
  }

  /** Top-level subtrees keep the order of the `directories` argument, and a
      target contributes the same whatever targets precede it. */
  lemma {:induction false} MapTargetsAppend(root: Entry, a: seq<Path>, b: seq<Path>, ignores: Path -> bool, maxLines: int)
    ensures MapTargets(root, a + b, ignores, maxLines)
         == MapTargets(root, a, ignores, maxLines) + MapTargets(root, b, ignores, maxLines)
    decreases |b|
  {
    if b == [] {
      assert a + b == a;
    } else {
      var init, t := b[..|b| - 1], b[|b| - 1];
      assert (a + b)[..|a + b| - 1] == a + init;
      assert (a + b)[|a + b| - 1] == t;
      MapTargetsAppend(root, a, init, ignores, maxLines);
      var last := MapTarget(root, t, ignores, maxLines);
      calc {
        MapTargets(root, a + b, ignores, maxLines);
        MapTargets(root, a + init, ignores, maxLines) + last;
        (MapTargets(root, a, ignores, maxLines) + MapTargets(root, init, ignores, maxLines)) + last;
        MapTargets(root, a, ignores, maxLines) + (MapTargets(root, init, ignores, maxLines) + last);
        MapTargets(root, a, ignores, maxLines) + MapTargets(root, b, ignores, maxLines);
      }
    }
  }

  /** A target that does not exist, or is not a directory, contributes
      nothing, and so does a directory target whose listing fails. */
  lemma TargetOutcome(root: Entry, target: Path, ignores: Path -> bool, maxLines: int)
    ensures Lookup(root, target).None? ==> MapTarget(root, target, ignores, maxLines) == []
    ensures Lookup(root, target).Some? && !Lookup(root, target).value.DirEntry? ==>
      MapTarget(root, target, ignores, maxLines) == []
    ensures (Lookup(root, target).Some? && Lookup(root, target).value.DirEntry?
             && Lookup(root, target).value.listing.Unlistable?)
        ==> MapTarget(root, target, ignores, maxLines) == []
    ensures Lookup(root, target).Some? && Lookup(root, target).value.DirEntry? ==>
      var n := MapDir(Lookup(root, target).value, target, ignores, maxLines);
      && (n.children == [] ==> MapTarget(root, target, ignores, maxLines) == [])
      && (n.children != [] ==> MapTarget(root, target, ignores, maxLines) == [n])
  {
  }

  /** Every path in `paths` lies strictly below `rel`, and no prefix of it
      longer than `rel` is ignored. */
  ghost predicate AvoidsIgnored(paths: seq<Path>, rel: Path, ignores: Path -> bool) {
    forall j :: 0 <= j < |paths| ==>
      |rel| < |paths[j]| && paths[j][..|rel|] == rel
      && forall k :: |rel| < k <= |paths[j]| ==> !ignores(paths[j][..k])
  }

  /** An ignored entry contributes nothing and an ignored directory is not
      descended into: no file of the node built for `d` lies at or below an
      ignored path. */
  lemma {:induction false} MapDirAvoidsIgnored(d: Entry, rel: Path, ignores: Path -> bool, maxLines: int)
    requires d.DirEntry?
    ensures AvoidsIgnored(ChildrenFiles(MapDir(d, rel, ignores, maxLines).children, rel), rel, ignores)
    decreases d, 0
  {
    if d.listing.Listed? {
      MapChildrenAvoidsIgnored(d.listing.entries, rel, ignores, maxLines);
    }
  }

  lemma AvoidsIgnoredAppend(a: seq<Path>, b: seq<Path>, rel: Path, ignores: Path -> bool)
    requires AvoidsIgnored(a, rel, ignores) && AvoidsIgnored(b, rel, ignores)
    ensures AvoidsIgnored(a + b, rel, ignores)
  {
    var ab := a + b;
    forall j | 0 <= j < |ab|
      ensures |rel| < |ab[j]| && ab[j][..|rel|] == rel
      ensures forall k :: |rel| < k <= |ab[j]| ==> !ignores(ab[j][..k])
    {
      if j < |a| {
        assert ab[j] == a[j];
      } else {
        assert ab[j] == b[j - |a|];
      }
    }
  }

  /** Paths below a non-ignored child `dir + [name]` also avoid ignored
      paths when seen from `dir`. */
  lemma AvoidsIgnoredLift(paths: seq<Path>, dir: Path, name: string, ignores: Path -> bool)
    requires !ignores(dir + [name])
    requires AvoidsIgnored(paths, dir + [name], ignores)
    ensures AvoidsIgnored(paths, dir, ignores)
  {
    var rel := dir + [name];
    forall j | 0 <= j < |paths|
      ensures |dir| < |paths[j]| && paths[j][..|dir|] == dir
      ensures forall k :: |dir| < k <= |paths[j]| ==> !ignores(paths[j][..k])
    {
      var p := paths[j];
      assert p[..|rel|] == rel;
      assert p[..|dir|] == rel[..|dir|] == dir;
      assert p[..|dir| + 1] == rel;
    }
  }

  lemma {:induction false} MapChildrenAvoidsIgnored(entries: seq<Entry>, dir: Path, ignores: Path -> bool, maxLines: int)
    ensures AvoidsIgnored(ChildrenFiles(MapChildren(entries, dir, ignores, maxLines), dir), dir, ignores)
    decreases entries
  {
    if entries != [] {
      var init, last := entries[..|entries| - 1], entries[|entries| - 1];
      var a, b := MapChildren(init, dir, ignores, maxLines), MapEntry(last, dir, ignores, maxLines);
      MapChildrenAvoidsIgnored(init, dir, ignores, maxLines);
      MapEntryAvoidsIgnored(last, dir, ignores, maxLines);
      ChildrenFilesAppend(a, b, dir);
      AvoidsIgnoredAppend(ChildrenFiles(a, dir), ChildrenFiles(b, dir), dir, ignores);
    }
  }

  lemma {:induction false} MapEntryAvoidsIgnored(e: Entry, dir: Path, ignores: Path -> bool, maxLines: int)
    ensures AvoidsIgnored(ChildrenFiles(MapEntry(e, dir, ignores, maxLines), dir), dir, ignores)
    decreases e, 1
  {
    var rel := dir + [e.name];
    var ns := MapEntry(e, dir, ignores, maxLines);
    if ns != [] {
      assert ChildrenFiles(ns, dir) == Files(ns[0], dir) by {
        assert ns[..0] == [];
      }
      match e
      case DirEntry(_, _) =>
        var sub := MapDir(e, rel, ignores, maxLines);
        assert ns == [sub];
        assert Files(sub, dir) == ChildrenFiles(sub.children, rel);
        MapDirAvoidsIgnored(e, rel, ignores, maxLines);
        AvoidsIgnoredLift(ChildrenFiles(sub.children, rel), dir, e.name, ignores);
      case FileEntry(name, _) =>
        assert Files(ns[0], dir) == [rel];
        FileAvoidsIgnored(dir, name, ignores);
      case OtherEntry(_) =>
    }
  }

  /** A file kept at `dir + [name]` lies below `dir` on a path that is not ignored. */
  lemma FileAvoidsIgnored(dir: Path, name: string, ignores: Path -> bool)
    requires !ignores(dir + [name])
    ensures AvoidsIgnored([dir + [name]], dir, ignores)
  {
    var rel := dir + [name];
    assert rel[..|dir|] == dir;
    assert rel[..|dir| + 1] == rel;
  }
}
