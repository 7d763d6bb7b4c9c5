/**
 * The listing tree the ZIP processor caches: nested `children` dicts keyed
 * by path segment, with folder nodes created on demand and file nodes that
 * carry the entry's sizes, MIME type and CRC. A dict is a sequence of nodes
 * in insertion order whose keys are the nodes' own `key` fields.
 */
module ListingTree {
  import opened Wrappers
  import opened Paths

  const DefaultMime: string := "application/octet-stream"

  datatype Kind = Folder | File(size: nat, compressedSize: nat, mimeType: string, crc: nat)

  /** One listing node. */
  datatype Node = Node(key: string, id: string, kind: Kind, children: Children)

  /** A node's `"children"` entry: absent, or a dict of nodes. */
  datatype Children = Absent | Dict(nodes: seq<Node>)
  {
    /** `node.get("children", {})`. */
    function Entries(): seq<Node>
    {
      if Absent? then [] else nodes
    }
  }

  /** The fields of a ZIP central-directory record the listing uses. */
  datatype ZipInfo = ZipInfo(filename: string, fileSize: nat, compressSize: nat, crc: nat)

  /**
   * Why an insertion raises: `parts[-1]` of no parts (IndexError), or the
   * last intermediate node has no `"children"` entry (KeyError).
   */
  datatype TreeError = EmptyPath | MissingChildren

  /** `ZipInfo.is_dir()`: the name ends with a slash. */
  predicate IsDir(info: ZipInfo)
  {
    |info.filename| > 0 && info.filename[|info.filename| - 1] == '/'
  }

  /** `guess_type(name)[0] or "application/octet-stream"`; an empty guess stands for None. */
  function MimeType(guessed: string): (m: string)
    ensures m != ""
    ensures guessed != "" ==> m == guessed
  {
    if guessed == "" then DefaultMime else guessed
  }

  // ---------------------------------------------------------------------------
  // A dict of nodes keyed by their `key`

  /** The position of the node stored under `k`. */
  function IndexOf(ch: seq<Node>, k: string): (r: Option<nat>)
    ensures r.Some? ==> r.value < |ch| && ch[r.value].key == k && forall j :: 0 <= j < r.value ==> ch[j].key != k
    ensures r.None? ==> forall j :: 0 <= j < |ch| ==> ch[j].key != k
  {
    if ch == [] then None
    else if ch[0].key == k then Some(0)
    else
      match IndexOf(ch[1..], k)
      case None => None
      case Some(i) => Some(i + 1)
  }

  /** `children.get(k)`. */
  function Get(ch: seq<Node>, k: string): (r: Option<Node>)
    ensures r.Some? ==> r.value.key == k
  {
    match IndexOf(ch, k)
    case None => None
    case Some(i) => Some(ch[i])
  }

  lemma GetIn(ch: seq<Node>, k: string)
    ensures Get(ch, k).Some? ==> Get(ch, k).value in ch
  {
  }

  /** `children[k] = n`: replaced where it was, otherwise appended. */
  function Put(ch: seq<Node>, k: string, n: Node): seq<Node>
  {
    match IndexOf(ch, k)
    case None => ch + [n]
    case Some(i) => ch[i := n]
  }

  /** No two nodes of one dict share a key. */
  predicate UniqueKeys(ch: seq<Node>)
  {
    forall i, j :: 0 <= i < j < |ch| ==> ch[i].key != ch[j].key
  }

  /** Every dict of the tree has unique keys, as a JSON object or a Python dict does. */
  predicate UniqueTree(ch: seq<Node>)
  {
    UniqueKeys(ch) && forall n :: n in ch ==> UniqueBelow(n)
  }

  /** Every dict below `n` has unique keys. */
  predicate UniqueBelow(n: Node)
    decreases n
  {
    match n.children
    case Absent => true
    case Dict(sub) => UniqueKeys(sub) && forall c :: c in sub ==> UniqueBelow(c)
  }

  lemma IndexOfPut(ch: seq<Node>, k: string, n: Node)
    requires n.key == k
    ensures IndexOf(Put(ch, k, n), k) == Some(if IndexOf(ch, k).Some? then IndexOf(ch, k).value else |ch|)
  {
    var p := Put(ch, k, n);
    var r := IndexOf(p, k);
    var want := if IndexOf(ch, k).Some? then IndexOf(ch, k).value else |ch|;
    assert p[want] == n;
    assert forall j :: 0 <= j < want ==> p[j] == ch[j];
  }

  /** Reading back what was stored. */
  lemma GetPutSame(ch: seq<Node>, k: string, n: Node)
    requires n.key == k
    ensures Get(Put(ch, k, n), k) == Some(n)
  {
    IndexOfPut(ch, k, n);
  }

  /** Storing under one key leaves every other key as it was. */
  lemma GetPutOther(ch: seq<Node>, k: string, n: Node, k': string)
    requires n.key == k && k' != k
    ensures Get(Put(ch, k, n), k') == Get(ch, k')
  {
    var p := Put(ch, k, n);
    var before := IndexOf(ch, k');
    var after := IndexOf(p, k');
    assert forall j :: 0 <= j < |ch| ==> (p[j].key == k' <==> ch[j].key == k');
    if |p| > |ch| {
      assert p[|ch|].key != k';
    }
    if before.Some? {
      assert after.Some? && after.value == before.value;
    }
  }

  /** Storing twice under one key is storing the second node. */
  lemma PutPut(ch: seq<Node>, k: string, a: Node, b: Node)
    requires a.key == k
    ensures Put(Put(ch, k, a), k, b) == Put(ch, k, b)
  {
    IndexOfPut(ch, k, a);
  }

  /** Storing a node under its own key keeps the keys unique. */
  lemma UniquePut(ch: seq<Node>, k: string, n: Node)
    requires UniqueKeys(ch) && n.key == k
    ensures UniqueKeys(Put(ch, k, n))
  {
  }

  /** Storing a node whose own tree is unique keeps the whole tree unique. */
  lemma UniqueTreePut(ch: seq<Node>, k: string, n: Node)
    requires UniqueTree(ch) && n.key == k && UniqueBelow(n)
    ensures UniqueTree(Put(ch, k, n))
  {
    var p := Put(ch, k, n);
    UniquePut(ch, k, n);
    forall c | c in p
      ensures UniqueBelow(c)
    {
      var i :| 0 <= i < |p| && p[i] == c;
      if i < |ch| && p[i] == ch[i] {
        assert ch[i] in ch;
      }
    }
  }

  // ---------------------------------------------------------------------------
  // Walking the tree

  /** `children[q1]["children"][q2]…["children"][qn]`, None where a key or a `"children"` is missing. */
  function Walk(ch: seq<Node>, q: seq<string>): Option<Node>
    decreases |q|
  {
    if q == [] then None
    else
      match Get(ch, q[0])
      case None => None
      case Some(n) =>
        if |q| == 1 then Some(n)
        else if n.children.Absent? then None
        else Walk(n.children.nodes, q[1..])
  }

  /** Whether `p` is a prefix of `q`. */
  predicate IsPrefix(p: seq<string>, q: seq<string>)
  {
    |p| <= |q| && q[..|p|] == p
  }

  // ---------------------------------------------------------------------------
  // insert_container_item

  /** The file node `insert_container_item` writes for `parts` and `info`. */
  function FileNode(parts: seq<string>, info: ZipInfo, guess: string -> string): (n: Node)
    requires |parts| >= 1
    ensures n.key == parts[|parts| - 1] && n.id == JoinWith(parts, '/') && n.children.Absent?
    ensures n.kind == File(info.fileSize, info.compressSize, MimeType(guess(parts[|parts| - 1])), info.crc)
  {
    var name := parts[|parts| - 1];
    Node(name, JoinWith(parts, '/'), File(info.fileSize, info.compressSize, MimeType(guess(name)), info.crc), Absent)
  }

  /** The folder node created for a missing intermediate segment. */
  function FolderNode(part: string, path: string): Node
  {
    Node(part, path, Folder, Dict([]))
  }

  /** The toc root `{"children": top}`. */
  function Root(top: seq<Node>): Node
  {
    Node("", "", Folder, Dict(top))
  }

  /** `toc_pos.setdefault("children", {})` followed by creating the folder for `part` when absent. */
  function Descend(node: Node, part: string, path: string): seq<Node>
  {
    var ch := node.children.Entries();
    if Get(ch, part).None? then ch + [FolderNode(part, path)] else ch
  }

  lemma DescendGet(node: Node, part: string, path: string)
    ensures Get(Descend(node, part, path), part).Some?
    ensures Get(Descend(node, part, path), part) ==
      if Get(node.children.Entries(), part).None? then Some(FolderNode(part, path)) else Get(node.children.Entries(), part)
  {
    var ch := node.children.Entries();
    if Get(ch, part).None? {
      assert Descend(node, part, path) == Put(ch, part, FolderNode(part, path));
      GetPutSame(ch, part, FolderNode(part, path));
    }
  }

  /**
   * Insertion from segment `i` on, at the node `toc_pos` reached so far
   * and under the `current_path` reached so far; `leaf` is the file node.
   */
  function InsertAt(node: Node, parts: seq<string>, i: nat, path: string, leaf: Node): (r: Result<Node, TreeError>)
    requires i < |parts|
    ensures r.Success? ==> r.value.key == node.key && r.value.id == node.id && r.value.kind == node.kind && r.value.children.Dict?
    ensures r.Failure? ==> r.error == MissingChildren
    decreases |parts| - i
  {
    if i == |parts| - 1 then
      if node.children.Absent? then Failure(MissingChildren)
      else Success(node.(children := Dict(Put(node.children.nodes, parts[i], leaf))))
    else
      var p := OsJoin(path, parts[i]);
      var ch := Descend(node, parts[i], p);
      DescendGet(node, parts[i], p);
      match InsertAt(Get(ch, parts[i]).value, parts, i + 1, p, leaf)
      case Failure(e) => Failure(e)
      case Success(c) => Success(node.(children := Dict(Put(ch, parts[i], c))))
  }

  /** `insert_container_item(toc_root, parts, info)` on the top-level children of the toc. */
  function Insert(top: seq<Node>, parts: seq<string>, info: ZipInfo, guess: string -> string): (r: Result<seq<Node>, TreeError>)
    ensures r.Failure? ==> (r.error == EmptyPath <==> parts == [])
  {
    if parts == [] then Failure(EmptyPath)
    else
      match InsertAt(Root(top), parts, 0, "", FileNode(parts, info, guess))
      case Failure(e) => Failure(e)
      case Success(n) => Success(n.children.nodes)
  }

  /** A parent node, its children after `setdefault`, and the key the walk went down by. */
  datatype Frame = Frame(parent: Node, key: string)

  /** Writing a changed child back into its parent. */
  function PlugOne(f: Frame, child: Node): Node
  {
    f.parent.(children := Dict(Put(f.parent.children.Entries(), f.key, child)))
  }

  /** Writing a changed node back through every parent frame, innermost first. */
  function Plug(frames: seq<Frame>, focus: Node): Node
    decreases |frames|
  {
    if frames == [] then focus
    else Plug(frames[..|frames| - 1], PlugOne(frames[|frames| - 1], focus))
  }

  /** An insertion result seen through the parent frames. */
  function Lift(frames: seq<Frame>, r: Result<Node, TreeError>): Result<Node, TreeError>
  {
    match r
    case Failure(e) => Failure(e)
    case Success(n) => Success(Plug(frames, n))
  }

  lemma PlugSnoc(frames: seq<Frame>, f: Frame, focus: Node)
    ensures Plug(frames + [f], focus) == Plug(frames, PlugOne(f, focus))
  {
    assert (frames + [f])[..|frames|] == frames;
  }

  /** One pass of the loop keeps the insertion still to do, seen through the frames, unchanged. */
  lemma InsertStep(frames: seq<Frame>, node: Node, parts: seq<string>, i: nat, path: string, leaf: Node, p: string, ch: seq<Node>)
    requires i < |parts| - 1
    requires p == OsJoin(path, parts[i]) && ch == Descend(node, parts[i], p)
    ensures Get(ch, parts[i]).Some?
    ensures Lift(frames, InsertAt(node, parts, i, path, leaf)) ==
      Lift(frames + [Frame(node.(children := Dict(ch)), parts[i])], InsertAt(Get(ch, parts[i]).value, parts, i + 1, p, leaf))
  {
    DescendGet(node, parts[i], p);
    var f := Frame(node.(children := Dict(ch)), parts[i]);
    var inner := InsertAt(Get(ch, parts[i]).value, parts, i + 1, p, leaf);
    if inner.Success? {
      PlugSnoc(frames, f, inner.value);
    }
  }

  /**
   * `insert_container_item`: walks `parts[:-1]`, creating missing folders
   * under `setdefault("children", {})`, then writes the file node into the
   * last node's `"children"`. The in-place writes through `toc_pos` become
   * the frames of the parents walked through, written back at the end.
   */
  method InsertContainerItem(top: seq<Node>, parts: seq<string>, info: ZipInfo, guess: string -> string)
    returns (r: Result<seq<Node>, TreeError>)
    ensures r == Insert(top, parts, info, guess)
  {
    if parts == [] {
      return Failure(EmptyPath);
    }
    var leaf := FileNode(parts, info, guess);
    var frames, tocPos, currentPath := WalkParents(top, parts, leaf);
    InsertLast(frames, tocPos, parts, |parts| - 1, currentPath, leaf);
    if tocPos.children.Absent? {
      return Failure(MissingChildren);
    }
    tocPos := tocPos.(children := Dict(Put(tocPos.children.nodes, parts[|parts| - 1], leaf)));
    var root := Plug(frames, tocPos);
    r := Success(root.children.nodes);
  }

  /**
   * The loop of `insert_container_item` over `parts[:-1]`: it ends at the
   * node `toc_pos` and the `current_path` of the last parent, with the
   * insertion still to do there, seen through the parents walked through,
   * the same as the whole insertion from the root.
   */
  method WalkParents(top: seq<Node>, parts: seq<string>, leaf: Node)
    returns (frames: seq<Frame>, tocPos: Node, currentPath: string)
    requires parts != []
    ensures Lift(frames, InsertAt(tocPos, parts, |parts| - 1, currentPath, leaf)) == InsertAt(Root(top), parts, 0, "", leaf)
  {
    ghost var goal := InsertAt(Root(top), parts, 0, "", leaf);
    frames := [];
    tocPos := Root(top);
    currentPath := "";
    var i := 0;
    while i < |parts| - 1
      invariant 0 <= i <= |parts| - 1
      invariant goal == Lift(frames, InsertAt(tocPos, parts, i, currentPath, leaf))
      decreases |parts| - i
    {
      frames, tocPos, currentPath := DescendOne(frames, tocPos, parts, i, currentPath, leaf);
      i := i + 1;
    }
  }

  /**
   * One pass of that loop: extend `current_path`, `setdefault` the
   * `"children"`, add the folder when absent and step into it, keeping the
   * parent as a frame.
   */
  method DescendOne(frames: seq<Frame>, tocPos: Node, parts: seq<string>, i: nat, currentPath: string, leaf: Node)
    returns (frames': seq<Frame>, tocPos': Node, currentPath': string)
    requires i < |parts| - 1
    ensures Lift(frames', InsertAt(tocPos', parts, i + 1, currentPath', leaf)) == Lift(frames, InsertAt(tocPos, parts, i, currentPath, leaf))
  {
    var part := parts[i];
    currentPath' := OsJoin(currentPath, part);
    var children := tocPos.children.Entries();
    if Get(children, part).None? {
      children := children + [FolderNode(part, currentPath')];
    }
    InsertStep(frames, tocPos, parts, i, currentPath, leaf, currentPath', children);
    frames' := frames + [Frame(tocPos.(children := Dict(children)), part)];
    tocPos' := Get(children, part).value;
  }

  /** The final write, seen through the frames: it fails exactly where the last node has no `"children"`. */
  lemma InsertLast(frames: seq<Frame>, node: Node, parts: seq<string>, i: nat, path: string, leaf: Node)
    requires i == |parts| - 1
    ensures node.children.Absent? ==> Lift(frames, InsertAt(node, parts, i, path, leaf)) == Failure(MissingChildren)
    ensures node.children.Dict? ==>
      var n := node.(children := Dict(Put(node.children.nodes, parts[i], leaf)));
      Lift(frames, InsertAt(node, parts, i, path, leaf)) == Success(Plug(frames, n)) && Plug(frames, n).children.Dict?
  {
    if node.children.Dict? {
      PlugKeepsChildren(frames, node.(children := Dict(Put(node.children.nodes, parts[i], leaf))));
    }
  }

  lemma {:induction false} PlugKeepsChildren(frames: seq<Frame>, focus: Node)
    requires focus.children.Dict?
    ensures Plug(frames, focus).children.Dict?
    decreases |frames|
  {
    if frames != [] {
      PlugKeepsChildren(frames[..|frames| - 1], PlugOne(frames[|frames| - 1], focus));
    }
  }

  // ---------------------------------------------------------------------------
  // What an insertion does to the tree

  /** A walk into an empty dict finds nothing. */
  lemma WalkEmpty(q: seq<string>)
    ensures Walk([], q) == None
  {
  }

  /** A walk only depends on what the first key finds. */
  lemma WalkSameFirst(a: seq<Node>, b: seq<Node>, q: seq<string>)
    requires q != [] && Get(a, q[0]) == Get(b, q[0])
    ensures Walk(a, q) == Walk(b, q)
  {
  }

  /** Appending a folder for an absent key is storing it under that key. */
  lemma DescendIsPut(node: Node, part: string, path: string)
    ensures Get(node.children.Entries(), part).None? ==>
      Descend(node, part, path) == Put(node.children.Entries(), part, FolderNode(part, path))
  {
  }

  /** The walk along the inserted path ends at the file node. */
  lemma {:induction false} InsertAtReaches(node: Node, parts: seq<string>, i: nat, path: string, leaf: Node)
    requires i < |parts| && leaf.key == parts[|parts| - 1]
    requires InsertAt(node, parts, i, path, leaf).Success?
    ensures Walk(InsertAt(node, parts, i, path, leaf).value.children.nodes, parts[i..]) == Some(leaf)
    decreases |parts| - i
  {
    var x := parts[i];
    if i == |parts| - 1 {
      GetPutSame(node.children.nodes, x, leaf);
      assert parts[i..] == [x];
    } else {
      var p := OsJoin(path, x);
      var ch := Descend(node, x, p);
      DescendGet(node, x, p);
      var child := Get(ch, x).value;
      InsertAtReaches(child, parts, i + 1, p, leaf);
      var c := InsertAt(child, parts, i + 1, p, leaf).value;
      GetPutSame(ch, x, c);
      assert parts[i..][1..] == parts[i + 1..];
    }
  }

  /**
   * After `insert_container_item(root, parts, info)` succeeds, walking
   * `children[p1]…children[pn]` reaches the file node: key `pn`, id
   * `"/".join(parts)`, and the entry's sizes, MIME type and CRC.
   */
  lemma InsertReachesFile(top: seq<Node>, parts: seq<string>, info: ZipInfo, guess: string -> string)
    requires Insert(top, parts, info, guess).Success?
    ensures Walk(Insert(top, parts, info, guess).value, parts) == Some(FileNode(parts, info, guess))
  {
    InsertAtReaches(Root(top), parts, 0, "", FileNode(parts, info, guess));
    assert parts[0..] == parts;
  }

  /**
   * Every intermediate node of the inserted path exists and has a
   * `"children"` dict; one the walk did not reach before is a new folder
   * whose id is the joined path so far, one it reached keeps its key,
   * kind and id.
   */
  lemma {:induction false} InsertAtIntermediate(node: Node, parts: seq<string>, i: nat, path: string, leaf: Node, k: nat)
    requires i < k < |parts| && path == OsJoinAll(parts[..i])
    requires InsertAt(node, parts, i, path, leaf).Success?
    ensures var m := Walk(InsertAt(node, parts, i, path, leaf).value.children.nodes, parts[i..k]);
      var before := Walk(node.children.Entries(), parts[i..k]);
      m.Some? && m.value.key == parts[k - 1] && m.value.children.Dict? &&
      (before.None? ==> m.value.kind == Folder && m.value.id == OsJoinAll(parts[..k])) &&
      (before.Some? ==> m.value.kind == before.value.kind && m.value.id == before.value.id)
    decreases |parts| - i
  {
    var p := OsJoin(path, parts[i]);
    assert parts[..i + 1][..i] == parts[..i];
    assert p == OsJoinAll(parts[..i + 1]);
    if k == i + 1 {
      IntermediateFirst(node, parts, i, path, leaf);
    } else {
      DescendGet(node, parts[i], p);
      var child := Get(Descend(node, parts[i], p), parts[i]).value;
      IntermediateStep(node, parts, i, path, leaf, k);
      InsertAtIntermediate(child, parts, i + 1, p, leaf, k);
    }
  }

  /** The node an insertion walks through first: the existing one kept, or a new folder. */
  lemma IntermediateFirst(node: Node, parts: seq<string>, i: nat, path: string, leaf: Node)
    requires i + 1 < |parts| && InsertAt(node, parts, i, path, leaf).Success?
    ensures var m := Walk(InsertAt(node, parts, i, path, leaf).value.children.nodes, parts[i..i + 1]);
      var before := Walk(node.children.Entries(), parts[i..i + 1]);
      m.Some? && m.value.key == parts[i] && m.value.children.Dict? &&
      (before.None? ==> m.value.kind == Folder && m.value.id == OsJoin(path, parts[i])) &&
      (before.Some? ==> m.value.kind == before.value.kind && m.value.id == before.value.id)
  {
    var x := parts[i];
    var p := OsJoin(path, x);
    var ch := Descend(node, x, p);
    DescendGet(node, x, p);
    var child := Get(ch, x).value;
    var c := InsertAt(child, parts, i + 1, p, leaf).value;
    GetPutSame(ch, x, c);
    assert parts[i..i + 1] == [x];
  }

  /** Past the first segment, both walks continue in the node stepped into. */
  lemma IntermediateStep(node: Node, parts: seq<string>, i: nat, path: string, leaf: Node, k: nat)
    requires i + 1 < k < |parts| && InsertAt(node, parts, i, path, leaf).Success?
    ensures Get(Descend(node, parts[i], OsJoin(path, parts[i])), parts[i]).Some?
    ensures var p := OsJoin(path, parts[i]);
      var child := Get(Descend(node, parts[i], p), parts[i]).value;
      InsertAt(child, parts, i + 1, p, leaf).Success? &&
      Walk(InsertAt(node, parts, i, path, leaf).value.children.nodes, parts[i..k]) ==
        Walk(InsertAt(child, parts, i + 1, p, leaf).value.children.nodes, parts[i + 1..k]) &&
      Walk(node.children.Entries(), parts[i..k]) == Walk(child.children.Entries(), parts[i + 1..k])
  {
    var x := parts[i];
    var p := OsJoin(path, x);
    var ch := Descend(node, x, p);
    DescendGet(node, x, p);
    var child := Get(ch, x).value;
    var c := InsertAt(child, parts, i + 1, p, leaf).value;
    GetPutSame(ch, x, c);
    var q := parts[i..k];
    assert q[0] == x && q[1..] == parts[i + 1..k];
    WalkEmpty(parts[i + 1..k]);
  }

  /** The intermediate-node property for the whole toc. */
  lemma InsertIntermediate(top: seq<Node>, parts: seq<string>, info: ZipInfo, guess: string -> string, k: nat)
    requires 0 < k < |parts| && Insert(top, parts, info, guess).Success?
    ensures var m := Walk(Insert(top, parts, info, guess).value, parts[..k]);
      var before := Walk(top, parts[..k]);
      m.Some? && m.value.key == parts[k - 1] && m.value.children.Dict? &&
      (before.None? ==> m.value.kind == Folder && m.value.id == OsJoinAll(parts[..k])) &&
      (before.Some? ==> m.value.kind == before.value.kind && m.value.id == before.value.id)
  {
    assert parts[..0] == [];
    InsertAtIntermediate(Root(top), parts, 0, "", FileNode(parts, info, guess), k);
    assert parts[0..k] == parts[..k];
  }

  /** Paths off the inserted one walk to the same place as before. */
  lemma {:induction false} InsertAtKeepsOthers(node: Node, parts: seq<string>, i: nat, path: string, leaf: Node, q: seq<string>)
    requires i < |parts| && leaf.key == parts[|parts| - 1]
    requires InsertAt(node, parts, i, path, leaf).Success?
    requires !IsPrefix(q, parts[i..]) && !IsPrefix(parts[i..], q)
    ensures Walk(InsertAt(node, parts, i, path, leaf).value.children.nodes, q) == Walk(node.children.Entries(), q)
    decreases |parts| - i
  {
    var x := parts[i];
    var entries := node.children.Entries();
    PrefixFacts(q, parts[i..]);
    PrefixFacts(parts[i..], q);
    if i == |parts| - 1 {
      assert parts[i..] == [x];
      GetPutOther(entries, x, leaf, q[0]);
      WalkSameFirst(Put(entries, x, leaf), entries, q);
    } else {
      var p := OsJoin(path, x);
      var ch := Descend(node, x, p);
      DescendGet(node, x, p);
      DescendIsPut(node, x, p);
      var child := Get(ch, x).value;
      var c := InsertAt(child, parts, i + 1, p, leaf).value;
      var after := Put(ch, x, c);
      if q[0] != x {
        GetPutOther(ch, x, c, q[0]);
        if Get(entries, x).None? {
          GetPutOther(entries, x, FolderNode(x, p), q[0]);
        }
        WalkSameFirst(after, entries, q);
      } else {
        GetPutSame(ch, x, c);
        assert parts[i..][1..] == parts[i + 1..];
        InsertAtKeepsOthers(child, parts, i + 1, p, leaf, q[1..]);
        WalkEmpty(q[1..]);
      }
    }
  }

  /** Prefixes of sequences with a common head are prefixes of their tails. */
  lemma PrefixFacts(q: seq<string>, r: seq<string>)
    ensures q == [] ==> IsPrefix(q, r)
    ensures |q| == 1 && |r| >= 1 && q[0] == r[0] ==> IsPrefix(q, r)
    ensures |q| >= 1 && |r| >= 1 && q[0] == r[0] ==> (IsPrefix(q[1..], r[1..]) <==> IsPrefix(q, r))
  {
    if |q| >= 1 && |r| >= 1 && q[0] == r[0] {
      if IsPrefix(q[1..], r[1..]) {
        assert q == [q[0]] + q[1..] && r[..|q|] == [r[0]] + r[1..][..|q| - 1];
      }
      if IsPrefix(q, r) {
        assert r[1..][..|q| - 1] == r[..|q|][1..];
      }
    }
  }

  /** Insertion changes nothing the inserted path does not pass through or extend. */
  lemma InsertKeepsOthers(top: seq<Node>, parts: seq<string>, info: ZipInfo, guess: string -> string, q: seq<string>)
    requires Insert(top, parts, info, guess).Success?
    requires !IsPrefix(q, parts) && !IsPrefix(parts, q)
    ensures Walk(Insert(top, parts, info, guess).value, q) == Walk(top, q)
  {
    assert parts[0..] == parts;
    InsertAtKeepsOthers(Root(top), parts, 0, "", FileNode(parts, info, guess), q);
  }

  /** Inserting a path again is inserting it once with the second entry. */
  lemma {:induction false} InsertAtTwice(node: Node, parts: seq<string>, i: nat, path: string, a: Node, b: Node)
    requires i < |parts| && a.key == parts[|parts| - 1]
    requires InsertAt(node, parts, i, path, a).Success?
    ensures InsertAt(InsertAt(node, parts, i, path, a).value, parts, i, path, b) == InsertAt(node, parts, i, path, b)
    decreases |parts| - i
  {
    var x := parts[i];
    if i == |parts| - 1 {
      PutPut(node.children.nodes, x, a, b);
    } else {
      var p := OsJoin(path, x);
      var ch := Descend(node, x, p);
      DescendGet(node, x, p);
      var child := Get(ch, x).value;
      var c := InsertAt(child, parts, i + 1, p, a).value;
      var n1 := InsertAt(node, parts, i, path, a).value;
      GetPutSame(ch, x, c);
      assert Descend(n1, x, p) == Put(ch, x, c);
      InsertAtTwice(child, parts, i + 1, p, a, b);
      var r := InsertAt(child, parts, i + 1, p, b);
      if r.Success? {
        PutPut(ch, x, c, r.value);
      }
    }
  }

  /**
   * Inserting the same path twice leaves the toc as inserting it once with
   * the later entry: only the final slot is rewritten, in place.
   */
  lemma InsertTwice(top: seq<Node>, parts: seq<string>, first: ZipInfo, second: ZipInfo, guess: string -> string)
    requires Insert(top, parts, first, guess).Success?
    ensures Insert(Insert(top, parts, first, guess).value, parts, second, guess) == Insert(top, parts, second, guess)
  {
    var n := InsertAt(Root(top), parts, 0, "", FileNode(parts, first, guess)).value;
    assert Root(n.children.nodes) == n;
    InsertAtTwice(Root(top), parts, 0, "", FileNode(parts, first, guess), FileNode(parts, second, guess));
  }

  /** When the walk down to the last intermediate node finds no `"children"`, insertion raises. */
  lemma {:induction false} InsertAtFails(node: Node, parts: seq<string>, i: nat, path: string, leaf: Node)
    requires i < |parts|
    ensures InsertAt(node, parts, i, path, leaf).Failure? <==>
      if i == |parts| - 1 then node.children.Absent?
      else
        var w := Walk(node.children.Entries(), parts[i..|parts| - 1]);
        w.Some? && w.value.children.Absent?
    decreases |parts| - i
  {
    if i < |parts| - 1 {
      var x := parts[i];
      var p := OsJoin(path, x);
      var ch := Descend(node, x, p);
      DescendGet(node, x, p);
      var child := Get(ch, x).value;
      InsertAtFails(child, parts, i + 1, p, leaf);
      var q := parts[i..|parts| - 1];
      assert q[0] == x;
      if i + 1 < |parts| - 1 {
        assert q[1..] == parts[i + 1..|parts| - 1];
        WalkEmpty(q[1..]);
      } else {
        assert q == [x];
      }
    }
  }

  /**
   * `insert_container_item` raises exactly when there are no parts, or
   * when the node it reaches for the last intermediate segment is one
   * without `"children"` (a file node of an earlier entry).
   */
  lemma InsertFails(top: seq<Node>, parts: seq<string>, info: ZipInfo, guess: string -> string)
    ensures Insert(top, parts, info, guess) == Failure(EmptyPath) <==> parts == []
    ensures Insert(top, parts, info, guess) == Failure(MissingChildren) <==>
      |parts| >= 2 && Walk(top, parts[..|parts| - 1]).Some? && Walk(top, parts[..|parts| - 1]).value.children.Absent?
  {
    if parts != [] {
      InsertAtFails(Root(top), parts, 0, "", FileNode(parts, info, guess));
      assert parts[0..|parts| - 1] == parts[..|parts| - 1];
    }
  }

  /** Insertion keeps every dict of the tree free of repeated keys. */
  lemma {:induction false} InsertAtUnique(node: Node, parts: seq<string>, i: nat, path: string, leaf: Node)
    requires i < |parts| && leaf.key == parts[|parts| - 1] && leaf.children.Absent?
    requires UniqueBelow(node) && InsertAt(node, parts, i, path, leaf).Success?
    ensures UniqueBelow(InsertAt(node, parts, i, path, leaf).value)
    decreases |parts| - i
  {
    var x := parts[i];
    var entries := node.children.Entries();
    assert UniqueTree(entries);
    if i == |parts| - 1 {
      UniqueTreePut(entries, x, leaf);
    } else {
      var p := OsJoin(path, x);
      var ch := Descend(node, x, p);
      DescendGet(node, x, p);
      DescendIsPut(node, x, p);
      if Get(entries, x).None? {
        UniqueTreePut(entries, x, FolderNode(x, p));
      }
      assert UniqueTree(ch);
      var child := Get(ch, x).value;
      GetIn(ch, x);
      InsertAtUnique(child, parts, i + 1, p, leaf);
      var c := InsertAt(child, parts, i + 1, p, leaf).value;
      UniqueTreePut(ch, x, c);
    }
  }

  /** A toc without repeated keys keeps that property through an insertion. */
  lemma InsertUnique(top: seq<Node>, parts: seq<string>, info: ZipInfo, guess: string -> string)
    requires UniqueTree(top) && Insert(top, parts, info, guess).Success?
    ensures UniqueTree(Insert(top, parts, info, guess).value)
  {
    InsertAtUnique(Root(top), parts, 0, "", FileNode(parts, info, guess));
  }
}
