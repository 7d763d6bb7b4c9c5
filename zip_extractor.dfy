/**
 * The ZIP extractor: it answers listing requests from the cached listing,
 * finds the node of a path in the listing tree, and turns a found node
 * into a download: a single entry, or a folder re-packed as a new ZIP
 * whose member names are relative to the folder.
 */
module ZipExtractor {
  import opened Wrappers
  import opened LiveStreams
  import opened RecordingStreams
  import opened ListingTree
  import opened Paths
  import opened ZipProcessor

  // ---------------------------------------------------------------------------
  // _find_container_item

  /**
   * `_find_container_item(items, parts)`: the first sibling whose key is
   * the first part; for more parts, its children are searched when it has
   * a non-empty `"children"` dict, and otherwise the scan goes on with the
   * later siblings.
   */
  function Find(items: seq<Node>, parts: seq<string>): (r: Option<Node>)
    ensures r.Some? ==> parts != [] && r.value.key == parts[|parts| - 1]
    decreases |parts|, |items| + 1
  {
    if parts == [] then None else FindFrom(items, parts, 0)
  }

  /** The sibling scan of `Find` from position `j` on. */
  function FindFrom(items: seq<Node>, parts: seq<string>, j: nat): (r: Option<Node>)
    requires parts != []
    ensures r.Some? ==> r.value.key == parts[|parts| - 1]
    decreases |parts|, |items| - j
  {
    if j >= |items| then None
    else if items[j].key != parts[0] then FindFrom(items, parts, j + 1)
    else if |parts| == 1 then Some(items[j])
    else if items[j].children.Dict? && items[j].children.nodes != [] then Find(items[j].children.nodes, parts[1..])
    else FindFrom(items, parts, j + 1)
  }

  /** A scan past every sibling keyed by the first part finds nothing. */
  lemma {:induction false} FindFromNoMatch(items: seq<Node>, parts: seq<string>, j: nat)
    requires parts != []
    requires forall i :: j <= i < |items| ==> items[i].key != parts[0]
    ensures FindFrom(items, parts, j) == None
    decreases |items| - j
  {
    if j < |items| {
      FindFromNoMatch(items, parts, j + 1);
    }
  }

  /** The scan passes over siblings with other keys. */
  lemma {:induction false} FindFromSkip(items: seq<Node>, parts: seq<string>, j: nat, i: nat)
    requires parts != [] && j <= i < |items|
    requires forall m :: j <= m < i ==> items[m].key != parts[0]
    ensures FindFrom(items, parts, j) == FindFrom(items, parts, i)
    decreases i - j
  {
    if j < i {
      FindFromSkip(items, parts, j + 1, i);
    }
  }

  /** `_find_container_item` of no parts, or of a first part no sibling has, is None. */
  lemma FindMissing(items: seq<Node>, parts: seq<string>)
    requires parts == [] || forall i :: 0 <= i < |items| ==> items[i].key != parts[0]
    ensures Find(items, parts) == None
  {
    if parts != [] {
      FindFromNoMatch(items, parts, 0);
    }
  }

  /**
   * In a tree without repeated keys, as every parsed listing is,
   * `_find_container_item` is the plain walk `children[p1]…["children"][pn]`.
   */
  lemma {:induction false} FindIsWalk(items: seq<Node>, parts: seq<string>)
    requires UniqueTree(items)
    ensures Find(items, parts) == Walk(items, parts)
    decreases |parts|
  {
    if parts != [] {
      var k := parts[0];
      match IndexOf(items, k)
      case None =>
        FindFromNoMatch(items, parts, 0);
      case Some(i) =>
        FindFromSkip(items, parts, 0, i);
        var n := items[i];
        assert n in items;
        if |parts| > 1 {
          if n.children.Dict? && n.children.nodes != [] {
            FindIsWalk(n.children.nodes, parts[1..]);
          } else {
            FindFromNoMatch(items, parts, i + 1);
            WalkEmpty(parts[1..]);
          }
        }
    }
  }

  /** A walk that reaches a node without children, or with none, before the last part ends there. */
  lemma {:induction false} WalkStopsAtLeaf(items: seq<Node>, parts: seq<string>, k: nat)
    requires 0 < k < |parts|
    requires Walk(items, parts[..k]).Some? && Walk(items, parts[..k]).value.children.Entries() == []
    ensures Walk(items, parts) == None
    decreases k
  {
    assert parts[..k][0] == parts[0];
    if k > 1 {
      var n := Get(items, parts[0]).value;
      assert parts[..k][1..] == parts[1..][..k - 1];
      WalkStopsAtLeaf(n.children.nodes, parts[1..], k - 1);
    } else {
      WalkEmpty(parts[1..]);
    }
  }

  /**
   * `_find_container_item` returns None when a non-final segment's node
   * has a missing or empty `"children"`.
   */
  lemma FindStopsAtLeaf(items: seq<Node>, parts: seq<string>, k: nat)
    requires UniqueTree(items) && 0 < k < |parts|
    requires Walk(items, parts[..k]).Some? && Walk(items, parts[..k]).value.children.Entries() == []
    ensures Find(items, parts) == None
  {
    FindIsWalk(items, parts);
    WalkStopsAtLeaf(items, parts, k);
  }

  /**
   * Round trip: the parts that `insert_container_item` put into a toc
   * without repeated keys are found again, at the file node written for them.
   */
  lemma FindInserted(top: seq<Node>, parts: seq<string>, info: ZipInfo, guess: string -> string)
    requires UniqueTree(top) && Insert(top, parts, info, guess).Success?
    ensures Find(Insert(top, parts, info, guess).value, parts) == Some(FileNode(parts, info, guess))
  {
    InsertUnique(top, parts, info, guess);
    InsertReachesFile(top, parts, info, guess);
    FindIsWalk(Insert(top, parts, info, guess).value, parts);
  }

  /**
   * With repeated keys the scan goes on past a same-keyed sibling that has
   * no children, which the plain walk does not.
   */
  lemma FindPassesChildlessSibling()
    ensures var leaf := Node("y", "x/y", Folder, Dict([]));
      var items := [Node("x", "x", Folder, Dict([])), Node("x", "x", Folder, Dict([leaf]))];
      Find(items, ["x", "y"]) == Some(leaf) && Walk(items, ["x", "y"]) == None
  {
    var leaf := Node("y", "x/y", Folder, Dict([]));
    var items := [Node("x", "x", Folder, Dict([])), Node("x", "x", Folder, Dict([leaf]))];
    assert ["x", "y"][1..] == ["y"];
    assert FindFrom([leaf], ["y"], 0) == Some(leaf);
    assert Find(items[1].children.nodes, ["y"]) == Some(leaf);
    assert FindFrom(items, ["x", "y"], 1) == Some(leaf);
    assert FindFrom(items, ["x", "y"], 0) == Some(leaf);
    assert IndexOf(items, "x") == Some(0);
    assert Get(items, "x") == Some(items[0]);
    WalkEmpty(["y"]);
  }

  // ---------------------------------------------------------------------------
  // list and the lookup of `extract` / `open`

  /** A listing as clients see it: without the cached byte range. */
  datatype PublicListing = PublicListing(children: seq<Node>, total: nat, truncated: bool)

  /** `list(file_record)`: the stored listing without `"toc"`, or None for `{}`. */
  function List(listings: map<string, Listing>, key: string): (r: Option<PublicListing>)
    ensures r.None? <==> ListingKey(key) !in listings
  {
    if ListingKey(key) in listings then
      var l := listings[ListingKey(key)];
      Some(PublicListing(l.children, l.total, l.truncated))
    else None
  }

  /** Distinct files have distinct listing keys. */
  lemma ListingKeyInjective(a: string, b: string)
    requires ListingKey(a) == ListingKey(b)
    ensures a == b
  {
    assert a == ListingKey(a)[..|a|] && b == ListingKey(b)[..|b|];
  }

  /**
   * Storing a file's listing makes `list` show it, without its byte range,
   * and leaves what `list` shows for every other file as it was.
   */
  lemma ListAfterStore(listings: map<string, Listing>, key: string, l: Listing, other: string)
    ensures List(listings[ListingKey(key) := l], key) == Some(PublicListing(l.children, l.total, l.truncated))
    ensures other != key ==> List(listings[ListingKey(key) := l], other) == List(listings, other)
  {
    if other != key && ListingKey(other) == ListingKey(key) {
      ListingKeyInjective(other, key);
    }
  }

  datatype LookupError = ListingNotFound | PathNotFound

  /**
   * `_get_container_item_metadata_and_toc(file_record, path)`: the node of
   * `path` in the file's listing and the listing's toc; FileNotFoundError
   * when there is no listing or no such node.
   */
  function Lookup(listings: map<string, Listing>, key: string, path: string): (r: Result<(Node, TocEntry), LookupError>)
    ensures r == Failure(ListingNotFound) <==> ListingKey(key) !in listings
    ensures ListingKey(key) in listings ==>
      (r == Failure(PathNotFound) <==> Find(listings[ListingKey(key)].children, PathParts(path)).None?)
    ensures r.Success? ==> r.value.1 == listings[ListingKey(key)].toc
  {
    var parts := PathParts(path);
    if ListingKey(key) !in listings then Failure(ListingNotFound)
    else
      var listing := listings[ListingKey(key)];
      match Find(listing.children, parts)
      case None => Failure(PathNotFound)
      case Some(item) => Success((item, listing.toc))
  }

  /** In a listing without repeated keys, a lookup succeeds exactly for the paths the tree walks to. */
  lemma LookupIsWalk(listings: map<string, Listing>, key: string, path: string)
    requires ListingKey(key) in listings && UniqueTree(listings[ListingKey(key)].children)
    ensures var r := Lookup(listings, key, path);
      var w := Walk(listings[ListingKey(key)].children, PathParts(path));
      (r.Success? <==> w.Some?) && (r.Success? ==> r.value.0 == w.value)
  {
    FindIsWalk(listings[ListingKey(key)].children, PathParts(path));
  }

  /** The ReplyStream arguments that `extract` and `open` take from a toc. */
  datatype ReplyParams = ReplyParams(headerPos: nat, header: seq<byte>, fileSize: nat)

  /**
   * `toc.get("min_offset", 0)`, the decoded `toc.get("content")` and
   * `toc.get("max_offset", 0)`; `NoRange` stands for a listing without a
   * `"toc"`, whose defaults give an empty header at 0 of a 0-byte file.
   */
  function ParamsOf(toc: TocEntry): (p: ReplyParams)
    ensures toc.NoRange? ==> p == ReplyParams(0, [], 0)
    ensures toc.Range? ==> p.headerPos == toc.minOffset && p.header == toc.content && p.fileSize == toc.maxOffset
  {
    match toc
    case NoRange => ReplyParams(0, [], 0)
    case Range(content, minOffset, maxOffset) => ReplyParams(minOffset, content, maxOffset)
  }

  // ---------------------------------------------------------------------------
  // StreamedZipContainerItem: _collect_files, the arcnames and send_file

  /**
   * `_collect_files(node)`: a file node is itself; otherwise the files
   * among its children, each folder child replaced by what it collects,
   * in `children` order.
   */
  function Collected(n: Node): (files: seq<Node>)
    ensures forall i :: 0 <= i < |files| ==> files[i].kind.File?
    decreases n, 1
  {
    if n.kind.File? then [n]
    else
      match n.children
      case Absent => []
      case Dict(ch) => CollectedFrom(n, ch, 0)
  }

  /** What the children `ch[j..]` of `n` contribute. */
  function CollectedFrom(n: Node, ch: seq<Node>, j: nat): (files: seq<Node>)
    requires n.children == Dict(ch)
    ensures forall i :: 0 <= i < |files| ==> files[i].kind.File?
    decreases n, 0, |ch| - j
  {
    if j >= |ch| then []
    else
      assert ch[j] in ch;
      Collected(ch[j]) + CollectedFrom(n, ch, j + 1)
  }

  /** The loop of `_collect_files`, recursing into folder children. */
  method CollectFiles(node: Node) returns (files: seq<Node>)
    ensures files == Collected(node)
    decreases node
  {
    files := [];
    if node.kind.File? {
      return [node];
    }
    match node.children {
      case Absent =>
      case Dict(ch) =>
        var i := 0;
        while i < |ch|
          invariant 0 <= i <= |ch|
          invariant Collected(node) == files + CollectedFrom(node, ch, i)
          decreases |ch| - i
        {
          var subItem := ch[i];
          assert subItem in ch;
          if subItem.kind.File? {
            files := files + [subItem];
          } else {
            var sub := CollectFiles(subItem);
            files := files + sub;
          }
          i := i + 1;
        }
    }
  }

  /** Walking down through folders only, as `_collect_files` descends. */
  function FolderWalk(ch: seq<Node>, q: seq<string>): Option<Node>
    decreases |q|
  {
    if q == [] then None
    else
      match Get(ch, q[0])
      case None => None
      case Some(m) =>
        if |q| == 1 then Some(m)
        else if !m.kind.Folder? || m.children.Absent? then None
        else FolderWalk(m.children.nodes, q[1..])
  }

  lemma {:induction false} CollectedFromHas(n: Node, ch: seq<Node>, j: nat, i: nat, x: Node)
    requires n.children == Dict(ch) && j <= i < |ch| && x in Collected(ch[i])
    ensures x in CollectedFrom(n, ch, j)
    decreases i - j
  {
    if j < i {
      CollectedFromHas(n, ch, j + 1, i, x);
    }
  }

  /** Every file reached from a folder through folders only is collected. */
  lemma {:induction false} CollectedComplete(n: Node, q: seq<string>)
    requires n.kind.Folder?
    requires FolderWalk(n.children.Entries(), q).Some? && FolderWalk(n.children.Entries(), q).value.kind.File?
    ensures FolderWalk(n.children.Entries(), q).value in Collected(n)
    decreases |q|
  {
    var ch := n.children.nodes;
    var i := IndexOf(ch, q[0]).value;
    var m := ch[i];
    if |q| > 1 {
      CollectedComplete(m, q[1..]);
    }
    CollectedFromHas(n, ch, 0, i, FolderWalk(ch, q).value);
  }

  /** Every collected node sits at the end of a walk through folders. */
  lemma {:induction false} CollectedSound(n: Node, x: Node)
    requires UniqueBelow(n) && n.kind.Folder? && x in Collected(n)
    ensures exists q :: FolderWalk(n.children.Entries(), q) == Some(x)
    decreases n, 1
  {
    match n.children
    case Dict(ch) =>
      CollectedFromSound(n, ch, 0, x);
      var q :| FolderWalk(ch, q) == Some(x);
      assert FolderWalk(n.children.Entries(), q) == Some(x);
  }

  lemma {:induction false} CollectedFromSound(n: Node, ch: seq<Node>, j: nat, x: Node)
    requires UniqueBelow(n) && n.kind.Folder? && n.children == Dict(ch) && x in CollectedFrom(n, ch, j)
    ensures exists q :: FolderWalk(ch, q) == Some(x)
    decreases n, 0, |ch| - j
  {
    var c := ch[j];
    assert c in ch;
    if x in Collected(c) {
      assert IndexOf(ch, c.key) == Some(j);
      if c.kind.File? {
        assert FolderWalk(ch, [c.key]) == Some(x);
      } else {
        CollectedSound(c, x);
        var q :| FolderWalk(c.children.Entries(), q) == Some(x);
        assert FolderWalk(ch, [c.key] + q) == Some(x) by {
          assert ([c.key] + q)[1..] == q;
        }
      }
    } else {
      CollectedFromSound(n, ch, j + 1, x);
    }
  }

  /**
   * The arcname `_send_folder` gives a file of the folder `dirId`: the
   * rest of the file id after `dirId + "/"`, or the whole id otherwise.
   */
  function RelativeArcname(full: string, dirId: string): (r: string)
    ensures |dirId| + 1 <= |full| && full[..|dirId| + 1] == dirId + "/" ==> dirId + "/" + r == full
    ensures !(|dirId| + 1 <= |full| && full[..|dirId| + 1] == dirId + "/") ==> r == full
  {
    if |dirId| + 1 <= |full| && full[..|dirId| + 1] == dirId + "/" then full[|dirId| + 1..] else full
  }

  /** `"/".join(a + b)` is the joins of both around one slash. */
  lemma {:induction false} JoinAppend(a: seq<string>, b: seq<string>)
    requires |a| >= 1 && |b| >= 1
    ensures JoinWith(a + b, '/') == JoinWith(a, '/') + "/" + JoinWith(b, '/')
  {
    if |a| == 1 {
      assert (a + b)[1..] == b;
      if |b| == 1 {
        assert JoinWith(b, '/') == b[0];
      }
    } else {
      JoinAppend(a[1..], b);
      assert (a + b)[1..] == a[1..] + b;
    }
  }

  /**
   * For a file inserted under clean relative segments, the arcname inside
   * any of its folders is the path below that folder: the folder's id is
   * `p1/…/pk` and the file's `p1/…/pn`.
   */
  lemma ArcnameBelowFolder(parts: seq<string>, k: nat)
    requires 0 < k < |parts|
    requires forall i :: 0 <= i < |parts| ==> Segment(parts[i])
    ensures RelativeArcname(JoinWith(parts, '/'), OsJoinAll(parts[..k])) == JoinWith(parts[k..], '/')
  {
    OsJoinAllRelative(parts[..k]);
    assert parts[..k] + parts[k..] == parts;
    JoinAppend(parts[..k], parts[k..]);
    ArcnameOfChild(JoinWith(parts[..k], '/'), JoinWith(parts[k..], '/'));
  }

  /** One member of a re-packed folder: the entry read and the name it gets. */
  datatype Member = Member(source: string, arcname: string)

  /** The members `_send_folder` adds for the collected `files` of the folder `dirId`. */
  function Members(dirId: string, files: seq<Node>): (ms: seq<Member>)
    ensures |ms| == |files|
    ensures forall i :: 0 <= i < |files| ==> ms[i] == Member(files[i].id, RelativeArcname(files[i].id, dirId))
  {
    if files == [] then []
    else [Member(files[0].id, RelativeArcname(files[0].id, dirId))] + Members(dirId, files[1..])
  }

  /** What `send_file` answers with. */
  datatype Download =
    | ItemDownload(filename: string, length: nat, mime: string, entry: string)
    | FolderDownload(zipName: string, members: seq<Member>)

  /**
   * `send_file`: a folder becomes `"<key>.zip"` holding its collected
   * files under their relative names; anything else is streamed as the
   * entry `id`, with the node's key as file name, its size as length and
   * its MIME type.
   */
  method SendFile(item: Node) returns (d: Download)
    ensures item.kind.Folder? <==> d.FolderDownload?
    ensures item.kind.File? ==> d == ItemDownload(item.key, item.kind.size, item.kind.mimeType, item.id)
    ensures item.kind.Folder? ==> d.zipName == item.key + ".zip" && d.members == Members(item.id, Collected(item))
  {
    if item.kind.Folder? {
      var zipFilename := item.key + ".zip";
      var filesToAdd := CollectFiles(item);
      var members: seq<Member> := [];
      var i := 0;
      while i < |filesToAdd|
        invariant 0 <= i <= |filesToAdd|
        invariant members == Members(item.id, filesToAdd[..i])
        decreases |filesToAdd| - i
      {
        var fullPath := filesToAdd[i].id;
        var relativePath := fullPath;
        if |item.id| + 1 <= |fullPath| && fullPath[..|item.id| + 1] == item.id + "/" {
          relativePath := fullPath[|item.id| + 1..];
        }
        MembersSnoc(item.id, filesToAdd[..i], filesToAdd[i]);
        assert filesToAdd[..i + 1] == filesToAdd[..i] + [filesToAdd[i]];
        members := members + [Member(fullPath, relativePath)];
        i := i + 1;
      }
      assert filesToAdd[..i] == filesToAdd;
      d := FolderDownload(zipFilename, members);
    } else {
      d := ItemDownload(item.key, item.kind.size, item.kind.mimeType, item.id);
    }
  }

  lemma MembersSnoc(dirId: string, files: seq<Node>, f: Node)
    ensures Members(dirId, files + [f]) == Members(dirId, files) + [Member(f.id, RelativeArcname(f.id, dirId))]
  {
  }

  /**
   * A folder holding two files is re-packed with the two file names as
   * member names, in `children` order.
   */
  lemma FolderOfTwoFiles(dir: string, key: string, name1: string, name2: string, k1: Kind, k2: Kind)
    requires k1.File? && k2.File?
    ensures var f1 := Node(name1, dir + "/" + name1, k1, Absent);
      var f2 := Node(name2, dir + "/" + name2, k2, Absent);
      Members(dir, Collected(Node(key, dir, Folder, Dict([f1, f2])))) ==
        [Member(f1.id, name1), Member(f2.id, name2)]
  {
    var f1 := Node(name1, dir + "/" + name1, k1, Absent);
    var f2 := Node(name2, dir + "/" + name2, k2, Absent);
    var folder := Node(key, dir, Folder, Dict([f1, f2]));
    assert CollectedFrom(folder, [f1, f2], 2) == [];
    assert CollectedFrom(folder, [f1, f2], 1) == [f2];
    assert CollectedFrom(folder, [f1, f2], 0) == [f1, f2];
    ArcnameOfChild(dir, name1);
    ArcnameOfChild(dir, name2);
  }

  /**
   * The folder download of the test archive: the folder
   * `test_directory_zip/directory1` with two files is re-packed with
   * member names `directory1-file1.txt` and `directory1-file2.txt`.
   */
  lemma FolderDownloadNames(k1: Kind, k2: Kind)
    requires k1.File? && k2.File?
    ensures var dir := "test_directory_zip/directory1";
      var f1 := Node("directory1-file1.txt", dir + "/" + "directory1-file1.txt", k1, Absent);
      var f2 := Node("directory1-file2.txt", dir + "/" + "directory1-file2.txt", k2, Absent);
      var ms := Members(dir, Collected(Node("directory1", dir, Folder, Dict([f1, f2]))));
      |ms| == 2 && ms[0].arcname == "directory1-file1.txt" && ms[1].arcname == "directory1-file2.txt"
  {
    FolderOfTwoFiles("test_directory_zip/directory1", "directory1", "directory1-file1.txt", "directory1-file2.txt", k1, k2);
  }

  /** A child's id is its folder's id, a slash and its name; the arcname is the name. */
  lemma ArcnameOfChild(dirId: string, name: string)
    ensures RelativeArcname(dirId + "/" + name, dirId) == name
  {
    assert (dirId + "/" + name)[..|dirId| + 1] == dirId + "/";
    assert (dirId + "/" + name)[|dirId| + 1..] == name;
  }
}
