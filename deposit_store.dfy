/**
 * `preloadFiles`: the deposit form's initial file state. Each file entry
 * of the record is given its defaults and its upload state, and the
 * entries are gathered into an object keyed by file name.
 */
module DepositStore {
  import opened Wrappers

  type Links = map<string, string>

  /**
   * A JSON field where `null` and a missing field behave differently:
   * lodash's `_get` falls back to its default only for a missing one, and a
   * property lookup by `null` uses the key `"null"`.
   */
  datatype Field<T> = Absent | Null | Present(value: T)

  /**
   * A file entry as the record serialises it. For `size`, `checksum` and
   * `links` only `x || default` is applied, under which `null` and a missing
   * field agree, so None stands for both; `status` keeps the difference.
   */
  datatype FileEntry = FileEntry(key: string, size: Option<int>, checksum: Option<string>, links: Option<Links>, status: Field<string>)

  /** The files part of the record: its links (None for null or missing) and its entries. */
  datatype Files = Files(links: Option<Links>, entries: Field<seq<FileEntry>>)

  /** `_get(_files, "entries", [])` gives `null` for `entries: null`, and `.map` on it throws a TypeError. */
  datatype PreloadError = EntriesNotArray

  /** One file of the form state; `status` None stands for `undefined`. */
  datatype FileState = FileState(progressPercentage: nat, name: string, size: int, checksum: string, links: Links, status: Option<string>)

  datatype Preloaded = Preloaded(links: Links, entries: map<string, FileState>)

  /** `obj[key]` on the `UploadState` table: undefined for a key it lacks. */
  function Lookup(uploadState: map<string, string>, key: string): (r: Option<string>)
    ensures r.Some? <==> key in uploadState
    ensures r.Some? ==> r.value == uploadState[key]
  {
    if key in uploadState then Some(uploadState[key]) else None
  }

  /** `x || 0`: zero for a missing size; a present zero is zero as well. */
  function SizeOr(size: Option<int>): (n: int)
    ensures size.Some? ==> n == size.value
    ensures size.None? ==> n == 0
  {
    match size
    case None => 0
    case Some(s) => s
  }

  /** The property key a status value is converted to for a lookup. */
  function StatusKey(status: Field<string>): string
  {
    match status
    case Absent => "undefined"
    case Null => "null"
    case Present(v) => v
  }

  /**
   * The map step: `name = key`, `size || 0`, `checksum || ""`, `links || {}`,
   * `status = UploadState[status]` (a missing status is looked up as
   * `"undefined"`, a null one as `"null"`), and a progress of 100 exactly
   * when the status is `UploadState.completed`.
   */
  function StateOf(uploadState: map<string, string>, f: FileEntry): (s: FileState)
    ensures s.name == f.key
    ensures s.size == SizeOr(f.size)
    ensures s.checksum == f.checksum.GetOr("")
    ensures s.links == f.links.GetOr(map[])
    ensures f.status.Absent? ==> s.status == Lookup(uploadState, "undefined")
    ensures f.status.Null? ==> s.status == Lookup(uploadState, "null")
    ensures f.status.Present? ==> s.status == Lookup(uploadState, f.status.value)
    ensures s.progressPercentage == 100 <==> s.status == Lookup(uploadState, "completed")
    ensures s.progressPercentage == 0 || s.progressPercentage == 100
  {
    var status := Lookup(uploadState, StatusKey(f.status));
    FileState(
      if status == Lookup(uploadState, "completed") then 100 else 0,
      f.key, SizeOr(f.size), f.checksum.GetOr(""), f.links.GetOr(map[]), status)
  }

  /** `entries.map(...)`: the state of every entry, in order. */
  function States(uploadState: map<string, string>, entries: seq<FileEntry>): (ss: seq<FileState>)
    ensures |ss| == |entries|
    ensures forall i :: 0 <= i < |entries| ==> ss[i] == StateOf(uploadState, entries[i])
  {
    if entries == [] then [] else [StateOf(uploadState, entries[0])] + States(uploadState, entries[1..])
  }

  /** The object `reduce` builds: each state stored under its name, later ones replacing earlier ones. */
  function Keyed(ss: seq<FileState>): (m: map<string, FileState>)
    ensures forall k :: k in m ==> m[k].name == k
  {
    if ss == [] then map[] else Keyed(ss[..|ss| - 1])[ss[|ss| - 1].name := ss[|ss| - 1]]
  }

  /** No state after position `i` has the name `k`. */
  predicate LastWith(ss: seq<FileState>, i: nat, k: string)
  {
    forall j :: i < j < |ss| ==> ss[j].name != k
  }

  /** No entry after position `i` has the key `k`. */
  predicate LastKey(entries: seq<FileEntry>, i: nat, k: string)
  {
    forall j :: i < j < |entries| ==> entries[j].key != k
  }

  /**
   * The keys of the reduced object are exactly the names, and each name
   * holds the LAST state with that name.
   */
  lemma {:induction false} KeyedLastWins(ss: seq<FileState>, k: string)
    ensures k in Keyed(ss) <==> exists i :: 0 <= i < |ss| && ss[i].name == k
    ensures k in Keyed(ss) ==>
      exists i :: 0 <= i < |ss| && Keyed(ss)[k] == ss[i] && ss[i].name == k && LastWith(ss, i, k)
  {
    if ss != [] {
      var init := ss[..|ss| - 1];
      var last := ss[|ss| - 1];
      KeyedLastWins(init, k);
      if last.name == k {
        assert Keyed(ss)[k] == ss[|ss| - 1];
      } else if k in Keyed(ss) {
        var i :| 0 <= i < |init| && Keyed(init)[k] == init[i] && init[i].name == k && LastWith(init, i, k);
        assert ss[i] == init[i];
        assert LastWith(ss, i, k);
      } else {
        forall i | 0 <= i < |ss|
          ensures ss[i].name != k
        {
          if i < |init| {
            assert ss[i] == init[i];
          }
        }
      }
    }
  }

  /** The reduce step, run as a loop over the mapped states into the accumulator. */
  method Reduce(ss: seq<FileState>) returns (acc: map<string, FileState>)
    ensures acc == Keyed(ss)
  {
    acc := map[];
    var i := 0;
    while i < |ss|
      invariant 0 <= i <= |ss|
      invariant acc == Keyed(ss[..i])
      decreases |ss| - i
    {
      var current := ss[i];
      assert ss[..i + 1][..i] == ss[..i];
      acc := acc[current.name := current];
      i := i + 1;
    }
    assert ss[..i] == ss;
  }

  /**
   * `preloadFiles(files)`: the record's links or `{}`, and the entries (none
   * when missing) mapped and keyed by name; `entries: null` throws. The
   * input is only read.
   */
  method PreloadFiles(uploadState: map<string, string>, files: Files) returns (r: Result<Preloaded, PreloadError>)
    ensures r.Failure? <==> files.entries.Null?
    ensures r.Failure? ==> r.error == EntriesNotArray
    ensures r.Success? ==> r.value.links == files.links.GetOr(map[])
    ensures files.entries.Present? ==> r.Success? && r.value.entries == Keyed(States(uploadState, files.entries.value))
    ensures files.entries.Absent? ==> r.Success? && r.value.entries == map[]
  {
    if files.entries.Null? {
      return Failure(EntriesNotArray);
    }
    var entries := if files.entries.Present? then files.entries.value else [];
    var states := States(uploadState, entries);
    var keyed := Reduce(states);
    r := Success(Preloaded(files.links.GetOr(map[]), keyed));
  }

  /**
   * What the form shows for a file name: present exactly when some entry
   * has that key, and then the state of the last such entry.
   */
  lemma PreloadedEntry(uploadState: map<string, string>, entries: seq<FileEntry>, k: string)
    ensures k in Keyed(States(uploadState, entries)) <==> exists i :: 0 <= i < |entries| && entries[i].key == k
    ensures k in Keyed(States(uploadState, entries)) ==>
      exists i :: 0 <= i < |entries| && entries[i].key == k && LastKey(entries, i, k) &&
        Keyed(States(uploadState, entries))[k] == StateOf(uploadState, entries[i])
  {
    var ss := States(uploadState, entries);
    KeyedLastWins(ss, k);
    if k in Keyed(ss) {
      var i :| 0 <= i < |ss| && Keyed(ss)[k] == ss[i] && ss[i].name == k && LastWith(ss, i, k);
      assert entries[i].key == k;
      forall j | i < j < |entries|
        ensures entries[j].key != k
      {
        assert ss[j].name == entries[j].key;
      }
      assert LastKey(entries, i, k);
    } else {
      forall i | 0 <= i < |entries|
        ensures entries[i].key != k
      {
        assert ss[i].name == entries[i].key;
      }
    }
  }

  /**
   * A null status is not a missing one: with a table that has a `"null"`
   * entry and no `"undefined"` one, the first finds a state and the second
   * none.
   */
  lemma NullStatusIsNotAbsent(uploadState: map<string, string>, key: string)
    requires "null" in uploadState && "undefined" !in uploadState
    ensures StateOf(uploadState, FileEntry(key, None, None, None, Null)).status == Some(uploadState["null"])
    ensures StateOf(uploadState, FileEntry(key, None, None, None, Absent)).status == None
  {
  }

  /** Two entries with the same key: the later one is the one kept. */
  lemma LaterEntryWins(uploadState: map<string, string>)
    ensures var a := FileEntry("data.zip", Some(1), None, None, Absent);
      var b := FileEntry("data.zip", Some(2), None, None, Absent);
      Keyed(States(uploadState, [a, b])) == map["data.zip" := StateOf(uploadState, b)]
  {
    var a := FileEntry("data.zip", Some(1), None, None, Absent);
    var b := FileEntry("data.zip", Some(2), None, None, Absent);
    var ss := States(uploadState, [a, b]);
    assert ss[..1][..0] == [];
    assert Keyed(ss[..1]) == map["data.zip" := StateOf(uploadState, a)];
  }
}
