/**
 * The path helpers the listing code relies on: `str.split` and `"/".join`,
 * the segments of `PurePosixPath(s).parts`, `os.path.join` as the listing
 * builder folds it over the segments, and the extension test of
 * `os.path.splitext(key)[-1].lower()`.
 */
module Paths {

  /** `s.split(c)`: never empty, and no piece holds the separator. */
  function Split(s: string, c: char): (r: seq<string>)
    ensures |r| >= 1
    ensures forall i :: 0 <= i < |r| ==> c !in r[i]
    ensures JoinWith(r, c) == s
  {
    if s == [] then [""]
    else
      var rest := Split(s[1..], c);
      if s[0] == c then
        assert s == [c] + s[1..];
        [""] + rest
      else
        var r := [[s[0]] + rest[0]] + rest[1..];
        assert r[1..] == rest[1..];
        assert forall i :: 1 <= i < |r| ==> r[i] == rest[i];
        if |rest| == 1 then r
        else
          assert rest == [rest[0]] + rest[1..];
          r
  }

  /** `c.join(ps)` for a one-character separator. */
  function JoinWith(ps: seq<string>, c: char): string
  {
    if |ps| == 0 then ""
    else if |ps| == 1 then ps[0]
    else ps[0] + [c] + JoinWith(ps[1..], c)
  }

  /** Joining pieces free of the separator and splitting again gives the pieces back. */
  lemma {:induction false} SplitJoin(ps: seq<string>, c: char)
    requires |ps| >= 1
    requires forall i :: 0 <= i < |ps| ==> c !in ps[i]
    ensures Split(JoinWith(ps, c), c) == ps
  {
    if |ps| == 1 {
      SplitPlain(ps[0], c);
    } else {
      SplitJoin(ps[1..], c);
      SplitPrefix(ps[0], JoinWith(ps[1..], c), c);
    }
  }

  lemma TailOfConcat(a: string, b: string)
    requires a != []
    ensures (a + b)[0] == a[0] && (a + b)[1..] == a[1..] + b
  {
  }

  /** A string without the separator splits into itself. */
  lemma {:induction false} SplitPlain(s: string, c: char)
    requires c !in s
    ensures Split(s, c) == [s]
  {
    if s != [] {
      SplitPlain(s[1..], c);
    }
  }

  /** Splitting `a + c + b`, with `a` free of `c`, gives `a` and then the pieces of `b`. */
  lemma {:induction false} SplitPrefix(a: string, b: string, c: char)
    requires c !in a
    ensures Split(a + [c] + b, c) == [a] + Split(b, c)
  {
    if a == [] {
      assert a + [c] + b == [c] + b;
      assert ([c] + b)[1..] == b;
    } else {
      var s := a + [c] + b;
      SplitPrefix(a[1..], b, c);
      TailOfConcat(a, [c] + b);
      assert s == a + ([c] + b) && a[1..] + [c] + b == a[1..] + ([c] + b);
      var rest := Split(s[1..], c);
      assert rest == [a[1..]] + Split(b, c);
      assert Split(s, c) == [[a[0]] + rest[0]] + rest[1..];
      assert [a[0]] + a[1..] == a;
    }
  }

  /** Joining keeps the last piece last: `c.join(ps + [x]) == c.join(ps) + c + x`. */
  lemma {:induction false} JoinSnoc(ps: seq<string>, x: string, c: char)
    requires |ps| >= 1
    ensures JoinWith(ps + [x], c) == JoinWith(ps, c) + [c] + x
  {
    if |ps| == 1 {
      assert (ps + [x])[1..] == [x];
    } else {
      JoinSnoc(ps[1..], x, c);
      assert (ps + [x])[1..] == ps[1..] + [x];
    }
  }

  /** The segments `PurePosixPath` keeps: no empty piece and no `.`. */
  function Keep(pieces: seq<string>): (r: seq<string>)
    ensures forall i :: 0 <= i < |r| ==> r[i] in pieces && r[i] != "" && r[i] != "."
    ensures forall x :: x in pieces && x != "" && x != "." ==> x in r
  {
    if pieces == [] then []
    else
      var rest := Keep(pieces[1..]);
      assert forall x :: x in pieces[1..] ==> x in pieces;
      assert forall x :: x in pieces ==> x == pieces[0] || x in pieces[1..];
      if pieces[0] == "" || pieces[0] == "." then rest else [pieces[0]] + rest
  }

  /**
   * The root of a POSIX path: `"//"` for exactly two leading slashes,
   * `"/"` for one or for three and more, and nothing for a relative path.
   */
  function Anchor(s: string): (a: string)
    ensures a == "" <==> (s == [] || s[0] != '/')
    ensures a == "//" ==> |s| >= 2 && s[..2] == "//"
  {
    if s == [] || s[0] != '/' then ""
    else if |s| >= 2 && s[1] == '/' && (|s| == 2 || s[2] != '/') then "//"
    else "/"
  }

  /** `list(PurePosixPath(s).parts)`: the anchor, when there is one, then the kept segments. */
  function PathParts(s: string): (parts: seq<string>)
    ensures Anchor(s) == "" ==> parts == Keep(Split(s, '/'))
    ensures Anchor(s) != "" ==> parts == [Anchor(s)] + Keep(Split(s, '/'))
  {
    (if Anchor(s) == "" then [] else [Anchor(s)]) + Keep(Split(s, '/'))
  }

  /** A clean segment: what `PurePosixPath` keeps after the anchor. */
  predicate Segment(x: string)
  {
    x != "" && x != "." && '/' !in x
  }

  /** Every part after the anchor is a clean segment. */
  lemma PathPartsSegments(s: string)
    ensures var parts := PathParts(s);
      forall i :: (if Anchor(s) == "" then 0 else 1) <= i < |parts| ==> Segment(parts[i])
  {
    var pieces := Split(s, '/');
    var kept := Keep(pieces);
    forall i | 0 <= i < |kept|
      ensures Segment(kept[i])
    {
      var j :| 0 <= j < |pieces| && pieces[j] == kept[i];
    }
  }

  /** Keep leaves a sequence of clean segments as it is. */
  lemma {:induction false} KeepSegments(ps: seq<string>)
    requires forall i :: 0 <= i < |ps| ==> Segment(ps[i])
    ensures Keep(ps) == ps
  {
    if ps != [] {
      KeepSegments(ps[1..]);
    }
  }

  /** Round trip: the parts of `"/".join(ps)` for clean relative segments are `ps` again. */
  lemma RelativePartsRoundTrip(ps: seq<string>)
    requires |ps| >= 1
    requires forall i :: 0 <= i < |ps| ==> Segment(ps[i])
    ensures PathParts(JoinWith(ps, '/')) == ps
  {
    var s := JoinWith(ps, '/');
    SplitJoin(ps, '/');
    KeepSegments(ps);
    if |ps| > 1 {
      assert s == ps[0] + ['/'] + JoinWith(ps[1..], '/');
      assert s[0] == ps[0][0];
    }
  }

  /** `os.path.join(a, b)` of POSIX: an absolute `b` wins, otherwise one slash separates them. */
  function OsJoin(a: string, b: string): (r: string)
    ensures b != [] && b[0] == '/' ==> r == b
    ensures (b == [] || b[0] != '/') && (a == [] || a[|a| - 1] == '/') ==> r == a + b
    ensures (b == [] || b[0] != '/') && a != [] && a[|a| - 1] != '/' ==> r == a + "/" + b
  {
    if b != [] && b[0] == '/' then b
    else if a == [] || a[|a| - 1] == '/' then a + b
    else a + "/" + b
  }

  /** The `current_path` the listing builder reaches after folding `os.path.join` over `ps`. */
  function OsJoinAll(ps: seq<string>): string
  {
    if ps == [] then "" else OsJoin(OsJoinAll(ps[..|ps| - 1]), ps[|ps| - 1])
  }

  /**
   * For clean relative segments the folded `os.path.join` is the
   * `"/".join`: the id of each intermediate folder is `p1/.../pi`.
   */
  lemma {:induction false} OsJoinAllRelative(ps: seq<string>)
    requires forall i :: 0 <= i < |ps| ==> Segment(ps[i])
    ensures OsJoinAll(ps) == JoinWith(ps, '/')
  {
    if |ps| > 1 {
      var init := ps[..|ps| - 1];
      OsJoinAllRelative(init);
      JoinSnoc(init, ps[|ps| - 1], '/');
      assert init + [ps[|ps| - 1]] == ps;
      assert init[|init| - 1] == ps[|ps| - 2];
      assert JoinWith(init, '/') != [] && JoinWith(init, '/')[|JoinWith(init, '/')| - 1] != '/' by {
        JoinLast(init, '/');
      }
    }
  }

  /** The join of clean segments ends with the last segment's last character. */
  lemma {:induction false} JoinLast(ps: seq<string>, c: char)
    requires |ps| >= 1 && ps[|ps| - 1] != ""
    ensures var j := JoinWith(ps, c); j != [] && j[|j| - 1] == ps[|ps| - 1][|ps[|ps| - 1]| - 1]
  {
    if |ps| > 1 {
      JoinLast(ps[1..], c);
    }
  }

  /**
   * An absolute path: the folder ids are joined under a single slash while
   * the file id `"/".join(parts)` starts with two, so `/a/b` gives the
   * folder id `/a` and the file id `//a/b`.
   */
  lemma AbsoluteIds()
    ensures PathParts("/a/b") == ["/", "a", "b"]
    ensures OsJoinAll(["/", "a"]) == "/a"
    ensures JoinWith(["/", "a", "b"], '/') == "//a/b"
  {
    AbsoluteSplit();
    assert Keep(["", "a", "b"]) == ["a", "b"] by {
      assert ["", "a", "b"][1..] == ["a", "b"];
      KeepSegments(["a", "b"]);
    }
    AbsoluteFolderId();
  }

  lemma AbsoluteFolderId()
    ensures OsJoinAll(["/", "a"]) == "/a"
  {
    assert ["/", "a"][..1] == ["/"] && ["/"][..0] == [];
  }

  lemma AbsoluteSplit()
    ensures Split("/a/b", '/') == ["", "a", "b"]
  {
    var ps := ["", "a", "b"];
    assert ps[1..] == ["a", "b"] && ps[1..][1..] == ["b"];
    assert JoinWith(ps, '/') == "/a/b";
    SplitJoin(ps, '/');
  }

  /** ASCII lower-casing, character by character. */
  function Lower(s: string): (r: string)
    ensures |r| == |s|
    ensures forall i :: 0 <= i < |s| ==> r[i] == LowerChar(s[i])
  {
    if s == [] then [] else [LowerChar(s[0])] + Lower(s[1..])
  }

  function LowerChar(ch: char): char
  {
    if 'A' <= ch <= 'Z' then (ch as int + 32) as char else ch
  }

  /** Index of the last occurrence of `ch` in `s`, -1 when there is none (`str.rfind`). */
  function RFind(s: string, ch: char): (i: int)
    ensures -1 <= i < |s|
    ensures i >= 0 ==> s[i] == ch
    ensures forall j :: i < j < |s| ==> s[j] != ch
  {
    if s == [] then -1
    else if s[|s| - 1] == ch then |s| - 1
    else RFind(s[..|s| - 1], ch)
  }

  /** Whether every character of `s[a..b]` is a dot. */
  predicate AllDots(s: string, a: int, b: int)
    requires 0 <= a <= b <= |s|
  {
    forall j :: a <= j < b ==> s[j] == '.'
  }

  /**
   * `os.path.splitext(p)[1]`: the suffix from the last dot of the final
   * path component, unless that component has only dots before it.
   */
  function Ext(p: string): (e: string)
    ensures e == [] || (e[0] == '.' && '/' !in e)
    ensures e != [] ==> |e| <= |p| && p[|p| - |e|..] == e
  {
    var sep := RFind(p, '/');
    var dot := RFind(p, '.');
    if dot > sep && !AllDots(p, sep + 1, dot) then
      assert forall j :: dot < j < |p| ==> p[j] != '/';
      p[dot..]
    else ""
  }

  /** The last occurrence is found from where it is and what follows it. */
  lemma RFindAt(s: string, ch: char, i: int)
    requires -1 <= i < |s| && (i >= 0 ==> s[i] == ch)
    requires forall j :: i < j < |s| ==> s[j] != ch
    ensures RFind(s, ch) == i
  {
  }

  /** A plain name has its last dot's suffix as extension. */
  lemma ExtOfName()
    ensures Ext("archive.zip") == ".zip"
  {
    RFindAt("archive.zip", '/', -1);
    RFindAt("archive.zip", '.', 7);
    assert "archive.zip"[0] != '.';
  }

  /** A dot in a directory name is no extension of the file. */
  lemma ExtOfDottedDirectory()
    ensures Ext("dir.v2/archive") == ""
  {
    RFindAt("dir.v2/archive", '/', 6);
    RFindAt("dir.v2/archive", '.', 3);
  }

  /** A name that is only a leading-dot suffix has no extension. */
  lemma ExtOfHiddenName()
    ensures Ext(".zip") == ""
    ensures !CanProcess(".zip", {".zip"})
  {
    RFindAt(".zip", '/', -1);
    RFindAt(".zip", '.', 0);
  }

  /** Only the last suffix counts, compared lower-cased. */
  lemma ExtUpperCase()
    ensures Ext("a.tar.ZIP") == ".ZIP"
    ensures CanProcess("a.tar.ZIP", {".zip"})
  {
    RFindAt("a.tar.ZIP", '/', -1);
    RFindAt("a.tar.ZIP", '.', 5);
    assert "a.tar.ZIP"[0] != '.';
    assert "a.tar.ZIP"[5..] == ".ZIP";
    assert Lower(".ZIP") == ".zip";
  }

  /** `can_process`: the lower-cased extension of the key is one of the configured formats. */
  function CanProcess(key: string, formats: set<string>): bool
  {
    Lower(Ext(key)) in formats
  }

  /**
   * A name ending in `.`+word, after a last character that is neither a
   * slash nor a dot, has exactly that suffix as extension, so its
   * processing depends only on the suffix, in any letter case.
   */
  lemma ExtOfSuffix(stem: string, ext: string, formats: set<string>)
    requires stem != [] && stem[|stem| - 1] != '/' && stem[|stem| - 1] != '.'
    requires ext != [] && ext[0] == '.' && forall j :: 0 < j < |ext| ==> ext[j] != '.' && ext[j] != '/'
    ensures Ext(stem + ext) == ext
    ensures CanProcess(stem + ext, formats) <==> Lower(ext) in formats
  {
    var s := stem + ext;
    forall j | |stem| < j < |s|
      ensures s[j] != '.'
    {
      assert s[j] == ext[j - |stem|];
    }
    RFindAt(s, '.', |stem|);
    var sep := RFind(s, '/');
    assert s[|stem| - 1] == stem[|stem| - 1];
    forall j | |stem| <= j < |s|
      ensures s[j] != '/'
    {
      assert s[j] == ext[j - |stem|];
    }
    assert sep < |stem| - 1;
    assert !AllDots(s, sep + 1, |stem|);
    assert s[|stem|..] == ext;
  }
}
