/** The mapping from the path of a crawled URL to the local directory and
    file name the page is stored under (`urltopathcomponents`), with the two
    pieces of Python it is built from: `str.split('/')` and POSIX
    `os.path.join`. */
module Paths {
  import opened Text

  /** The `pathcomponents` named tuple. */
  datatype PathComponents = PathComponents(directory: string, filename: string)

  predicate EndsWithSlash(s: string) {
    |s| > 0 && s[|s| - 1] == '/'
  }

  /** `n` slash characters. */
  function Slashes(n: nat): (r: string)
    ensures |r| == n && forall i :: 0 <= i < n ==> r[i] == '/'
  {
    seq(n, _ => '/')
  }

  /** `s.rstrip('/')`: the longest prefix of `s` that does not end in '/';
      everything it drops is '/'. */
  function RStripSlash(s: string): (r: string)
    ensures r <= s
    ensures !EndsWithSlash(r)
    ensures forall i :: |r| <= i < |s| ==> s[i] == '/'
    decreases |s|
  {
    if EndsWithSlash(s) then RStripSlash(s[..|s| - 1]) else s
  }

  predicate NoSlashIn(segs: seq<string>) {
    forall k :: 0 <= k < |segs| ==> '/' !in segs[k]
  }

  /** `s.split('/')`: the text before the first '/', then the split of the
      text after it; a string without '/' is one piece. */
  function Split(s: string): (r: seq<string>)
    ensures |r| >= 1
    decreases |s|
  {
    var i := IndexOf('/', s);
    if i == |s| then [s] else [s[..i]] + Split(s[i + 1..])
  }

  /** A string without '/' is a single piece. */
  lemma SplitPlain(s: string)
    requires '/' !in s
    ensures Split(s) == [s]
  {
  }

  /** One step of the split: at the first '/'. */
  lemma SplitAt(s: string, i: nat)
    requires i < |s| && IndexOf('/', s) == i
    ensures Split(s) == [s[..i]] + Split(s[i + 1..])
  {
  }

  /** No piece of a split holds a '/', there is exactly one piece when `s`
      holds no '/', and the last piece is empty only when `s` is empty or
      ends in '/'. */
  lemma {:induction false} SplitPieces(s: string)
    ensures NoSlashIn(Split(s))
    ensures |Split(s)| == 1 <==> '/' !in s
    ensures Split(s)[|Split(s)| - 1] == "" ==> s == "" || EndsWithSlash(s)
    decreases |s|
  {
    var i := IndexOf('/', s);
    IndexOfFirst('/', s);
    if i < |s| {
      var t := s[i + 1..];
      SplitPieces(t);
      SplitAt(s, i);
      ConsPieces(s[..i], Split(t));
      LastOfTail(s, i);
    } else {
      SplitPlain(s);
    }
  }

  /** Putting a '/'-free piece in front keeps every piece '/'-free, makes
      more than one piece, and keeps the last piece. */
  lemma ConsPieces(a: string, rest: seq<string>)
    requires '/' !in a && |rest| >= 1 && NoSlashIn(rest)
    ensures NoSlashIn([a] + rest)
    ensures |[a] + rest| > 1
    ensures ([a] + rest)[|rest|] == rest[|rest| - 1]
  {
    forall k | 0 < k < |[a] + rest|
      ensures '/' !in ([a] + rest)[k]
    {
      assert ([a] + rest)[k] == rest[k - 1];
    }
  }

  /** After a '/' at `i`, the rest is empty or ends as `s` does. */
  lemma LastOfTail(s: string, i: nat)
    requires i < |s| && s[i] == '/'
    ensures '/' in s
    ensures s[i + 1..] == "" || EndsWithSlash(s[i + 1..]) ==> EndsWithSlash(s)
  {
    assert s[i] in s;
    if s[i + 1..] != "" {
      assert s[i + 1..][|s| - i - 2] == s[|s| - 1];
    }
  }

  /** `'/'.join(segs)`. */
  function JoinSlash(segs: seq<string>): string
    decreases |segs|
  {
    if segs == [] then ""
    else if |segs| == 1 then segs[0]
    else segs[0] + "/" + JoinSlash(segs[1..])
  }

  /** One step of the '/'-join. */
  lemma JoinSlashCons(a: string, rest: seq<string>)
    requires |rest| >= 1
    ensures JoinSlash([a] + rest) == a + "/" + JoinSlash(rest)
  {
    assert ([a] + rest)[1..] == rest;
  }

  /** A string is the text before one of its '/' characters, that '/', and
      the text after it. */
  lemma CutAtSlash(s: string, i: nat)
    requires i < |s| && s[i] == '/'
    ensures s == s[..i] + "/" + s[i + 1..]
  {
    assert s[..i] + "/" + s[i + 1..] == s[..i] + [s[i]] + s[i + 1..];
  }

  /** Joining the pieces of a split gives the original string back. */
  lemma {:induction false} SplitThenJoin(s: string)
    ensures JoinSlash(Split(s)) == s
    decreases |s|
  {
    var i := IndexOf('/', s);
    if i < |s| {
      var t := s[i + 1..];
      SplitThenJoin(t);
      SplitAt(s, i);
      JoinSlashCons(s[..i], Split(t));
      CutAtSlash(s, i);
    }
  }

  /** Splitting the '/'-join of '/'-free pieces gives the pieces back. */
  lemma {:induction false} JoinThenSplit(segs: seq<string>)
    requires |segs| >= 1 && NoSlashIn(segs)
    ensures Split(JoinSlash(segs)) == segs
    decreases |segs|
  {
    var a := segs[0];
    if |segs| == 1 {
      SplitPlain(a);
    } else {
      var rest := segs[1..];
      var j := JoinSlash(rest);
      JoinThenSplit(rest);
      JoinSlashCons(a, rest);
      assert segs == [a] + rest;
      SplitAfterPiece(a, j);
    }
  }

  /** Splitting `a + "/" + j`, where `a` holds no '/', gives `a` and the
      split of `j`. */
  lemma SplitAfterPiece(a: string, j: string)
    requires '/' !in a
    ensures Split(a + "/" + j) == [a] + Split(j)
  {
    var s := a + "/" + j;
    assert s == a + ("/" + j);
    IndexOfAfter('/', a, "/" + j);
    SplitAt(s, |a|);
    assert s[..|a|] == a && s[|a| + 1..] == j;
  }

  /** One step of POSIX `os.path.join`: a component starting with '/'
      replaces the path so far; otherwise a '/' is put in between unless the
      path so far is empty or already ends in '/'. */
  function JoinStep(path: string, b: string): string {
    if |b| > 0 && b[0] == '/' then b
    else if path == [] || EndsWithSlash(path) then path + b
    else path + "/" + b
  }

  /** `os.path.join(a, *p)`. */
  function PathJoin(a: string, p: seq<string>): string
    decreases |p|
  {
    if p == [] then a else PathJoin(JoinStep(a, p[0]), p[1..])
  }

  lemma {:induction false} PathJoinSnoc(a: string, p: seq<string>, b: string)
    ensures PathJoin(a, p + [b]) == JoinStep(PathJoin(a, p), b)
    decreases |p|
  {
    if p != [] {
      assert (p + [b])[1..] == p[1..] + [b];
      PathJoinSnoc(JoinStep(a, p[0]), p[1..], b);
    }
  }

  /** `os.path.join(dir, name)` for a `name` not starting with '/'. */
  lemma PathJoinOne(dir: string, name: string)
    requires name == "" || name[0] != '/'
    ensures PathJoin(dir, [name]) == SlashEnded(dir) + name
  {
    assert [name][1..] == [] && [name][0] == name;
  }

  /** `dir` with a '/' appended unless it is empty or already ends in one. */
  function SlashEnded(dir: string): (r: string)
    ensures r == "" || EndsWithSlash(r)
  {
    if dir == [] || EndsWithSlash(dir) then dir else dir + "/"
  }

  /** The non-empty pieces, in order. */
  function NonEmpty(segs: seq<string>): seq<string>
    decreases |segs|
  {
    if segs == [] then []
    else
      var last := segs[|segs| - 1];
      NonEmpty(segs[..|segs| - 1]) + (if last == "" then [] else [last])
  }

  /** An independent description of what `os.path.join` does to '/'-free
      pieces: empty pieces vanish, the others are joined by '/', and a
      trailing empty piece leaves a trailing '/' (unless nothing is left). */
  function CollapsedJoin(segs: seq<string>): string
    requires |segs| >= 1
  {
    var kept := NonEmpty(segs);
    if kept == [] then ""
    else JoinSlash(kept) + (if segs[|segs| - 1] == "" then "/" else "")
  }

  lemma {:induction false} JoinSlashSnoc(xs: seq<string>, b: string)
    requires |xs| >= 1
    ensures JoinSlash(xs + [b]) == JoinSlash(xs) + "/" + b
    decreases |xs|
  {
    if |xs| > 1 {
      assert (xs + [b])[1..] == xs[1..] + [b];
      JoinSlashSnoc(xs[1..], b);
    }
  }

  lemma {:induction false} NonEmptyFacts(segs: seq<string>)
    requires NoSlashIn(segs)
    ensures NoSlashIn(NonEmpty(segs))
    ensures forall k :: 0 <= k < |NonEmpty(segs)| ==> NonEmpty(segs)[k] != ""
    decreases |segs|
  {
    if segs != [] {
      NonEmptyFacts(segs[..|segs| - 1]);
    }
  }

  /** The '/'-join of non-empty, '/'-free pieces does not end in '/'. */
  lemma {:induction false} JoinSlashNoTrailingSlash(xs: seq<string>)
    requires |xs| >= 1 && NoSlashIn(xs)
    requires forall k :: 0 <= k < |xs| ==> xs[k] != ""
    ensures JoinSlash(xs) != [] && !EndsWithSlash(JoinSlash(xs))
    decreases |xs|
  {
    var n := |xs|;
    var last := xs[n - 1];
    assert last[|last| - 1] in last;
    if n > 1 {
      assert xs == xs[..n - 1] + [last];
      JoinSlashSnoc(xs[..n - 1], last);
    }
  }

  /** Adding one more '/'-free piece to `CollapsedJoin` is one `os.path.join` step. */
  lemma CollapsedJoinSnoc(init: seq<string>, b: string)
    requires |init| >= 1 && NoSlashIn(init) && '/' !in b
    ensures CollapsedJoin(init + [b]) == JoinStep(CollapsedJoin(init), b)
  {
    var segs := init + [b];
    assert segs[..|segs| - 1] == init;
    var kept := NonEmpty(init);
    var p := CollapsedJoin(init);
    assert NonEmpty(segs) == kept + (if b == "" then [] else [b]);
    assert b != "" ==> b[0] in b;
    if kept == [] {
      assert p == "" && JoinStep(p, b) == b;
      assert b != "" ==> NonEmpty(segs) == [b];
    } else {
      NonEmptyFacts(init);
      var j := JoinSlash(kept);
      JoinSlashNoTrailingSlash(kept);
      if b != "" {
        JoinSlashSnoc(kept, b);
      }
      if init[|init| - 1] != "" {
        assert p == j;
      } else {
        assert p == j + "/" && EndsWithSlash(p);
      }
      assert JoinStep(p, b) == j + "/" + b;
      if b == "" {
        assert NonEmpty(segs) == kept;
        assert CollapsedJoin(segs) == j + "/" == j + "/" + b;
      } else {
        assert NonEmpty(segs) == kept + [b];
        assert CollapsedJoin(segs) == JoinSlash(kept + [b]) + "";
      }
    }
  }

  /** `os.path.join` of '/'-free pieces agrees with `CollapsedJoin`. */
  lemma {:induction false} PathJoinCollapses(segs: seq<string>)
    requires |segs| >= 1 && NoSlashIn(segs)
    ensures PathJoin(segs[0], segs[1..]) == CollapsedJoin(segs)
    decreases |segs|
  {
    var n := |segs|;
    if n == 1 {
      assert NonEmpty(segs) == NonEmpty([]) + (if segs[0] == "" then [] else [segs[0]]);
    } else {
      var init, b := segs[..n - 1], segs[n - 1];
      assert segs == init + [b];
      assert '/' !in b;
      PathJoinCollapses(init);
      assert segs[1..] == init[1..] + [b];
      PathJoinSnoc(segs[0], init[1..], b);
      CollapsedJoinSnoc(init, b);
    }
  }

  /** A leading empty piece (the one in front of a path's leading '/') adds
      nothing to `os.path.join`. */
  lemma LeadingEmptyPieceIgnored(segs: seq<string>)
    requires |segs| >= 1
    ensures PathJoin("", segs) == PathJoin(segs[0], segs[1..])
  {
    assert "" + segs[0] == segs[0];
  }

  /** The file names `urltopathcomponents` replaces by "index.html". */
  predicate IsIndexAlias(name: string) {
    name == "/" || name == "" || IsHtmlSuffixName(name)
  }

  /** The two of them that can occur: a bare ".html" or ".htm". */
  predicate IsHtmlSuffixName(name: string) {
    name == ".html" || name == ".htm"
  }

  /** `urltopathcomponents`: strip the trailing '/'s, split on '/', the last
      piece is the file name and the others, put together by
      `os.path.join`, the directory. Without a '/' the directory is "./" and
      the name is kept as it is; otherwise ".html" and ".htm" (and the
      unreachable "" and "/") become "index.html". */
  function ToPathComponents(urlPath: string): (r: PathComponents)
    ensures '/' !in r.filename
    ensures r.filename == "" <==> RStripSlash(urlPath) == ""
  {
    var path := if EndsWithSlash(urlPath) then RStripSlash(urlPath) else urlPath;
    var segs := Split(path);
    StrippedLastPiece(urlPath);
    var directories, filename := segs[..|segs| - 1], segs[|segs| - 1];
    if directories == [] then PathComponents("./", filename)
    else
      var name := if IsIndexAlias(filename) then "index.html" else filename;
      PathComponents(PathJoin(directories[0], directories[1..]), name)
  }

  /** The path `urltopathcomponents` splits is the stripped one; its last
      piece is '/'-free, and empty only when that path is; "index.html" is
      neither. */
  lemma StrippedLastPiece(urlPath: string)
    ensures var path := if EndsWithSlash(urlPath) then RStripSlash(urlPath) else urlPath;
      var segs := Split(path);
      && path == RStripSlash(urlPath)
      && '/' !in segs[|segs| - 1]
      && (segs[|segs| - 1] == "" <==> path == "")
      && '/' !in "index.html" && "index.html" != ""
  {
    var path := if EndsWithSlash(urlPath) then RStripSlash(urlPath) else urlPath;
    SplitPieces(path);
    var segs := Split(path);
    if path == "" {
      SplitPlain(path);
    }
  }

  /** The result depends only on the path with its trailing '/'s removed. */
  lemma StrippedPathDecides(urlPath: string)
    ensures ToPathComponents(urlPath) == ToPathComponents(RStripSlash(urlPath))
  {
  }

  lemma {:induction false} RStripSlashAppended(p: string, n: nat)
    ensures RStripSlash(p + Slashes(n)) == RStripSlash(p)
    decreases n
  {
    if n > 0 {
      assert (p + Slashes(n))[..|p| + n - 1] == p + Slashes(n - 1);
      RStripSlashAppended(p, n - 1);
    } else {
      assert p + Slashes(0) == p;
    }
  }

  /** Appending any number of '/' to a path does not change where it is stored. */
  lemma TrailingSlashesIgnored(urlPath: string, n: nat)
    ensures ToPathComponents(urlPath + Slashes(n)) == ToPathComponents(urlPath)
  {
    StrippedPathDecides(urlPath + Slashes(n));
    RStripSlashAppended(urlPath, n);
    StrippedPathDecides(urlPath);
  }

  /** A path with no '/' once stripped keeps its name as it is, even ".html",
      in the directory "./". */
  lemma SinglePieceKeepsName(urlPath: string)
    requires '/' !in RStripSlash(urlPath)
    ensures ToPathComponents(urlPath) == PathComponents("./", RStripSlash(urlPath))
  {
    StrippedPathDecides(urlPath);
    JoinThenSplit([RStripSlash(urlPath)]);
  }

  /** A path with a '/' once stripped: the file name is its last piece, which
      is never empty, with ".html" and ".htm" (and only those) replaced by
      "index.html"; the directory is the collapsed join of the other pieces,
      so empty pieces such as the leading one contribute nothing. */
  lemma NestedPathComponents(urlPath: string)
    requires '/' in RStripSlash(urlPath)
    ensures var segs := Split(RStripSlash(urlPath));
      var last := segs[|segs| - 1];
      && |segs| >= 2
      && JoinSlash(segs) == RStripSlash(urlPath)
      && last != ""
      && ToPathComponents(urlPath).filename == (if IsHtmlSuffixName(last) then "index.html" else last)
      && ToPathComponents(urlPath).directory == CollapsedJoin(segs[..|segs| - 1])
  {
    var s := RStripSlash(urlPath);
    NestedStripped(s);
    StrippedPathDecides(urlPath);
    assert ToPathComponents(urlPath) == ToPathComponents(s);
  }

  /** The previous lemma for a path without a trailing '/'. */
  lemma NestedStripped(s: string)
    requires '/' in s && !EndsWithSlash(s)
    ensures var segs := Split(s);
      var last := segs[|segs| - 1];
      && |segs| >= 2
      && JoinSlash(segs) == s
      && last != ""
      && ToPathComponents(s).filename == (if IsHtmlSuffixName(last) then "index.html" else last)
      && ToPathComponents(s).directory == CollapsedJoin(segs[..|segs| - 1])
  {
    var segs := Split(s);
    var n := |segs|;
    UnfoldComponents(s);
    var dirs := segs[..n - 1];
    assert ToPathComponents(s).directory == CollapsedJoin(dirs) by {
      assert dirs[0] == segs[0] && dirs[1..] == segs[1..n - 1];
      SplitPieces(s);
      assert NoSlashIn(dirs);
      PathJoinCollapses(dirs);
    }
    assert JoinSlash(segs) == s by {
      SplitThenJoin(s);
    }
  }

  /** `ToPathComponents` on a path with a '/' and no trailing '/', unfolded. */
  lemma UnfoldComponents(s: string)
    requires '/' in s && !EndsWithSlash(s)
    ensures var segs := Split(s);
      var last := segs[|segs| - 1];
      && |segs| >= 2 && last != ""
      && ToPathComponents(s).directory == PathJoin(segs[0], segs[1..|segs| - 1])
      && ToPathComponents(s).filename == (if IsHtmlSuffixName(last) then "index.html" else last)
  {
    var segs := Split(s);
    var n := |segs|;
    SplitPieces(s);
    var last := segs[n - 1];
    NotSlashItself(last);
    InitOfPieces(segs);
  }

  /** A '/'-free string is not "/". */
  lemma NotSlashItself(x: string)
    requires '/' !in x
    ensures x != "/"
  {
    assert "/"[0] == '/';
  }

  /** Dropping the last of at least two pieces keeps the first piece and the
      ones up to the last. */
  lemma InitOfPieces(segs: seq<string>)
    requires |segs| >= 2
    ensures segs[..|segs| - 1] != []
    ensures segs[..|segs| - 1][0] == segs[0] && segs[..|segs| - 1][1..] == segs[1..|segs| - 1]
  {
  }

  /** A trailing '/' does not make "index.html": "/a/b/" is stored as file
      "b" in directory "a". */
  lemma TrailingSlashNamesFile(a: string, b: string)
    requires a != "" && b != "" && '/' !in a && '/' !in b
    requires b != ".html" && b != ".htm"
    ensures ToPathComponents("/" + a + "/" + b + "/") == PathComponents(a, b)
  {
    var p := "/" + a + "/" + b;
    assert p + Slashes(1) == "/" + a + "/" + b + "/";
    TrailingSlashesIgnored(p, 1);
    TwoLevelFile(a, b);
  }

  /** "/a/b" is stored as file "b" in directory "a". */
  lemma TwoLevelFile(a: string, b: string)
    requires a != "" && b != "" && '/' !in a && '/' !in b
    requires b != ".html" && b != ".htm"
    ensures ToPathComponents("/" + a + "/" + b) == PathComponents(a, b)
  {
    var p := "/" + a + "/" + b;
    SplitUnderRoot(a);
    SplitSnoc("/" + a, ["", a], b);
    SlashedEnd("/" + a, b);
    UnfoldComponents(p);
    assert (["", a] + [b])[1..2] == [a];
    assert a[0] in a;
  }

  /** ".htm" after a '/' becomes "index.html": "/a/b/.htm" is stored as
      "index.html" in "a/b". */
  lemma HtmNameIsIndex(a: string, b: string)
    requires a != "" && b != "" && '/' !in a && '/' !in b
    ensures ToPathComponents("/" + a + "/" + b + "/" + ".htm") == PathComponents(a + "/" + b, "index.html")
  {
    var q := "/" + a + "/" + b;
    var p := q + "/" + ".htm";
    SplitUnderRoot(a);
    SplitSnoc("/" + a, ["", a], b);
    SplitSnoc(q, ["", a] + [b], ".htm");
    SlashedEnd(q, ".htm");
    UnfoldComponents(p);
    assert (["", a] + [b] + [".htm"])[1..3] == [a, b];
    PathJoinTwo(a, b);
  }

  /** `os.path.join(a, b)` of two non-empty '/'-free names puts one '/'
      between them. */
  lemma PathJoinTwo(a: string, b: string)
    requires a != "" && b != "" && '/' !in a && '/' !in b
    ensures PathJoin("", [a, b]) == a + "/" + b
  {
    assert a[0] in a && b[0] in b && a[|a| - 1] in a;
    PathJoinOne("", a);
    assert "" + a == a;
    PathJoinSnoc("", [a], b);
    assert [a] + [b] == [a, b];
  }

  /** "/a" splits into "" and "a". */
  lemma SplitUnderRoot(a: string)
    requires '/' !in a
    ensures Split("/" + a) == ["", a]
  {
    SplitAfterPiece("", a);
    SplitPlain(a);
    assert "" + "/" + a == "/" + a;
  }

  /** Appending '/' and a '/'-free piece to a string appends that piece to
      its split. */
  lemma SplitSnoc(q: string, segs: seq<string>, c: string)
    requires Split(q) == segs && '/' !in c
    ensures Split(q + "/" + c) == segs + [c]
  {
    SplitPieces(q);
    SplitThenJoin(q);
    JoinSlashSnoc(segs, c);
    assert NoSlashIn(segs + [c]) by {
      assert forall k :: 0 <= k < |segs| ==> (segs + [c])[k] == segs[k];
    }
    JoinThenSplit(segs + [c]);
  }

  /** `q + "/" + c` holds a '/' and, for a non-empty '/'-free `c`, does not
      end in one. */
  lemma SlashedEnd(q: string, c: string)
    requires c != "" && '/' !in c
    ensures '/' in q + "/" + c && !EndsWithSlash(q + "/" + c)
  {
    var p := q + "/" + c;
    assert p[|q|] == '/';
    assert p[|p| - 1] == c[|c| - 1] && c[|c| - 1] in c;
  }

  /** A top-level page gets the empty directory. */
  lemma ExampleTopLevel()
    ensures ToPathComponents("/b") == PathComponents("", "b")
  {
    SplitUnderRoot("b");
    assert "/b"[0] == '/' && "/b"[1] == 'b';
    UnfoldComponents("/b");
    assert ["", "b"][1..1] == [];
  }

  /** The root path gets the empty file name in "./" (it is stored as "./.html"). */
  lemma ExampleRoot()
    ensures ToPathComponents("/") == PathComponents("./", "")
  {
    assert RStripSlash("/") == "";
  }

  /** A name without '/' is kept even when it is ".html". */
  lemma ExampleBareName()
    ensures ToPathComponents(".html") == PathComponents("./", ".html")
  {
    JoinThenSplit([".html"]);
  }
}
