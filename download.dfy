/** What a worker of `downloadsite` does with a claimed page: fetch it again,
    compute the destination file, and write it unless the file exists and
    overwriting is off. The file system is a map from path to content;
    directory creation is not modelled. */
module Download {
  import opened Wrappers
  import opened Paths
  import opened Urls
  import opened Crawl

  /** The file a page is written to: `os.path.join(directory, filename) + '.html'`. */
  function Destination(local: PathComponents): string {
    PathJoin(local.directory, [local.filename]) + ".html"
  }

  /** `os.path.basename(p)`: the text after the last '/', all of `p` when
      it has none. */
  function BaseName(p: string): (r: string)
    ensures '/' !in r
    ensures |r| <= |p| && r == p[|p| - |r|..]
    ensures |r| < |p| ==> p[|p| - |r| - 1] == '/'
    decreases |p|
  {
    if p == [] || p[|p| - 1] == '/' then ""
    else
      var init := p[..|p| - 1];
      var r := BaseName(init);
      assert p == init + [p[|p| - 1]];
      r + [p[|p| - 1]]
  }

  /** After a '/' (or at the start), a '/'-free `b` is the base name. */
  lemma {:induction false} BaseNameAfterSlash(a: string, b: string)
    requires a == "" || EndsWithSlash(a)
    requires '/' !in b
    ensures BaseName(a + b) == b
    decreases |b|
  {
    if b == "" {
      assert a + b == a;
    } else {
      var init := b[..|b| - 1];
      DropLast(a, b);
      BaseNameAfterSlash(a, init);
    }
  }

  /** Dropping the last character of `a + b`, for a non-empty '/'-free `b`. */
  lemma DropLast(a: string, b: string)
    requires b != "" && '/' !in b
    ensures (a + b)[..|a + b| - 1] == a + b[..|b| - 1]
    ensures (a + b)[|a + b| - 1] == b[|b| - 1] != '/'
    ensures b == b[..|b| - 1] + [b[|b| - 1]]
    ensures '/' !in b[..|b| - 1]
  {
    assert b[|b| - 1] in b;
    assert b == b[..|b| - 1] + [b[|b| - 1]];
  }

  /** The destination's base name is the file name with ".html" appended,
      whatever the directory. */
  lemma DestinationBaseName(local: PathComponents)
    requires '/' !in local.filename
    ensures BaseName(Destination(local)) == local.filename + ".html"
  {
    var dir, name := local.directory, local.filename;
    DestinationParts(local);
    NoSlashAppended(name, ".html");
    BaseNameAfterSlash(SlashEnded(dir), name + ".html");
  }

  /** The destination is the directory, ended by a '/' unless empty, then
      the file name and ".html". */
  lemma DestinationParts(local: PathComponents)
    requires '/' !in local.filename
    ensures Destination(local) == SlashEnded(local.directory) + (local.filename + ".html")
  {
    assert local.filename == "" || local.filename[0] in local.filename;
    PathJoinOne(local.directory, local.filename);
    assert (SlashEnded(local.directory) + local.filename) + ".html" == SlashEnded(local.directory) + (local.filename + ".html");
  }

  lemma NoSlashAppended(a: string, b: string)
    requires '/' !in a && '/' !in b
    ensures '/' !in a + b
  {
  }

  /** Every crawled page is written to a file whose base name is its
      computed file name (the last piece of its URL path, or "index.html")
      plus ".html"; a path without a '/' goes to "./<name>.html". */
  lemma PageFileName(urlPath: string)
    ensures BaseName(Destination(ToPathComponents(urlPath))) == ToPathComponents(urlPath).filename + ".html"
    ensures '/' !in RStripSlash(urlPath) ==>
      Destination(ToPathComponents(urlPath)) == "./" + RStripSlash(urlPath) + ".html"
  {
    DestinationBaseName(ToPathComponents(urlPath));
    if '/' !in RStripSlash(urlPath) {
      SinglePieceKeepsName(urlPath);
      var name := RStripSlash(urlPath);
      assert name == "" || name[0] in name;
      PathJoinOne("./", name);
    }
  }

  /** The write in `target`: refused when the destination exists and
      overwriting is off; otherwise the destination holds the content and
      every other file is as it was. */
  function Write(files: map<string, string>, destination: string, content: string, overwrite: bool): (r: Option<map<string, string>>)
    ensures r.None? <==> destination in files && !overwrite
    ensures r.Some? ==> destination in r.value && r.value[destination] == content
    ensures r.Some? ==> forall p :: p != destination ==>
      (p in r.value <==> p in files) && (p in files ==> r.value[p] == files[p])
  {
    if destination in files && !overwrite then None
    else Some(files[destination := content])
  }

  /** With overwriting off, a second write to the same destination is
      refused, so a page claimed twice is written once. */
  lemma SecondWriteRefused(files: map<string, string>, destination: string, first: string, second: string)
    requires Write(files, destination, first, false).Some?
    ensures Write(Write(files, destination, first, false).value, destination, second, false).None?
  {
  }

  /** With overwriting on, every write succeeds and the last one wins. */
  lemma OverwriteLastWins(files: map<string, string>, destination: string, first: string, second: string)
    ensures Write(files, destination, first, true).Some?
    ensures Write(Write(files, destination, first, true).value, destination, second, true)
      == Some(files[destination := second])
  {
    assert files[destination := first][destination := second] == files[destination := second];
  }

  /** The local file tree the worker threads write into. */
  class FileSystem {
    var files: map<string, string>

    constructor (files: map<string, string>)
      ensures this.files == files
    {
      this.files := files;
    }

    /** The existence check and the write in `target`. */
    method Store(destination: string, content: string, overwrite: bool) returns (ok: bool)
      modifies this
      ensures ok == Write(old(files), destination, content, overwrite).Some?
      ensures files == if ok then Write(old(files), destination, content, overwrite).value else old(files)
    {
      if destination in files && !overwrite {
        return false;
      }
      files := files[destination := content];
      ok := true;
    }
  }

  /** Why an iteration of the worker loop raised. */
  datatype Failure = FetchError(url: string) | DestinationExists(destination: string)

  /** The result of one iteration of the worker loop: the queue was empty,
      a page was written, or the iteration raised and was skipped. */
  datatype Iteration = Idle | Saved(destination: string) | Failed(failure: Failure)

  /** One iteration of the `while True` loop in `target`: claim the next
      link; if there is one, fetch its content again and write it to its
      destination. `fetch` gives the body of a URL, or None when the request
      raises. */
  method Iterate(crawler: Crawler, fs: FileSystem, fetch: string -> Option<string>, overwrite: bool)
    returns (r: Iteration)
    modifies crawler, fs
    ensures var step := Step(crawler.lib, crawler.links, old(crawler.State()));
      && crawler.State() == step.0
      && match step.1
         case Exhausted => r == Idle && fs.files == old(fs.files)
         case FetchFailed(url) => r == Failed(FetchError(url)) && fs.files == old(fs.files)
         case Claimed(local, url) =>
           if fetch(url).None? then r == Failed(FetchError(url)) && fs.files == old(fs.files)
           else
             var written := Write(old(fs.files), Destination(local), fetch(url).value, overwrite);
             if written.Some? then r == Saved(Destination(local)) && fs.files == written.value
             else r == Failed(DestinationExists(Destination(local))) && fs.files == old(fs.files)
  {
    var claim := crawler.Next();
    match claim
    case Exhausted =>
      r := Idle;
    case FetchFailed(url) =>
      r := Failed(FetchError(url));
    case Claimed(local, url) =>
      var content := fetch(url);
      if content.None? {
        return Failed(FetchError(url));
      }
      var destination := Destination(local);
      var ok := fs.Store(destination, content.value, overwrite);
      r := if ok then Saved(destination) else Failed(DestinationExists(destination));
  }
}
