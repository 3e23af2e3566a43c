# gulp: a verified model of the crawl core

gulp mirrors a website into a local directory tree. Starting from a base
URL and a first page, it queues every non-empty anchor whose resolved URL it
has not claimed yet, with no test of the host (an `href` with a scheme, such
as a link to another site, is used as it is, minus its fragment), fetches every page after it
is claimed, and writes its body to
`<directory>/<filename>.html`, where the directory and file name come from
the URL's path. This project models, in Dafny, the pieces of `main.py` that
carry the crawl's logic:

- `paths.dfy` (module `Paths`): `urltopathcomponents`, which maps a URL path
  to `(directory, filename)`, with the Python it relies on: `str.rstrip('/')`,
  `str.split('/')` and POSIX `os.path.join`.
- `urls.dfy` (module `Urls`): `normalize` and `joinurls`, which resolve an
  `href` against a base. `urllib.parse.urljoin`, `url_normalize` and the
  path component of `urllib.parse.urlparse` are uninterpreted: they are fields
  of a `UrlLib` value, and every result is stated for all choices of them.
  The scheme test (section 3.1 of RFC 3986, as `urlparse` applies it: a
  letter, then letters, digits, `+`, `-`, `.` up to the first `:`) and the
  removal of the fragment (everything from the first `#`, section 3.5 of
  RFC 3986) are modelled.
- `crawl.dfy` (module `Crawl`): the `Crawler` frontier. The class `Crawler`
  keeps `_current_base`, `_pending_links` (a FIFO `seq` of edges) and
  `_finished` (a `set`) as fields; `ExtendLinksOf` keeps the source's loop;
  `Next` is proved equal to the pure transition `Step`. Fetching a page and
  extracting its anchors is one parameter, `Links`: a URL gives the list of
  `href` values in document order (None for an anchor without one), or None
  when the request raises.
- `download.dfy` (module `Download`): the body of a worker thread's loop in
  `downloadsite`: claim, fetch the content again, compute the destination,
  and write it unless it exists and overwriting is off. The file system is a
  map from path to content.
- `text.dfy` (module `Text`): `IndexOf`, the `str.find` that `str.split` and
  the scheme test rely on.
- `wrappers.dfy`: the `Option` type.

Behaviour of the code that the model follows, and proves, although the
code's own names and comments suggest otherwise (the comment "remove any
fragments" at main.py:209, the `'/'` and `''` alternatives of the
`index.html` test at main.py:74, the set named `_finished` at main.py:145):

- All trailing `/` are stripped, not one, and a trailing `/` never produces
  `index.html`: `/a/b/` is stored as file `b` in directory `a`
  (`TrailingSlashNamesFile`). The root path `/` gives `('./', '')`
  (`ExampleRoot`), so the root page `/` is written to `./.html`
  (`PageFileName`, with no `/` left after stripping); the `''` and `'/'`
  alternatives of the `index.html` test can never match (`NestedPathComponents`).
- An `href` starting with `/` keeps its fragment; only the other two paths
  cut it (`Normalize`, `SlashRefNotIdempotent`).
- New links are queued under `_current_base`, which is the base of the edge
  being claimed, never the URL of the page they were found on. From the
  initial state every base is the start URL forever, so relative links on
  any page are resolved against the start URL (`BasesStayAtStart`).
- A URL is not claimed at most once: the queue may hold the same URL twice
  (two anchors on one page) and popping does not consult the claimed set,
  so that URL is claimed and fetched twice (`ClaimDoesNotRecheck`,
  `DuplicateAnchorClaimedTwice`). With overwriting off, the second write of
  its file is refused (`SecondWriteRefused`).
- When the queue is momentarily empty, `__next__` returns `None` and the
  worker keeps polling; nothing tracks work still in flight.

## Model

| member | source | states |
|---|---|---|
| `Paths.RStripSlash` | main.py:67-68 | The stripped path is a prefix of the path, does not end in `/`, and everything removed is `/`. |
| `Paths.Split` | main.py:70 | `split('/')` gives at least one piece. |
| `Paths.SplitPieces` | main.py:70 | No piece of `split('/')` holds `/`; there is exactly one piece iff the string has no `/`; the last piece is empty only for an empty string or one ending in `/`. |
| `Paths.SplitThenJoin` | main.py:70 | Joining the pieces with `/` gives the string back. |
| `Paths.JoinThenSplit` | main.py:70 | Splitting the `/`-join of `/`-free pieces gives the pieces back (the other direction of the round trip). |
| `Paths.PathJoinCollapses` | main.py:77 | `os.path.join` of the `/`-free directory pieces equals an independent description: empty pieces vanish, the rest are joined by `/`, a trailing empty piece leaves a trailing `/`. |
| `Paths.PathJoinSnoc` | main.py:77 | `os.path.join` with one more component is one more join step on the result: components are added one at a time, left to right. |
| `Paths.PathJoinOne` | main.py:77 | Joining one component that does not start with `/` gives the path, ended by a `/` unless it is empty or already ends in one, followed by the component. |
| `Paths.LeadingEmptyPieceIgnored` | main.py:77 | An empty first argument to `os.path.join` contributes nothing, so the empty piece before a leading `/` does not reach the directory. |
| `Paths.ToPathComponents` | main.py:66-77 | The file name never contains `/`, and it is empty exactly when the path consists of `/` characters only. |
| `Paths.StrippedPathDecides` | main.py:67-68 | The result depends only on the path with its trailing `/` removed. |
| `Paths.TrailingSlashesIgnored` | main.py:67-68 | Appending any number of `/` to a path leaves the result unchanged. |
| `Paths.SinglePieceKeepsName` | main.py:70-72 | With no `/` in the stripped path the result is `('./', stripped path)`, with no `index.html` substitution. |
| `Paths.NestedPathComponents` | main.py:70-77 | With a `/` in the stripped path, the file name is the last piece, which is never empty, replaced by `index.html` exactly when it is `.html` or `.htm`; the directory is the collapsed join of the other pieces. |
| `Paths.TwoLevelFile` | main.py:70-77 | For non-empty `/`-free `a` and `b` other than `.html`, `.htm`: `/a/b` maps to directory `a`, file `b`. |
| `Paths.TrailingSlashNamesFile` | main.py:66-77 | The same for `/a/b/`: a trailing `/` names the file after the last piece, not `index.html`. |
| `Paths.HtmNameIsIndex` | main.py:70-77 | For non-empty `/`-free `a` and `b`: `/a/b/.htm` maps to directory `a/b`, file `index.html`. |
| `Paths.ExampleTopLevel` | main.py:70-77 | `/b` maps to the empty directory and file `b`. |
| `Paths.ExampleRoot` | main.py:67-72 | `/` maps to `('./', '')`. |
| `Paths.ExampleBareName` | main.py:70-72 | `.html` without a `/` maps to `('./', '.html')`, unsubstituted. |
| `Text.IndexOf` | main.py:70 | `str.find`: the index is within the string, and where it is not the end it holds the searched character. |
| `Text.IndexOfFirst` | main.py:70 | The character does not occur before the index, and the index is the end exactly when the character does not occur at all: the split and the scheme test cut at the first occurrence. |
| `Urls.HasScheme` | main.py:203-204 | A ref with a scheme holds a `:`, does not start with `/`, and has no `/` or `#` before its first `:`. |
| `Urls.CutFragment` | main.py:209-212 | The result is the longest prefix of the URL holding no `#`: a prefix, `#`-free, and followed by `#` whenever it is shorter. |
| `Urls.JoinUrls` | main.py:133-134 | `joinurls`: the base and the ref joined by `/`, through `url_normalize`. |
| `Urls.Normalize` | main.py:195-212 | A ref starting with `/` gives exactly `urljoin(base, ref)`, fragment included; any other ref gives a URL with no `#`. |
| `Urls.CutFragmentIdempotent` | main.py:209-212 | Removing the fragment twice is removing it once. |
| `Urls.SchemeIgnoresBase` | main.py:202-205 | A ref with a scheme is not combined with the base: it resolves to itself minus its fragment, the same for every base. |
| `Urls.CutFragmentKeepsScheme` | main.py:203-212 | Removing the fragment keeps a URL's scheme. |
| `Urls.SchemeUrlFixed` | main.py:202-212 | A fragment-free URL with a scheme resolves to itself against any base. |
| `Urls.NormalizeIdempotent` | main.py:202-212 | For a ref not starting with `/` whose result has a scheme, resolving the result again, against any base, gives it back. |
| `Urls.SchemeRefKeepsScheme` | main.py:203-212 | A ref with a scheme resolves to a URL with a scheme, so it is covered by `NormalizeIdempotent`. |
| `Urls.SlashRefNotIdempotent` | main.py:197-200 | For a ref starting with `/` whose `urljoin` result has a scheme and a `#`, resolving the result again changes it. |
| `Crawl.Init` | main.py:143-145 | The initial state: the current base and the base of the one queued edge are the start URL, that edge's ref is the first page, nothing is claimed. |
| `Crawl.Keeps` | main.py:155-158 | A missing or empty `href` is never queued, whatever has been claimed; a queued `href` resolves to a URL not claimed yet. |
| `Crawl.Kept` | main.py:153-159 | The queued edges are at most as many as the anchors; each carries the current base and a non-empty ref, taken from the page's anchors, that resolves to an unclaimed URL; every such anchor is queued. |
| `Crawl.KeptOne` | main.py:153-159 | One anchor gives exactly one edge, under the current base, when it is kept, and none otherwise; with `KeptAppend` this fixes the order and the number of the queued edges. |
| `Crawl.KeptAppend` | main.py:153-163 | Filtering two consecutive stretches of anchors gives their filtered edges one after the other: document order is kept. |
| `Crawl.Step` | main.py:169-188 | On an empty queue: nothing, state unchanged. Otherwise: something is claimed, namely the resolved URL of the oldest edge, and the claimed set becomes the old one plus that URL. |
| `Crawl.StepQueue` | main.py:172-178 | On a non-empty queue: exactly the oldest edge is removed and the rest stay in order in front; the current base becomes that edge's base; every appended edge has that base and an unclaimed URL; a failed fetch appends nothing; a successful one appends exactly `Kept` of the claimed page's anchors, after the remaining edges, and returns the local path of the URL's path. |
| `Crawl.ClaimDoesNotRecheck` | main.py:172-174 | An edge whose URL is already claimed is claimed again, and the claimed set is unchanged. |
| `Crawl.Run` | main.py:86-90 | `n` successive calls give `n` results. |
| `Crawl.RunGrowsFinished` | main.py:174 | Over any number of calls the claimed set never loses a URL, and every URL claimed along the way is in it at the end. |
| `Crawl.StepKeepsBases` | main.py:154-173 | If the current base and all pending bases are `b`, they still are after a call. |
| `Crawl.RunKeepsBases` | main.py:154-173 | The same over any number of calls. |
| `Crawl.BasesStayAtStart` | main.py:143-173 | From the initial state, after any number of calls, the current base and every pending base are the start URL. |
| `Crawl.FirstPageQueuesBoth` | main.py:153-163 | When the first page holds two anchors resolving to the same new URL, the first call claims the first page and queues both anchors. |
| `Crawl.DuplicateAnchorClaimedTwice` | main.py:153-174 | If the first page holds two anchors resolving to the same new URL, the first three calls claim the first page, then that URL, then that URL again. |
| `Crawl.Crawler.constructor` | main.py:138-146 | The current base is the start URL, the queue holds the one edge to the first page, nothing is claimed. |
| `Crawl.Crawler.ExtendLinksOf` | main.py:148-164 | The loop appends exactly `Kept` of the page's anchors under the current base; a failed fetch changes nothing; base and claimed set are untouched. |
| `Crawl.Crawler.Next` | main.py:169-188 | The new state and the result are those of `Step` on the old state. |
| `Download.DestinationParts` | main.py:95 | For a file name without `/`, the destination is the directory, ended by a `/` unless it is empty or already ends in one, then the file name and `.html`. |
| `Download.DestinationBaseName` | main.py:95 | The base name (the text after the last `/`) of `os.path.join(directory, filename) + '.html'` is the file name plus `.html`, for any directory. |
| `Download.PageFileName` | main.py:95 | Every page is written to a file whose base name is its computed file name plus `.html`; a path without `/` goes to `./<name>.html`. |
| `Download.Write` | main.py:96-102 | Refused exactly when the destination exists and overwriting is off; otherwise the destination holds the content and every other file keeps its presence and content. |
| `Download.SecondWriteRefused` | main.py:96-98 | With overwriting off, a second write to the same destination is refused. |
| `Download.OverwriteLastWins` | main.py:99-102 | With overwriting on, writes always succeed and the last content wins. |
| `Download.FileSystem.Store` | main.py:96-102 | The result and the new file map are those of `Write` on the old map. |
| `Download.Iterate` | main.py:86-102 | One loop iteration: the crawler moves as `Step` says; an empty queue or a failed fetch leaves the files alone; otherwise the destination is written as `Write` decides, and the result names the destination or the refusal. |

## Left out

- Threads: `downloadsite` runs 8 workers over one unsynchronised `Crawler`, plus a status thread. The frontier is modelled one call at a time; interleavings inside `__next__` and `_extendlinksof` are not.
- The busy-wait: a worker that gets `None` loops again forever; `Iterate` models one iteration, returning `Idle`.
- The network and HTML parsing (`requests.get`, BeautifulSoup): replaced by the `Links` and `fetch` parameters. The page is fetched twice, once to extract links and once for its content, and the two parameters may disagree, as two requests may.
- `urllib.parse.urljoin`, `url_normalize` and `urlparse(...).path` are uninterpreted; `urlparse`'s removal of leading spaces and control characters and of tab and newline characters is not modelled, and `urlunparse` is taken to give back the URL before the first `#` unchanged. It does not quite: `urlsplit` lowercases the scheme (`HTTP://x/y` comes back as `http://x/y`, `H:x` as `h:x`), `urlunparse` puts `//` after a scheme that uses a network location when the authority is empty (`http:` comes back as `http://`), and it can drop an empty `?` or `;`. `SchemeIgnoresBase` and `SchemeUrlFixed` hold under this simplification: in the program a ref with an upper-case scheme, or such a bare scheme, resolves to the changed text.
- `urlparse` raising on a malformed URL (an unbalanced `[` in the host, for example) is not modelled: every href resolves.
- `os.makedirs` for the page's directory and its exceptions, and `_cwd`, `start_url`'s other uses, `delay` and `ensure_directories` (the latter always true).
- `os.path.exists` is true for directories too; the file map holds files only.
- `Download.Write`: destinations are compared as text, not as the files they name. A `.` segment or a `./` prefix gives a second text for one file: `http://h/a/./b` (a ref with a scheme is used as written) is written to `a/./b.html`, the file `http://h/a/b` is written to as `a/b.html`, and the path `x` goes to `./x.html` while `/x` goes to `x.html`. With overwriting off the program refuses the second of such writes and the model accepts it; the refusal and the frame of `Write`, and so `SecondWriteRefused`, `OverwriteLastWins`, `FileSystem.Store` and `Iterate`, hold per text.
- The politeness delay with its random jitter, all console output (including the never-taken "already gotten" warning, whose test compares a pair with a set of strings), the status thread, argument parsing, `input`, and the module-level `mkdir`/`chdir` of `out`.
- `Crawl.Run`: states only the number of results; what the calls do is stated by `Step` and the lemmas about runs.
- `Urls.JoinUrls`: its contract is its definition. On the branch of `Normalize` that uses it (a ref without `/` in front and without a scheme), the result is left to the uninterpreted `url_normalize`; the model only states that its fragment is cut.
- `Urls.SchemeIgnoresBase`: stated for the simplified `urlunparse` above; in the program the scheme comes back lowercased.
- `Urls.SchemeUrlFixed`: likewise; in the program a fixed point also needs a lowercase scheme and, for schemes that use a network location, a non-empty `//` authority.
