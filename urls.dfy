/** Resolution of an `href` found on a page against the base it was found
    under (`normalize` and `joinurls`). The library pieces the code calls
    (`urllib.parse.urljoin`, `url_normalize`, and the path that
    `urllib.parse.urlparse` extracts) are not modelled: they are the fields
    of a `UrlLib` value, arbitrary total functions the results are stated
    in terms of. The scheme test and the fragment removal are modelled. */
module Urls {
  import opened Text

  /** The library functions the crawler calls, left uninterpreted. */
  datatype UrlLib = UrlLib(
    urljoin: (string, string) -> string,  // urllib.parse.urljoin(base, ref), section 5.2 of RFC 3986
    urlNormalize: string -> string,       // url_normalize(url)
    pathOf: string -> string)             // urllib.parse.urlparse(url).path

  predicate StartsWithSlash(s: string) {
    |s| > 0 && s[0] == '/'
  }

  predicate IsAsciiLetter(c: char) {
    'a' <= c <= 'z' || 'A' <= c <= 'Z'
  }

  /** The characters allowed in a scheme (section 3.1 of RFC 3986). */
  predicate IsSchemeChar(c: char) {
    IsAsciiLetter(c) || '0' <= c <= '9' || c == '+' || c == '-' || c == '.'
  }

  /** `urlparse(u).scheme` is not empty: the text before the first ':' is a
      letter followed by scheme characters. Neither '/' nor '#' can occur
      before that ':'. */
  predicate HasScheme(u: string)
    ensures HasScheme(u) ==> ':' in u && !StartsWithSlash(u)
    ensures HasScheme(u) ==> '#' !in u[..IndexOf(':', u)] && '/' !in u[..IndexOf(':', u)]
  {
    var i := IndexOf(':', u);
    0 < i < |u| && IsAsciiLetter(u[0]) && forall j :: 0 <= j < i ==> IsSchemeChar(u[j])
  }

  /** The URL without its fragment: everything before the first '#'
      (section 3.5 of RFC 3986). The result is the longest prefix of `u`
      that holds no '#'. */
  function CutFragment(u: string): (r: string)
    ensures r <= u
    ensures '#' !in r
    ensures |r| < |u| ==> u[|r|] == '#'
  {
    IndexOfFirst('#', u);
    u[..IndexOf('#', u)]
  }

  /** `joinurls(a, b)`: `url_normalize` of the two joined by a '/'. */
  function JoinUrls(lib: UrlLib, a: string, b: string): string {
    lib.urlNormalize(a + "/" + b)
  }

  /** `normalize(base, ref)`. A `ref` starting with '/' is resolved by
      `urljoin` and returned as it is, fragment and all. Any other `ref` is
      taken verbatim when it has a scheme, and otherwise appended to `base`
      and passed twice through `url_normalize`; then its fragment is cut. */
  function Normalize(lib: UrlLib, base: string, ref: string): (r: string)
    ensures StartsWithSlash(ref) ==> r == lib.urljoin(base, ref)
    ensures !StartsWithSlash(ref) ==> '#' !in r
  {
    if StartsWithSlash(ref) then lib.urljoin(base, ref)
    else
      var url := if HasScheme(ref) then ref else lib.urlNormalize(JoinUrls(lib, base, ref));
      CutFragment(url)
  }

  /** A URL without a fragment is left alone by the fragment cut. */
  lemma CutFragmentKeepsPlain(u: string)
    requires '#' !in u
    ensures CutFragment(u) == u
  {
  }

  /** Cutting the fragment twice is cutting it once. */
  lemma CutFragmentIdempotent(u: string)
    ensures CutFragment(CutFragment(u)) == CutFragment(u)
  {
    CutFragmentKeepsPlain(CutFragment(u));
  }

  /** A ref with a scheme never starts with '/'. */
  lemma SchemeNotSlash(u: string)
    requires HasScheme(u)
    ensures !StartsWithSlash(u)
  {
  }

  /** A ref with a scheme is not combined with the base: it resolves to
      itself without its fragment, whatever the base. */
  lemma SchemeIgnoresBase(lib: UrlLib, base1: string, base2: string, ref: string)
    requires HasScheme(ref)
    ensures Normalize(lib, base1, ref) == CutFragment(ref)
    ensures Normalize(lib, base1, ref) == Normalize(lib, base2, ref)
  {
    SchemeNotSlash(ref);
  }

  /** Cutting the fragment keeps the scheme: '#' is not a scheme character,
      so the first '#' comes after the scheme's ':'. */
  lemma CutFragmentKeepsScheme(u: string)
    requires HasScheme(u)
    ensures HasScheme(CutFragment(u))
  {
    var i := IndexOf(':', u);
    var k := IndexOf('#', u);
    assert k > i;
    var r := CutFragment(u);
    assert r[..i] == u[..i];
    assert ':' !in r[..i];
    IndexOfPrefix(':', u, r, i);
  }

  /** A fragment-free URL with a scheme is a fixed point of `Normalize`. */
  lemma SchemeUrlFixed(lib: UrlLib, base: string, u: string)
    requires HasScheme(u) && '#' !in u
    ensures Normalize(lib, base, u) == u
  {
    SchemeIgnoresBase(lib, base, base, u);
    CutFragmentKeepsPlain(u);
  }

  /** Normalizing again gives the same URL when the first result has a
      scheme and its fragment was cut (that is, the ref did not start with
      '/'). A ref with a scheme always qualifies. */
  lemma NormalizeIdempotent(lib: UrlLib, base1: string, base2: string, ref: string)
    requires !StartsWithSlash(ref) && HasScheme(Normalize(lib, base1, ref))
    ensures Normalize(lib, base2, Normalize(lib, base1, ref)) == Normalize(lib, base1, ref)
  {
    SchemeUrlFixed(lib, base2, Normalize(lib, base1, ref));
  }

  /** A ref with a scheme normalizes to a URL with that scheme, so the
      previous lemma applies to it. */
  lemma SchemeRefKeepsScheme(lib: UrlLib, base: string, ref: string)
    requires HasScheme(ref)
    ensures HasScheme(Normalize(lib, base, ref))
  {
    SchemeIgnoresBase(lib, base, base, ref);
    CutFragmentKeepsScheme(ref);
  }

  /** A ref starting with '/' keeps its fragment, so when `urljoin` leaves
      one in, normalizing the result again changes it: idempotence fails on
      this path. */
  lemma SlashRefNotIdempotent(lib: UrlLib, base1: string, base2: string, ref: string)
    requires StartsWithSlash(ref)
    requires HasScheme(lib.urljoin(base1, ref)) && '#' in lib.urljoin(base1, ref)
    ensures Normalize(lib, base2, Normalize(lib, base1, ref)) != Normalize(lib, base1, ref)
  {
    var u := lib.urljoin(base1, ref);
    SchemeIgnoresBase(lib, base2, base2, u);
    assert |CutFragment(u)| < |u|;
  }
}
