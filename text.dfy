/** Searching a string for a character, as `str.find` does; both the URL
    scheme test and `str.split` are built on it. */
module Text {

  /** `s.find(c)`, with `|s|` for "not found". */
  function IndexOf(c: char, s: string): (i: nat)
    ensures i <= |s|
    ensures i < |s| ==> s[i] == c
    decreases |s|
  {
    if s == [] then 0
    else if s[0] == c then 0
    else 1 + IndexOf(c, s[1..])
  }

  /** `IndexOf` finds the first `c`: none comes before it, and it reaches
      the end exactly when there is none. */
  lemma {:induction false} IndexOfFirst(c: char, s: string)
    ensures c !in s[..IndexOf(c, s)]
    ensures IndexOf(c, s) == |s| <==> c !in s
    decreases |s|
  {
    if s != [] && s[0] != c {
      IndexOfFirst(c, s[1..]);
      assert s == [s[0]] + s[1..];
      assert s[..1 + IndexOf(c, s[1..])] == [s[0]] + s[1..][..IndexOf(c, s[1..])];
    }
  }

  /** Where `c` is found in `s` at `i`, it is found at `i` in every prefix of
      `s` that reaches past `i`. */
  lemma {:induction false} IndexOfPrefix(c: char, s: string, p: string, i: nat)
    requires p <= s && i < |p| && IndexOf(c, s) == i
    ensures IndexOf(c, p) == i
    decreases |s|
  {
    if s[0] != c {
      assert p[1..] <= s[1..];
      IndexOfPrefix(c, s[1..], p[1..], i - 1);
    }
  }

  /** Searching past a stretch without `c` adds its length. */
  lemma {:induction false} IndexOfAfter(c: char, a: string, y: string)
    requires c !in a
    ensures IndexOf(c, a + y) == |a| + IndexOf(c, y)
    decreases |a|
  {
    if a == [] {
      assert a + y == y;
    } else {
      assert a[0] in a;
      assert (a + y)[1..] == a[1..] + y;
      assert c !in a[1..] by {
        assert a == [a[0]] + a[1..];
      }
      IndexOfAfter(c, a[1..], y);
    }
  }
}
