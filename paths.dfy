/** The POSIX path helpers the indexing pipeline uses: `os.path.join`, `basename` and `splitext`. */
module Paths {
  import opened Prelude
  import opened Text

  /** The index of the last occurrence of `c` in `s`. */
  function LastIndexOf(s: string, c: char): (r: Option<nat>)
    ensures r.Some? ==> r.value < |s| && s[r.value] == c && c !in s[r.value + 1..]
    ensures r.None? ==> c !in s
  {
    if s == [] then None
    else if s[|s| - 1] == c then Some(|s| - 1)
    else
      var r := LastIndexOf(s[..|s| - 1], c);
      assert s == s[..|s| - 1] + [s[|s| - 1]];
      if r.Some? then
        assert s[r.value + 1..] == s[..|s| - 1][r.value + 1..] + [s[|s| - 1]];
        r
      else
        r
  }

  /** `os.path.basename`: everything after the last '/'. */
  function Basename(p: string): (b: string)
    ensures '/' !in b
    ensures |b| <= |p| && b == p[|p| - |b|..]
    ensures |b| < |p| ==> p[|p| - |b| - 1] == '/'
  {
    match LastIndexOf(p, '/')
    case None => p
    case Some(i) => p[i + 1..]
  }

  /**
   * `os.path.splitext(p)[1]`: the last dot of the base name and what follows it,
   * provided some character before that dot is not a dot (so ".bashrc" has no
   * extension); "" otherwise.
   */
  function Extension(p: string): (e: string)
    ensures e == [] || (e[0] == '.' && '.' !in e[1..] && '/' !in e && EndsWith(Basename(p), e))
  {
    var b := Basename(p);
    var d := LastIndexOf(b, '.');
    if d.Some? && NotAllDots(b[..d.value]) then
      SuffixFacts(b, d.value);
      b[d.value..]
    else ""
  }

  predicate NotAllDots(s: string) {
    exists j :: 0 <= j < |s| && s[j] != '.'
  }

  lemma SuffixFacts(b: string, d: nat)
    requires d < |b| && b[d] == '.' && '.' !in b[d + 1..] && '/' !in b
    ensures var e := b[d..]; e[0] == '.' && '.' !in e[1..] && '/' !in e && EndsWith(b, e)
  {
    assert b[d..][1..] == b[d + 1..];
  }

  /** `os.path.join(root, name)` for a relative `name`. */
  function PathJoin(root: string, name: string): (p: string)
    ensures EndsWith(p, name) && StartsWith(p, root)
  {
    if root == [] || root[|root| - 1] == '/' then root + name else root + "/" + name
  }
}
