/**
 * The regular expression `key="([^"]+)"` that both the retrieval service and the
 * JSX text extractor use to read `courseId`/`moduleId` attributes, as a leftmost
 * match search over the text.
 */
module AttrMatch {
  import opened Prelude
  import opened Text

  /** Length of the leading run of characters other than '"'. */
  function QuoteFreeLen(s: string): (k: nat)
    ensures k <= |s|
    ensures QuoteFree(s[..k])
    ensures k < |s| ==> s[k] == '"'
  {
    if s == [] || s[0] == '"' then 0 else 1 + QuoteFreeLen(s[1..])
  }

  /** No character of `v` is a double quote: what `[^"]` accepts. */
  predicate QuoteFree(v: string) {
    forall i :: 0 <= i < |v| ==> v[i] != '"'
  }

  lemma {:induction false} QuoteFreeLenOf(v: string, t: string)
    requires QuoteFree(v)
    ensures QuoteFreeLen(v + "\"" + t) == |v|
  {
    if v != [] {
      assert (v + "\"" + t)[1..] == v[1..] + "\"" + t;
      QuoteFreeLenOf(v[1..], t);
    }
  }

  /** The text `key="v"` for an attribute value `v`. */
  function Attr(key: string, v: string): string {
    key + "=\"" + v + "\""
  }

  lemma OccursSplit(s: string, x: string, y: string, p: nat)
    requires OccursAt(s, x + y, p)
    ensures OccursAt(s, x, p) && OccursAt(s, y, p + |x|)
  {
    assert s[p..p + |x|] == s[p..p + |x| + |y|][..|x|];
    assert s[p + |x|..p + |x| + |y|] == s[p..p + |x| + |y|][|x|..];
  }

  /** An occurrence of `key="w"` at `p` puts `w` followed by a quote right after `key="`. */
  lemma AttrOccurrence(s: string, key: string, w: string, p: nat)
    requires QuoteFree(w) && OccursAt(s, Attr(key, w), p)
    ensures var open := key + "=\"";
      (OccursAt(s, open, p) && var rest := s[p + |open|..]; QuoteFreeLen(rest) == |w| < |rest| && rest[..|w|] == w)
  {
    var open := key + "=\"";
    assert Attr(key, w) == open + (w + "\"");
    OccursSplit(s, open, w + "\"", p);
    var rest := s[p + |open|..];
    assert rest[..|w| + 1] == w + "\"";
    assert rest == w + "\"" + rest[|w| + 1..];
    QuoteFreeLenOf(w, rest[|w| + 1..]);
  }

  /**
   * The match of the regular expression `key="([^"]+)"` that starts at position `p`,
   * if there is one: its group is exactly a non-empty, quote-free `v` such that
   * `key="v"` occurs at `p`.
   */
  function AttrAt(s: string, key: string, p: nat): (r: Option<string>)
    ensures r.Some? ==> r.value != [] && QuoteFree(r.value) && OccursAt(s, Attr(key, r.value), p)
    ensures forall v :: v != [] && QuoteFree(v) && OccursAt(s, Attr(key, v), p) ==> r == Some(v)
  {
    var open := key + "=\"";
    if p + |open| <= |s| && s[p..p + |open|] == open then
      var rest := s[p + |open|..];
      var k := QuoteFreeLen(rest);
      if 0 < k < |rest| then
        AttrAtSome(s, key, p, rest[..k]);
        Some(rest[..k])
      else
        AttrAtNone(s, key, p);
        None
    else
      AttrAtNone(s, key, p);
      None
  }

  lemma AttrAtSome(s: string, key: string, p: nat, v: string)
    requires var open := key + "=\"";
      (p + |open| <= |s| && s[p..p + |open|] == open
       && var rest := s[p + |open|..]; var k := QuoteFreeLen(rest); 0 < k < |rest| && v == rest[..k])
    ensures v != [] && QuoteFree(v) && OccursAt(s, Attr(key, v), p)
    ensures forall w :: w != [] && QuoteFree(w) && OccursAt(s, Attr(key, w), p) ==> w == v
  {
    var open := key + "=\"";
    var rest := s[p + |open|..];
    var k := QuoteFreeLen(rest);
    assert rest[..k + 1] == v + "\"";
    assert s[p..p + |open| + k + 1] == open + rest[..k + 1];
    assert Attr(key, v) == open + (v + "\"");
    forall w | w != [] && QuoteFree(w) && OccursAt(s, Attr(key, w), p)
      ensures w == v
    {
      AttrOccurrence(s, key, w, p);
    }
  }

  lemma AttrAtNone(s: string, key: string, p: nat)
    requires var open := key + "=\"";
      !(p + |open| <= |s| && s[p..p + |open|] == open)
      || (var rest := s[p + |open|..]; var k := QuoteFreeLen(rest); !(0 < k < |rest|))
    ensures forall w :: w != [] && QuoteFree(w) ==> !OccursAt(s, Attr(key, w), p)
  {
    forall w | w != [] && QuoteFree(w) && OccursAt(s, Attr(key, w), p)
      ensures false
    {
      AttrOccurrence(s, key, w, p);
    }
  }

  /** `re.search(r'key="([^"]+)"', s)`: the group of the leftmost match at or after `from`. */
  function FirstAttr(s: string, key: string, from: nat): (r: Option<string>)
    ensures r.Some? ==> exists p :: (from <= p && AttrAt(s, key, p) == r
      && forall q :: from <= q < p ==> AttrAt(s, key, q).None?)
    ensures r.None? ==> forall p :: from <= p ==> AttrAt(s, key, p).None?
    decreases |s| + 1 - from
  {
    if from > |s| then
      assert forall p :: from <= p ==> AttrAt(s, key, p).None?;
      None
    else if AttrAt(s, key, from).Some? then AttrAt(s, key, from)
    else
      FirstAttr(s, key, from + 1)
  }
}
