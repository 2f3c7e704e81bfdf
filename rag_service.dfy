/**
 * The retrieval service of the AI assistant: bounded context assembly from a
 * vector-store answer, course/module inference from the UI context, and the
 * first-match scope gate that decides whether a question may reach the model.
 */
module RagService {
  import opened Prelude
  import opened Text
  import ChromaStore
  import opened AttrMatch

  /** The configuration fields the service reads. */
  datatype RagConfig = RagConfig(
    collectionName: string,
    chunkWords: int,
    chunkOverlapWords: int,
    topK: int,
    inScopeDistanceThreshold: real,
    maxScreenChars: int,
    maxContextChars: int)

  /** The defaults used when no environment variable overrides them. */
  const DefaultConfig := RagConfig("signum_rag", 450, 60, 5, 0.42, 1500, 6000)

  // ---------------------------------------------------------------------------
  // _trim

  /** `_trim(s, n)`: Python's `s[:n]`, which for a negative `n` drops the last `-n` characters. */
  function Trim(s: string, n: int): (r: string)
    ensures |r| <= |s| && r == s[..|r|]
    ensures n >= 0 ==> |r| == Min(|s|, n)
    ensures n < 0 ==> |r| == Max(0, |s| + n)
  {
    if n >= 0 then s[..Min(|s|, n)] else s[..Max(0, |s| + n)]
  }

  // ---------------------------------------------------------------------------
  // infer_course_and_module

  /**
   * `infer_course_and_module`: a context mentioning "data structures" or
   * "data-structures" (case-insensitively) selects that course and no module;
   * otherwise the `courseId="…"`/`moduleId="…"` attributes of the screen content
   * are used, and with neither the result is (None, None).
   */
  function InferCourseAndModule(context: string, screenContent: string): (r: (Option<string>, Option<string>))
    ensures var ctx := Lower(context);
      (Contains(ctx, "data structures") || Contains(ctx, "data-structures")) ==> r == (Some("data-structures"), None)
    ensures var ctx := Lower(context);
      !(Contains(ctx, "data structures") || Contains(ctx, "data-structures")) ==>
        r == (FirstAttr(screenContent, "courseId", 0), FirstAttr(screenContent, "moduleId", 0))
  {
    var ctx := Lower(context);
    if Contains(ctx, "data structures") || Contains(ctx, "data-structures") then
      (Some("data-structures"), None)
    else
      var courseId := FirstAttr(screenContent, "courseId", 0);
      var moduleId := FirstAttr(screenContent, "moduleId", 0);
      if ChromaStore.Truthy(courseId) || ChromaStore.Truthy(moduleId) then (courseId, moduleId)
      else
        AttrsAreNonEmpty(screenContent);
        (None, None)
  }

  /** A regex group `[^"]+` is never empty, so a found attribute is always truthy. */
  lemma AttrsAreNonEmpty(s: string)
    ensures forall key :: FirstAttr(s, key, 0).Some? ==> ChromaStore.Truthy(FirstAttr(s, key, 0))
  {
    forall key | FirstAttr(s, key, 0).Some?
      ensures ChromaStore.Truthy(FirstAttr(s, key, 0))
    {
      var p :| 0 <= p && AttrAt(s, key, p) == FirstAttr(s, key, 0)
        && forall q :: 0 <= q < p ==> AttrAt(s, key, q).None?;
    }
  }

  /** Every inferred id is either the fixed course or an attribute value literally present on the screen. */
  lemma InferredIdsComeFromInputs(context: string, screenContent: string)
    ensures var (c, m) := InferCourseAndModule(context, screenContent);
      (c.Some? ==> c.value == "data-structures" || Contains(screenContent, Attr("courseId", c.value)))
      && (m.Some? ==> Contains(screenContent, Attr("moduleId", m.value)))
  {
    var (c, m) := InferCourseAndModule(context, screenContent);
    ContainsAt(screenContent, Attr("courseId", if c.Some? then c.value else ""));
    ContainsAt(screenContent, Attr("moduleId", if m.Some? then m.value else ""));
    if c.Some? && c.value != "data-structures" {
      var p :| 0 <= p && AttrAt(screenContent, "courseId", p) == c
        && forall q :: 0 <= q < p ==> AttrAt(screenContent, "courseId", q).None?;
    }
    if m.Some? {
      var p :| 0 <= p && AttrAt(screenContent, "moduleId", p) == m
        && forall q :: 0 <= q < p ==> AttrAt(screenContent, "moduleId", q).None?;
    }
  }

  // ---------------------------------------------------------------------------
  // retrieve

  datatype Meta = Meta(title: Option<string>, sourcePath: Option<string>)

  /**
   * The vector store's answer: one inner list per query text. A missing key is an
   * empty outer list, which the service reads the same way (`(x or [[]])[0]`).
   */
  datatype QueryResult = QueryResult(
    documents: seq<seq<Option<string>>>,
    metadatas: seq<seq<Option<Meta>>>,
    distances: seq<seq<Option<real>>>)

  datatype RagSource = RagSource(sourceId: string, title: string, path: string, distance: real)

  /** The store, as a function from (question, top_k, where filter) to its answer. */
  type Store = (string, int, Option<map<string, string>>) -> QueryResult

  function FirstList<T>(xs: seq<seq<T>>): seq<T> {
    if xs == [] then [] else xs[0]
  }

  function OrDefault(s: Option<string>, default: string): string {
    if ChromaStore.Truthy(s) then s.value else default
  }

  const MissingDistance: real := 999.0

  /** The source entry for the result at 1-based position `pos`. */
  function SourceAt(pos: nat, meta: Meta, dist: Option<real>): RagSource {
    RagSource("S" + NatToString(pos), OrDefault(meta.title, "Source"), OrDefault(meta.sourcePath, ""),
      if dist.Some? then dist.value else MissingDistance)
  }

  function BlockOf(src: RagSource, doc: string): string {
    "[" + src.sourceId + "] " + src.title + "\nPath: " + src.path + "\nContent:\n" + doc + "\n"
  }

  /** The 1-based positions, among the first `k` zipped entries, whose document and metadata are present. */
  function KeptPositions(docs: seq<Option<string>>, metas: seq<Option<Meta>>, k: nat): (ps: seq<nat>)
    requires k <= |docs| && k <= |metas|
    ensures forall j :: 0 <= j < |ps| ==> 1 <= ps[j] <= k && docs[ps[j] - 1].Some? && metas[ps[j] - 1].Some?
    ensures forall j, j' :: 0 <= j < j' < |ps| ==> ps[j] < ps[j']
    ensures forall p :: 1 <= p <= k && docs[p - 1].Some? && metas[p - 1].Some? ==> p in ps
  {
    if k == 0 then []
    else KeptPositions(docs, metas, k - 1) + (if docs[k - 1].Some? && metas[k - 1].Some? then [k] else [])
  }

  function ZipLen(r: QueryResult): nat {
    Min(Min(|FirstList(r.documents)|, |FirstList(r.metadatas)|), |FirstList(r.distances)|)
  }

  predicate Kept(docs: seq<Option<string>>, metas: seq<Option<Meta>>, k: nat)
    requires k < |docs| && k < |metas|
  {
    docs[k].Some? && metas[k].Some?
  }

  /** The sources for the first `k` zipped entries: one per kept entry, in result order. */
  function SourcesUpTo(docs: seq<Option<string>>, metas: seq<Option<Meta>>, dists: seq<Option<real>>, k: nat): (ss: seq<RagSource>)
    requires k <= |docs| && k <= |metas| && k <= |dists|
  {
    if k == 0 then []
    else
      SourcesUpTo(docs, metas, dists, k - 1)
      + (if Kept(docs, metas, k - 1) then [SourceAt(k, metas[k - 1].value, dists[k - 1])] else [])
  }

  /** The context blocks for the first `k` zipped entries, one per source, in result order. */
  function BlocksUpTo(docs: seq<Option<string>>, metas: seq<Option<Meta>>, dists: seq<Option<real>>, k: nat): (bs: seq<string>)
    requires k <= |docs| && k <= |metas| && k <= |dists|
  {
    if k == 0 then []
    else
      BlocksUpTo(docs, metas, dists, k - 1)
      + (if Kept(docs, metas, k - 1) then [BlockOf(SourceAt(k, metas[k - 1].value, dists[k - 1]), docs[k - 1].value)] else [])
  }

  /** The j-th source is the entry at the j-th kept position: the sources are the kept entries, numbered by position. */
  lemma {:induction false} SourcesAtKeptPositions(docs: seq<Option<string>>, metas: seq<Option<Meta>>, dists: seq<Option<real>>, k: nat)
    requires k <= |docs| && k <= |metas| && k <= |dists|
    ensures var ss, ps := SourcesUpTo(docs, metas, dists, k), KeptPositions(docs, metas, k);
      |ss| == |ps| && forall j :: 0 <= j < |ps| ==> ss[j] == SourceAt(ps[j], metas[ps[j] - 1].value, dists[ps[j] - 1])
  {
    if k > 0 {
      SourcesAtKeptPositions(docs, metas, dists, k - 1);
    }
  }

  /** The sources `retrieve` reports for a store answer. */
  function SourcesOf(r: QueryResult): seq<RagSource> {
    SourcesUpTo(FirstList(r.documents), FirstList(r.metadatas), FirstList(r.distances), ZipLen(r))
  }

  /** The result blocks `retrieve` joins for a store answer. */
  function ResultBlocks(r: QueryResult): seq<string> {
    BlocksUpTo(FirstList(r.documents), FirstList(r.metadatas), FirstList(r.distances), ZipLen(r))
  }

  function ScreenBlock(screenBlock: string): string {
    "[SCREEN] Current screen context (may be partial):\n" + screenBlock + "\n"
  }

  /** All blocks joined into the context: the bounded screen block first when there is one. */
  function ContextBlocks(cfg: RagConfig, screenContent: string, r: QueryResult): seq<string> {
    var screenBlock := Trim(screenContent, cfg.maxScreenChars);
    (if screenBlock != "" then [ScreenBlock(screenBlock)] else []) + ResultBlocks(r)
  }

  /** `retrieve`'s store query: the inferred filter, the question and `top_k`. */
  function QueryFor(cfg: RagConfig, store: Store, question: string, context: string, screenContent: string): QueryResult {
    var (courseId, moduleId) := InferCourseAndModule(context, screenContent);
    store(question, cfg.topK, ChromaStore.WhereFilter(courseId, moduleId))
  }

  /** The smallest distance among the sources, None when there are none. */
  function MinDistance(ss: seq<RagSource>): (best: Option<real>)
    ensures best.None? <==> ss == []
    ensures best.Some? ==> (exists s <- ss :: s.distance == best.value) && forall s <- ss :: best.value <= s.distance
  {
    if ss == [] then None
    else
      var rest := MinDistance(ss[..|ss| - 1]);
      var last := ss[|ss| - 1];
      assert forall s <- ss :: s in ss[..|ss| - 1] || s == last;
      assert forall s <- ss[..|ss| - 1] :: s in ss;
      if rest.None? || last.distance < rest.value then Some(last.distance) else rest
  }

  lemma MinDistanceSnoc(ss: seq<RagSource>, s: RagSource)
    ensures var best := MinDistance(ss);
      MinDistance(ss + [s]) == if best.None? || s.distance < best.value then Some(s.distance) else best
  {
    assert (ss + [s])[..|ss|] == ss;
  }

  /**
   * The loop of `retrieve` over the zipped result: keeps the entries whose document and
   * metadata are present, numbers them by their 1-based position, builds one block per
   * source and tracks the smallest distance (999.0 standing for a missing one).
   */
  method CollectSources(docs: seq<Option<string>>, metas: seq<Option<Meta>>, dists: seq<Option<real>>, n: nat)
    returns (sources: seq<RagSource>, blocks: seq<string>, bestDistance: Option<real>)
    requires n <= |docs| && n <= |metas| && n <= |dists|
    ensures sources == SourcesUpTo(docs, metas, dists, n)
    ensures blocks == BlocksUpTo(docs, metas, dists, n)
    ensures bestDistance == MinDistance(sources)
  {
    sources := [];
    blocks := [];
    bestDistance := None;
    var i := 0;
    while i < n
      invariant 0 <= i <= n
      invariant sources == SourcesUpTo(docs, metas, dists, i)
      invariant blocks == BlocksUpTo(docs, metas, dists, i)
      invariant bestDistance == MinDistance(sources)
    {
      var doc, meta, dist := docs[i], metas[i], dists[i];
      if doc.Some? && meta.Some? {
        var distance := if dist.Some? then dist.value else MissingDistance;
        if bestDistance.None? || distance < bestDistance.value {
          bestDistance := Some(distance);
        }
        var src := SourceAt(i + 1, meta.value, dist);
        MinDistanceSnoc(sources, src);
        sources := sources + [src];
        blocks := blocks + [BlockOf(src, doc.value)];
      }
      i := i + 1;
    }
  }

  /**
   * `retrieve`: an empty question or a missing index gives ("", [], None). Otherwise
   * the loop over the zipped result keeps the entries whose document and metadata are
   * present, numbers them by their 1-based result position, tracks the smallest
   * distance (999.0 standing for a missing one) and builds one block per source; the
   * bounded screen block goes first, and the joined context is cut to `max_context_chars`.
   */
  method Retrieve(cfg: RagConfig, store: Store, hasIndex: bool, question: string, context: string, screenContent: string)
    returns (contextText: string, sources: seq<RagSource>, bestDistance: Option<real>)
    ensures question == "" || !hasIndex ==> contextText == "" && sources == [] && bestDistance == None
    ensures question != "" && hasIndex ==>
      var r := QueryFor(cfg, store, question, context, screenContent);
      sources == SourcesOf(r)
      && contextText == Trim(Join(ContextBlocks(cfg, screenContent, r), "\n\n"), cfg.maxContextChars)
    ensures bestDistance.None? <==> sources == []
    ensures bestDistance.Some? ==>
      (exists s <- sources :: s.distance == bestDistance.value) && forall s <- sources :: bestDistance.value <= s.distance
  {
    if question == "" || !hasIndex {
      return "", [], None;
    }
    var (courseId, moduleId) := InferCourseAndModule(context, screenContent);
    var where := ChromaStore.SafeWhereFilter(courseId, moduleId);
    var result := store(question, cfg.topK, where);
    var blocks;
    sources, blocks, bestDistance := CollectSources(FirstList(result.documents), FirstList(result.metadatas), FirstList(result.distances), ZipLen(result));
    assert result == QueryFor(cfg, store, question, context, screenContent);
    assert blocks == ResultBlocks(result);
    var screenBlock := Trim(screenContent, cfg.maxScreenChars);
    if screenBlock != "" {
      blocks := [ScreenBlock(screenBlock)] + blocks;
    } else {
      assert [] + blocks == blocks;
    }
    assert blocks == ContextBlocks(cfg, screenContent, result);
    contextText := Join(blocks, "\n\n");
    contextText := Trim(contextText, cfg.maxContextChars);
  }

  // ---------------------------------------------------------------------------
  // Properties of the assembled result

  lemma {:induction false} NatToStringInjective(a: nat, b: nat)
    requires NatToString(a) == NatToString(b)
    ensures a == b
    decreases a
  {
    var sa, sb := NatToString(a), NatToString(b);
    if a < 10 && b < 10 {
      assert "0123456789"[a] == sa[0] == sb[0] == "0123456789"[b];
    } else if a < 10 || b < 10 {
      assert false;
    } else {
      assert sa[|sa| - 1] == sb[|sb| - 1];
      assert "0123456789"[a % 10] == "0123456789"[b % 10];
      assert sa[..|sa| - 1] == NatToString(a / 10);
      assert sb[..|sb| - 1] == NatToString(b / 10);
      NatToStringInjective(a / 10, b / 10);
    }
  }

  /**
   * Source ids are "S" followed by the 1-based result position; positions only grow,
   * so the ids are pairwise distinct, and a skipped entry leaves its number unused.
   */
  lemma SourceIdsDistinct(r: QueryResult)
    ensures var ss := SourcesOf(r);
      forall j, j' :: 0 <= j < j' < |ss| ==> ss[j].sourceId != ss[j'].sourceId
  {
    var ss := SourcesOf(r);
    var ps := KeptPositions(FirstList(r.documents), FirstList(r.metadatas), ZipLen(r));
    SourcesAtKeptPositions(FirstList(r.documents), FirstList(r.metadatas), FirstList(r.distances), ZipLen(r));
    forall j, j' | 0 <= j < j' < |ss|
      ensures ss[j].sourceId != ss[j'].sourceId
    {
      if ss[j].sourceId == ss[j'].sourceId {
        assert NatToString(ps[j]) == ss[j].sourceId[1..];
        assert NatToString(ps[j']) == ss[j'].sourceId[1..];
        NatToStringInjective(ps[j], ps[j']);
      }
    }
  }

  /** The context is a prefix of the joined blocks, no longer than `max_context_chars`, and opens with the screen block when the bounded screen text is non-empty. */
  lemma ContextShape(cfg: RagConfig, screenContent: string, r: QueryResult)
    ensures var joined := Join(ContextBlocks(cfg, screenContent, r), "\n\n");
      var text := Trim(joined, cfg.maxContextChars);
      text == joined[..|text|] && (cfg.maxContextChars >= 0 ==> |text| <= cfg.maxContextChars)
    ensures var screenBlock := Trim(screenContent, cfg.maxScreenChars);
      screenBlock != "" ==> (ContextBlocks(cfg, screenContent, r)[0] == ScreenBlock(screenBlock)
        && (cfg.maxScreenChars >= 0 ==> |screenBlock| <= cfg.maxScreenChars))
  {
  }

  // ---------------------------------------------------------------------------
  // in_scope

  datatype ScopeReason =
    | EmptyMessage
    | ScreenPageIntent
    | KeywordMatch
    | NoIndexOrResults
    | RagDistanceOk(distance: real)
    | RagDistanceLow(distance: real)

  const PageIntentPhrases: seq<string> := [
    "this page", "current page", "on this page", "this screen", "what does this page",
    "what is on this page", "what this page contain", "summarize this page", "summarise this page",
    "explain this page", "what am i seeing", "what is this about"]

  const PlatformKeywords: seq<string> := [
    "signum", "signum learning", "platform", "this platform", "website", "app",
    "dashboard", "module", "lesson", "progress",
    "quiz", "coding challenge", "certificate", "nft", "solana", "phantom", "devnet",
    "anti-cheat", "assessment",
    "data structure", "data structures", "array", "linked list", "stack", "queue", "tree", "bst",
    "big o", "time complexity", "space complexity"]

  const MinScreenChars: nat := 80

  predicate PageIntent(msg: string, screenContent: string) {
    var screen := Strip(screenContent);
    screen != "" && |screen| >= MinScreenChars && ContainsAny(msg, PageIntentPhrases)
  }

  /**
   * `in_scope`: the first matching rule decides. An empty (after strip) message is in
   * scope; a page question with at least 80 characters of screen text is in scope; a
   * platform keyword is in scope; otherwise retrieval decides, failing closed when it
   * finds nothing, and admitting iff the best distance is within the threshold.
   */
  method InScope(cfg: RagConfig, store: Store, hasIndex: bool, message: string, context: string, screenContent: string)
    returns (inScope: bool, reason: ScopeReason)
    ensures var msg := Lower(Strip(message));
      && (msg == "" ==> inScope && reason == EmptyMessage)
      && (msg != "" && PageIntent(msg, screenContent) ==> inScope && reason == ScreenPageIntent)
      && (msg != "" && !PageIntent(msg, screenContent) && ContainsAny(msg, PlatformKeywords) ==>
            inScope && reason == KeywordMatch)
      && (msg != "" && !PageIntent(msg, screenContent) && !ContainsAny(msg, PlatformKeywords) ==>
            var best := if hasIndex then MinDistance(SourcesOf(QueryFor(cfg, store, message, context, screenContent))) else None;
            (best.None? ==> !inScope && reason == NoIndexOrResults)
            && (best.Some? ==> (inScope <==> best.value <= cfg.inScopeDistanceThreshold))
            && (best.Some? && inScope ==> reason == RagDistanceOk(best.value))
            && (best.Some? && !inScope ==> reason == RagDistanceLow(best.value)))
  {
    var msg := Lower(Strip(message));
    if msg == "" {
      return true, EmptyMessage;
    }
    var screen := Strip(screenContent);
    if screen != "" && |screen| >= MinScreenChars && ContainsAny(msg, PageIntentPhrases) {
      return true, ScreenPageIntent;
    }
    if ContainsAny(msg, PlatformKeywords) {
      return true, KeywordMatch;
    }
    assert message != "";
    var _, sources, bestDistance := Retrieve(cfg, store, hasIndex, message, context, screenContent);
    MinDistanceOfSources(sources, bestDistance);
    if bestDistance.None? {
      return false, NoIndexOrResults;
    }
    if bestDistance.value <= cfg.inScopeDistanceThreshold {
      return true, RagDistanceOk(bestDistance.value);
    }
    return false, RagDistanceLow(bestDistance.value);
  }

  /** The minimum of a source list is determined by the list alone. */
  lemma MinDistanceOfSources(ss: seq<RagSource>, best: Option<real>)
    requires best.None? <==> ss == []
    requires best.Some? ==> (exists s <- ss :: s.distance == best.value) && forall s <- ss :: best.value <= s.distance
    ensures best == MinDistance(ss)
  {
  }
}
