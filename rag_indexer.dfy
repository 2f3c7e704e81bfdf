/**
 * The indexer of the retrieval pipeline: stable chunk ids, the course id a path
 * implies, the per-chunk metadata of a file, and the counting loop that pushes
 * every file's chunks into the vector collection.
 */
module Indexer {
  import opened Prelude
  import opened Text
  import opened Paths
  import opened TextExtract
  import opened Chunking
  import ChromaStore
  import RagService

  datatype IndexedChunk = IndexedChunk(docId: string, text: string, metadata: map<string, string>)

  // ---------------------------------------------------------------------------
  // _stable_chunk_id

  /** The text that is hashed for a chunk id: `f"{source_path}::{chunk_index}"`. */
  function ChunkKey(path: string, index: nat): string {
    path + "::" + NatToString(index)
  }

  /** A hex digest function; the indexer uses SHA-1, which is not part of this model. */
  type Digest = string -> string

  /**
   * `_stable_chunk_id`: the digest of the path, two colons and the decimal index, so
   * equal (path, index) pairs always get equal ids.
   */
  function StableChunkId(sha1: Digest, path: string, index: nat): (id: string)
    ensures id == sha1(path + "::" + NatToString(index))
  {
    sha1(ChunkKey(path, index))
  }

  /** In a chunk key, the two characters after the path are colons and no later character is. */
  lemma KeyColons(p: string, i: nat)
    ensures var k := ChunkKey(p, i);
      k[|p|] == ':' && k[|p| + 1] == ':' && forall m :: |p| + 2 <= m < |k| ==> k[m] != ':'
  {
    var k := ChunkKey(p, i);
    var d := NatToString(i);
    forall m | |p| + 2 <= m < |k| ensures k[m] != ':' {
      assert k[m] == d[m - |p| - 2];
      assert d[m - |p| - 2] in d;
    }
  }

  /**
   * Distinct (path, index) pairs have distinct keys: the digits after the last
   * "::" contain no ':', so the key determines where the path ends.
   */
  lemma ChunkKeyInjective(p: string, i: nat, q: string, j: nat)
    requires ChunkKey(p, i) == ChunkKey(q, j)
    ensures p == q && i == j
  {
    var k := ChunkKey(p, i);
    KeyColons(p, i);
    KeyColons(q, j);
    if |p| != |q| {
      assert false;
    }
    assert p == k[..|p|] == q;
    assert NatToString(i) == k[|p| + 2..] == NatToString(j);
    RagService.NatToStringInjective(i, j);
  }

  /**
   * Two different chunks share an id only through a digest collision: their keys
   * differ, yet the digest maps both keys to the same value.
   */
  lemma ChunkIdsCollideOnlyByDigest(sha1: Digest, p: string, i: nat, q: string, j: nat)
    requires p != q || i != j
    requires StableChunkId(sha1, p, i) == StableChunkId(sha1, q, j)
    ensures ChunkKey(p, i) != ChunkKey(q, j)
    ensures sha1(ChunkKey(p, i)) == sha1(ChunkKey(q, j))
  {
    if ChunkKey(p, i) == ChunkKey(q, j) {
      ChunkKeyInjective(p, i, q, j);
    }
  }

  // ---------------------------------------------------------------------------
  // _infer_course_id_from_path

  const CoursesMarker := "/frontend/src/courses/"

  /**
   * `_infer_course_id_from_path`: with backslashes read as '/', the path segment
   * right after the first "/frontend/src/courses/" (possibly empty), or None when
   * the marker does not occur.
   */
  function InferCourseIdFromPath(path: string): (r: Option<string>)
    ensures var n := ReplaceChar(path, '\\', '/');
      r.None? <==> !Contains(n, CoursesMarker)
    ensures var n := ReplaceChar(path, '\\', '/');
      r.Some? ==> '/' !in r.value && exists i :: (
        && OccursAt(n, CoursesMarker, i)
        && (forall j :: 0 <= j < i ==> !OccursAt(n, CoursesMarker, j))
        && var rest := n[i + |CoursesMarker|..];
           |r.value| <= |rest| && rest[..|r.value|] == r.value
           && (|r.value| == |rest| || rest[|r.value|] == '/'))
  {
    var n := ReplaceChar(path, '\\', '/');
    ContainsAt(n, CoursesMarker);
    match FindFrom(n, CoursesMarker, 0)
    case None => None
    case Some(i) =>
      var rest := n[i + |CoursesMarker|..];
      var k := CharFreeLen(rest, '/');
      Some(rest[..k])
  }

  // ---------------------------------------------------------------------------
  // build_chunks_for_file

  /** Python's `a or b` on optional strings. */
  function OrElse(a: Option<string>, b: Option<string>): (r: Option<string>)
    ensures ChromaStore.Truthy(a) ==> r == a
    ensures !ChromaStore.Truthy(a) ==> r == b
  {
    if ChromaStore.Truthy(a) then a else b
  }

  /** The course id of a file: the extracted one when truthy, else the one its path implies. */
  function FileCourseId(path: string, doc: ExtractedDoc): Option<string> {
    OrElse(doc.courseId, InferCourseIdFromPath(path))
  }

  /** The title of a file's chunks: the extracted hint when truthy, else the base name. */
  function FileTitle(path: string, doc: ExtractedDoc): string {
    RagService.OrDefault(doc.titleHint, Basename(path))
  }

  /** The metadata of every chunk of a file. */
  function ChunkMetadata(path: string, title: string, courseId: Option<string>, moduleId: Option<string>): (m: map<string, string>)
    ensures "source_path" in m && m["source_path"] == ReplaceChar(path, '\\', '/') && '\\' !in m["source_path"]
    ensures "title" in m && m["title"] == title
    ensures "course_id" in m <==> ChromaStore.Truthy(courseId)
    ensures "course_id" in m ==> m["course_id"] == courseId.value
    ensures "module_id" in m <==> ChromaStore.Truthy(moduleId)
    ensures "module_id" in m ==> m["module_id"] == moduleId.value
    ensures m.Keys <= {"source_path", "title", "course_id", "module_id"}
  {
    var base := map["source_path" := ReplaceChar(path, '\\', '/'), "title" := title];
    var withCourse := if ChromaStore.Truthy(courseId) then base["course_id" := courseId.value] else base;
    if ChromaStore.Truthy(moduleId) then withCourse["module_id" := moduleId.value] else withCourse
  }

  /** `file_meta`: the course and module ids with "" for a missing one, and the title. */
  function FileMeta(title: string, courseId: Option<string>, moduleId: Option<string>): (m: map<string, string>)
    ensures m.Keys == {"course_id", "module_id", "title"}
    ensures m["course_id"] == (if courseId.Some? then courseId.value else "")
    ensures m["module_id"] == (if moduleId.Some? then moduleId.value else "")
    ensures m["title"] == title
  {
    map["course_id" := RagService.OrDefault(courseId, ""), "module_id" := RagService.OrDefault(moduleId, ""), "title" := title]
  }

  /** One indexed chunk per text chunk, in the same order, all with the same metadata. */
  function Entries(sha1: Digest, path: string, meta: map<string, string>, chunks: seq<TextChunk>): (es: seq<IndexedChunk>)
    ensures |es| == |chunks|
  {
    seq(|chunks|, i requires 0 <= i < |chunks| => IndexedChunk(StableChunkId(sha1, path, chunks[i].chunkIndex), chunks[i].text, meta))
  }

  lemma EntriesSnoc(sha1: Digest, path: string, meta: map<string, string>, chunks: seq<TextChunk>, c: TextChunk)
    ensures Entries(sha1, path, meta, chunks + [c])
      == Entries(sha1, path, meta, chunks) + [IndexedChunk(StableChunkId(sha1, path, c.chunkIndex), c.text, meta)]
  {
  }

  /** The indexed chunks of one file. */
  function FileEntries(sha1: Digest, path: string, doc: ExtractedDoc, chunks: seq<TextChunk>): (es: seq<IndexedChunk>)
    ensures |es| == |chunks|
  {
    Entries(sha1, path, ChunkMetadata(path, FileTitle(path, doc), FileCourseId(path, doc), doc.moduleId), chunks)
  }

  /** The loop of `build_chunks_for_file` over the text chunks of a file. */
  method IndexTextChunks(sha1: Digest, path: string, title: string, courseId: Option<string>, moduleId: Option<string>,
                         textChunks: seq<TextChunk>)
    returns (chunks: seq<IndexedChunk>)
    ensures chunks == Entries(sha1, path, ChunkMetadata(path, title, courseId, moduleId), textChunks)
  {
    chunks := [];
    ghost var meta := ChunkMetadata(path, title, courseId, moduleId);
    var i := 0;
    while i < |textChunks|
      invariant 0 <= i <= |textChunks|
      invariant chunks == Entries(sha1, path, meta, textChunks[..i])
    {
      var chunk := textChunks[i];
      var docId := StableChunkId(sha1, path, chunk.chunkIndex);
      var metadata := ChunkMetadata(path, title, courseId, moduleId);
      EntriesSnoc(sha1, path, meta, textChunks[..i], chunk);
      assert textChunks[..i + 1] == textChunks[..i] + [chunk];
      chunks := chunks + [IndexedChunk(docId, chunk.text, metadata)];
      i := i + 1;
    }
    assert textChunks[..i] == textChunks;
  }

  /** The chunks and file metadata `build_chunks_for_file` returns. */
  function FileIndex(cfg: RagService.RagConfig, sha1: Digest, markup: string -> string, path: string, raw: string)
    : (seq<IndexedChunk>, map<string, string>)
  {
    var doc := FileDoc(path, raw, markup);
    var chunks := ChunkSpec(doc.text, cfg.chunkWords, cfg.chunkOverlapWords);
    (FileEntries(sha1, path, doc, chunks), FileMeta(FileTitle(path, doc), FileCourseId(path, doc), doc.moduleId))
  }

  method BuildChunksForFile(cfg: RagService.RagConfig, sha1: Digest, markup: string -> string, path: string, raw: string)
    returns (chunks: seq<IndexedChunk>, fileMeta: map<string, string>)
    ensures (chunks, fileMeta) == FileIndex(cfg, sha1, markup, path, raw)
  {
    var extracted := ExtractFileText(path, raw, markup);
    var courseId := OrElse(extracted.courseId, InferCourseIdFromPath(path));
    var moduleId := extracted.moduleId;
    var titleHint := RagService.OrDefault(extracted.titleHint, Basename(path));
    var textChunks := ChunkTextWords(extracted.text, cfg.chunkWords, cfg.chunkOverlapWords);
    chunks := IndexTextChunks(sha1, path, titleHint, courseId, moduleId, textChunks);
    fileMeta := FileMeta(titleHint, courseId, moduleId);
  }

  /**
   * The chunk ids of a file are the digests of the keys (path, 0), (path, 1), ...,
   * in order; the keys are pairwise distinct, so a collision-free digest gives
   * pairwise distinct ids.
   */
  lemma FileChunkIds(cfg: RagService.RagConfig, sha1: Digest, markup: string -> string, path: string, raw: string)
    ensures var (es, _) := FileIndex(cfg, sha1, markup, path, raw);
      && (forall i :: 0 <= i < |es| ==> es[i].docId == sha1(ChunkKey(path, i)))
      && (forall i, j :: 0 <= i < j < |es| ==> ChunkKey(path, i) != ChunkKey(path, j))
  {
    var doc := FileDoc(path, raw, markup);
    ChunkShape(doc.text, cfg.chunkWords, cfg.chunkOverlapWords);
    forall i, j | 0 <= i < j
      ensures ChunkKey(path, i) != ChunkKey(path, j)
    {
      if ChunkKey(path, i) == ChunkKey(path, j) {
        ChunkKeyInjective(path, i, path, j);
      }
    }
  }

  /** A file with no words in its extracted text contributes no chunks. */
  lemma EmptyTextNoEntries(cfg: RagService.RagConfig, sha1: Digest, markup: string -> string, path: string, raw: string)
    requires Words(FileDoc(path, raw, markup).text) == []
    ensures FileIndex(cfg, sha1, markup, path, raw).0 == []
  {
    NoWordsNoChunks(FileDoc(path, raw, markup).text, cfg.chunkWords, cfg.chunkOverlapWords);
  }

  // ---------------------------------------------------------------------------
  // build_index: the counting loop

  /** A discovered file and what reading it gave: None when it could not be read. */
  datatype SourceRead = SourceRead(path: string, contents: Option<string>)

  /** The collection: document id to (document, metadata), as `upsert` leaves it. */
  type Collection = map<string, (string, map<string, string>)>

  /** The chunks a file contributes: none for an unreadable file. */
  function Batch(cfg: RagService.RagConfig, sha1: Digest, markup: string -> string, f: SourceRead): seq<IndexedChunk> {
    if f.contents.None? then [] else FileIndex(cfg, sha1, markup, f.path, f.contents.value).0
  }

  /** `collection.upsert`: each chunk, in order, inserts or replaces its id's entry. */
  function Upsert(c: Collection, batch: seq<IndexedChunk>): Collection
    decreases |batch|
  {
    if batch == [] then c
    else
      var last := batch[|batch| - 1];
      Upsert(c, batch[..|batch| - 1])[last.docId := (last.text, last.metadata)]
  }

  /**
   * After an upsert the collection holds exactly its old ids and the batch's ids,
   * and the last chunk of the batch is stored under its id.
   */
  lemma {:induction false} UpsertContents(c: Collection, batch: seq<IndexedChunk>)
    ensures Upsert(c, batch).Keys == c.Keys + (set e <- batch :: e.docId)
    ensures batch != [] ==> var last := batch[|batch| - 1];
      Upsert(c, batch)[last.docId] == (last.text, last.metadata)
    decreases |batch|
  {
    if batch != [] {
      var init := batch[..|batch| - 1];
      UpsertContents(c, init);
      assert forall e <- batch :: e in init || e == batch[|batch| - 1];
    }
  }

  /** Files counted so far: those whose batch is non-empty. */
  function CountedFiles(bs: seq<seq<IndexedChunk>>): (n: nat)
    ensures n <= |bs|
  {
    if bs == [] then 0 else CountedFiles(bs[..|bs| - 1]) + (if bs[|bs| - 1] != [] then 1 else 0)
  }

  /** Chunks counted so far: the total size of the batches. */
  function CountedChunks(bs: seq<seq<IndexedChunk>>): nat {
    if bs == [] then 0 else CountedChunks(bs[..|bs| - 1]) + |bs[|bs| - 1]|
  }

  /** The collection after upserting the non-empty batches in order. */
  function UpsertAll(c: Collection, bs: seq<seq<IndexedChunk>>): Collection {
    if bs == [] then c
    else
      var prev := UpsertAll(c, bs[..|bs| - 1]);
      if bs[|bs| - 1] == [] then prev else Upsert(prev, bs[|bs| - 1])
  }

  function Batches(cfg: RagService.RagConfig, sha1: Digest, markup: string -> string, files: seq<SourceRead>): (bs: seq<seq<IndexedChunk>>)
    ensures |bs| == |files|
  {
    seq(|files|, i requires 0 <= i < |files| => Batch(cfg, sha1, markup, files[i]))
  }

  /** One file's turn in `build_index`: an unreadable file gives no chunks. */
  method FileBatch(cfg: RagService.RagConfig, sha1: Digest, markup: string -> string, f: SourceRead)
    returns (chunks: seq<IndexedChunk>)
    ensures chunks == Batch(cfg, sha1, markup, f)
  {
    chunks := [];
    if f.contents.Some? {
      var fileMeta;
      chunks, fileMeta := BuildChunksForFile(cfg, sha1, markup, f.path, f.contents.value);
    }
  }

  /**
   * The loop of `build_index`: unreadable files and files without chunks are
   * skipped; every other file is upserted and counted, with its chunks.
   */
  method BuildIndex(cfg: RagService.RagConfig, sha1: Digest, markup: string -> string, files: seq<SourceRead>, collection: Collection)
    returns (totalFiles: nat, totalChunks: nat, updated: Collection)
    ensures var bs := Batches(cfg, sha1, markup, files);
      totalFiles == CountedFiles(bs) && totalChunks == CountedChunks(bs) && updated == UpsertAll(collection, bs)
  {
    ghost var bs := Batches(cfg, sha1, markup, files);
    totalFiles, totalChunks, updated := 0, 0, collection;
    var k := 0;
    while k < |files|
      invariant 0 <= k <= |files|
      invariant totalFiles == CountedFiles(bs[..k]) && totalChunks == CountedChunks(bs[..k])
      invariant updated == UpsertAll(collection, bs[..k])
    {
      totalFiles, totalChunks, updated := IndexTurn(cfg, sha1, markup, files, k, collection, totalFiles, totalChunks, updated);
      k := k + 1;
    }
    assert bs[..k] == bs;
  }

  /**
   * The body of the `build_index` loop for file `k`: a file with chunks is upserted and
   * counted with them, so the counts and the collection cover one more batch.
   */
  method IndexTurn(cfg: RagService.RagConfig, sha1: Digest, markup: string -> string, files: seq<SourceRead>, k: nat,
                   ghost collection: Collection, totalFiles: nat, totalChunks: nat, updated: Collection)
    returns (totalFiles': nat, totalChunks': nat, updated': Collection)
    requires k < |files|
    requires var bs := Batches(cfg, sha1, markup, files);
      totalFiles == CountedFiles(bs[..k]) && totalChunks == CountedChunks(bs[..k]) && updated == UpsertAll(collection, bs[..k])
    ensures var bs := Batches(cfg, sha1, markup, files);
      totalFiles' == CountedFiles(bs[..k + 1]) && totalChunks' == CountedChunks(bs[..k + 1])
      && updated' == UpsertAll(collection, bs[..k + 1])
  {
    ghost var bs := Batches(cfg, sha1, markup, files);
    var chunks := FileBatch(cfg, sha1, markup, files[k]);
    CountStep(bs, k, chunks, collection);
    totalFiles', totalChunks', updated' := totalFiles, totalChunks, updated;
    if chunks != [] {
      totalFiles' := totalFiles + 1;
      updated' := Upsert(updated, chunks);
      totalChunks' := totalChunks + |chunks|;
    }
  }

  /** Extending the prefix of batches by one batch extends the counts and the collection by it. */
  lemma CountStep(bs: seq<seq<IndexedChunk>>, k: nat, b: seq<IndexedChunk>, c: Collection)
    requires k < |bs| && bs[k] == b
    ensures CountedFiles(bs[..k + 1]) == CountedFiles(bs[..k]) + (if b != [] then 1 else 0)
    ensures CountedChunks(bs[..k + 1]) == CountedChunks(bs[..k]) + |b|
    ensures UpsertAll(c, bs[..k + 1]) == if b == [] then UpsertAll(c, bs[..k]) else Upsert(UpsertAll(c, bs[..k]), b)
  {
    assert bs[..k + 1][..k] == bs[..k];
  }

  /** Every counted file brings at least one chunk, and no chunks means no files. */
  lemma {:induction false} CountsAgree(bs: seq<seq<IndexedChunk>>)
    ensures CountedFiles(bs) <= CountedChunks(bs)
    ensures CountedFiles(bs) == 0 <==> CountedChunks(bs) == 0
  {
    if bs != [] {
      CountsAgree(bs[..|bs| - 1]);
    }
  }
}
