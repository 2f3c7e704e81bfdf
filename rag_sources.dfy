/**
 * Discovery of the files the retrieval index is built from: course files under
 * `frontend/src/courses` with a source or Markdown extension, then the fixed
 * project documents that exist, without repeated paths.
 */
module Sources {
  import opened Prelude
  import opened Text
  import opened Paths

  /** One file name reported by the directory walk, with the directory it was found in. */
  datatype WalkEntry = WalkEntry(dir: string, filename: string)

  /** The extensions kept from the course directory, compared lower-cased. */
  predicate IsCourseExt(ext: string) {
    ext == ".jsx" || ext == ".tsx" || ext == ".md" || ext == ".js" || ext == ".ts"
  }

  /** The explicit documents, in the order they are listed. */
  function DocPaths(repoRoot: string): (ps: seq<string>)
    ensures |ps| == 10
  {
    var backend := PathJoin(repoRoot, "backend");
    [ PathJoin(repoRoot, "README.md"), PathJoin(repoRoot, "AI_IMPLEMENTATION.md"),
      PathJoin(repoRoot, "BACKEND.md"), PathJoin(repoRoot, "FRONTEND.md"),
      PathJoin(repoRoot, "ANTI_CHEAT_SYSTEM.md"), PathJoin(repoRoot, "BLOCKCHAIN_CERTIFICATE_SYSTEM.md"),
      PathJoin(repoRoot, "DATABASE_SCHEMA.md"), PathJoin(repoRoot, "INTERACTIVE_LEARNING.md"),
      PathJoin(backend, "BACKEND_TESTING.md"), PathJoin(backend, "DOCKER_GUIDE.md") ]
  }

  /** The walk's files with a kept extension, as joined paths, in walk order. */
  function CourseFiles(walk: seq<WalkEntry>): (fs: seq<string>)
    ensures |fs| <= |walk|
  {
    if walk == [] then []
    else
      var e := walk[|walk| - 1];
      CourseFiles(walk[..|walk| - 1])
      + (if IsCourseExt(Lower(Extension(e.filename))) then [PathJoin(e.dir, e.filename)] else [])
  }

  /** The explicit documents that exist, in listed order. */
  function ExistingDocs(docs: seq<string>, existing: set<string>): (fs: seq<string>)
    ensures forall p <- fs :: p in docs && p in existing
  {
    if docs == [] then []
    else
      var last := docs[|docs| - 1];
      ExistingDocs(docs[..|docs| - 1], existing) + (if last in existing then [last] else [])
  }

  /** The list before de-duplication: course files (when the directory exists), then documents. */
  function Candidates(repoRoot: string, isDir: bool, walk: seq<WalkEntry>, existing: set<string>): seq<string> {
    (if isDir then CourseFiles(walk) else []) + ExistingDocs(DocPaths(repoRoot), existing)
  }

  predicate NoDup<T(==)>(s: seq<T>) {
    forall i, j :: 0 <= i < j < |s| ==> s[i] != s[j]
  }

  /** The first occurrence of every element, in the order of first occurrence. */
  function Dedupe<T(==)>(s: seq<T>): (d: seq<T>)
    ensures forall x <- d :: x in s
    ensures NoDup(d)
  {
    if s == [] then []
    else
      var p := Dedupe(s[..|s| - 1]);
      var last := s[|s| - 1];
      if last in p then p else p + [last]
  }

  /** Nothing is lost: every element of the list is kept once. */
  lemma {:induction false} DedupeKeepsAll<T>(s: seq<T>)
    ensures forall x <- s :: x in Dedupe(s)
  {
    if s != [] {
      var init := s[..|s| - 1];
      DedupeKeepsAll(init);
      assert forall x <- s :: x in init || x == s[|s| - 1];
    }
  }

  /**
   * Order of first occurrence: de-duplicating any prefix of the list gives a prefix
   * of the de-duplicated list, so an element that first occurs earlier comes earlier.
   */
  lemma {:induction false} DedupeOfPrefix<T>(s: seq<T>, n: nat)
    requires n <= |s|
    ensures Dedupe(s[..n]) <= Dedupe(s)
    decreases |s| - n
  {
    if n < |s| {
      var init := s[..|s| - 1];
      DedupeOfPrefix(init, n);
      assert init[..n] == s[..n];
    } else {
      assert s[..n] == s;
    }
  }

  /** A list that has no repeats is its own de-duplication. */
  lemma {:induction false} DedupeOfDistinct<T>(s: seq<T>)
    requires NoDup(s)
    ensures Dedupe(s) == s
  {
    if s != [] {
      var init := s[..|s| - 1];
      DedupeOfDistinct(init);
      assert s[|s| - 1] !in init;
      assert init + [s[|s| - 1]] == s;
    }
  }

  /** The set of elements of a sequence. */
  function Elems<T>(s: seq<T>): set<T> {
    set x <- s
  }

  /** The walk of the course directory, keeping files with a course extension. */
  method CollectCourseFiles(walk: seq<WalkEntry>) returns (files: seq<string>)
    ensures files == CourseFiles(walk)
  {
    files := [];
    var i := 0;
    while i < |walk|
      invariant 0 <= i <= |walk|
      invariant files == CourseFiles(walk[..i])
    {
      var e := walk[i];
      assert walk[..i + 1][..i] == walk[..i];
      if IsCourseExt(Lower(Extension(e.filename))) {
        files := files + [PathJoin(e.dir, e.filename)];
      }
      i := i + 1;
    }
    assert walk[..i] == walk;
  }

  /** The loop over the explicit documents, appending those that exist. */
  method AppendExistingDocs(files: seq<string>, docs: seq<string>, existing: set<string>) returns (out: seq<string>)
    ensures out == files + ExistingDocs(docs, existing)
  {
    out := files;
    var j := 0;
    while j < |docs|
      invariant 0 <= j <= |docs|
      invariant out == files + ExistingDocs(docs[..j], existing)
    {
      assert docs[..j + 1][..j] == docs[..j];
      if docs[j] in existing {
        out := out + [docs[j]];
      }
      j := j + 1;
    }
    assert docs[..j] == docs;
  }

  /** The de-duplication loop: a path is appended the first time it is seen. */
  method DedupePaths(files: seq<string>) returns (deduped: seq<string>)
    ensures deduped == Dedupe(files)
  {
    var seen: set<string> := {};
    deduped := [];
    var k := 0;
    while k < |files|
      invariant 0 <= k <= |files|
      invariant deduped == Dedupe(files[..k])
      invariant seen == Elems(deduped)
    {
      var f := files[k];
      assert files[..k + 1][..k] == files[..k];
      if f !in seen {
        seen := seen + {f};
        deduped := deduped + [f];
      }
      k := k + 1;
    }
    assert files[..k] == files;
  }

  /**
   * `discover_source_files`: the course files (when the directory exists), then the
   * explicit documents that exist, without repeated paths.
   */
  method DiscoverSourceFiles(repoRoot: string, isDir: bool, walk: seq<WalkEntry>, existing: set<string>)
    returns (deduped: seq<string>)
    ensures deduped == Dedupe(Candidates(repoRoot, isDir, walk, existing))
  {
    var files: seq<string> := [];
    if isDir {
      files := CollectCourseFiles(walk);
    }
    files := AppendExistingDocs(files, DocPaths(repoRoot), existing);
    deduped := DedupePaths(files);
  }

  /** What the discovery returns: no path twice, and exactly the candidate paths. */
  lemma DiscoveredFiles(repoRoot: string, isDir: bool, walk: seq<WalkEntry>, existing: set<string>)
    ensures var c := Candidates(repoRoot, isDir, walk, existing);
      NoDup(Dedupe(c)) && (forall p <- Dedupe(c) :: p in c) && (forall p <- c :: p in Dedupe(c))
  {
    DedupeKeepsAll(Candidates(repoRoot, isDir, walk, existing));
  }

  /** Path `p` is the joined path of walk entry `e`, whose file name has a course extension. */
  predicate KeptFrom(p: string, e: WalkEntry) {
    IsCourseExt(Lower(Extension(e.filename))) && p == PathJoin(e.dir, e.filename)
  }

  /** Every kept course file comes from a walk entry with a course extension. */
  lemma {:induction false} CourseFilesFromWalk(walk: seq<WalkEntry>)
    ensures forall p <- CourseFiles(walk) :: exists e <- walk :: KeptFrom(p, e)
  {
    if walk != [] {
      var init := walk[..|walk| - 1];
      CourseFilesFromWalk(init);
      CourseFilesLast(walk);
      assert forall x <- init :: x in walk;
    }
  }

  /** A kept course file comes from the earlier entries or from the last one. */
  lemma CourseFilesLast(walk: seq<WalkEntry>)
    requires walk != []
    ensures forall p <- CourseFiles(walk) ::
      p in CourseFiles(walk[..|walk| - 1]) || KeptFrom(p, walk[|walk| - 1])
  {
  }

  /** Every walk entry with a course extension gives a kept course file. */
  lemma {:induction false} CourseFilesComplete(walk: seq<WalkEntry>)
    ensures forall e <- walk :: IsCourseExt(Lower(Extension(e.filename))) ==> PathJoin(e.dir, e.filename) in CourseFiles(walk)
  {
    if walk != [] {
      var init := walk[..|walk| - 1];
      CourseFilesComplete(init);
      assert forall e <- walk :: e in init || e == walk[|walk| - 1];
    }
  }
}
