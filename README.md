# Learning-platform core in Dafny

This project models the decision logic of a course platform: a web front end with interactive
data-structure visualisers, a Python back end that scores quizzes and coding challenges and
answers course questions through retrieval-augmented generation (RAG), and a Solana program that
mints course certificates. Each source file of the core has its own Dafny module, in the source's
own form. Pure logic is written as functions and lemmas. Loops are methods with invariants. Stateful
services and React components are classes whose methods change their fields. The Firestore
collections such a class writes are `map` fields keyed by document id. The `course_progress`
collection belongs to `ProgressRepo.ProgressRepository`, and `SimpleProgress.UserProgressService`
holds that repository and writes into its documents, so one document type serves both services.

- **Retrieval (RAG).** `Chunking`, `RagService`, `ChromaStore`, `Indexer`, `TextExtract` and
  `Sources` cover the sliding word window, the scope gate, result assembly, the `where` filter,
  chunk ids and metadata, text normalisation and title hints, and file discovery with
  de-duplication. The vector store and the embeddings are an abstract query result.
- **Assessment.** `CodingEvaluation`, `CodeAnalysis`, `QuizBank`, `AssessmentQuiz`, `QuizSubmission`,
  `CodingService`, `AntiCheat`, `ProgressRepo`, `AssessmentRepo`, `UserRepo` and `SimpleProgress`
  cover scoring, penalties, feedback bands, quiz grading under both pass marks, progressive
  blocking, the progress, submission, block and user documents, and the three certification
  rules. The three rules are kept apart, as in the code.
- **Certificates.** `Certificate` covers the minting guards (quiz at least 85, completion at least
  90), the final score `(70q + 30c) / 100` computed in 16-bit arithmetic, the fields of the
  certificate account and verification.
- **Front end.** `CourseConfig` and `ProgressContext` cover module exclusion, the completion
  percentage, the final exam score and the certification gate. `ArrayOperations` and
  `DataStructureOperations` are the trace generators. `StackVisualization`, `QueueVisualization`,
  `Array1DVisualization`, `Array2DVisualization`, `TreeVisualization`,
  `SinglyLinkedListVisualization` and `DoublyLinkedListVisualization` are the visualiser
  components. A component's state is a class whose handler methods change it, and the
  algorithms each handler animates are proved against specification functions. Proved
  algorithms include the circular-buffer queue with FIFO order, the binary search tree (insert,
  delete by in-order successor, traversals), in-place reverse and bubble sort with permutation
  and sortedness, and the matrix transpose, rotation and spiral.
- **Helpers.** `Prelude` (Option and small arithmetic), `Text` (whitespace stripping, lower
  case, words, decimal printing), `Paths`, `AttrMatch` (the `courseId="…"` matches) and
  `Ordering` (newest-first sorting).

Proving natural contracts brought out several behaviours of the code that look unintended. Each
is modelled as written and stated as a lemma:

- `CourseConfig.RepeatsCountAgain`: a completed module listed twice counts twice, so the
  percentage can pass 100.
- `QuizSubmission.PassMarksDiffer` and `QuizSubmission.AssessmentFailsFourOfFive`: the two quiz
  services use different pass marks (70 and 85).
- `SimpleProgress.StricterThanRepositoryRule`: the simple progress service's eligibility rule is
  stricter than the progress repository's.
- `SimpleProgress.SyncUndoesCodingPass`: the front end syncs its learning modules through
  `sync_course_progress`, which replaces the whole progress document. That drops the quiz and
  coding records and the `coding-challenge` entry that the progress repository merges in, so a
  passed coding challenge no longer counts for either eligibility rule.
- `CodingEvaluation.NegativePastesGiveFullScore`: the anti-cheat counters are not checked for sign,
  so a negative paste count raises the score, up to 100 with every test failed.
- `ArrayOperations.BinarySearchMissesTie`: with a comparator under which two different strings
  compare equal, binary search can miss a present target.
- `Array1DVisualization.ReverseAndCommit` and `Array1DVisualization.BubbleSortAndCommit`: the
  reverse and bubble-sort handlers store as the view's base the very array their trace generator
  then reverses or sorts in place, and the only commit runs on a last step that carries a swap.
  Reverse therefore writes back the cells unchanged (["B", "A"] stays ["B", "A"]), or commits
  nothing for an odd length; bubble sort ends on "Sorting complete!", which carries no swap, so it
  never commits. `ReverseOnCopyAndCommit` and `BubbleSortOnCopyAndCommit` state what a base left
  untouched gives: the cells reversed, and a sorted permutation of them.

## Model

| member | source | states |
|---|---|---|
| Chunking.TokenizeWords | backend/app/services/ai/rag/chunking.py:13-15 | every token is a non-empty run of non-space characters |
| Chunking.EffectiveChunkWords | backend/app/services/ai/rag/chunking.py:23-24 | a non-positive window size becomes 400, a positive one is kept |
| Chunking.EffectiveOverlap | backend/app/services/ai/rag/chunking.py:25 | the overlap is clamped into [0, window // 2], so it is always smaller than the window |
| Chunking.ChunkTextWords | backend/app/services/ai/rag/chunking.py:18-41 | the while loop over `start` returns exactly the specified chunk list: one chunk per window, numbered in order |
| Chunking.ChunkTurn | backend/app/services/ai/rag/chunking.py:31-35 | one pass of the loop appends the next window's joined words as the next numbered chunk, so the chunks stay those of the windows taken so far; a window never joins to blank text |
| Chunking.WindowsBounded | backend/app/services/ai/rag/chunking.py:30-31 | every window is a non-empty run of at most `chunk_words` words |
| Chunking.WindowsCover | backend/app/services/ai/rag/chunking.py:28-39 | the first window starts at the first word and the last one ends at the final word |
| Chunking.WindowsOverlap | backend/app/services/ai/rag/chunking.py:31-39 | each later window starts with the last `overlap` words of the full window before it |
| Chunking.LaterWindowsExceedOverlap | backend/app/services/ai/rag/chunking.py:31-39 | every window after the first is longer than the overlap, so each step adds a new word and the loop ends |
| Chunking.WindowsReassemble | backend/app/services/ai/rag/chunking.py:28-39 | the first window followed by the new words of each later window is exactly the word list: no word is lost or repeated beyond the overlap |
| Chunking.WindowsAreSlices | backend/app/services/ai/rag/chunking.py:31-32 | every word of a window is a word of the text |
| Chunking.ChunkWords | backend/app/services/ai/rag/chunking.py:32-34 | the words of chunk i are exactly window i (joining and stripping lose nothing) |
| Chunking.NoWordsNoChunks | backend/app/services/ai/rag/chunking.py:19-21 | text without words yields no chunks |
| Chunking.ChunkShape | backend/app/services/ai/rag/chunking.py:19-39 | no chunks iff no words; `chunk_index` is 0,1,2,… in order; each chunk has 1 to `chunk_words` words; the first starts the text and the last ends it |
| Chunking.ChunksOverlap | backend/app/services/ai/rag/chunking.py:25-39 | consecutive chunks share exactly the clamped overlap |
| Chunking.ChunksReassemble | backend/app/services/ai/rag/chunking.py:18-41 | the chunks' words with each later overlap removed are the tokenised text |
| RagService.Trim | backend/app/services/ai/rag/rag_service.py:20-22 | `_trim` is a prefix of its input; for n ≥ 0 its length is min(len, n), for negative n it drops the last -n characters (Python slicing) |
| RagService.InferCourseAndModule | backend/app/services/ai/rag/rag_service.py:25-44 | a context naming "data structures"/"data-structures" (any case) selects that course and no module; otherwise the first `courseId="…"` and `moduleId="…"` attributes of the screen text, each None when absent |
| RagService.AttrsAreNonEmpty | backend/app/services/ai/rag/rag_service.py:34-41 | an attribute the pattern finds is never empty, so a found id is always truthy and the `course_id or module_id` test is the same as "some id was found" |
| RagService.InferredIdsComeFromInputs | backend/app/services/ai/rag/rag_service.py:25-44 | every inferred id is the fixed course or an attribute literally present in the screen text |
| RagService.KeptPositions | backend/app/services/ai/rag/rag_service.py:104-106 | the 1-based positions kept by the loop are increasing and are exactly those whose document and metadata are present |
| RagService.SourcesAtKeptPositions | backend/app/services/ai/rag/rag_service.py:104-116 | the j-th source is built from the j-th kept entry and is numbered "S" + its 1-based position, so skipped entries leave gaps |
| RagService.MinDistance | backend/app/services/ai/rag/rag_service.py:108-110 | the best distance is None iff there are no sources, and otherwise a source's distance that no source undercuts |
| RagService.CollectSources | backend/app/services/ai/rag/rag_service.py:99-120 | the loop's sources, blocks and best distance equal the specified kept entries, their blocks, and their minimum distance (999.0 for a missing one) |
| RagService.Retrieve | backend/app/services/ai/rag/rag_service.py:66-130 | an empty question or a missing index gives ("", [], None); otherwise the sources of the filtered query, the joined blocks (screen block first) cut to `max_context_chars`, and the minimum distance over the sources |
| RagService.SourceIdsDistinct | backend/app/services/ai/rag/rag_service.py:104-115 | source ids are pairwise distinct |
| RagService.ContextShape | backend/app/services/ai/rag/rag_service.py:122-128 | the context is a prefix of the joined blocks no longer than `max_context_chars`, and starts with the bounded screen block when that is non-empty |
| RagService.InScope | backend/app/services/ai/rag/rag_service.py:132-189 | first match decides: empty message → in scope; page-intent phrase with ≥ 80 characters of screen → in scope; platform keyword → in scope; else no best distance → out (fails closed), and otherwise in scope iff best distance ≤ threshold, with the matching reason |
| RagService.MinDistanceOfSources | backend/app/services/ai/rag/rag_service.py:102-110 | any value with the minimum's two properties is the minimum, so the loop's running minimum is determined by the sources alone |
| ChromaStore.WhereFilter | backend/app/services/ai/rag/chroma_store.py:80-86 | the filter has a `course_id`/`module_id` key exactly for each truthy argument, holding its value, and is None instead of an empty dict |
| ChromaStore.SafeWhereFilter | backend/app/services/ai/rag/chroma_store.py:80-86 | the conditional key insertions build exactly that filter |
| Indexer.StableChunkId | backend/app/services/ai/rag/indexer.py:22-24 | the id is the digest of the text `<path>::<decimal index>`, so it depends on the path and the index alone |
| Indexer.KeyColons | backend/app/services/ai/rag/indexer.py:23 | in a chunk key the two characters after the path are colons and the index digits contain none |
| Indexer.ChunkKeyInjective | backend/app/services/ai/rag/indexer.py:22-24 | distinct (path, index) pairs have distinct keys, so ids differ unless the digest collides |
| Indexer.ChunkIdsCollideOnlyByDigest | backend/app/services/ai/rag/indexer.py:22-24 | two different (path, index) pairs share a chunk id only when the digest maps their two distinct keys to one value |
| Indexer.InferCourseIdFromPath | backend/app/services/ai/rag/indexer.py:27-36 | with backslashes read as '/', None iff the marker "/frontend/src/courses/" is absent, otherwise the (possibly empty) segment right after its first occurrence |
| Indexer.OrElse | backend/app/services/ai/rag/indexer.py:42 | Python's `a or b`: the first value when truthy, else the second |
| Indexer.ChunkMetadata | backend/app/services/ai/rag/indexer.py:51-58 | chunk metadata has the slash-normalised path and the title, plus `course_id`/`module_id` exactly when truthy, and no other key |
| Indexer.FileMeta | backend/app/services/ai/rag/indexer.py:62-66 | the file metadata has exactly the keys course_id, module_id and title, with "" for an absent id |
| Indexer.IndexTextChunks | backend/app/services/ai/rag/indexer.py:48-60 | the loop yields one indexed chunk per text chunk, in order, with its stable id, its text and the file's metadata |
| Indexer.BuildChunksForFile | backend/app/services/ai/rag/indexer.py:39-67 | returns the specified chunks and file metadata: extracted course id or the path's, extracted title or the base name |
| Indexer.FileChunkIds | backend/app/services/ai/rag/indexer.py:49-50 | chunk i of a file has the id of key (path, i), and the keys of a file's chunks are pairwise distinct |
| Indexer.EmptyTextNoEntries | backend/app/services/ai/rag/indexer.py:49-92 | a file whose extracted text has no words yields no chunks, so `build_index` skips it |
| Indexer.UpsertContents | backend/app/services/ai/rag/indexer.py:96-100 | after an upsert the collection holds its old ids plus the batch's ids, and the batch's last entry is stored under its id |
| Indexer.BuildIndex | backend/app/services/ai/rag/indexer.py:80-103 | unreadable files and files without chunks are skipped; "files" counts the files with chunks, "chunks" sums their chunk counts, and the collection receives every such batch in order |
| Indexer.IndexTurn | backend/app/services/ai/rag/indexer.py:84-100 | one turn of the loop extends the file count, the chunk count and the collection from the batches before the file to the batches up to and including it |
| Indexer.FileBatch | backend/app/services/ai/rag/indexer.py:84-90 | an unreadable file contributes no chunks; a readable one contributes its chunks |
| Indexer.CountStep | backend/app/services/ai/rag/indexer.py:91-101 | one file's turn adds 1 to "files" and its chunk count to "chunks" exactly when it has chunks |
| Indexer.CountsAgree | backend/app/services/ai/rag/indexer.py:91-101 | "files" never exceeds "chunks", and one is 0 iff the other is |
| TextExtract.ReplaceCrLf | backend/app/services/ai/rag/text_extract.py:24 | replacing "\r\n" introduces no new character |
| TextExtract.SubTabRuns | backend/app/services/ai/rag/text_extract.py:26 | after the substitution no tab, form feed or vertical tab is left, and only spaces were added |
| TextExtract.CollapseSpaces | backend/app/services/ai/rag/text_extract.py:27 | after the substitution no two spaces are adjacent, and nothing but spaces was removed from the front |
| TextExtract.CapNewlines | backend/app/services/ai/rag/text_extract.py:28 | after the substitution no three newlines are adjacent, and the step keeps the no-double-space property |
| TextExtract.Normalize | backend/app/services/ai/rag/text_extract.py:23-29 | normalised text has no carriage return, no tab-like character, no two adjacent spaces, no three adjacent newlines and no surrounding whitespace |
| TextExtract.SplitOn | backend/app/services/ai/rag/text_extract.py:66-79 | `split("\n")` gives at least one piece and no piece contains the separator |
| TextExtract.JoinSplitOn | backend/app/services/ai/rag/text_extract.py:66-79 | joining the pieces with the separator gives the text back |
| TextExtract.FirstLongLine | backend/app/services/ai/rag/text_extract.py:66-70 | the hint is None iff every stripped line is shorter than 8, and otherwise the first stripped line of length ≥ 8 |
| TextExtract.JsxTitleHint | backend/app/services/ai/rag/text_extract.py:64-70 | the loop with `break` returns that first long stripped line |
| TextExtract.ExtractFromJsx | backend/app/services/ai/rag/text_extract.py:32-72 | the JSX document: the first courseId/moduleId attributes, normalised text and a title hint of at least 8 characters |
| TextExtract.LStripHashes | backend/app/services/ai/rag/text_extract.py:81 | `lstrip("#")` is a suffix of the line that does not start with '#' |
| TextExtract.MarkdownTitle | backend/app/services/ai/rag/text_extract.py:78-83 | the hint is None iff no line is a heading; a non-empty hint is the text of the first heading with non-empty text; "" only when every heading's text is empty |
| TextExtract.MarkdownTitleHint | backend/app/services/ai/rag/text_extract.py:78-83 | the loop, which keeps assigning until a non-empty heading text, returns that hint |
| TextExtract.ExtractFromMarkdown | backend/app/services/ai/rag/text_extract.py:75-85 | the markdown document: normalised text, no course or module id, the heading hint |
| TextExtract.ExtractFileText | backend/app/services/ai/rag/text_extract.py:88-95 | dispatch on the lower-cased extension: markdown, script (JSX), otherwise plain normalised text without ids or hint |
| Paths.Basename | backend/app/services/ai/rag/indexer.py:46 | `os.path.basename`: the part after the last '/', with no '/' in it |
| Paths.Extension | backend/app/services/ai/rag/text_extract.py:89 | `os.path.splitext(p)[1]`: "" or a dot followed by no dot, ending the base name |
| Paths.PathJoin | backend/app/services/ai/rag/sources.py:46 | the joined path starts with the directory and ends with the file name |
| AttrMatch.AttrAt | backend/app/services/ai/rag/rag_service.py:34-35 | a match of `key="([^"]+)"` at a position has exactly the non-empty, quote-free value written there |
| AttrMatch.FirstAttr | backend/app/services/ai/rag/rag_service.py:34-38 | `re.search` returns the group of the leftmost match, None when there is none |
| Sources.DocPaths | backend/app/services/ai/rag/sources.py:24-34 | ten explicit document paths are listed |
| Sources.CourseFiles | backend/app/services/ai/rag/sources.py:42-46 | the walk keeps at most one path per walked file |
| Sources.ExistingDocs | backend/app/services/ai/rag/sources.py:49-51 | only listed documents that exist are appended |
| Sources.Dedupe | backend/app/services/ai/rag/sources.py:53-60 | the de-duplicated list has no repeats and only listed paths |
| Sources.DedupeKeepsAll | backend/app/services/ai/rag/sources.py:53-60 | no path is lost by de-duplication |
| Sources.DedupeOfPrefix | backend/app/services/ai/rag/sources.py:53-60 | order of first occurrence is kept: de-duplicating a prefix gives a prefix of the result |
| Sources.DedupeOfDistinct | backend/app/services/ai/rag/sources.py:53-60 | a list without repeats is unchanged |
| Sources.CollectCourseFiles | backend/app/services/ai/rag/sources.py:40-46 | the walk loop keeps exactly the files with a course extension, joined to their directory, in walk order |
| Sources.AppendExistingDocs | backend/app/services/ai/rag/sources.py:49-51 | the loop appends the existing explicit documents, in listed order, after the course files |
| Sources.DedupePaths | backend/app/services/ai/rag/sources.py:53-62 | the `seen`-set loop returns the specified de-duplication |
| Sources.DiscoverSourceFiles | backend/app/services/ai/rag/sources.py:13-62 | course files when the directory exists, then the existing documents, without repeats |
| Sources.DiscoveredFiles | backend/app/services/ai/rag/sources.py:13-62 | the result has no repeated path and holds exactly the candidate paths |
| Sources.CourseFilesFromWalk | backend/app/services/ai/rag/sources.py:42-46 | every kept course file comes from a walked file with a kept extension |
| Sources.CourseFilesComplete | backend/app/services/ai/rag/sources.py:42-46 | every walked file with a kept extension is kept |
| CodingEvaluation.FindProblem | backend/app/services/ai/coding_evaluation_service.py:19-40 | the problem table knows exactly "factorial", with its ten test cases |
| CodingEvaluation.LanguageConfigFor | backend/app/services/ai/coding_evaluation_service.py:43-60 | exactly python, java, cpp and c have a configuration, each for its own language |
| CodingEvaluation.ExecuteCode | backend/app/services/ai/coding_evaluation_service.py:183-198 | an unsupported language is answered ("", error "Unsupported language: …") without calling the executor; otherwise the executor's answer for the configuration |
| CodingEvaluation.UnsupportedLanguageNotExecuted | backend/app/services/ai/coding_evaluation_service.py:195-196 | for an unsupported language the answer does not depend on the executor |
| CodingEvaluation.TestResultOf | backend/app/services/ai/coding_evaluation_service.py:146-179 | test i is numbered i + 1 and passes iff an output came back and its stripped form equals the stripped expected output |
| CodingEvaluation.ResultsUpTo | backend/app/services/ai/coding_evaluation_service.py:137-181 | the first n records are, position by position, the record of test i built from the executor's answer for that test's input |
| CodingEvaluation.TestResults | backend/app/services/ai/coding_evaluation_service.py:137-181 | one record per test case, in order, numbered from 1, with its input |
| CodingEvaluation.RunTestCases | backend/app/services/ai/coding_evaluation_service.py:137-181 | the loop appends exactly the specified record for every test case |
| CodingEvaluation.TestPassedIff | backend/app/services/ai/coding_evaluation_service.py:155-158 | a test passes iff its stripped actual output equals its stripped expected output |
| CodingEvaluation.FactorialExpectedNonBlank | backend/app/services/ai/coding_evaluation_service.py:23-34 | no expected factorial output is blank |
| CodingEvaluation.UnsupportedLanguageFailsAll | backend/app/services/ai/coding_evaluation_service.py:155-196 | with an unsupported language every test with a non-blank expected output fails |
| CodingEvaluation.PassedCount | backend/app/services/ai/coding_evaluation_service.py:96 | the count is at most the number of tests; it equals it iff all pass and is 0 iff none passes |
| CodingEvaluation.Penalty | backend/app/services/ai/coding_evaluation_service.py:254-273 | on any whole-number counters, negative ones included: the penalty is at most 50, 0 without data or with an empty mapping, and at most 2·tabs + 5·copies + 10·pastes; with non-negative counters it is never negative and at least 40 from five pastes on |
| CodingEvaluation.PenaltyShares | backend/app/services/ai/coding_evaluation_service.py:259-273 | a lone counter, of either sign, gives exactly its capped share (min(2t, 20), min(5c, 30), min(10p, 40)); with non-negative counters each share bounds the penalty from below; all three caps together give 50 |
| CodingEvaluation.NegativeCounterInflatesScore | backend/app/services/ai/coding_evaluation_service.py:256-273 | counters are not checked for sign: a lone negative paste count v gives the penalty 10·v < 0, and the final score 10·passed − 10·v then exceeds the test score |
| CodingEvaluation.PenaltyMonotone | backend/app/services/ai/coding_evaluation_service.py:259-273 | more violations of each kind never lower the penalty |
| CodingEvaluation.FinalScore | backend/app/services/ai/coding_evaluation_service.py:97-104 | the score is the test score 10·passed less the penalty when the penalty does not exceed it, and 0 exactly when it does; it is at most the test score for a non-negative penalty and above it for a negative one |
| CodingEvaluation.BandOf | backend/app/services/ai/coding_evaluation_service.py:307-315 | "Excellent" iff the score is ≥ 90, and at least "Passing" iff it is ≥ 50 |
| CodingEvaluation.BandMonotone | backend/app/services/ai/coding_evaluation_service.py:307-315 | a higher score never gets a lower band |
| CodingEvaluation.FeedbackLines | backend/app/services/ai/coding_evaluation_service.py:275-317 | 8 feedback lines, 9 with a penalty line; the first reports passed/total and the last the band message |
| CodingEvaluation.EvaluateSubmission | backend/app/services/ai/coding_evaluation_service.py:65-135 | an unknown problem is refused with "Invalid problem ID"; otherwise the ten factorial results, the penalty of the anti-cheat data and the final score of the passed count and that penalty; with non-negative counters the score is at most 100, and 100 iff all tests pass with no penalty |
| CodingEvaluation.InvalidProblemRunsNoTests | backend/app/services/ai/coding_evaluation_service.py:86-88 | an unknown problem is refused whatever the executor would do, so no test runs |
| CodingEvaluation.NegativePastesGiveFullScore | backend/app/services/ai/coding_evaluation_service.py:65-135 | a submission that fails all ten tests scores 100, with penalty −100, when the client reports `paste_attempts` = −10 |
| CodingEvaluation.RunCodeOnly | backend/app/services/ai/coding_evaluation_service.py:319-352 | an unknown problem is refused; otherwise only the first test's input "0" is executed, and the run fails iff a non-empty error came back |
| CodingEvaluation.RunCodeOnlyUsesFirstTest | backend/app/services/ai/coding_evaluation_service.py:326-332 | executors that agree on the first input give the same reply |
| CodeAnalysis.PassedCount | backend/app/services/ai/code_analysis_service.py:100-101 | the count is at most the number of tests; it equals it iff all pass and is 0 iff none passes |
| CodeAnalysis.Truncate | backend/app/services/ai/code_analysis_service.py:110 | `[:100]` is a prefix of at most 100 characters, the whole string when short enough |
| CodeAnalysis.FailedTests | backend/app/services/ai/code_analysis_service.py:104-111 | failed tests plus passed tests make all tests; each entry names a failed test by its 1-based number with output cut to 100 characters |
| CodeAnalysis.FailedTestsComplete | backend/app/services/ai/code_analysis_service.py:104-111 | every failed test is listed under its own number |
| CodeAnalysis.CollectFailedTests | backend/app/services/ai/code_analysis_service.py:104-111 | the loop builds exactly that list |
| CodeAnalysis.PromptFailedTests | backend/app/services/ai/code_analysis_service.py:124 | the prompt shows a prefix of at most three failed tests, all of them when there are three or fewer |
| CodeAnalysis.StripFences | backend/app/services/ai/code_analysis_service.py:153-160 | a reply that does not start with a fence is left as is |
| CodeAnalysis.FencedReplyRoundTrip | backend/app/services/ai/code_analysis_service.py:153-160 | a fenced reply gives back exactly the text between the fences |
| CodeAnalysis.OneLineFenceFails | backend/app/services/ai/code_analysis_service.py:155-159 | a reply that is only its opening fence line leaves no lines, and `lines[-1]` raises |
| CodeAnalysis.ExtractBracesMeaning | backend/app/services/ai/code_analysis_service.py:167 | the rescue `\{[\s\S]*\}` matches iff some '{' precedes some '}', and then from the first '{' to the last '}' |
| CodeAnalysis.DefaultField | backend/app/services/ai/code_analysis_service.py:197-228 | a field outside the defaults table gets None, and every field in it gets a value |
| CodeAnalysis.Member | backend/app/services/ai/code_analysis_service.py:176 | Python's `in` on the parsed value: defined for a dict, string or list, raising otherwise |
| CodeAnalysis.FilledWith | backend/app/services/ai/code_analysis_service.py:175-177 | missing fields gain their default, present fields keep their value, nothing else is added |
| CodeAnalysis.Backfilled | backend/app/services/ai/code_analysis_service.py:174-177 | an object always backfills; a string or list passes through unchanged or raises |
| CodeAnalysis.BackfillComplete | backend/app/services/ai/code_analysis_service.py:174-177 | a successful backfill leaves every required field present |
| CodeAnalysis.BackfillKeeps | backend/app/services/ai/code_analysis_service.py:174-177 | present fields keep their values; only missing required fields are added, with their defaults |
| CodeAnalysis.BackfillFields | backend/app/services/ai/code_analysis_service.py:174-177 | the `for field in required_fields` loop computes that backfill |
| CodeAnalysis.Rating | backend/app/services/ai/code_analysis_service.py:241-251 | A from 90, B from 75, C from 60, D from 40, else F; each letter exactly on its interval |
| CodeAnalysis.RatingMonotone | backend/app/services/ai/code_analysis_service.py:241-251 | a higher score never gets a worse letter |
| CodeAnalysis.QualityScore | backend/app/services/ai/code_analysis_service.py:257 | `min(score, 100)` keeps a score up to 100 and caps a larger one at the integer 100 |
| CodeAnalysis.FallbackCodeQuality | backend/app/services/ai/code_analysis_service.py:256-262 | the quality block has exactly its five keys; strengths listed iff a test passed, issues iff a test failed |
| CodeAnalysis.FallbackImprovement | backend/app/services/ai/code_analysis_service.py:274-281 | the single improvement has priority High iff a test failed, Low otherwise |
| CodeAnalysis.FallbackReport | backend/app/services/ai/code_analysis_service.py:230-295 | the fallback report has all its keys, the letter rating, the quality block and the one improvement |
| CodeAnalysis.FallbackHasRequired | backend/app/services/ai/code_analysis_service.py:253-295 | the fallback report also has every required field |
| CodeAnalysis.Analyzed | backend/app/services/ai/code_analysis_service.py:97-195 | a failure carries an error and the fallback report; success iff no error |
| CodeAnalysis.AnalysisHasRequired | backend/app/services/ai/code_analysis_service.py:97-195 | whatever happens, the returned report holds every required field |
| CodeAnalysis.FencedObjectSucceeds | backend/app/services/ai/code_analysis_service.py:150-182 | a fenced reply holding a JSON object succeeds with that object backfilled |
| CodeAnalysis.FencedReplyCleaned | backend/app/services/ai/code_analysis_service.py:150-160 | stripping and fence cleaning of a fenced reply give the text between the fences |
| CodeAnalysis.AnalyzedOfParsed | backend/app/services/ai/code_analysis_service.py:162-182 | a reply whose cleaned text parses is judged on the parsed value alone |
| CodeAnalysis.AnalyzeCode | backend/app/services/ai/code_analysis_service.py:79-195 | the method returns the specified analysis, whose report always has the required fields |
| QuizBank.DefaultBank | backend/app/services/quiz_service.py:10-73 | the built-in bank holds exactly one course, `data-structures`, with exactly one quiz, `quiz-1`, of five questions |
| QuizBank.DefaultAnswerKey | backend/app/services/quiz_service.py:24-68 | the default quiz's answer key is a, b, c, d, c in question order |
| QuizBank.LookupQuiz | backend/app/services/quiz_service.py:75-83 | a quiz is found exactly when its course and its id are both in the bank; an unknown course is reported as "Course not found" before an unknown quiz is reported as "Quiz not found" |
| QuizBank.Percentage | backend/app/services/quiz_service.py:170 | the score lies in [0, 100], is correct/total × 100 for a non-empty quiz and 0 for an empty one, and is 100 exactly when every question is answered correctly |
| QuizBank.PercentageMonotone | backend/app/domains/assessment/quiz_service.py:134-135 | more correct answers never lower the score |
| QuizBank.CorrectCount | backend/app/services/quiz_service.py:168 | the number of correct answers never exceeds the number of answers, and equals it exactly when every answer is correct |
| QuizBank.CorrectCountFourOfFive | backend/app/domains/assessment/quiz_service.py:115-124 | five answers with only the last one wrong count four |
| AssessmentQuiz.Hidden | backend/app/domains/assessment/quiz_service.py:91-96 | the public questions keep each question's id and options, in order, one for one |
| AssessmentQuiz.HideAnswers | backend/app/domains/assessment/quiz_service.py:92-96 | the copy-and-remove loop yields exactly the questions without their answer key |
| AssessmentQuiz.HiddenRoundTrip | backend/app/domains/assessment/quiz_service.py:91-96 | putting each question's answer back into its public copy rebuilds the stored questions, so hiding removes the answer and nothing else |
| AssessmentQuiz.GetQuizQuestions | backend/app/domains/assessment/quiz_service.py:81-101 | the result is an error exactly when the lookup fails, with the lookup's message; otherwise the quiz's title and its questions without answers |
| AssessmentQuiz.GradeOne | backend/app/domains/assessment/quiz_service.py:119-131 | a graded answer records the question id, the letter given and the correct letter, and is correct exactly when the two letters agree ignoring case |
| AssessmentQuiz.Grade | backend/app/domains/assessment/quiz_service.py:117-131 | the i-th answer is graded against the i-th question, and answers beyond the last question are dropped |
| AssessmentQuiz.GradeAnswers | backend/app/domains/assessment/quiz_service.py:113-131 | the grading loop produces exactly the graded answers together with the number of them marked correct |
| AssessmentQuiz.ExtraAnswersIgnored | backend/app/domains/assessment/quiz_service.py:117-118 | answers beyond the number of questions do not change the grading |
| AssessmentQuiz.Outcome | backend/app/domains/assessment/quiz_service.py:133-162 | the outcome carries the graded answers, their correct count out of the quiz's question count, the percentage score, the time taken, and a pass exactly when the score reaches 85 |
| AssessmentQuiz.SubmitQuiz | backend/app/domains/assessment/quiz_service.py:103-162 | an unknown course or quiz returns "Quiz not found" and changes no store; otherwise one quiz submission with the score and graded answers is stored, the user's quiz progress is updated with the same score and pass flag, and the outcome is returned |
| AssessmentQuiz.QuizAttempts | backend/app/domains/assessment/quiz_service.py:164-171 | the user's quiz submissions for the course, newest first: exactly the first ten matching documents of the store's stream, each as often as it is stored, reordered |
| AssessmentQuiz.DefaultQuizNeedsAllCorrect | backend/app/domains/assessment/quiz_service.py:134-136 | on the five-question default quiz a pass at 85 requires all five answers right |
| AssessmentQuiz.DefaultQuizKeyPasses | backend/app/domains/assessment/quiz_service.py:117-136 | the expected letters, in any letter case, score 100 and pass |
| QuizSubmission.AnswerKey | backend/app/services/quiz_service.py:96 | the answer key has an entry for exactly the ids of the quiz's questions |
| QuizSubmission.AnswerKeyOfDistinct | backend/app/services/quiz_service.py:96 | with distinct question ids, the key maps each question's id to that question's correct letter |
| QuizSubmission.Selection | backend/app/services/quiz_service.py:103 | a selection read from an answer has no leading or trailing whitespace |
| QuizSubmission.CheckedAnswer | backend/app/services/quiz_service.py:107-117 | a checked answer records the question id, the selection, the correct letter and the time spent (0 when missing), and is correct exactly when a non-empty selection agrees with a non-empty key ignoring case |
| QuizSubmission.Validated | backend/app/services/quiz_service.py:85-122 | validation never produces more answers than it was given |
| QuizSubmission.ValidatedAppend | backend/app/services/quiz_service.py:101-120 | validation runs answer by answer: validating a concatenation gives the concatenation of the validations |
| QuizSubmission.UnknownDropped | backend/app/services/quiz_service.py:107-119 | an answer whose question id is missing or not in the quiz is dropped |
| QuizSubmission.ValidatedAllKnown | backend/app/services/quiz_service.py:101-117 | when every answer names a known question, every answer is kept, one for one and in order, and checked against the key |
| QuizSubmission.BlankSelectionIncorrect | backend/app/services/quiz_service.py:103-109 | an answer whose selection is blank or only whitespace is never correct |
| QuizSubmission.ValidateLoop | backend/app/services/quiz_service.py:101-122 | the checking loop produces exactly the validated answers |
| QuizSubmission.ValidateQuizAnswers | backend/app/services/quiz_service.py:85-122 | an unknown course or quiz raises the lookup's error; otherwise the answers are validated against the quiz's answer key |
| QuizSubmission.Positional | backend/app/services/quiz_service.py:155-162 | the i-th letter becomes the answer to the i-th question with an equal floor share of the time, and letters beyond the last question are dropped |
| QuizSubmission.PositionalLoop | backend/app/services/quiz_service.py:155-162 | the conversion loop produces exactly the positional answers |
| QuizSubmission.PositionalGrading | backend/app/services/quiz_service.py:154-168 | with distinct question ids, submitting letters grades the i-th letter, stripped, against the i-th question's key, for every position the questions cover |
| QuizSubmission.AttemptLog.constructor | backend/app/services/quiz_service.py:187-189 | the attempt log starts empty |
| QuizSubmission.AttemptLog.Add | backend/app/services/quiz_service.py:187-189 | adding an attempt appends exactly that attempt to the log |
| QuizSubmission.AttemptLog.UserAttempts | backend/app/services/quiz_service.py:207-226 | the result is a permutation of the logged attempts of the user, narrowed by course and by quiz when those are given (each attempt as often as it was logged), ordered by timestamp newest first |
| QuizSubmission.FilterAttempts | backend/app/services/quiz_service.py:211-216 | filtering keeps exactly the attempts that match the user, course and quiz filters |
| QuizSubmission.SubmitQuiz | backend/app/services/quiz_service.py:143-205 | an unknown course or quiz returns the lookup's error and logs nothing; otherwise the letters are validated by position, exactly one attempt with the validated answers and score is logged, and the outcome passes exactly when the score reaches 70 |
| QuizSubmission.FourOfFiveGraded | backend/app/services/quiz_service.py:154-168 | against the key a, b, c, d, c the letters a, b, c, d, a get the first four right and the last wrong |
| QuizSubmission.FourOfFiveScoresEighty | backend/app/services/quiz_service.py:168-170 | on the default quiz those letters count four correct and score 80 |
| QuizSubmission.AssessmentFailsFourOfFive | backend/app/domains/assessment/quiz_service.py:115-136 | four right answers out of five on the default quiz score 80, below the assessment-domain pass mark of 85, so that service fails them |
| QuizSubmission.PassMarksDiffer | backend/app/services/quiz_service.py:200 | the two quiz services disagree on the default quiz: four right answers out of five pass this service (70) but fail the assessment-domain service (85) |
| QuizSubmission.CourseSummaries | backend/app/services/quiz_service.py:129-133 | one summary per quiz of the course, with its title and question count |
| QuizSubmission.Summaries | backend/app/services/quiz_service.py:124-134 | one entry per course and quiz of the bank, each with the quiz's question count |
| QuizSubmission.SummariseCourse | backend/app/services/quiz_service.py:129-133 | the inner loop produces exactly the course's summaries |
| QuizSubmission.AllCoursesQuizzes | backend/app/services/quiz_service.py:124-134 | the nested loops produce exactly the summaries of every course and quiz |
| CodingService.CodingPassed | backend/app/domains/assessment/coding_service.py:40 | a coding score passes exactly when it is at least 50 |
| CodingService.CodingPassMark | backend/app/domains/assessment/coding_service.py:40 | 50 passes and 49 does not |
| CodingService.CodingSubmission | backend/app/domains/assessment/coding_service.py:43-55 | the stored submission is of kind `coding`, carries the evaluation's score and its test results |
| CodingService.SubmitCode | backend/app/domains/assessment/coding_service.py:24-68 | the evaluation is returned unchanged; a failed one changes no store; a successful one stores one coding submission and merges the coding progress with the same score and a pass at 50 or more |
| CodingService.PerfectSubmissionCompletes | backend/app/domains/assessment/coding_service.py:39-66 | a perfect score marks the coding challenge completed and lists it among the completed modules |
| CodingService.CodingSubmissions | backend/app/domains/assessment/coding_service.py:70-77 | the user's coding submissions for the course, newest first: exactly the first ten matching documents of the store's stream, each as often as it is stored, reordered |
| AntiCheat.BlockMinutes | backend/app/domains/assessment/anti_cheat_service.py:34-40 | no block below three violations; 15, 30 or 60 minutes otherwise, and 60 exactly from seven violations on |
| AntiCheat.BlockMinutesMonotone | backend/app/domains/assessment/anti_cheat_service.py:34-40 | more violations never shorten the block |
| AntiCheat.BlockProgression | backend/app/domains/assessment/anti_cheat_service.py:34 | 2 violations give no block, 3–4 give 15 minutes, 5–6 give 30, and 7 or more give 60 |
| AntiCheat.ReportViolation | backend/app/domains/assessment/anti_cheat_service.py:13-42 | the violation is recorded and returned; the count includes the new violation, and a block of the length that count calls for is written, replacing any earlier block; submissions are untouched |
| AntiCheat.GetStatus | backend/app/domains/assessment/anti_cheat_service.py:56-75 | the status lists the violations and carries the block status (an expired block is marked inactive); the count is the number of violations listed, except while a block is in force, when the count stored with the block replaces it |
| AntiCheat.ClearViolations | backend/app/domains/assessment/anti_cheat_service.py:77-84 | every violation of the user, course and assessment type is deleted together with the block, and the number deleted is returned |
| ProgressRepo.DocId | backend/app/repositories/progress_repository.py:14 | the document id is the user id, an underscore and the course id |
| ProgressRepo.DocIdPerCourse | backend/app/repositories/progress_repository.py:14 | for one user, different courses never share a progress document |
| ProgressRepo.Synced | backend/app/repositories/progress_repository.py:17-30 | a sync replaces the ids, module list and percentage and keeps the quiz and coding records |
| ProgressRepo.QuizAfter | backend/app/repositories/progress_repository.py:36-50 | the best score is the larger of the previous best (0 when none) and this score, the attempts go up by one, the last score is this one, and a quiz once passed stays passed |
| ProgressRepo.CodingAfter | backend/app/repositories/progress_repository.py:60-74 | completion is sticky, the best score is the larger of the previous best and this score, and the other fields describe this submission |
| ProgressRepo.ModulesAfterCoding | backend/app/repositories/progress_repository.py:77-82 | the module list is written only for a passed submission whose coding module is not yet listed, and then gains exactly that module at the end |
| ProgressRepo.CodingUpdated | backend/app/repositories/progress_repository.py:54-84 | a coding update keeps the quiz record and the percentage and replaces the coding record |
| ProgressRepo.CodingChallengeAtMostOnce | backend/app/repositories/progress_repository.py:78-82 | a coding update never lists the coding module twice when it was listed at most once before, and lists it once after a passed submission (a sync of the other service may write any list) |
| ProgressRepo.CertificationEligibility | backend/app/repositories/progress_repository.py:86-135 | a missing or empty document gives the not-eligible default; otherwise learning progress, quiz best score and pass flag, and coding best score and completion are read from the document (0 or false when absent), the exam score is 50 for a passed quiz plus 50 for a completed coding challenge, overall is 70% learning plus 30% exam, and eligibility holds exactly when overall reaches 90 with both the quiz passed and the coding completed |
| ProgressRepo.EligibleNeedsLearning | backend/app/repositories/progress_repository.py:116-119 | eligibility needs at least 600/7 (about 85.7) percent learning progress |
| ProgressRepo.EligibilityExamples | backend/app/repositories/progress_repository.py:108-119 | with quiz and coding done, 90% learning gives 93 overall and is eligible, 85% gives 89.5 and is not |
| ProgressRepo.ProgressRepository.constructor | backend/app/repositories/progress_repository.py:9-10 | the store starts with no documents |
| ProgressRepo.ProgressRepository.SyncProgress | backend/app/repositories/progress_repository.py:17-30 | only the user's course document changes, and it becomes the synced merge of the previous one |
| ProgressRepo.ProgressRepository.UpdateQuizProgress | backend/app/repositories/progress_repository.py:32-52 | only the user's course document changes: it gains the next quiz record and a new timestamp |
| ProgressRepo.ProgressRepository.UpdateCodingProgress | backend/app/repositories/progress_repository.py:54-84 | only the user's course document changes, and it becomes the coding update of the previous one |
| ProgressRepo.ProgressRepository.GetCertificationEligibility | backend/app/repositories/progress_repository.py:86-88 | the eligibility of the stored document for that user and course |
| AssessmentRepo.NewSubmission | backend/app/repositories/assessment_repository.py:24-41 | a stored submission carries its id, owner, course, kind, score and time; a quiz submission stores its answers (an empty list when none are given), a coding submission stores its code, problem, language and the metadata's test results (an empty list without metadata), and neither stores the other kind's fields |
| AssessmentRepo.Filter | backend/app/repositories/assessment_repository.py:50-59 | the query keeps exactly the documents that match the user, course and optional kind |
| AssessmentRepo.Take | backend/app/repositories/assessment_repository.py:59 | a positive limit keeps a prefix of at most that many documents; a zero limit keeps them all |
| AssessmentRepo.SortNewestFirst | backend/app/repositories/assessment_repository.py:62 | the result is the same documents, reordered newest first |
| Ordering.SortBy | backend/app/repositories/assessment_repository.py:61-62 | under an order that is total and transitive, the sorted list is ordered and is a permutation of the input |
| AssessmentRepo.UserSubmissions | backend/app/repositories/assessment_repository.py:46-64 | the result is newest first and is a permutation of the first `limit` documents of the store's stream that match the user, course and optional kind (all of them when `limit` is 0) |
| AssessmentRepo.BestScore | backend/app/repositories/assessment_repository.py:66-72 | no score without submissions; otherwise a score some submission has and no submission exceeds |
| AssessmentRepo.GetBestScore | backend/app/repositories/assessment_repository.py:46-72 | no score exactly when no stored submission matches; otherwise a score of some matching stored submission, and the highest of them all when at most ten match (the query limit of ten is applied before sorting) |
| AssessmentRepo.BlockId | backend/app/repositories/assessment_repository.py:109 | a block document's id ends in `_block` |
| AssessmentRepo.BlockDoc | backend/app/repositories/assessment_repository.py:109-123 | the block document is an active `block` event under the block id, ending `minutes` after it was written, and is never counted as a violation |
| AssessmentRepo.StatusOf | backend/app/repositories/assessment_repository.py:131-162 | blocked exactly when the block document exists and its end time is still ahead, with the time remaining until then and the violation count stored with the block |
| AssessmentRepo.AfterStatusCheck | backend/app/repositories/assessment_repository.py:156-157 | a status check changes nothing but marks a block that is no longer in force inactive |
| AssessmentRepo.BlockedUntilEnd | backend/app/repositories/assessment_repository.py:105-162 | a block written for `minutes` is reported in force exactly until it ends, with the remaining time and the violation count it was written with |
| AssessmentRepo.AssessmentRepository.constructor | backend/app/repositories/assessment_repository.py:9-11 | both collections start empty |
| AssessmentRepo.AssessmentRepository.CreateSubmission | backend/app/repositories/assessment_repository.py:15-44 | exactly the new submission is written under its fresh id, and the anti-cheat collection is untouched |
| AssessmentRepo.AssessmentRepository.RecordViolation | backend/app/repositories/assessment_repository.py:75-91 | exactly one violation event of the user, course and type is written under its fresh id, with the given timestamp or the current time when none is given |
| AssessmentRepo.AssessmentRepository.ViolationIds | backend/app/repositories/assessment_repository.py:93-103 | the ids of exactly the violation events of the user, course and type |
| AssessmentRepo.AssessmentRepository.CreateBlock | backend/app/repositories/assessment_repository.py:105-129 | the block document is written (replacing any earlier one) and its end time and duration are returned; nothing else changes |
| AssessmentRepo.AssessmentRepository.GetBlockStatus | backend/app/repositories/assessment_repository.py:131-162 | the status of the stored block at this time, and an expired block is marked inactive |
| AssessmentRepo.AssessmentRepository.ClearViolationsAndBlock | backend/app/repositories/assessment_repository.py:164-187 | every violation of the user, course and type is deleted and counted, and the block document is deleted; nothing else changes |
| UserRepo.GetOr | backend/app/repositories/user_repository.py:23 | the stored value when the key is present, else the default |
| UserRepo.LoginUpdate | backend/app/repositories/user_repository.py:21-26 | a login writes the login time and the photo (empty when none is given), and the display name only when a non-empty one is given |
| UserRepo.NewUserDoc | backend/app/repositories/user_repository.py:30-31 | a new user's document is the given data plus both creation and login times |
| UserRepo.Enrolled | backend/app/repositories/user_repository.py:47-49 | the course is listed afterwards, appended at the end only when it was not already listed |
| UserRepo.EnrolIdempotent | backend/app/repositories/user_repository.py:48-49 | enrolling twice is enrolling once, and every earlier course keeps its place |
| UserRepo.CoursesOf | backend/app/repositories/user_repository.py:47 | a missing or empty user, or one without a course list, has no courses |
| UserRepo.EnrolMissingUser | backend/app/repositories/user_repository.py:46-49 | with no stored user the enrolment list is just the course |
| UserRepo.UserRepository.constructor | backend/app/repositories/user_repository.py:9-10 | the store starts with no users |
| UserRepo.UserRepository.Get | backend/app/repositories/user_repository.py:12-14 | the document stored under the address, or none |
| UserRepo.UserRepository.Create | backend/app/repositories/base.py:18-23 | the whole document is written with its creation and update times |
| UserRepo.UserRepository.Update | backend/app/repositories/base.py:30-34 | a missing document is an error and nothing changes; otherwise the fields given and the update time are merged into the stored document |
| UserRepo.UserRepository.CreateOrUpdateUser | backend/app/repositories/user_repository.py:16-32 | a stored, non-empty user gets only the login fields merged in; otherwise the given data is written as a new user |
| UserRepo.UserRepository.UpdateProfile | backend/app/repositories/user_repository.py:34-36 | the profile fields and the update time are merged into an existing user; a missing user is an error and nothing changes |
| UserRepo.UserRepository.UpdateWallet | backend/app/repositories/user_repository.py:38-42 | only the wallet address and the update time change; a missing user is an error and nothing changes |
| UserRepo.UserRepository.EnrollCourse | backend/app/repositories/user_repository.py:44-53 | the user's course list gains the course once; a missing user is an error and nothing changes |
| UserRepo.UserRepository.SoftDelete | backend/app/repositories/user_repository.py:55-60 | the user's document is kept and marked deleted; a missing user is an error and nothing changes |
| UserRepo.SoftDeleted | backend/app/repositories/user_repository.py:57-60 | a soft-deleted document keeps every other field and gains the deleted flag, deletion time and update time |
| UserRepo.LoginKeepsOtherFields | backend/app/repositories/user_repository.py:18-28 | logging in again changes nothing but the login time, the photo, the display name and the update time |
| UserRepo.BlankDisplayNameKept | backend/app/repositories/user_repository.py:25-26 | a missing or blank display name never overwrites the stored one |
| SimpleProgress.SyncedProgress | backend/app/services/simple_progress_service.py:19-28 | the synced document holds the ids, the module list, the percentage, the quiz score (null for None) and the time, and nothing else: no quiz or coding record of the progress repository, no coding record, no timestamps |
| SimpleProgress.SyncDropsRepositoryRecords | backend/app/services/simple_progress_service.py:19-28 | after this service's sync the progress repository reads no passed quiz and no completed coding, an exam score of 0 and no eligibility, whereas the repository's own merge keeps both records; this service counts the coding challenge as done only if the synced list names it |
| SimpleProgress.SyncUndoesCodingPass | backend/app/repositories/progress_repository.py:54-84 | a passed coding submission makes both services count the coding challenge as completed; a later sync of a module list without it makes neither count it |
| SimpleProgress.DefaultProgress | backend/app/services/simple_progress_service.py:49-57 | without a document the progress is an empty module list, 0 percent and a null quiz score, with no quiz or coding record |
| SimpleProgress.NewQuizResult | backend/app/services/simple_progress_service.py:68-77 | a stored quiz result passes exactly when its score is at least 85 |
| SimpleProgress.MatchingResults | backend/app/services/simple_progress_service.py:93-100 | the query keeps exactly the stored results of the user and course |
| SimpleProgress.QuizResultsOf | backend/app/services/simple_progress_service.py:90-102 | a permutation of the user's results for the course (each stored result once per occurrence), most recently completed first |
| SimpleProgress.BestQuizScore | backend/app/services/simple_progress_service.py:116 | the best score is 0 without results, and otherwise a score some result has and none exceeds |
| SimpleProgress.BestPassesIffSomePassed | backend/app/services/simple_progress_service.py:116-125 | the best score reaches 85 exactly when some result does |
| SimpleProgress.ListedResults | backend/app/services/simple_progress_service.py:90-102 | the results for the user and course are empty exactly when no stored result is theirs |
| SimpleProgress.CertificationStatus | backend/app/services/simple_progress_service.py:108-158 | a document without a percentage is an error; otherwise coding counts as completed exactly when the coding module is listed, the quiz passes exactly when some result reached 85, the quiz score is absent without results, the exam is 50 per passed part, and the status reads `eligible` exactly when eligible |
| SimpleProgress.EligibleExactly | backend/app/services/simple_progress_service.py:132-138 | eligible exactly with all of the learning, a passed quiz and the coding module |
| SimpleProgress.StricterThanRepositoryRule | backend/app/services/simple_progress_service.py:136-138 | one and the same document, with 90% learning, a passed quiz and completed coding, is eligible under the progress repository's rule but not under this one |
| SimpleProgress.EarlierOrSameOrders | backend/app/services/simple_progress_service.py:220 | ordering by timestamp string is a total preorder, so sorting violations by it is well defined |
| SimpleProgress.MatchingViolations | backend/app/services/simple_progress_service.py:207-218 | the query keeps exactly the views of the user's violations for the course, each view as often as stored violations of the user and course show as it |
| SimpleProgress.ViolationsOf | backend/app/services/simple_progress_service.py:204-220 | a permutation of the user's violations for the course (duplicates kept, none added), in ascending timestamp order |
| SimpleProgress.BlockStatusOf | backend/app/services/simple_progress_service.py:255-290 | blocked exactly when the block document exists and its end time is still ahead, with the time remaining until then |
| SimpleProgress.NewBlock | backend/app/services/simple_progress_service.py:233-242 | a new block is active and ends `minutes` after it was written |
| SimpleProgress.BlockHoldsUntilEnd | backend/app/services/simple_progress_service.py:225-290 | a block written for `minutes` holds exactly until it ends, with the remaining time and the violation count it was written with |
| SimpleProgress.UserProgressService.constructor | backend/app/services/simple_progress_service.py:8-10 | the progress documents are those of the given progress repository; every other collection starts empty |
| SimpleProgress.UserProgressService.SyncCourseProgress | backend/app/services/simple_progress_service.py:13-37 | only the user's course progress document in the shared store changes; it is replaced whole, so no coding score survives and the progress repository then finds no passed quiz, no completed coding and no eligibility; the reply gives the percentage and the number of modules |
| SimpleProgress.UserProgressService.GetCourseProgress | backend/app/services/simple_progress_service.py:39-60 | the stored document, or the default progress when there is none |
| SimpleProgress.UserProgressService.GetCodingChallengeScore | backend/app/services/simple_progress_service.py:163-178 | the stored coding record's score when the progress document has one, and None when the document or its coding record is missing |
| SimpleProgress.UserProgressService.SaveQuizResult | backend/app/services/simple_progress_service.py:63-88 | exactly one quiz result is written under its fresh id, and the reply passes exactly at 85 or more; no other collection changes |
| SimpleProgress.UserProgressService.GetCertificationStatus | backend/app/services/simple_progress_service.py:108-161 | the quiz score is absent exactly when no stored result is the user's for the course, and a user without progress is never eligible |
| SimpleProgress.UserProgressService.SaveViolation | backend/app/services/simple_progress_service.py:180-202 | exactly one violation is written under its fresh id; no other collection changes |
| SimpleProgress.UserProgressService.BlockQuizAccess | backend/app/services/simple_progress_service.py:225-253 | the user's block document is replaced by an active one ending `minutes` from now, whose end and duration are returned; no other collection changes |
| SimpleProgress.UserProgressService.GetQuizBlockStatus | backend/app/services/simple_progress_service.py:255-293 | the status of the stored block at this time; an existing block no longer in force is marked inactive, and nothing else changes |
| SimpleProgress.UserProgressService.SaveUserWallet | backend/app/services/simple_progress_service.py:296-317 | the user's wallet record is replaced and read back as written; no other collection changes |
| SimpleProgress.UserProgressService.GetUserWallet | backend/app/services/simple_progress_service.py:319-331 | the stored wallet record, or none |
| SimpleProgress.UserProgressService.SaveNftCertificate | backend/app/services/simple_progress_service.py:334-366 | the certificate record of the user and course is replaced and is present afterwards; no other collection changes |
| SimpleProgress.UserProgressService.GetNftCertificate | backend/app/services/simple_progress_service.py:368-381 | the stored record for the user and course exactly when one is stored, and None otherwise |
| SimpleProgress.UserProgressService.DeleteNftCertificate | backend/app/services/simple_progress_service.py:383-395 | afterwards there is no record for the user and course, and nothing else changes |
| Certificate.MintOutcome | solana/program/programs/program/src/lib.rs:34-35 | a quiz score below 85 fails first with InsufficientQuizScore; otherwise a completion below 90 fails with InsufficientCompletion; the mint succeeds exactly when both thresholds are met |
| Certificate.FinalScore | solana/program/programs/program/src/lib.rs:37 | the final score is 70% of the quiz score plus 30% of the completion, rounded down, computed without overflow |
| Certificate.FinalScoreBetween | solana/program/programs/program/src/lib.rs:37 | the final score lies between the quiz score and the completion |
| Certificate.MintedFinalAtLeast86 | solana/program/programs/program/src/lib.rs:34-37 | every minted certificate has a final score of at least 86 |
| Certificate.FinalScoreLowestPass | solana/program/programs/program/src/lib.rs:37 | the lowest passing inputs, 85 and 90, give 86 |
| Certificate.FinalScorePerfect | solana/program/programs/program/src/lib.rs:37 | 100 and 100 give 100 |
| Certificate.FinalScoreRoundsDown | solana/program/programs/program/src/lib.rs:37 | 95 and 90 give 93, the fractional part dropped |
| Certificate.SerializedSize | solana/program/programs/program/src/lib.rs:214-225 | a certificate serialises to 84 bytes plus the lengths of its two strings |
| Certificate.AccountFits | solana/program/programs/program/src/lib.rs:228 | counting one byte per character, the account fits its reserved space exactly when the two ids together have at most 96 characters, so a course id of at most 32 characters and a user id of at most 64 always fit; for ASCII ids characters and serialized bytes agree |
| Certificate.CertificateAccount.constructor | solana/program/programs/program/src/lib.rs:214-225 | a fresh account holds zeroed fields and is not revoked |
| Certificate.CertificateAccount.MintCertificate | solana/program/programs/program/src/lib.rs:24-48 | a failed mint reports the threshold it missed and leaves the account untouched; a successful one records the recipient, course, user, mint, both scores, the final score and the time, not revoked |
| Certificate.CertificateAccount.VerifyCertificate | solana/program/programs/program/src/lib.rs:117-122 | verification fails with CertificateRevoked exactly when the certificate is revoked |
| Certificate.MintThenVerify | solana/program/programs/program/src/lib.rs:24-122 | a certificate that was just minted verifies |
| CourseConfig.Round | frontend/src/config/courseConfig.js:150 | `Math.round`: the nearest integer, halves rounded up |
| CourseConfig.RoundMonotone | frontend/src/config/courseConfig.js:150 | rounding never reverses the order of two values |
| CourseConfig.GetCourseConfig | frontend/src/config/courseConfig.js:112-114 | among course ids that name no inherited object member, a configuration exists exactly for `data-structures`, and it names itself and counts exactly its learning modules |
| CourseConfig.IsModuleExcluded | frontend/src/config/courseConfig.js:119-121 | nothing is excluded for an unknown course |
| CourseConfig.ExcludedModules | frontend/src/config/courseConfig.js:119-127 | the listed excluded modules and any id containing `certification`, `certificate` or `nft` are excluded, and no learning module is |
| CourseConfig.NoCertificateWords | frontend/src/config/courseConfig.js:20-27 | no learning module id contains `certification`, `certificate` or `nft` |
| CourseConfig.GetTotalLearningModules | frontend/src/config/courseConfig.js:132-135 | the total is the number of learning modules for a known course and 1 otherwise, never 0 |
| CourseConfig.Filter | frontend/src/config/courseConfig.js:145-147 | the filter keeps exactly the completed modules that are learning modules |
| CourseConfig.CalculateProgressPercentage | frontend/src/config/courseConfig.js:140-151 | 0 for an unknown course; otherwise the rounded share of learning modules among the completed ones, out of six |
| CourseConfig.ProgressBounded | frontend/src/config/courseConfig.js:140-151 | for a list without repeats the percentage lies in [0, 100], and is 100 exactly when every learning module is completed |
| CourseConfig.RepeatsCountAgain | frontend/src/config/courseConfig.js:145-150 | a repeated module is counted each time: seven entries of `overview` give 117 percent |
| CourseConfig.FinalExamScore | frontend/src/config/courseConfig.js:156-168 | 0 for an unknown course; otherwise the integer nearest the weighted sum of the component scores (halves up), missing scores counting 0 |
| CourseConfig.CalculateFinalExamScore | frontend/src/config/courseConfig.js:156-168 | the weighted loop over the exam components yields exactly the final exam score |
| CourseConfig.ExamScoreIsMean | frontend/src/config/courseConfig.js:156-168 | for the configured course the exam score is the rounded mean of the quiz and coding scores (missing scores count 0) |
| CourseConfig.ExamScoreBounded | frontend/src/config/courseConfig.js:156-168 | scores within [0, 100] give an exam score within [0, 100] |
| CourseConfig.ConfiguredExamFacts | frontend/src/config/courseConfig.js:173-189 | in the configured course the required components pass exactly when the quiz reaches 85 and the coding challenge 70, and those already give an exam score of at least 78 |
| CourseConfig.IsFinalExamPassed | frontend/src/config/courseConfig.js:173-189 | an unknown course never passes; in the configured course the exam passes exactly when the quiz reaches 85 and the coding reaches 70, so the overall 77.5 mark then always holds |
| CourseConfig.UnknownCourseNothing | frontend/src/config/courseConfig.js:119-189 | for an unknown course nothing is excluded, progress is 0, the module total is 1, the exam scores 0 and is not passed |
| CourseConfig.ExamScores | frontend/src/config/courseConfig.js:207-210 | the exam scores are the progress's quiz and coding scores, 0 when absent |
| CourseConfig.CanUnlockCertification | frontend/src/config/courseConfig.js:194-223 | an unknown course never unlocks certification; the configured course unlocks it exactly with 100 percent completion, a quiz score of at least 85 and a coding score of at least 70, missing scores counting 0 |
| ProgressContext.Truthy | frontend/src/contexts/ProgressContext.jsx:90-91 | `x \|\| null` on a score: a zero or missing score reads as absent, any other is kept |
| ProgressContext.LoadedModulesCoding | frontend/src/contexts/ProgressContext.jsx:80-86 | the loaded module list extends the stored one, holds the coding challenge exactly when the stored list did or coding is completed, never adds it twice, and changes no other module |
| ProgressContext.Loaded | frontend/src/contexts/ProgressContext.jsx:79-94 | the loaded progress carries the module list with the coding challenge, the non-zero best scores, the coding flag and the percentage (0 when missing) |
| ProgressContext.LoadResult | frontend/src/contexts/ProgressContext.jsx:69-109 | without a signed-in user or when loading fails the progress is empty with 0 percent |
| ProgressContext.LearningOnly | frontend/src/contexts/ProgressContext.jsx:120 | the synced list keeps exactly the modules that are not excluded |
| ProgressContext.Marked | frontend/src/contexts/ProgressContext.jsx:152-157 | a new module is appended; a learning module recomputes the percentage from the new list, an excluded one keeps it; the scores and coding flag are kept |
| ProgressContext.MarkedDistinct | frontend/src/contexts/ProgressContext.jsx:152-157 | marking a new module keeps the list free of repeats, and a learning module's new percentage lies in [0, 100] |
| ProgressContext.Overall | frontend/src/contexts/ProgressContext.jsx:191-211 | a percentage within [0, 100] gives an overall figure within [0, 100] |
| ProgressContext.OverallFull | frontend/src/contexts/ProgressContext.jsx:195-210 | for a whole percentage the overall figure reaches 100 exactly with 100 percent learning, a quiz score of 85 or more and the coding challenge listed |
| ProgressContext.MarkAll | frontend/src/contexts/ProgressContext.jsx:278-289 | every listed module gets a completed local mark at the given time, and every other mark is kept |
| ProgressContext.ProgressProvider.constructor | frontend/src/contexts/ProgressContext.jsx:32-33 | no local marks and no cached progress at first |
| ProgressContext.ProgressProvider.LoadProgressFromFirebase | frontend/src/contexts/ProgressContext.jsx:69-109 | a successful load caches and returns the loaded progress; otherwise the empty progress is returned and the cache is unchanged; local marks are never touched |
| ProgressContext.ProgressProvider.MarkModuleComplete | frontend/src/contexts/ProgressContext.jsx:138-176 | the module is marked locally; a new module is appended to the loaded progress, which is cached and synced (learning modules only) when a user is signed in; afterwards the module reads as completed and the list stays free of repeats |
| ProgressContext.ProgressProvider.SaveQuizScore | frontend/src/contexts/ProgressContext.jsx:249-266 | the loaded progress with the new quiz score is cached and synced, and a non-zero score then reads back with its pass flag at 85 |
| ProgressContext.ProgressProvider.InitializeCourseProgress | frontend/src/contexts/ProgressContext.jsx:269-294 | the loaded progress is cached and each of its modules gets a local completed mark, so every loaded module reads as completed |
| ProgressContext.ProgressProvider.IsModuleCompleted | frontend/src/contexts/ProgressContext.jsx:179-189 | a module in the loaded module list always counts as completed; without a local mark it counts exactly when it is in that list |
| ProgressContext.ProgressProvider.GetCourseCompletionPercentage | frontend/src/contexts/ProgressContext.jsx:191-211 | 0 for a course not loaded; otherwise the overall figure, within [0, 100] when the percentage is |
| ProgressContext.ProgressProvider.GetQuizScore | frontend/src/contexts/ProgressContext.jsx:213-219 | a result exactly when the cached quiz score is non-zero, with that score and a pass exactly at 85 or more |
| ProgressContext.ProgressProvider.GetFinalExamScore | frontend/src/contexts/ProgressContext.jsx:221-227 | for a quiz score within [0, 100] the exam score lies in [0, 100], and is 100 exactly with a quiz score of 99 or more and the coding challenge completed |
| ProgressContext.ProgressProvider.IsFinalExamComplete | frontend/src/contexts/ProgressContext.jsx:229-235 | the exam is complete exactly when the cached quiz score is at least 85 and the coding challenge counts as a completed module |
| ProgressContext.ProgressProvider.CanGetCertification | frontend/src/contexts/ProgressContext.jsx:237-246 | certification is granted exactly when the cached completion is 100 percent, the quiz score is at least 85 and the coding challenge is completed |
| ProgressContext.ProgressProvider.CertificationMeansFullOverall | frontend/src/contexts/ProgressContext.jsx:191-246 | without a stray local mark for the coding challenge, a learner who can get the certificate reads 100 percent overall |
| ArrayOperations.ApplyOp | frontend/src/courses/data-structures/visualizations/utils/arrayOperations.js:209-213 | a swap or a set never changes the array's length |
| ArrayOperations.Replay | frontend/src/courses/data-structures/visualizations/utils/arrayOperations.js:209-264 | replaying a trace's mutations never changes the array's length |
| ArrayOperations.ReplaySnoc | frontend/src/courses/data-structures/visualizations/utils/arrayOperations.js:209-264 | replaying one more step applies its mutation, if any, to the replay of the earlier steps |
| ArrayOperations.CountsSnoc | frontend/src/courses/data-structures/visualizations/utils/arrayOperations.js:247-262 | one more step adds one swap exactly when it carries a swap, and one pass exactly when it opens a pass |
| ArrayOperations.FillTrace | frontend/src/courses/data-structures/visualizations/utils/arrayOperations.js:22-28 | one step per cell, in index order, each visiting its own cell |
| ArrayOperations.TraverseTrace | frontend/src/courses/data-structures/visualizations/utils/arrayOperations.js:31-37 | one visit per cell, in index order |
| ArrayOperations.FirstIndex | frontend/src/courses/data-structures/visualizations/utils/arrayOperations.js:42-57 | the first index holding the target, with no earlier one holding it; none exactly when the target is absent |
| ArrayOperations.LinearSearchTrace | frontend/src/courses/data-structures/visualizations/utils/arrayOperations.js:40-60 | the search checks every cell up to the first one holding the target and reports "found" there, or checks every cell and reports "not found" |
| ArrayOperations.BinarySearchTrace | frontend/src/courses/data-structures/visualizations/utils/arrayOperations.js:63-110 | the loop's trace is the initialisation step followed by the probe sequence of the halving search |
| ArrayOperations.BinaryProbesInRange | frontend/src/courses/data-structures/visualizations/utils/arrayOperations.js:74-105 | every cell the search probes lies within the current window |
| ArrayOperations.BinaryOutcome | frontend/src/courses/data-structures/visualizations/utils/arrayOperations.js:74-109 | the search ends either in "not found" or at a probed cell that holds the target |
| ArrayOperations.BinaryNotFoundComplete | frontend/src/courses/data-structures/visualizations/utils/arrayOperations.js:74-109 | on cells in order under a comparator that tells different strings apart, "not found" means no cell in the window holds the target |
| ArrayOperations.LeftMoveExcludes | frontend/src/courses/data-structures/visualizations/utils/arrayOperations.js:91-97 | a target before the middle cell cannot sit at or after it |
| ArrayOperations.RightMoveExcludes | frontend/src/courses/data-structures/visualizations/utils/arrayOperations.js:98-105 | a target not before a middle cell that differs from it cannot sit at or before it |
| ArrayOperations.BinarySearchMissesTie | frontend/src/courses/data-structures/visualizations/utils/arrayOperations.js:65-91 | equality is by text but steering is by number, so on the sorted cells "1", "1.0", "2" a search for "1" steers past cell 0 and reports "not found" |
| ArrayOperations.FirstBestUnique | frontend/src/courses/data-structures/visualizations/utils/arrayOperations.js:120-150 | at most one index is the first extreme one |
| ArrayOperations.ExtremeTrace | frontend/src/courses/data-structures/visualizations/utils/arrayOperations.js:113-151 | an empty array gives one note; otherwise the trace starts at cell 0 and ends naming the first index whose value is extreme under the order |
| ArrayOperations.BetterIsFirst | frontend/src/courses/data-structures/visualizations/utils/arrayOperations.js:136-143 | a strictly better value becomes the first extreme of the prefix ending at it |
| ArrayOperations.FlipPreorder | frontend/src/courses/data-structures/visualizations/utils/arrayOperations.js:174-176 | reversing a total preorder gives a total preorder |
| ArrayOperations.MinTrace | frontend/src/courses/data-structures/visualizations/utils/arrayOperations.js:113-152 | an empty array gives one note; otherwise the reported cell holds a minimum, the first one |
| ArrayOperations.MaxTrace | frontend/src/courses/data-structures/visualizations/utils/arrayOperations.js:155-194 | an empty array gives one note; otherwise the reported cell holds a maximum, the first one |
| ArrayOperations.Reversed | frontend/src/courses/data-structures/visualizations/utils/arrayOperations.js:197-231 | the reversed array holds the mirror of each cell |
| ArrayOperations.ReversedTwice | frontend/src/courses/data-structures/visualizations/utils/arrayOperations.js:197-231 | reversing twice gives the array back |
| ArrayOperations.SwapStep | frontend/src/courses/data-structures/visualizations/utils/arrayOperations.js:205-213 | the two cells exchange values, the trace gains the swap step, and the replay of the trace still equals the array |
| ArrayOperations.EndsReversed | frontend/src/courses/data-structures/visualizations/utils/arrayOperations.js:204-215 | after `l` exchanges the outer `l` cells at each end are mirrored and the middle is untouched |
| ArrayOperations.ReverseTrace | frontend/src/courses/data-structures/visualizations/utils/arrayOperations.js:197-231 | the array ends reversed, the trace replays to it, and it swaps exactly half the length times, each swap a mirrored pair |
| ArrayOperations.BubblePass | frontend/src/courses/data-structures/visualizations/utils/arrayOperations.js:249-267 | one pass of adjacent comparisons keeps the trace replaying to the array and moves the largest value of the pass into its final cell |
| ArrayOperations.CompareStep | frontend/src/courses/data-structures/visualizations/utils/arrayOperations.js:250-266 | an adjacent pair is swapped exactly when it is out of order, and nothing else changes |
| ArrayOperations.LargestMovesRight | frontend/src/courses/data-structures/visualizations/utils/arrayOperations.js:256-265 | after the comparison at `j` the largest value so far sits at `j + 1`, with the values kept |
| ArrayOperations.BubbleSortTrace | frontend/src/courses/data-structures/visualizations/utils/arrayOperations.js:234-287 | the array ends sorted and a permutation of the original, the trace replays to it using adjacent swaps only, and an already sorted array is left alone after a single pass |
| ArrayOperations.SortPass | frontend/src/courses/data-structures/visualizations/utils/arrayOperations.js:245-283 | a pass keeps the sorted suffix growing by one; no swap means the array is sorted; an already sorted array is not swapped |
| ArrayOperations.PassKeepsOrder | frontend/src/courses/data-structures/visualizations/utils/arrayOperations.js:245-283 | a completed pass extends the sorted suffix, and a pass without swaps leaves the whole array in order |
| ArrayOperations.PrefixKept | frontend/src/courses/data-structures/visualizations/utils/arrayOperations.js:249-267 | a pass that keeps the suffix and the values moves no value out of the prefix |
| DataStructureOperations.PushTrace | frontend/src/courses/data-structures/visualizations/utils/dataStructureOperations.js:8-17 | a push onto a full stack stops after reporting overflow; otherwise it goes on to place the value in the cell at the current size and raise the size by one |
| DataStructureOperations.PopTrace | frontend/src/courses/data-structures/visualizations/utils/dataStructureOperations.js:19-27 | a pop from an empty stack reports underflow and stops; otherwise it names the top value, highlights the top cell and lowers the size by one |
| DataStructureOperations.StackPeekTrace | frontend/src/courses/data-structures/visualizations/utils/dataStructureOperations.js:29-34 | a peek reports nothing to peek exactly when the stack is empty; otherwise it names and highlights the top cell |
| DataStructureOperations.IsEmptyTrace | frontend/src/courses/data-structures/visualizations/utils/dataStructureOperations.js:36-41 | the answer reported is whether the size is zero |
| DataStructureOperations.IsFullTrace | frontend/src/courses/data-structures/visualizations/utils/dataStructureOperations.js:43-48 | the answer reported is whether the size has reached the capacity |
| DataStructureOperations.EnqueueTrace | frontend/src/courses/data-structures/visualizations/utils/dataStructureOperations.js:53-62 | an enqueue into a full queue stops after reporting overflow; otherwise it places the value at the rear index and raises the size by one; every step after the first highlights the rear cell |
| DataStructureOperations.DequeueTrace | frontend/src/courses/data-structures/visualizations/utils/dataStructureOperations.js:64-72 | a dequeue from an empty queue reports underflow and stops; otherwise it names the front value, highlights the front cell and lowers the size by one |
| DataStructureOperations.QueuePeekTrace | frontend/src/courses/data-structures/visualizations/utils/dataStructureOperations.js:74-79 | a peek reports nothing to peek exactly when the queue is empty; otherwise it names and highlights the front cell |
| DataStructureOperations.OverflowAgreesWithIsFull | frontend/src/courses/data-structures/visualizations/utils/dataStructureOperations.js:11 | push and enqueue report overflow exactly when the isFull trace answers true |
| DataStructureOperations.UnderflowAgreesWithIsEmpty | frontend/src/courses/data-structures/visualizations/utils/dataStructureOperations.js:22 | for a size that is a length, pop, dequeue and peek report an empty structure exactly when the isEmpty trace answers true, and a pop goes on to shrink the stack exactly when isEmpty answers false |
| DataStructureOperations.StackCellsInRange | frontend/src/courses/data-structures/visualizations/utils/dataStructureOperations.js:13-24 | every cell a push or pop highlights is a valid index of the stack, and a push's cell is below the capacity |
| StackVisualization.StackView.constructor | frontend/src/courses/data-structures/visualizations/StackVisualization.jsx:13-14 | a new view holds an empty stack of capacity 6 |
| StackVisualization.StackView.Top | frontend/src/courses/data-structures/visualizations/StackVisualization.jsx:44 | the top is absent exactly on an empty stack, and otherwise is the last value pushed |
| StackVisualization.StackView.Push | frontend/src/courses/data-structures/visualizations/StackVisualization.jsx:55-79 | an empty value is refused without a trace; otherwise the push trace is shown and the value goes on top exactly when the stack is below capacity; the capacity never changes and, with each push committed before the next click, the stack never exceeds it |
| StackVisualization.StackView.Pop | frontend/src/courses/data-structures/visualizations/StackVisualization.jsx:81-101 | an empty stack shows the underflow trace and stays empty; otherwise the trace names the top value and exactly that value is removed |
| StackVisualization.StackView.PeekTrace | frontend/src/courses/data-structures/visualizations/StackVisualization.jsx:103-108 | the peek reports nothing to peek exactly when the stack is empty, and otherwise names its top value |
| StackVisualization.StackView.IsEmptyQuery | frontend/src/courses/data-structures/visualizations/StackVisualization.jsx:110-115 | the answer is whether the stack holds no values |
| StackVisualization.StackView.IsFullQuery | frontend/src/courses/data-structures/visualizations/StackVisualization.jsx:117-122 | the answer is whether the stack has reached its capacity |
| StackVisualization.StackView.Clear | frontend/src/courses/data-structures/visualizations/StackVisualization.jsx:124-128 | the stack is emptied and the capacity kept |
| StackVisualization.StackView.Seed | frontend/src/courses/data-structures/visualizations/StackVisualization.jsx:130-136 | the stack becomes A, B, C from the bottom, and the capacity rises to 3 when it was lower |
| StackVisualization.StackView.CapacityChange | frontend/src/courses/data-structures/visualizations/StackVisualization.jsx:138-144 | the capacity is the requested one clamped to between 1 and 24, and a longer stack keeps only its bottom values up to the new capacity |
| StackVisualization.PushThenPop | frontend/src/courses/data-structures/visualizations/StackVisualization.jsx:55-101 | last in, first out: a pop right after a successful push names the pushed value and gives back the stack as it was |
| QueueVisualization.EmptySlots | frontend/src/courses/data-structures/visualizations/QueueVisualization.jsx:14 | a slot list of the given length in which every slot is empty |
| QueueVisualization.Wrap | frontend/src/courses/data-structures/visualizations/QueueVisualization.jsx:57 | an index less than one lap past the end lands in the buffer, either unchanged or one capacity back |
| QueueVisualization.WrapIsMod | frontend/src/courses/data-structures/visualizations/QueueVisualization.jsx:57 | on the indices the view computes, the remainder by the capacity equals the wrapped index |
| QueueVisualization.Offset | frontend/src/courses/data-structures/visualizations/QueueVisualization.jsx:57 | every slot is reached from the front by some number of steps below the capacity |
| QueueVisualization.Window | frontend/src/courses/data-structures/visualizations/QueueVisualization.jsx:57 | the queue's values are the slots read from the front, wrapping round, as many as its size |
| QueueVisualization.QueueView.Contents | frontend/src/courses/data-structures/visualizations/QueueVisualization.jsx:13-16 | the queue holds exactly as many values as its size |
| QueueVisualization.QueueView.constructor | frontend/src/courses/data-structures/visualizations/QueueVisualization.jsx:13-16 | a new view has capacity 7, the front at 0 and no values |
| QueueVisualization.QueueView.Rear | frontend/src/courses/data-structures/visualizations/QueueVisualization.jsx:57 | the next value goes in the slot the size lies past the front, wrapping round |
| QueueVisualization.QueueView.ResetAll | frontend/src/courses/data-structures/visualizations/QueueVisualization.jsx:58-69 | the capacity is the request clamped to between 2 and 20, with 0 counting as 2, and the queue is left empty with every slot cleared |
| QueueVisualization.QueueView.Enqueue | frontend/src/courses/data-structures/visualizations/QueueVisualization.jsx:72-111 | a value that is blank once trimmed is refused and nothing changes; a full queue shows the overflow trace and nothing changes; otherwise the trimmed value is written at the rear slot and becomes the last value of the queue |
| QueueVisualization.QueueView.Dequeue | frontend/src/courses/data-structures/visualizations/QueueVisualization.jsx:113-146 | an empty queue shows the underflow trace and nothing changes; otherwise the value reported is the first of the queue, its slot is cleared, the front moves on by one with wrap-around and the rest stay in order |
| QueueVisualization.QueueView.PeekTrace | frontend/src/courses/data-structures/visualizations/QueueVisualization.jsx:148-167 | the peek reports an empty queue when its size is zero, and otherwise names the first value and highlights the front slot |
| QueueVisualization.QueueView.IsEmptyQuery | frontend/src/courses/data-structures/visualizations/QueueVisualization.jsx:169-178 | the answer is whether the size is zero |
| QueueVisualization.QueueView.IsFullQuery | frontend/src/courses/data-structures/visualizations/QueueVisualization.jsx:180-189 | the answer is whether the size equals the capacity |
| QueueVisualization.QueueView.Clear | frontend/src/courses/data-structures/visualizations/QueueVisualization.jsx:191-194 | the queue is emptied at its current capacity |
| QueueVisualization.QueueView.Seed | frontend/src/courses/data-structures/visualizations/QueueVisualization.jsx:196-206 | the capacity rises to at least 3, and the queue holds A, B, C in the first three slots with the front at 0 and every other slot empty |
| QueueVisualization.WindowDistinct | frontend/src/courses/data-structures/visualizations/QueueVisualization.jsx:57 | the rear slot of a queue with room is none of the slots that hold its values |
| QueueVisualization.ShiftedWindow | frontend/src/courses/data-structures/visualizations/QueueVisualization.jsx:142 | after the front moves on by one, each remaining value sits one position earlier, and none of them sits in the old front slot |
| QueueVisualization.EnqueueKeepsInvariant | frontend/src/courses/data-structures/visualizations/QueueVisualization.jsx:72-111 | writing at the rear keeps the invariant that a slot is non-empty exactly when it holds one of the values |
| QueueVisualization.DequeueKeepsInvariant | frontend/src/courses/data-structures/visualizations/QueueVisualization.jsx:113-146 | clearing the front and moving on keeps the invariant that a slot is non-empty exactly when it holds one of the values |
| QueueVisualization.EnqueueStep | frontend/src/courses/data-structures/visualizations/QueueVisualization.jsx:72-111 | writing a value at the rear of a buffer with room appends it to the queue's values |
| QueueVisualization.DequeueStep | frontend/src/courses/data-structures/visualizations/QueueVisualization.jsx:113-146 | clearing the front of a non-empty buffer removes its first value and keeps the rest in order |
| QueueVisualization.FifoOrder | frontend/src/courses/data-structures/visualizations/QueueVisualization.jsx:72-146 | first in, first out: two values enqueued into an empty queue come out in the order they went in |
| Array2DVisualization.MakeMatrix | frontend/src/courses/data-structures/visualizations/Array2DVisualization.jsx:50-52 | a grid of the given rows and columns in which every cell holds the fill value |
| Array2DVisualization.Transposed | frontend/src/courses/data-structures/visualizations/Array2DVisualization.jsx:564-568 | the transpose has the dimensions swapped and holds each cell (i, j) at (j, i) |
| Array2DVisualization.Rotated | frontend/src/courses/data-structures/visualizations/Array2DVisualization.jsx:569-573 | the clockwise quarter turn has the dimensions swapped and holds each cell (i, j) at (j, r - 1 - i) |
| Array2DVisualization.TransposeTwice | frontend/src/courses/data-structures/visualizations/Array2DVisualization.jsx:564-568 | transposing twice gives back the grid |
| Array2DVisualization.RotateTwice | frontend/src/courses/data-structures/visualizations/Array2DVisualization.jsx:569-573 | two quarter turns turn the grid upside down and back to front |
| Array2DVisualization.RotateFour | frontend/src/courses/data-structures/visualizations/Array2DVisualization.jsx:569-573 | four quarter turns give back the grid |
| Array2DVisualization.SelfTests | frontend/src/courses/data-structures/visualizations/Array2DVisualization.jsx:584-591 | the transpose and quarter turn of the 2 by 3 self-test grid are the grids the self-test expects |
| Array2DVisualization.Resized | frontend/src/courses/data-structures/visualizations/Array2DVisualization.jsx:60-66 | a resized grid has the new dimensions, keeps the overlapping top-left block and is empty elsewhere |
| Array2DVisualization.ResizeRoundTrip | frontend/src/courses/data-structures/visualizations/Array2DVisualization.jsx:60-66 | growing a grid and shrinking it back to its old size gives back the grid |
| Array2DVisualization.RowCells | frontend/src/courses/data-structures/visualizations/Array2DVisualization.jsx:195 | the visits of one row go left to right |
| Array2DVisualization.RowMajorCells | frontend/src/courses/data-structures/visualizations/Array2DVisualization.jsx:190-200 | row-major order lists every cell of the grid exactly once |
| Array2DVisualization.Frames | frontend/src/courses/data-structures/visualizations/Array2DVisualization.jsx:212-232 | one frame per cell visited, in the order of visit |
| Array2DVisualization.FramesSnoc | frontend/src/courses/data-structures/visualizations/Array2DVisualization.jsx:212-232 | one more cell visited adds its frame at the end of the trace |
| Array2DVisualization.TransposeGrid | frontend/src/courses/data-structures/visualizations/Array2DVisualization.jsx:234-255 | the nested loop builds exactly the transpose, recording one move per cell in row-major order |
| Array2DVisualization.RotateGrid | frontend/src/courses/data-structures/visualizations/Array2DVisualization.jsx:285-307 | the nested loop builds exactly the clockwise quarter turn, recording one move per cell in row-major order |
| Array2DVisualization.SearchGrid | frontend/src/courses/data-structures/visualizations/Array2DVisualization.jsx:212-232 | a reported cell holds the target and no earlier cell does; "not found" means no cell holds it; the trace checks every cell up to the one reported, or all of them |
| Array2DVisualization.RowMajorStep | frontend/src/courses/data-structures/visualizations/Array2DVisualization.jsx:216-227 | one more cell in row-major order extends the trace by that cell's frame, and a finished row leads to the next |
| Array2DVisualization.SameGrid | frontend/src/courses/data-structures/visualizations/Array2DVisualization.jsx:50-52 | two grids of the same shape that agree on every cell are equal |
| Array2DVisualization.Peel | frontend/src/courses/data-structures/visualizations/Array2DVisualization.jsx:262-278 | visiting the cells between the rectangle left to visit and a smaller one keeps every grid cell visited at most once, and outside the rectangle exactly once |
| Array2DVisualization.RowRun | frontend/src/courses/data-structures/visualizations/Array2DVisualization.jsx:264 | a run along a row from left to right |
| Array2DVisualization.RowRunBack | frontend/src/courses/data-structures/visualizations/Array2DVisualization.jsx:272 | a run along a row from right to left |
| Array2DVisualization.ColRun | frontend/src/courses/data-structures/visualizations/Array2DVisualization.jsx:268 | a run down a column |
| Array2DVisualization.ColRunBack | frontend/src/courses/data-structures/visualizations/Array2DVisualization.jsx:276 | a run up a column |
| Array2DVisualization.PeelTop | frontend/src/courses/data-structures/visualizations/Array2DVisualization.jsx:264-266 | visiting the top row of what is left peels it off the rectangle |
| Array2DVisualization.PeelRight | frontend/src/courses/data-structures/visualizations/Array2DVisualization.jsx:268-270 | visiting the right column of what is left peels it off the rectangle |
| Array2DVisualization.PeelBottom | frontend/src/courses/data-structures/visualizations/Array2DVisualization.jsx:272-274 | visiting the bottom row, right to left, peels it off the rectangle |
| Array2DVisualization.PeelLeft | frontend/src/courses/data-structures/visualizations/Array2DVisualization.jsx:276-277 | visiting the left column, bottom to top, peels it off the rectangle |
| Array2DVisualization.SpiralCells | frontend/src/courses/data-structures/visualizations/Array2DVisualization.jsx:258-282 | the cells come in clockwise spiral order (top row left to right, right column down, bottom row right to left, left column up, then the same inside, stopping as soon as the rows or the columns run out), and every cell of the grid comes exactly once, rows times columns in all |
| Array2DVisualization.SpiralTurn | frontend/src/courses/data-structures/visualizations/Array2DVisualization.jsx:262-278 | one pass of the loop, with its three early breaks, appends exactly the part of the spiral that comes before the spiral of the rectangle it leaves, and shrinks the rectangle |
| Array2DVisualization.SpiralTail | frontend/src/courses/data-structures/visualizations/Array2DVisualization.jsx:263-278 | the spiral of a rectangle is its top row, then (unless rows run out) its right column, then (unless columns run out) its bottom row backwards, then (unless rows run out) its left column upwards followed by the spiral of the rectangle inside |
| Array2DVisualization.TurnPeels | frontend/src/courses/data-structures/visualizations/Array2DVisualization.jsx:263-278 | one pass of the loop peels the sides it visits off the rectangle still to visit: no cell twice, none outside the grid, none skipped |
| Array2DVisualization.SpiralCovers | frontend/src/courses/data-structures/visualizations/Array2DVisualization.jsx:262-279 | following any partial walk with the spiral of the rectangle still to visit completes a visit of every cell exactly once |
| Array2DVisualization.SpiralVisitsEveryCell | frontend/src/courses/data-structures/visualizations/Array2DVisualization.jsx:258-282 | the spiral of the whole grid lists every cell exactly once, rows times columns cells in all |
| Array2DVisualization.SpiralStartsWithTopRow | frontend/src/courses/data-structures/visualizations/Array2DVisualization.jsx:264 | the spiral begins with the whole top row, left to right |
| Array2DVisualization.SpiralSelfTest | frontend/src/courses/data-structures/visualizations/Array2DVisualization.jsx:586-590 | on the self-test grid [[1, 2, 3], [4, 5, 6]] the spiral reads 1, 2, 3, 6, 5, 4, the value the self-test expects |
| Array2DVisualization.Finished | frontend/src/courses/data-structures/visualizations/Array2DVisualization.jsx:262 | once the rectangle left to visit is empty, every cell has been visited exactly once |
| Array2DVisualization.WalkRow | frontend/src/courses/data-structures/visualizations/Array2DVisualization.jsx:264 | the loop visits the row from the left bound to the right bound |
| Array2DVisualization.WalkCol | frontend/src/courses/data-structures/visualizations/Array2DVisualization.jsx:268 | the loop visits the column from the top bound to the bottom bound |
| Array2DVisualization.WalkRowBack | frontend/src/courses/data-structures/visualizations/Array2DVisualization.jsx:272 | the loop visits the row from the right bound back to the left bound |
| Array2DVisualization.WalkColBack | frontend/src/courses/data-structures/visualizations/Array2DVisualization.jsx:276 | the loop visits the column from the bottom bound back to the top bound |
| Array2DVisualization.SpiralOrder | frontend/src/courses/data-structures/visualizations/Array2DVisualization.jsx:574-583 | the self-test spiral yields the values of the cells in clockwise spiral order, one per cell of the grid, every cell exactly once |
| Array2DVisualization.FillGrid | frontend/src/courses/data-structures/visualizations/Array2DVisualization.jsx:156-188 | the nested loop gives every cell its value and records one frame per cell in row-major order |
| Text.TwoDigits | frontend/src/courses/data-structures/visualizations/Array2DVisualization.jsx:180 | a random value from 10 to 99 prints as two digits with no leading zero |
| Array2DVisualization.VisitedSnoc | frontend/src/courses/data-structures/visualizations/Array2DVisualization.jsx:190-211 | a frame added to a walk adds its cell to the visits exactly when it is a visit |
| Array2DVisualization.ColCells | frontend/src/courses/data-structures/visualizations/Array2DVisualization.jsx:206 | the visits of one column go top to bottom |
| Array2DVisualization.ColMajorCells | frontend/src/courses/data-structures/visualizations/Array2DVisualization.jsx:201-211 | column-major order lists every cell of the grid exactly once |
| Array2DVisualization.RowLine | frontend/src/courses/data-structures/visualizations/Array2DVisualization.jsx:193-195 | a row's frames are its header with no cells at pc 1, then the visit of its k-th cell at pc 2 in position k + 1 |
| Array2DVisualization.ColLine | frontend/src/courses/data-structures/visualizations/Array2DVisualization.jsx:204-206 | a column's frames are its header with no cells at pc 1, then the visit of its k-th cell at pc 2 in position k + 1 |
| Array2DVisualization.RowMajorWalk | frontend/src/courses/data-structures/visualizations/Array2DVisualization.jsx:190-200 | the walk is the lines of rows 0 to r-1 in turn, each a header frame at pc 1 and then a visit of cells (i, 0) to (i, c-1) at pc 2, `r * (c + 1)` frames in all; the visits follow row-major order |
| Array2DVisualization.ColMajorWalk | frontend/src/courses/data-structures/visualizations/Array2DVisualization.jsx:201-211 | the walk is the lines of columns 0 to c-1 in turn, each a header frame at pc 1 and then a visit of cells (0, j) to (r-1, j) at pc 2, `c * (r + 1)` frames in all; the visits follow column-major order |
| Array2DVisualization.RowWalkFrame | frontend/src/courses/data-structures/visualizations/Array2DVisualization.jsx:190-196 | frame `i * (c + 1)` of the row walk is the header of row `i` at pc 1, and frame `i * (c + 1) + 1 + j` the visit of cell (i, j) at pc 2 |
| Array2DVisualization.ColWalkFrame | frontend/src/courses/data-structures/visualizations/Array2DVisualization.jsx:201-207 | frame `j * (r + 1)` of the column walk is the header of column `j` at pc 1, and frame `j * (r + 1) + 1 + i` the visit of cell (i, j) at pc 2 |
| Array2DVisualization.WalksVisitEveryCellOnce | frontend/src/courses/data-structures/visualizations/Array2DVisualization.jsx:190-211 | both walks visit every cell of the grid exactly once |
| Array2DVisualization.MatrixView.constructor | frontend/src/courses/data-structures/visualizations/Array2DVisualization.jsx:25-27 | a new view holds an empty 3 by 4 grid and no edit |
| Array2DVisualization.MatrixView.ApplySize | frontend/src/courses/data-structures/visualizations/Array2DVisualization.jsx:60-72 | the rows are clamped to between 1 and 10 and the columns to between 1 and 12; the overlapping block is kept, the rest is empty and any edit is dropped |
| Array2DVisualization.MatrixView.Seed | frontend/src/courses/data-structures/visualizations/Array2DVisualization.jsx:116-130 | the grid becomes the 3 by 4 grid of letters A to L and any edit is dropped |
| Array2DVisualization.MatrixView.Clear | frontend/src/courses/data-structures/visualizations/Array2DVisualization.jsx:131-135 | every cell is emptied and the dimensions are kept |
| Array2DVisualization.MatrixView.Set | frontend/src/courses/data-structures/visualizations/Array2DVisualization.jsx:137-146 | the 1-based inputs are clamped into the grid and that one cell takes the value; every other cell is kept |
| Array2DVisualization.MatrixView.Search | frontend/src/courses/data-structures/visualizations/Array2DVisualization.jsx:212-232 | a reported cell holds the target and no earlier cell in row-major order does; "not found" means no cell holds it; the grid is untouched |
| Array2DVisualization.MatrixView.Transpose | frontend/src/courses/data-structures/visualizations/Array2DVisualization.jsx:234-255 | the grid becomes its transpose with the dimensions swapped |
| Array2DVisualization.MatrixView.Rotate90 | frontend/src/courses/data-structures/visualizations/Array2DVisualization.jsx:285-307 | the grid becomes its clockwise quarter turn with the dimensions swapped |
| Array2DVisualization.MatrixView.Spiral | frontend/src/courses/data-structures/visualizations/Array2DVisualization.jsx:258-282 | the cells come in clockwise spiral order, every cell exactly once, and the grid is untouched |
| Array2DVisualization.MatrixView.Get | frontend/src/courses/data-structures/visualizations/Array2DVisualization.jsx:147-155 | the clamped cell lies in the grid and its value is reported; within range, it is the cell the 1-based inputs name |
| Array2DVisualization.MatrixView.Fill | frontend/src/courses/data-structures/visualizations/Array2DVisualization.jsx:156-172 | every cell takes the value, with one frame per cell in row-major order |
| Array2DVisualization.MatrixView.RandomFill | frontend/src/courses/data-structures/visualizations/Array2DVisualization.jsx:173-188 | every cell takes the two-digit text of the number drawn for it, with one frame per cell in row-major order |
| Array2DVisualization.MatrixView.StartEdit | frontend/src/courses/data-structures/visualizations/Array2DVisualization.jsx:310-316 | an edit opens on the clicked cell holding its current value, and the grid is untouched |
| Array2DVisualization.MatrixView.EditValue | frontend/src/courses/data-structures/visualizations/Array2DVisualization.jsx:473 | typing replaces the text of an open edit and changes nothing else |
| Array2DVisualization.MatrixView.CommitEdit | frontend/src/courses/data-structures/visualizations/Array2DVisualization.jsx:317-328 | without an open edit nothing changes; otherwise exactly the edited cell takes the typed text and the edit closes |
| Array2DVisualization.MatrixView.CancelEdit | frontend/src/courses/data-structures/visualizations/Array2DVisualization.jsx:329-331 | the edit closes and the grid is untouched |
| Array2DVisualization.TransposeTwiceRestores | frontend/src/courses/data-structures/visualizations/Array2DVisualization.jsx:234-255 | transposing the view's grid twice restores its grid and dimensions |
| Array2DVisualization.SetThenGet | frontend/src/courses/data-structures/visualizations/Array2DVisualization.jsx:137-155 | a value set through the inputs is the value a get through the same inputs reports |
| Array2DVisualization.EditActsAsSet | frontend/src/courses/data-structures/visualizations/Array2DVisualization.jsx:310-328 | editing a cell in place has the same effect as setting it through the inputs |
| TreeVisualization.SizeIsCardinality | frontend/src/courses/data-structures/visualizations/TreeVisualization.jsx:213-222 | a search tree holds as many distinct values as it has nodes |
| TreeVisualization.PathIds | frontend/src/courses/data-structures/visualizations/TreeVisualization.jsx:213-222 | the walk for a value passes at most as many nodes as the tree has, all of them nodes of the tree |
| TreeVisualization.PathFindsMembers | frontend/src/courses/data-structures/visualizations/TreeVisualization.jsx:240-253 | in a search tree the walk from the root finds exactly the values the tree holds |
| TreeVisualization.Insert | frontend/src/courses/data-structures/visualizations/TreeVisualization.jsx:211-229 | insertion adds the value to the tree; a value found on the walk leaves the tree unchanged, and otherwise exactly one new node with the new id is added |
| TreeVisualization.InsertKeepsSearchTree | frontend/src/courses/data-structures/visualizations/TreeVisualization.jsx:211-229 | insertion keeps the search order |
| TreeVisualization.InsertKeepsIdsUnique | frontend/src/courses/data-structures/visualizations/TreeVisualization.jsx:211-229 | inserting with a fresh id keeps the node ids distinct |
| TreeVisualization.InsertedLeafEndsPath | frontend/src/courses/data-structures/visualizations/TreeVisualization.jsx:225-228 | the new node ends the path the walk took to find its place |
| TreeVisualization.Extreme | frontend/src/courses/data-structures/visualizations/TreeVisualization.jsx:383-386 | always going left or always going right ends at a node of the tree with no further child that way |
| TreeVisualization.ExtremeBounds | frontend/src/courses/data-structures/visualizations/TreeVisualization.jsx:383-386 | in a search tree the leftmost value is the minimum and the rightmost is the maximum |
| TreeVisualization.Delete | frontend/src/courses/data-structures/visualizations/TreeVisualization.jsx:316-347 | deletion only removes values and ids, and deleting an absent value leaves the tree unchanged |
| TreeVisualization.DeleteKeepsSearchTree | frontend/src/courses/data-structures/visualizations/TreeVisualization.jsx:316-347 | deletion removes exactly the value and keeps the search order |
| TreeVisualization.DeleteRemovesOneNode | frontend/src/courses/data-structures/visualizations/TreeVisualization.jsx:316-347 | the node count drops by one exactly when the value was in the tree |
| TreeVisualization.DeleteKeepsIdsUnique | frontend/src/courses/data-structures/visualizations/TreeVisualization.jsx:316-347 | deletion keeps the node ids distinct |
| TreeVisualization.Del | frontend/src/courses/data-structures/visualizations/TreeVisualization.jsx:316-347 | the recursive deletion with its successor loop computes the specified deletion |
| TreeVisualization.SearchWalk | frontend/src/courses/data-structures/visualizations/TreeVisualization.jsx:240-254 | the search trace ends in "found" exactly when the walk meets the value, and in "not in tree" otherwise |
| TreeVisualization.SearchTraceFindsMembers | frontend/src/courses/data-structures/visualizations/TreeVisualization.jsx:235-256 | the search trace of a search tree ends in "found" exactly when the value is in the tree |
| TreeVisualization.SuccessorWalk | frontend/src/courses/data-structures/visualizations/TreeVisualization.jsx:301-306 | the successor walk ends at the leftmost node of the right subtree and names its value |
| TreeVisualization.DeleteWalk | frontend/src/courses/data-structures/visualizations/TreeVisualization.jsx:277-311 | the delete trace ends in "not found" exactly when the walk misses the value, and otherwise in "deletion complete" |
| TreeVisualization.DeleteTraceAgrees | frontend/src/courses/data-structures/visualizations/TreeVisualization.jsx:272-354 | for a search tree the delete trace reports "not found" exactly when the value is absent, and then the deletion changes nothing |
| TreeVisualization.ExtremeWalk | frontend/src/courses/data-structures/visualizations/TreeVisualization.jsx:383-397 | the minimum or maximum trace ends by naming the extreme node's value |
| TreeVisualization.MinMaxReportsExtreme | frontend/src/courses/data-structures/visualizations/TreeVisualization.jsx:371-398 | an empty tree gives the single "tree is empty" frame; otherwise the trace names a value of the tree no larger, or no smaller, than all the others |
| TreeVisualization.Inorder | frontend/src/courses/data-structures/visualizations/TreeVisualization.jsx:428-433 | the inorder walk lists as many nodes as the tree has |
| TreeVisualization.Preorder | frontend/src/courses/data-structures/visualizations/TreeVisualization.jsx:435-440 | the preorder walk lists as many nodes as the tree has |
| TreeVisualization.Postorder | frontend/src/courses/data-structures/visualizations/TreeVisualization.jsx:442-447 | the postorder walk lists as many nodes as the tree has |
| TreeVisualization.InorderValues | frontend/src/courses/data-structures/visualizations/TreeVisualization.jsx:428-433 | every value the inorder walk lists is a value of the tree |
| TreeVisualization.InorderIncreasing | frontend/src/courses/data-structures/visualizations/TreeVisualization.jsx:428-433 | the inorder walk of a search tree lists its values in strictly increasing order |
| TreeVisualization.QueueConcat | frontend/src/courses/data-structures/visualizations/TreeVisualization.jsx:449-460 | the nodes of two queues of subtrees together are the nodes of each |
| TreeVisualization.Children | frontend/src/courses/data-structures/visualizations/TreeVisualization.jsx:457-458 | the subtrees enqueued after a node are its non-empty children, left first, holding exactly its other nodes |
| TreeVisualization.ChildrenInOrder | frontend/src/courses/data-structures/visualizations/TreeVisualization.jsx:457-458 | pushing the left child if any and then the right child if any appends the node's children |
| TreeVisualization.LevelFrom | frontend/src/courses/data-structures/visualizations/TreeVisualization.jsx:449-460 | breadth-first order from a queue lists as many nodes as the queued subtrees hold |
| TreeVisualization.LevelFromItems | frontend/src/courses/data-structures/visualizations/TreeVisualization.jsx:449-460 | breadth-first order lists every node of the queued subtrees exactly once |
| TreeVisualization.Regroup | frontend/src/courses/data-structures/visualizations/TreeVisualization.jsx:449-460 | the node collections of a dequeued node, its children and the rest of the queue regroup to the same whole |
| TreeVisualization.InorderItems | frontend/src/courses/data-structures/visualizations/TreeVisualization.jsx:428-433 | the inorder walk lists every node exactly once |
| TreeVisualization.PreorderItems | frontend/src/courses/data-structures/visualizations/TreeVisualization.jsx:435-440 | the preorder walk lists every node exactly once |
| TreeVisualization.PostorderItems | frontend/src/courses/data-structures/visualizations/TreeVisualization.jsx:442-447 | the postorder walk lists every node exactly once |
| TreeVisualization.TraversalVisitsEachNodeOnce | frontend/src/courses/data-structures/visualizations/TreeVisualization.jsx:419-468 | every traversal visits every node of the tree exactly once |
| TreeVisualization.VisitFrames | frontend/src/courses/data-structures/visualizations/TreeVisualization.jsx:423-426 | one visit frame per listed node, naming its value and highlighting its id |
| TreeVisualization.Order | frontend/src/courses/data-structures/visualizations/TreeVisualization.jsx:423-426 | the output list holds the values of the visited nodes, in order |
| TreeVisualization.VisitSnoc | frontend/src/courses/data-structures/visualizations/TreeVisualization.jsx:423-426 | visiting one more node adds its frame to the trace and its value to the output |
| TreeVisualization.Renumber | frontend/src/courses/data-structures/visualizations/TreeVisualization.jsx:508-510 | the rebuild keeps the shape and values, numbers the nodes with consecutive fresh ids, and keeps the search order |
| TreeVisualization.SeedInsert | frontend/src/courses/data-structures/visualizations/TreeVisualization.jsx:494-504 | an empty tree becomes one leaf with id -1 holding the value; otherwise the root keeps its id and value |
| TreeVisualization.SeedInsertItems | frontend/src/courses/data-structures/visualizations/TreeVisualization.jsx:494-504 | the tree gains exactly one item, a node with id -1 holding the value, and keeps every other item |
| TreeVisualization.SeedInsertValues | frontend/src/courses/data-structures/visualizations/TreeVisualization.jsx:494-504 | the tree's values gain the inserted value and its size grows by one |
| TreeVisualization.SeedInsertKeepsOrder | frontend/src/courses/data-structures/visualizations/TreeVisualization.jsx:494-504 | a search tree that does not hold the value stays a search tree after the insertion |
| TreeVisualization.SeededRebuild | frontend/src/courses/data-structures/visualizations/TreeVisualization.jsx:488-513 | the seed values inserted into an empty tree and rebuilt from a given id give the example tree, a search tree with distinct ids all below that id plus seven |
| TreeVisualization.SeedInsertsBalance | frontend/src/courses/data-structures/visualizations/TreeVisualization.jsx:490-506 | inserting 50, 30, 70, 20, 40, 60, 80 one after another into an empty tree gives the balanced three-level tree |
| TreeVisualization.RenumberSeedShape | frontend/src/courses/data-structures/visualizations/TreeVisualization.jsx:508-512 | rebuilding the example tree numbers its nodes in preorder from the next free id |
| TreeVisualization.SeededTreeIsSearchTree | frontend/src/courses/data-structures/visualizations/TreeVisualization.jsx:488-513 | the example tree is a search tree with distinct ids |
| TreeVisualization.LeafFacts | frontend/src/courses/data-structures/visualizations/TreeVisualization.jsx:162-168 | a single new node is a search tree holding its own value and id |
| TreeVisualization.SeededTreeOrders | frontend/src/courses/data-structures/visualizations/TreeVisualization.jsx:488-513 | the example tree's inorder walk lists 20, 30, 40, 50, 60, 70, 80, and its ids run in preorder |
| TreeVisualization.CaseFrames | frontend/src/courses/data-structures/visualizations/TreeVisualization.jsx:293-311 | the frames after "found" are those of the node's case: leaf, one child, or two children with the successor walk |
| TreeVisualization.LevelStep | frontend/src/courses/data-structures/visualizations/TreeVisualization.jsx:454-459 | one turn of the level-order loop keeps the invariant that the visits so far and the queue make up the breadth-first order |
| TreeVisualization.QueueStep | frontend/src/courses/data-structures/visualizations/TreeVisualization.jsx:454-459 | dequeuing a subtree and enqueuing its children keeps only non-empty subtrees queued, shrinks what is left, and visits that subtree's root first |
| TreeVisualization.LevelTurn | frontend/src/courses/data-structures/visualizations/TreeVisualization.jsx:454-459 | one loop turn keeps the level-order invariant and shrinks the queue |
| TreeVisualization.LevelOrderTrace | frontend/src/courses/data-structures/visualizations/TreeVisualization.jsx:449-460 | the level-order trace is the queue frame followed by one visit per node in breadth-first order |
| TreeVisualization.TreeView.constructor | frontend/src/courses/data-structures/visualizations/TreeVisualization.jsx:114 | a new view holds an empty tree and no pending deletion |
| TreeVisualization.TreeView.ResetAnimation | frontend/src/courses/data-structures/visualizations/TreeVisualization.jsx:174-182 | resetting the animation drops any pending deletion and keeps the tree |
| TreeVisualization.TreeView.OnAnimationEnd | frontend/src/courses/data-structures/visualizations/TreeVisualization.jsx:150-158 | when the animation has played out, a pending deletion is applied to the tree and cleared; with none pending the tree is kept |
| TreeVisualization.WalkPath | frontend/src/courses/data-structures/visualizations/TreeVisualization.jsx:211-223 | the walk reports a hit exactly when the value lies on its search path, and collects the ids of that path in order |
| TreeVisualization.TreeView.OnInsert | frontend/src/courses/data-structures/visualizations/TreeVisualization.jsx:197-232 | an empty or non-numeric input changes nothing; otherwise a pending deletion is dropped, and an empty tree gets the value as its root; a value already present leaves the tree alone; otherwise one new node is attached, and the flash names the nodes walked |
| TreeVisualization.TreeView.BuildSearchTrace | frontend/src/courses/data-structures/visualizations/TreeVisualization.jsx:235-256 | the loop builds the specified search trace |
| TreeVisualization.TreeView.OnSearch | frontend/src/courses/data-structures/visualizations/TreeVisualization.jsx:259-269 | an empty or non-numeric input gives no trace and changes nothing; otherwise the search trace of the current tree, with any pending deletion dropped and the tree kept |
| TreeVisualization.TreeView.BuildDeleteTrace | frontend/src/courses/data-structures/visualizations/TreeVisualization.jsx:272-312 | the loop builds the specified delete trace |
| TreeVisualization.TreeView.ApplyDelete | frontend/src/courses/data-structures/visualizations/TreeVisualization.jsx:315-354 | the tree loses exactly the value and stays a search tree with distinct ids |
| TreeVisualization.TreeView.OnDelete | frontend/src/courses/data-structures/visualizations/TreeVisualization.jsx:357-368 | an empty or non-numeric input changes nothing; otherwise the delete trace of the current tree is shown and the value becomes the pending deletion, the tree itself kept until the animation ends |
| TreeVisualization.DeleteThenAnimationEnd | frontend/src/courses/data-structures/visualizations/TreeVisualization.jsx:357-368 | a delete whose animation plays to the end removes exactly the value, after showing the delete trace of the tree as it was |
| TreeVisualization.DeleteCancelledBySearch | frontend/src/courses/data-structures/visualizations/TreeVisualization.jsx:259-264 | a search started before a delete animation ends cancels the deletion: the tree is kept even when the animation then ends |
| TreeVisualization.TreeView.BuildMinMaxTrace | frontend/src/courses/data-structures/visualizations/TreeVisualization.jsx:371-416 | the loop builds the specified minimum or maximum trace |
| TreeVisualization.TreeView.BuildTraversalTrace | frontend/src/courses/data-structures/visualizations/TreeVisualization.jsx:419-486 | one visit per node in the traversal's order, the level order starting with the queue frame; the output lists the visited values |
| TreeVisualization.TreeView.InsertAll | frontend/src/courses/data-structures/visualizations/TreeVisualization.jsx:506 | the values inserted one after another from the empty tree give the fold of the insertion over them |
| TreeVisualization.TreeView.OnSeed | frontend/src/courses/data-structures/visualizations/TreeVisualization.jsx:488-513 | the tree becomes the example tree with ids numbered from the next free id, seven of them used, and any pending deletion is dropped |
| TreeVisualization.TreeView.OnClear | frontend/src/courses/data-structures/visualizations/TreeVisualization.jsx:517-521 | the tree is emptied and any pending deletion dropped |
| Array1DVisualization.Blank | frontend/src/courses/data-structures/visualizations/Array1DVisualization.jsx:15 | a row of the given length in which every cell is empty |
| Array1DVisualization.Filled | frontend/src/courses/data-structures/visualizations/Array1DVisualization.jsx:180 | a row of the given length in which every cell holds the value |
| Array1DVisualization.ComparatorIsPreorder | frontend/src/courses/data-structures/visualizations/Array1DVisualization.jsx:102-106 | a comparator that obeys the laws of an order gives a total preorder |
| Array1DVisualization.IsSorted | frontend/src/courses/data-structures/visualizations/Array1DVisualization.jsx:108-113 | the answer is true exactly when every neighbouring pair is in comparator order |
| Array1DVisualization.ChainUp | frontend/src/courses/data-structures/visualizations/Array1DVisualization.jsx:108-113 | under a comparator, neighbouring pairs in order put every earlier cell before every later one |
| Array1DVisualization.AdjacentIsSorted | frontend/src/courses/data-structures/visualizations/Array1DVisualization.jsx:108-113 | under a comparator, neighbouring pairs in order is the same as every pair in order |
| Array1DVisualization.SwapsPermute | frontend/src/courses/data-structures/visualizations/Array1DVisualization.jsx:73-74 | a trace whose only mutations are swaps replays to a permutation of its base |
| Array1DVisualization.ArrayView.constructor | frontend/src/courses/data-structures/visualizations/Array1DVisualization.jsx:14-15 | a new view shows ten empty cells and no edit |
| Array1DVisualization.ArrayView.Resize | frontend/src/courses/data-structures/visualizations/Array1DVisualization.jsx:126-137 | the length is clamped to between 1 and 24; the first cells keep their values as far as both lengths reach, the rest are empty, and any edit is dropped |
| Array1DVisualization.ArrayView.Seed | frontend/src/courses/data-structures/visualizations/Array1DVisualization.jsx:139-144 | the view shows the ten cells A to J |
| Array1DVisualization.ArrayView.Clear | frontend/src/courses/data-structures/visualizations/Array1DVisualization.jsx:146-151 | every cell is emptied, the length is kept and any edit is dropped |
| Array1DVisualization.ArrayView.Set | frontend/src/courses/data-structures/visualizations/Array1DVisualization.jsx:153-163 | the index is clamped into the shown cells and exactly that cell takes the value |
| Array1DVisualization.ArrayView.Sort | frontend/src/courses/data-structures/visualizations/Array1DVisualization.jsx:204-209 | the shown cells become their sort under the comparator, a sorted permutation of what they were |
| Array1DVisualization.ArrayView.BinarySearch | frontend/src/courses/data-structures/visualizations/Array1DVisualization.jsx:225-238 | the search is refused with its one-step notice exactly when the shown cells are out of order, and otherwise runs over them |
| Array1DVisualization.ArrayView.ApplyOperation | frontend/src/courses/data-structures/visualizations/Array1DVisualization.jsx:59-80 | a trace without swaps or sets shows nothing; otherwise the view is the base with the mutations of the steps so far applied in order |
| Array1DVisualization.ArrayView.Commit | frontend/src/courses/data-structures/visualizations/Array1DVisualization.jsx:83-89 | when the animation ends, the view replaces the shown cells |
| Array1DVisualization.ArrayView.Get | frontend/src/courses/data-structures/visualizations/Array1DVisualization.jsx:165-170 | the index is clamped into the shown cells and that cell's value is reported; an index in range is used as given |
| Array1DVisualization.ArrayView.Fill | frontend/src/courses/data-structures/visualizations/Array1DVisualization.jsx:172-182 | one step per shown cell in index order, and then every shown cell holds the value |
| Array1DVisualization.ArrayView.RandomFill | frontend/src/courses/data-structures/visualizations/Array1DVisualization.jsx:184-202 | each shown cell takes the two-digit text of the number drawn for it, one step per cell in index order |
| Array1DVisualization.ArrayView.Traverse | frontend/src/courses/data-structures/visualizations/Array1DVisualization.jsx:211-216 | one visit per shown cell, in index order |
| Array1DVisualization.ArrayView.LinearSearch | frontend/src/courses/data-structures/visualizations/Array1DVisualization.jsx:218-223 | the trace reports the first shown cell holding the target, after checking all cells before it, or reports "not found" after checking every cell, and then no shown cell holds the target |
| Array1DVisualization.ArrayView.FindMin | frontend/src/courses/data-structures/visualizations/Array1DVisualization.jsx:240-245 | the trace ends highlighting the first shown cell holding a minimum |
| Array1DVisualization.ArrayView.FindMax | frontend/src/courses/data-structures/visualizations/Array1DVisualization.jsx:247-252 | the trace ends highlighting the first shown cell holding a maximum |
| Array1DVisualization.ArrayView.Reverse | frontend/src/courses/data-structures/visualizations/Array1DVisualization.jsx:254-261 | as written, the copy stored as the view's base is the array the trace generator reverses in place: the base holds the cells reversed, the trace's mirror swaps replayed on it give back the cells in their first order, and the last step carries a swap exactly for even lengths |
| Array1DVisualization.ArrayView.BubbleSort | frontend/src/courses/data-structures/visualizations/Array1DVisualization.jsx:263-270 | as written, the copy stored as the view's base is the array the trace generator sorts in place: the base holds a sorted permutation of the cells, reached from them by neighbouring swaps, and the last step carries no swap |
| Array1DVisualization.ArrayView.StartEdit | frontend/src/courses/data-structures/visualizations/Array1DVisualization.jsx:273-276 | an edit opens on the clicked cell holding its current value, and the cells are untouched |
| Array1DVisualization.ArrayView.EditValue | frontend/src/courses/data-structures/visualizations/Array1DVisualization.jsx:488 | typing replaces the text of an open edit and changes nothing else |
| Array1DVisualization.ArrayView.CommitEdit | frontend/src/courses/data-structures/visualizations/Array1DVisualization.jsx:278-288 | without an open edit nothing changes; otherwise exactly the edited cell takes the typed text and the edit closes |
| Array1DVisualization.ArrayView.CancelEdit | frontend/src/courses/data-structures/visualizations/Array1DVisualization.jsx:290 | the edit closes and the cells are untouched |
| Array1DVisualization.PlayAndCommit | frontend/src/courses/data-structures/visualizations/Array1DVisualization.jsx:52-89 | played to its last step, the trace commits only when that step carries a swap or a set, and then the shown cells become the trace replayed on the base; otherwise the cells are kept |
| Array1DVisualization.ReverseAndCommit | frontend/src/courses/data-structures/visualizations/Array1DVisualization.jsx:52-89 | reverse as written, played and committed, leaves the shown cells as they were, for every length |
| Array1DVisualization.BubbleSortAndCommit | frontend/src/courses/data-structures/visualizations/Array1DVisualization.jsx:52-89 | bubble sort as written, played to its end, commits nothing and leaves the shown cells as they were |
| Array1DVisualization.ArrayView.ReverseOnCopy | frontend/src/courses/data-structures/visualizations/Array1DVisualization.jsx:254-261 | with a base the trace generator does not touch, the reverse trace replays on the shown cells to them reversed, by half the length in mirror swaps |
| Array1DVisualization.ArrayView.BubbleSortOnCopy | frontend/src/courses/data-structures/visualizations/Array1DVisualization.jsx:263-270 | with a base the trace generator does not touch, the bubble-sort trace replays on the shown cells, by neighbouring swaps, to a permutation of them in comparator order |
| Array1DVisualization.PlayToEndAndCommit | frontend/src/courses/data-structures/visualizations/Array1DVisualization.jsx:59-89 | a commit at the end of the animation whatever its last step carries leaves the shown cells the trace replayed on them |
| Array1DVisualization.ReverseOnCopyAndCommit | frontend/src/courses/data-structures/visualizations/Array1DVisualization.jsx:254-261 | reverse on a copy, played and committed, leaves the shown cells reversed |
| Array1DVisualization.BubbleSortOnCopyAndCommit | frontend/src/courses/data-structures/visualizations/Array1DVisualization.jsx:263-270 | bubble sort on a copy, played and committed, leaves the shown cells a permutation of what they were with every neighbouring pair in order |
| Array1DVisualization.NoOpsReplay | frontend/src/courses/data-structures/visualizations/Array1DVisualization.jsx:60-61 | a trace without swaps or sets replays to its base |
| Array1DVisualization.GuardedSearchComplete | frontend/src/courses/data-structures/visualizations/Array1DVisualization.jsx:225-238 | a binary search the guard lets through reports "not found" only when no shown cell holds the target, for a comparator that tells different strings apart |
| Array1DVisualization.SortedPassesGuard | frontend/src/courses/data-structures/visualizations/Array1DVisualization.jsx:204-238 | after a sort the guard lets binary search through |
| ListTraces.InsertAt | frontend/src/courses/data-structures/visualizations/DoublyLinkedListVisualization.jsx:128 | the value lands at the position, the nodes before it stay and the nodes after it shift one place right; the list gains exactly that value |
| ListTraces.RemoveAt | frontend/src/courses/data-structures/visualizations/DoublyLinkedListVisualization.jsx:246 | the node at the index goes, the nodes before it stay and those after it shift one place left; the list loses exactly that value |
| ListTraces.RemoveUndoesInsert | frontend/src/courses/data-structures/visualizations/DoublyLinkedListVisualization.jsx:128 | removing at a position what was just inserted there gives the list back |
| ListTraces.InsertUndoesRemove | frontend/src/courses/data-structures/visualizations/DoublyLinkedListVisualization.jsx:246 | inserting back at a position what was removed there gives the list back |
| ListTraces.Checks | frontend/src/courses/data-structures/visualizations/SinglyLinkedListVisualization.jsx:156-166 | one "checking node" frame per node checked, in order |
| ListTraces.SearchTrace | frontend/src/courses/data-structures/visualizations/SinglyLinkedListVisualization.jsx:150-175 | the search trace ends in "found" exactly when the target is in the list, and then at its first position after checking only the nodes before it; otherwise it checks every node and reports "not in list" |
| ListTraces.Search | frontend/src/courses/data-structures/visualizations/SinglyLinkedListVisualization.jsx:150-175 | the loop builds the search trace and reports a match exactly when a node equals the target |
| ListTraces.TraverseTrace | frontend/src/courses/data-structures/visualizations/SinglyLinkedListVisualization.jsx:177-194 | one visit per node in order, then "traversal complete" |
| ListTraces.SeedTrace | frontend/src/courses/data-structures/visualizations/SinglyLinkedListVisualization.jsx:196-210 | one frame per seeded node, naming it |
| ListTraces.InsertTailTrace | frontend/src/courses/data-structures/visualizations/SinglyLinkedListVisualization.jsx:72-96 | an empty list takes the new node as head; otherwise the trace walks to the old last node and links the new one after it |
| SinglyLinkedListVisualization.InsertHeadTrace | frontend/src/courses/data-structures/visualizations/SinglyLinkedListVisualization.jsx:61-65 | three frames on pc lines 1 to 3: the new node is made off the list, then becomes cell 0, where the last frame reports the value inserted at the head |
| SinglyLinkedListVisualization.DeleteHeadTrace | frontend/src/courses/data-structures/visualizations/SinglyLinkedListVisualization.jsx:105-109 | three frames on pc lines 1 to 3: cell 0 is checked and its value named as removed, then the highlight moves to cell 1, the new head |
| SinglyLinkedListVisualization.DeleteTailTrace | frontend/src/courses/data-structures/visualizations/SinglyLinkedListVisualization.jsx:120-148 | a list longer than one walks to the second-last node before the tail goes; the last frame highlights the tail |
| SinglyLinkedListVisualization.SinglyLinkedListView.constructor | frontend/src/courses/data-structures/visualizations/SinglyLinkedListVisualization.jsx:14 | a new view holds an empty list |
| SinglyLinkedListVisualization.SinglyLinkedListView.InsertHead | frontend/src/courses/data-structures/visualizations/SinglyLinkedListVisualization.jsx:53-70 | a value blank once trimmed is refused; otherwise the trimmed value becomes the new head |
| SinglyLinkedListVisualization.SinglyLinkedListView.InsertTail | frontend/src/courses/data-structures/visualizations/SinglyLinkedListVisualization.jsx:72-96 | a value blank once trimmed is refused; otherwise the trimmed value becomes the new tail |
| SinglyLinkedListVisualization.SinglyLinkedListView.DeleteHead | frontend/src/courses/data-structures/visualizations/SinglyLinkedListVisualization.jsx:98-118 | an empty list is left alone; otherwise exactly the head goes |
| SinglyLinkedListVisualization.SinglyLinkedListView.DeleteTail | frontend/src/courses/data-structures/visualizations/SinglyLinkedListVisualization.jsx:120-148 | an empty list is left alone; otherwise exactly the tail goes |
| SinglyLinkedListVisualization.SinglyLinkedListView.SearchFor | frontend/src/courses/data-structures/visualizations/SinglyLinkedListVisualization.jsx:150-175 | a blank target is refused; otherwise the search reports a match exactly when a node equals the trimmed target, and the list is not changed |
| SinglyLinkedListVisualization.SinglyLinkedListView.Traverse | frontend/src/courses/data-structures/visualizations/SinglyLinkedListVisualization.jsx:177-194 | an empty list gives no trace; otherwise one visit per node in order, then "complete" |
| SinglyLinkedListVisualization.SinglyLinkedListView.Seed | frontend/src/courses/data-structures/visualizations/SinglyLinkedListVisualization.jsx:196-210 | the list becomes A, B, C, D |
| SinglyLinkedListVisualization.SinglyLinkedListView.Clear | frontend/src/courses/data-structures/visualizations/SinglyLinkedListVisualization.jsx:212-220 | the list is emptied |
| SinglyLinkedListVisualization.InsertThenDeleteHead | frontend/src/courses/data-structures/visualizations/SinglyLinkedListVisualization.jsx:53-118 | inserting at the head and then deleting the head gives the list back |
| SinglyLinkedListVisualization.InsertThenDeleteTail | frontend/src/courses/data-structures/visualizations/SinglyLinkedListVisualization.jsx:72-148 | inserting at the tail and then deleting the tail gives the list back |
| SinglyLinkedListVisualization.InsertThenSearch | frontend/src/courses/data-structures/visualizations/SinglyLinkedListVisualization.jsx:53-175 | a value just inserted at either end is found by the next search |
| DoublyLinkedListVisualization.InsertHeadTrace | frontend/src/courses/data-structures/visualizations/DoublyLinkedListVisualization.jsx:62-67 | four frames on pc lines 1 to 4: the new node is made off the list, then linked in as cell 0, where the last frame reports the value inserted at the head |
| DoublyLinkedListVisualization.InsertAfterTrace | frontend/src/courses/data-structures/visualizations/DoublyLinkedListVisualization.jsx:115-120 | four frames on pc lines 1 to 4: node `idx` is found, then its neighbours `idx` and `idx + 1` stay highlighted until the value is reported inserted after `idx` |
| DoublyLinkedListVisualization.InsertBeforeTrace | frontend/src/courses/data-structures/visualizations/DoublyLinkedListVisualization.jsx:152-157 | four frames on pc lines 1 to 4: node `idx` is found, then its neighbours `idx - 1` and `idx` stay highlighted until the value is reported inserted before `idx` |
| DoublyLinkedListVisualization.DeleteHeadTrace | frontend/src/courses/data-structures/visualizations/DoublyLinkedListVisualization.jsx:181-185 | three frames on pc lines 1 to 3: cell 0 is checked and its value named as removed, then the head pointer moves on to cell 1 |
| DoublyLinkedListVisualization.DeleteTailTrace | frontend/src/courses/data-structures/visualizations/DoublyLinkedListVisualization.jsx:205-209 | three frames on pc lines 1 to 3: the tail cell is checked and its value named as removed, then the tail pointer moves back one cell |
| DoublyLinkedListVisualization.MissTrace | frontend/src/courses/data-structures/visualizations/DoublyLinkedListVisualization.jsx:261-264 | two frames with no cell highlighted: the search for the value on pc line 1, then "not found" on pc line 3 |
| DoublyLinkedListVisualization.RemoveTrace | frontend/src/courses/data-structures/visualizations/DoublyLinkedListVisualization.jsx:220-252 | after the node is located, its two neighbours are relinked, the node goes and the deletion completes |
| DoublyLinkedListVisualization.DoublyLinkedListView.constructor | frontend/src/courses/data-structures/visualizations/DoublyLinkedListVisualization.jsx:14 | a new view holds an empty list |
| DoublyLinkedListVisualization.DoublyLinkedListView.InsertHead | frontend/src/courses/data-structures/visualizations/DoublyLinkedListVisualization.jsx:54-72 | a value blank once trimmed is refused; otherwise the trimmed value becomes the new head |
| DoublyLinkedListVisualization.DoublyLinkedListView.InsertTail | frontend/src/courses/data-structures/visualizations/DoublyLinkedListVisualization.jsx:74-98 | a value blank once trimmed is refused; otherwise the trimmed value becomes the new tail |
| DoublyLinkedListVisualization.DoublyLinkedListView.InsertAfter | frontend/src/courses/data-structures/visualizations/DoublyLinkedListVisualization.jsx:100-135 | a blank value is refused; an empty list takes the value as head whatever the index; an index outside the list is refused; otherwise the value lands right after the indexed node |
| DoublyLinkedListVisualization.DoublyLinkedListView.InsertBefore | frontend/src/courses/data-structures/visualizations/DoublyLinkedListVisualization.jsx:137-172 | a blank value is refused; an empty list takes the value as head whatever the index; an index outside the list is refused; otherwise the value lands in front of the indexed node |
| DoublyLinkedListVisualization.DoublyLinkedListView.DeleteHead | frontend/src/courses/data-structures/visualizations/DoublyLinkedListVisualization.jsx:174-194 | an empty list is left alone; otherwise exactly the head goes |
| DoublyLinkedListVisualization.DoublyLinkedListView.DeleteTail | frontend/src/courses/data-structures/visualizations/DoublyLinkedListVisualization.jsx:196-218 | an empty list is left alone; otherwise exactly the tail goes |
| DoublyLinkedListVisualization.DoublyLinkedListView.DeleteAtIndex | frontend/src/courses/data-structures/visualizations/DoublyLinkedListVisualization.jsx:220-252 | an index outside the list, or an empty list, leaves it alone; otherwise exactly the indexed node goes |
| DoublyLinkedListVisualization.DoublyLinkedListView.DeleteByValue | frontend/src/courses/data-structures/visualizations/DoublyLinkedListVisualization.jsx:254-289 | a blank value is refused; a value no node holds leaves the list alone with the "not found" trace; otherwise the first node holding it goes, so the list loses exactly one copy |
| DoublyLinkedListVisualization.DoublyLinkedListView.SearchFor | frontend/src/courses/data-structures/visualizations/DoublyLinkedListVisualization.jsx:291-316 | a blank target is refused; otherwise the search reports a match exactly when a node equals the trimmed target, and the list is not changed |
| DoublyLinkedListVisualization.DoublyLinkedListView.Traverse | frontend/src/courses/data-structures/visualizations/DoublyLinkedListVisualization.jsx:318-335 | an empty list gives no trace; otherwise one visit per node in order, then "complete" |
| DoublyLinkedListVisualization.DoublyLinkedListView.Seed | frontend/src/courses/data-structures/visualizations/DoublyLinkedListVisualization.jsx:337-351 | the list becomes A, B, C, D |
| DoublyLinkedListVisualization.DoublyLinkedListView.Clear | frontend/src/courses/data-structures/visualizations/DoublyLinkedListVisualization.jsx:353-363 | the list is emptied |
| DoublyLinkedListVisualization.InsertAfterThenDelete | frontend/src/courses/data-structures/visualizations/DoublyLinkedListVisualization.jsx:100-252 | inserting after a node and then deleting at the next index gives the list back |
| DoublyLinkedListVisualization.InsertBeforeThenDelete | frontend/src/courses/data-structures/visualizations/DoublyLinkedListVisualization.jsx:137-252 | inserting before a node and then deleting at its index gives the list back |
| DoublyLinkedListVisualization.InsertHeadThenDeleteByValue | frontend/src/courses/data-structures/visualizations/DoublyLinkedListVisualization.jsx:54-289 | deleting by value the value just put at the head removes that head again |

## Left out

- Firestore, Chroma, the embedding function, the Gemini model, the Piston executor, Pinata/IPFS and HTTP are not modelled as services. Firestore collections are `map` fields keyed by document id. A vector query is an abstract result value. The model's reply and each executed program output are inputs.
- The FastAPI routes, the app wiring and the pydantic models are left out, because they only forward to the services modelled here.
- `CodingService.run_code` is not modelled separately: it only forwards to `run_code_only`, which `CodingEvaluation.RunCodeOnly` models. `get_submissions` likewise forwards to the repository query `AssessmentRepo` models.
- The Solana token mint, the Metaplex metadata and master-edition calls (solana/program/programs/program/src/lib.rs:50-111), the Anchor account wiring and `close_certificate` are left out. `close_certificate` only logs, and the runtime closes the account.
- The clock, `uuid`, `secrets.token_urlsafe` and `Math.random` are parameters. A random draw is a function the caller supplies, whose values must lie between 10 and 99.
- Floating point is modelled with exact `real` arithmetic, and rounding to the nearest integer is `floor(x + 0.5)`. IEEE rounding error and Python's `round(x, 2)` are not modelled.
- JavaScript `trim` is modelled with the whitespace set of Python's `str.strip`. Unicode spaces outside ASCII are not stripped. `lower()` is modelled on ASCII letters only.
- Number inputs (`parseInt`, `Number`, `+value`, `|0`) are modelled as optional integers, with `None` where the source gets `NaN`. Fractional and exponent inputs are left out.
- The SHA-1 digest in `_stable_chunk_id` is an uninterpreted function the caller supplies. Two different chunks get the same id only when the digest maps their two different keys to the same value; that SHA-1 makes this practically impossible is not modelled.
- The regex substitution passes of `extract_from_jsx` and its replacement of the fragments "</>" and "<>" are a markup-stripping function the caller supplies. The `os.walk` listing of `discover_source_files` and the existence test for document paths are inputs.
- The mixed numeric/string comparator `cmp` of the array visualiser is an abstract comparator that must be a total preorder. The comparator in the source is not transitive on mixed inputs ("2" < "10" < "1a" < "2"), so sorting and binary search are proved for well-behaved comparators only.
- Array1DVisualization.ArrayView.FindMin: the comparator is abstract, as for `cmp`, so the first minimum is stated under a total preorder. The same holds for `FindMax`.
- Array1DVisualization.ArrayView.RandomFill: the drawn numbers are stored as their decimal text, not as numbers. The same holds for `Array2DVisualization.MatrixView.RandomFill`.
- Array2DVisualization.MatrixView.CommitEdit: a pending edit whose cell has left the grid is dropped, not written. In the component this cannot arise, because a resize first blurs the editor and so commits the edit.
- Array2DVisualization.MatrixView.Spiral: the message and the pseudocode line of each spiral frame are not stated. Only the order of the visited cells is proved.
- ArrayOperations.MinTrace: the comparison is an abstract total preorder. The source's `isLess` compares two numeric texts as numbers and anything else as text, which is not transitive: on ["2", "10", "1a"] it reports "1a", although the same comparison puts "10" before "1a". So "the first minimum" holds only for well-behaved comparators.
- ArrayOperations.MaxTrace: the same as for `MinTrace`, with `isGreater` in place of `isLess`.
- CourseConfig.GetCourseConfig: ids that name a member every JavaScript object inherits, such as "constructor" or "__proto__", are not modelled. For those, `courseConfigs[courseId] || null` is a truthy inherited value, and `isModuleExcluded` then throws a TypeError on `config.progress.excludedModules`. The model answers None for them.
- StackVisualization.StackView.Push: the fullness test reads the rendered stack, while the write is deferred 380 ms (StackVisualization.jsx:43, 61, 75-76). Two pushes inside that delay both pass the test, so the source can exceed the capacity. The model commits each push at once, so it cannot.
- QueueVisualization.QueueView.Enqueue: as for `Push`, the fullness test and the rear index are read from the rendered state, while the write is deferred (QueueVisualization.jsx:79, 91, 101-110). Two enqueues inside the delay write the same slot, so the second value overwrites the first while the size grows by two. That breaks the invariant `QueueView.Valid` states. The model commits each enqueue at once.
- CodingEvaluation.Penalty: the anti-cheat counters are whole numbers, negative ones included. Fractional counters, which make the penalty and the score floats, are not modelled. Nor are non-numeric or null counters: in the source `min` raises a TypeError on them, and `evaluate_submission` answers `{'success': False, 'message': 'Evaluation error: …'}`. So CodingEvaluation.EvaluateSubmission and CodingService.SubmitCode never take that error path.
- Fields that a stored document or a request holds as an explicit JSON null are read as absent. In the source, `.get(key, default)` returns the null and not the default, and the next use of the value raises. Among the places that raise on it:
  - A progress document with `modules_completed: null` makes the membership test at simple_progress_service.py:122 raise. `get_certification_status` then raises "Error getting certification status: …", where `SimpleProgress.CertificationStatus` reads an empty list.
  - The same null makes the membership test at progress_repository.py:79-80 raise in `update_coding_progress`, where `ProgressRepo.ModulesAfterCoding` reads an empty list.
  - A progress document with `quiz: null` or `coding: null` makes `.get` on it raise at progress_repository.py:38-39 and 62-63, and at 103-106 in `get_certification_eligibility`. `ProgressRepo.QuizAfter`, `ProgressRepo.CodingAfter` and `ProgressRepo.CertificationEligibility` read no record instead.
  - A progress document with `completion_percentage: null` makes `learning_progress * 0.7` at progress_repository.py:116 raise, where `ProgressRepo.CertificationEligibility` reads 0 percent.
  - A progress document with `coding_challenge: null` makes `.get('score')` at simple_progress_service.py:173 raise, where `SimpleProgress.UserProgressService.GetCodingChallengeScore` reads no score.
  - A user document with `coursesEnrolled: null` makes the membership test at user_repository.py:47-48 raise in `enroll_course`, where `UserRepo.CoursesOf` and `UserRepo.UserRepository.EnrollCourse` read an empty list.
  - An answer with `selected_answer: null` makes `.strip()` at quiz_service.py:103 raise. `submit_quiz` then replies `{"error": …}`, where `QuizSubmission.Selection` reads a blank selection.
- Ordering.SortBy: that entries the order does not separate keep their relative order, as Python's sort does, is not stated.
- Certificate.AccountFits: an id is counted one byte per character. That matches the serialized UTF-8 length only for ASCII ids; other characters take more bytes than the model counts.
- Timers are not modelled. A commit deferred with `setTimeout` takes effect at once. `requestAnimationFrame` playback, the pseudocode panel, toasts, status strings and logging are left out. The step traces are kept as sequences of frames.
- `buildTrace`'s fallback from an empty step message to the status text is left out, as are the purely cosmetic cell lists of some frames.
- The `onMin`, `onMax` and `onTraversal` handlers of the tree visualiser reset the animation and store a trace. They are covered by `TreeView.ResetAnimation` and the trace builders they call, with no separate class method.
- The session-based quiz API (`start_quiz_session`, `active_sessions`) that the repository's tests call is not part of this model, because no source file defines it.
- Certificate images (`certificate_template.py`), the PDF download, the wallet flow and the course content pages are left out, because they are rendering and display text.
