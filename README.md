# repomind context retrieval, modelled in Dafny

repomind answers questions about a code repository with a local language
model. Before it asks the model, it builds a prompt with context. It looks
for the repository index `.repomind-index.json` in the working directory and
then in each directory above it. If an embedding index `.repomind-vec.json`
exists in the `root` directory that the index records (which need not be
where the index file was found) and is not empty, repomind embeds the question
and uses the ten most similar chunks. Otherwise it extracts keywords from
the question, scores every indexed path by the keywords it contains, and
uses the best few files. Either way it reads a snippet of each chosen file,
truncated to a maximum length, and puts the snippets into a fixed template.
It also reports which files it used.

The two indexes are built offline:
- the indexer walks the repository tree and keeps the files whose extension
  is on an allowlist;
- the embedding builder cuts every indexed file into bounded chunks and
  embeds each chunk, numbering the chunks across the whole repository.

The model has one module per core file, plus shared modules:

| file | module | models |
|---|---|---|
| `types.dfy` | `Types` | the index records (`IndexEntry`, `RepoIndex`, `EmbeddingChunk`), the error outcomes, and `Host`, the bundle of environment oracles |
| `text.dfy` | `Text` | ASCII lower-casing, the `[a-z0-9_]` class, substring search, lexicographic order, `join`, decimal rendering of numbers |
| `paths.dfy` | `Paths` | `path.join`, `path.dirname`, `path.basename`, `path.extname` |
| `seqs.dfy` | `Seqs` | `Array.from(new Set(xs))`, the subsequence relation, and the concatenation of per-element contributions |
| `sorting.dfy` | `Sorting` | `Array.prototype.sort` with a comparator as a stable insertion sort, and `slice(0, n)` of its result |
| `indexer.dfy` | `Indexer` | `src/indexer.ts` |
| `embedding_index.dfy` | `EmbeddingIndex` | `src/embeddingIndex.ts` |
| `context.dfy` | `Context` | `src/context.ts` |

The environment is a parameter of every operation that touches it. The
`Host` value provides these oracles:
- `fileExists` and `readFile`, with `None` for a read that throws;
- `parseIndex` and `parseChunks` for `JSON.parse`, with `None` for a parse
  error; `parseChunks` is also `None` for a value that is not an array, as
  `Array.isArray` rejects it;
- `embed` for `embedText`, with `None` for a provider failure;
- `similarity` for the cosine similarity;
- `canWrite` to decide whether `writeFileSync` succeeds.

The directory tree the indexer walks is the datatype `Indexer.Node`. A
directory that cannot be listed, a file that cannot be stat-ed and a
non-regular entry each have their own form. `Indexer.WellNamed` states
what a file system guarantees of the names in a listing, and the lemmas
about unique relative paths assume it. The clock reading is a
parameter of `BuildRepoIndex`, and so is the current directory of
`BuildPromptWithContext`.

The code is imperative where the source is:
- `scorePath`, `findIndexFile`, `chunkText`, `buildEmbeddingIndex` and the
  two prompt loops are methods with loops;
- the recursive `walk` is a class, `Indexer.Walker`, whose `entries` field
  the methods append to, as the closure's shared array is pushed to.

Each method is proved equal to a specification function, and the
properties are proved about those functions. The pipelines (keywords,
selection, snippets) are functions.

Where the code and its stated intent disagree, the model follows the code:
- In the semantic path, the snippet of a chosen chunk is a prefix of the
  whole file, not the chunk's `[start, end)` range (`src/context.ts:176-177`).
- `if (!snippet) continue` skips an empty file as well as an unreadable one
  (`Context.Usable`).
- A keyword that occurs twice in the question scores twice.
- In the lexical path, when every selected file is unreadable, the prompt is
  still the "Context:" template, with an empty context and no used files. It
  is not the no-match template (`Context.LexicalPromptShape`).
- Extra extensions are added to the allowlist as given. File extensions are
  lower-cased before the test, so an extra with an upper-case letter admits
  nothing (`Indexer.UpperCaseExtensionAdmitsNothing`).
- `readdirSync` is not inside a `try`. A directory that cannot be listed
  therefore makes the whole index build fail, unless the walk never enters
  it because its name is ignored.
- The two write failures carry the output path only, since the thrown
  message is built from it.

## Model

| member | source | states |
|---|---|---|
| Context.FindIndexFile | src/context.ts:15-35 | the `while (true)` climb returns the index file of the nearest directory passing the probe, that is, `NearestIndex(startDir)`; it stops at the root |
| Context.ClimbNone | src/context.ts:21-34 | the climb finds nothing exactly when no ancestor `dir[..k]` (the start directory included) passes the probe |
| Context.ClimbIsNearest | src/context.ts:21-32 | a directory found by the climb is an ancestor that passes the probe, and no deeper ancestor passes it |
| Context.NearestIndexIsNearest | src/context.ts:15-35 | `findIndexFile` gives null iff no directory on the chain from `startDir` to the root holds `.repomind-index.json`; otherwise it gives the index file of the deepest directory that holds one |
| Context.LoadIndex | src/context.ts:37-50 | the loaded index is what the found file parses to; with no index file on the whole chain the result is null |
| Context.LoadEmbeddingIndex | src/context.ts:52-68 | null when the vector file is missing; non-null exactly when it exists, can be read and parses to a chunk list |
| Context.SplitFields | src/context.ts:73 | every field of the regex split is made of `[a-z0-9_]` characters, and the fields put back together are exactly the word characters of the input, in order |
| Context.SplitWord | src/context.ts:73 | a string made only of word characters splits into itself alone |
| Context.KeepKeywordsFilter | src/context.ts:74 | the length filter's result is a subsequence of the fields, every kept word is 3 to 40 long, and every field of that length is kept |
| Context.KeepKeywordsMultiplicity | src/context.ts:74 | each word of length 3 to 40 is kept exactly as many times as it occurs, and no other word is kept |
| Context.ExtractKeywordsShape | src/context.ts:70-75 | every keyword is lower-case, only `[a-z0-9_]`, and 3 to 40 characters long |
| Context.ExtractKeywordsOrder | src/context.ts:70-75 | the keywords are a subsequence of the fields of the lower-cased question; every field of admissible length is among them, as many times as it occurs in the question |
| Context.ExtractKeywords | src/context.ts:70-75 | lower-case, split, length filter; its properties are those of `ExtractKeywordsShape` and `ExtractKeywordsOrder` |
| Context.Split | src/context.ts:73 | `split(/[^a-z0-9_]+/g)`, with at least one field; its fields are characterised by `SplitFields` and `SplitWord` |
| Context.ScorePath | src/context.ts:77-86 | the loop's score is the number of keywords, counted with multiplicity, contained in the lower-cased path |
| Context.ScoreBounds | src/context.ts:77-86 | the score is at most the number of keywords; it equals that number iff every keyword is contained, and it is 0 iff none is |
| Context.ScoreAppend | src/context.ts:80-84 | the score of a concatenated keyword list is the sum of the scores of its parts |
| Context.RankedBeforeTotalPreorder | src/context.ts:108 | the comparator (score descending, then path ascending) is total and transitive, so the sort's order is well defined |
| Context.RankedMembers | src/context.ts:102-107 | the scored and filtered list holds exactly the entries with a positive score, each with its own score |
| Context.RankedPositions | src/context.ts:102-107 | the scored and filtered list is exactly the entries at the positions with a positive score, in index order and with repetitions, each paired with its score |
| Context.Ranked | src/context.ts:102-107 | the `map` to scored entries and the `filter` on a positive score; characterised by `RankedPositions` and `RankedMembers` |
| Context.SelectFilesByPath | src/context.ts:93-116 | the sorted, sliced and mapped selection; its properties are those of `SelectFilesShape` and `SelectFilesTop` |
| Context.SelectFilesShape | src/context.ts:93-116 | no entries or no keywords give []; otherwise the result has `min(maxFiles, n)` files, where n is the number of positions whose entry has a positive score; each has a positive score, names an index entry, and has `absPath == join(root, relPath)`; no path appears more often than among the paths of the matching entries (a sub-multiset, so nothing is repeated); the files are ordered by descending score, ties by ascending path |
| Context.SelectFilesTop | src/context.ts:108-110 | the selection is a top-N: its paths are a sub-multiset of the matching entries' paths, and an entry with a positive score that is not selected ranks after, or with, every selected file |
| Context.SelectFilesSubMultiset | src/context.ts:102-115 | each path occurs among the selected files at most as often as among the entries with a positive score, in index order |
| Context.ReadFileSnippet | src/context.ts:118-128 | null exactly when the read throws; otherwise the snippet of the content |
| Context.Snippet | src/context.ts:121-124 | the truncation rule; its properties are those of `SnippetShape` |
| Context.SnippetShape | src/context.ts:121-124 | short content is returned unchanged; long content keeps its first `maxChars` characters followed by `"\n... [truncated]"`; the snippet is empty iff the file is |
| Context.TopChunks | src/context.ts:168-170 | the sort by similarity and `slice(0, 10).map((s) => s.chunk)`; its properties are those of `TopChunksShape` |
| Context.TopChunksShape | src/context.ts:160-170 | `min(10, #chunks)` chunks, all taken from the loaded list and none more often than it occurs there, most similar first; every chunk left out is no more similar than any chunk kept |
| Context.TopChunksSubMultiset | src/context.ts:168-170 | the chosen chunks are a sub-multiset of the loaded chunks |
| Context.BuildPromptFromEmbeddings | src/context.ts:144-212 | an empty chunk list gives the bare question; a failed question embedding fails; otherwise the prompt is built from the ten best chunks |
| Context.CollectSemanticContext | src/context.ts:172-211 | the loop over the chosen chunks, with its block list and file set, gives `SemanticContext` |
| Context.SemanticFilesShape | src/context.ts:175-187 | one block per recorded file; a file is recorded iff it is the file of a chosen chunk whose snippet is readable and not empty |
| Context.SemanticFilesPositions | src/context.ts:175-180 | the files added to the set are exactly the files of the chosen chunks at the positions with a usable snippet, in chunk order and with repetitions |
| Context.SemanticContextShape | src/context.ts:175-211 | `usedFiles` has no duplicates and holds exactly the files of usable chosen chunks; it is empty iff the prompt is the bare question; otherwise the prompt is the Context template; the question is quoted either way |
| Context.SemanticPromptShape | src/context.ts:150-170 | the semantic path fails, with the provider error, exactly when the chunk list is non-empty and the question cannot be embedded |
| Context.ContextPromptIsNotQuestion | src/context.ts:201-209 | the Context template never equals the bare question it quotes |
| Context.ContextPromptContainsBlocks | src/context.ts:199-209 | every pushed block can be found in the Context prompt built from their join |
| Context.TemplatesContainQuestion | src/context.ts:201-209 | each of the three templates contains the question |
| Context.BuildLexicalContext | src/context.ts:256-270 | the loop's block list and used list are those of the usable selected files, in selection order |
| Context.LexicalUsedPositions | src/context.ts:259-263 | `usedFiles` is exactly the `relPath`s of the selected files at the positions with a usable snippet, in selection order and with repetitions |
| Context.LexicalUsedSubsequence | src/context.ts:259-263 | `usedFiles` is an in-order subsequence of the selected `relPath`s |
| Context.LexicalBlocksFollowUsed | src/context.ts:259-270 | exactly one block per used file, in the same order, and the i-th block starts with the header naming the i-th used file |
| Context.LexicalUsedMembers | src/context.ts:259-263 | a selected file is used iff its snippet is readable and not empty; nothing is used iff no selected file has such a snippet |
| Context.BuildLexicalPrompt | src/context.ts:244-284 | the lexical path: keywords, selection, the no-match template for an empty selection, else the loop and the Context template |
| Context.LexicalPromptShape | src/context.ts:247-284 | an empty selection gives the no-match template and no files; otherwise the Context template over the blocks; when every selected file is unusable, the Context template with an empty context and no files |
| Context.BuildPromptWithContext | src/context.ts:214-285 | the defaults 5 and 2000, the index lookup, and the choice between the no-index, semantic and lexical prompts give `PromptWithContext` |
| Context.PromptBranches | src/context.ts:222-242 | no index gives the no-index template and no files; a loaded, non-empty chunk list selects the semantic path; anything else selects the lexical path |
| Context.PromptQuotesQuestion | src/context.ts:214-285 | every prompt built contains the question, and files are reported as used only with the Context template |
| EmbeddingIndex.CeilDivBounds | src/embeddingIndex.ts:22-27 | `CeilDiv(n, d)` is the least k with `d * k >= n` |
| EmbeddingIndex.ChunksFrom | src/embeddingIndex.ts:22-27 | the chunks still emitted from a cursor with a budget; characterised by `ChunksFromCount`, `ChunksFromShape`, `ChunksFromLastEnd` and `ChunksFromCoverage` |
| EmbeddingIndex.Chunks | src/embeddingIndex.ts:17-30 | `chunkText` as a function; characterised by `ChunksShape` |
| EmbeddingIndex.ChunkText | src/embeddingIndex.ts:17-30 | the while loop on `start` and `count` produces `Chunks(text, chunkSize, maxChunks)` |
| EmbeddingIndex.ChunksFromCount | src/embeddingIndex.ts:22-26 | the number of chunks is `min(budget, ceil(remaining / chunkSize))` for a positive size; with size 0 the whole budget is spent on empty chunks |
| EmbeddingIndex.ChunksFromShape | src/embeddingIndex.ts:22-25 | the chunks start at the cursor, follow each other without gap or overlap, and each lies in the text, holds exactly its range, and is at most `chunkSize` long |
| EmbeddingIndex.ChunksFromLastEnd | src/embeddingIndex.ts:22-25 | the last chunk ends at `min(len, start + chunkSize * budget)` |
| EmbeddingIndex.ChunksFromCoverage | src/embeddingIndex.ts:22-25 | the chunk texts put together are exactly the text from the cursor to that stop point |
| EmbeddingIndex.ChunksShape | src/embeddingIndex.ts:17-30 | at most `maxChunks` chunks; none for empty text or `maxChunks = 0`; exactly `min(maxChunks, ceil(len / chunkSize))` for a positive size; contiguous from 0; each `start <= end <= len` with `end - start <= chunkSize`, and `start < end` when `chunkSize > 0` and `text == text[start..end)`; the last ends at `min(len, chunkSize * maxChunks)` and the tail is dropped |
| EmbeddingIndex.FilePieces | src/embeddingIndex.ts:52-61 | one piece per chunk of a file, in chunk order, each naming the file |
| EmbeddingIndex.EmbedAll | src/embeddingIndex.ts:52-62 | succeeds iff every piece embeds; then it gives one chunk per piece, the i-th with id i, the piece's file and range, and the provider's vector for the piece's text |
| EmbeddingIndex.EmbedAllSnoc | src/embeddingIndex.ts:53-61 | one more piece either fails the whole list or appends one chunk with the next id |
| EmbeddingIndex.EmbedAllFailureSticks | src/embeddingIndex.ts:53 | once a provider call fails, no longer list of pieces succeeds: the build aborts |
| EmbeddingIndex.UnreadableEntrySkipped | src/embeddingIndex.ts:43-48 | an entry whose file cannot be read contributes nothing: the pieces are as if it were not in the index |
| EmbeddingIndex.EntryPiecesShape | src/embeddingIndex.ts:41-50 | each piece of an entry names the entry's path and is a well-formed chunk of the content read for it |
| EmbeddingIndex.PiecesProvenance | src/embeddingIndex.ts:40-61 | every piece names the path of an index entry whose file was read, and its chunk is a well-formed chunk of that content |
| EmbeddingIndex.EmbedFile | src/embeddingIndex.ts:52-62 | the inner loop over one file's chunks succeeds iff each chunk embeds, and then extends the chunk list exactly as `EmbedAll` does, with `nextId` the list's length |
| EmbeddingIndex.BuildEmbeddingIndex | src/embeddingIndex.ts:32-74 | the nested loops, the skipped reads, the `nextId` counter and the write give `EmbeddingBuild`: a provider failure aborts, a write failure raises with the output path, otherwise the chunk list |
| EmbeddingIndex.EmbeddingBuild | src/embeddingIndex.ts:32-74 | the outcome of the build; characterised by `EmbeddingBuildIds`, `EmbeddingBuildProvenance`, `UnreadableEntrySkipped` and `EmbedAll` |
| EmbeddingIndex.EmbeddingBuildIds | src/embeddingIndex.ts:38 | the ids of a built index are 0, 1, ..., n-1 in array order, across file boundaries, one per piece |
| EmbeddingIndex.EmbeddingBuildProvenance | src/embeddingIndex.ts:40-62 | each built chunk names an index entry that could be read; its range is a well-formed chunk range of that content, and its vector is the provider's answer for the text in that range |
| Indexer.Allowlist | src/indexer.ts:115-117 | the deduplicated union, extras first; characterised by `AllowlistShape` |
| Indexer.AllowlistShape | src/indexer.ts:115-117 | the allowlist has no duplicates; it contains every extra and every default extension and nothing else; the deduplicated extras come first |
| Indexer.IsCodeFile | src/indexer.ts:63-66 | the lower-cased extension is on the list; see `IsCodeFileIgnoresCase` and `UpperCaseExtensionAdmitsNothing` |
| Indexer.IsCodeFileIgnoresCase | src/indexer.ts:63-66 | the test gives the same answer for a path and its lower-cased form |
| Indexer.UpperCaseExtensionAdmitsNothing | src/indexer.ts:64-65 | an allowlisted extension with an upper-case letter admits no file: removing it changes no answer |
| Indexer.RelPath | src/indexer.ts:76 | `path.relative(rootDir, fullPath)` for a file found below the root; characterised by `RelPathShape` |
| Indexer.RelPathShape | src/indexer.ts:76 | the relative path of a file at the root is its name; below the root it is the directory's relative path joined with the name |
| Indexer.WalkNodes | src/indexer.ts:71-107 | the entries the walk appends for one listing, in listing order; characterised by `WalkNodesAppend`, `WalkNodesWellFormed`, `DroppedEntryLeavesSiblings` and `OnlyIgnoredYieldsNothing`, and implemented by `Walker.Walk` |
| Indexer.WalkNode | src/indexer.ts:75-105 | the entries appended for one directory entry; characterised by `WalkNodeWellFormed`, and implemented by `Walker.Visit` |
| Indexer.DroppedEntryLeavesSiblings | src/indexer.ts:78-105 | an ignored directory, a non-regular entry and a file that cannot be stat-ed each contribute nothing and cause no failure: the walk of the listing is as if the entry were absent |
| Indexer.OnlyIgnoredYieldsNothing | src/indexer.ts:78-84 | a listing made only of ignored directories yields no entries and does not fail |
| Indexer.WalkNodesAppend | src/indexer.ts:74-106 | walking a listing in two parts gives the entries of each part in turn, and fails iff one part fails |
| Indexer.WalkNodesWellFormed | src/indexer.ts:75-101 | every entry of a walk has its lower-cased extension as `ext`, that extension is on the allowlist, and its path lies below the directory it was found in |
| Indexer.WalkNodesPaths | src/indexer.ts:74-101 | for a listing whose names are non-empty, '/'-free and distinct among siblings at every level: every path starts with the directory's prefix and then the name of one entry of the listing, and no path occurs twice |
| Indexer.WalkNodePaths | src/indexer.ts:75-101 | every path one directory entry contributes continues the directory's prefix with that entry's name, and none occurs twice |
| Indexer.SubdirPath | src/indexer.ts:75-84 | a path found in a subdirectory continues the parent's prefix with the subdirectory's name |
| Indexer.RootPaths | src/indexer.ts:76-98 | the paths of the root listing's entries are non-empty, do not start with '/', and are pairwise distinct |
| Indexer.FileEntryWellFormed | src/indexer.ts:90-101 | the entry pushed for an allowlisted file records the lower-cased extension of its relative path as well as of its full path |
| Indexer.Walker.Walk | src/indexer.ts:71-107 | the loop over a listing succeeds iff no listing below it throws, and then appends exactly `WalkNodes` of the listing to `entries` |
| Indexer.Walker.Visit | src/indexer.ts:75-105 | one directory entry: an ignored directory is skipped, others are walked; non-regular entries and files not on the allowlist are skipped; a stat-ed file appends one entry |
| Indexer.WalkDir | src/indexer.ts:68-111 | the walk of the root's listing, or a failure when the root or a directory below it cannot be listed |
| Indexer.BuildRepoIndex | src/indexer.ts:113-136 | succeeds iff the tree can be listed and the write succeeds; the index has the resolved root, the clock reading and exactly the walk's entries over the allowlist; otherwise the listing error, or the write error with the output path; for a tree whose names are well formed, the entry paths are non-empty, relative (no leading '/') and unique |
| Paths.Dirname | src/context.ts:27-28 | the parent drops the last segment; it equals the directory itself exactly at the root, which is where the climb stops |
| Paths.JoinPath | src/context.ts:53 | `path.join(dir, name)` as `dir + "/" + name`; what the walk and `extname` need of it is stated by `BasenameAfterSlash`, `ExtnameAfterSlash` and `ExtnameOfName` |
| Paths.Basename | src/indexer.ts:64 | the text after the last '/': it holds no '/' and is a suffix of the path; `BasenameShape` pins it |
| Paths.BasenameShape | src/indexer.ts:64 | the base name is the whole path or is preceded by a '/'; with `Basename`'s own contract this leaves exactly one possible value |
| Paths.SegmentExt | src/indexer.ts:64 | the extension of one segment is non-empty exactly when the segment's last '.' is not its first character and the segment is not ".."; it then runs from that last '.' to the end, and is otherwise empty |
| Paths.Extname | src/indexer.ts:64 | the extension is empty or starts with its only '.', holds no '/', and is a suffix of the path; `ExtnameOfSegment` pins it |
| Paths.ExtnameOfSegment | src/indexer.ts:64 | the extension is non-empty exactly when the last segment has a '.' after its first character and is not ".."; it is then that segment from its last '.' on, and its '.' never follows a '/' |
| Paths.ExtnameOfName | src/indexer.ts:75-82 | for `join(dir, name)` with a name whose last '.' is at `i`, the extension is empty when `i <= 0` or the name is "..", and `name[i..]` otherwise |
| Paths.ExtnameLower | src/indexer.ts:64 | the extension of the lower-cased path is the lower-cased extension of the path |
| Seqs.Positions | src/context.ts:107 | the positions a `filter` keeps: increasing, each passing the test, and every passing position included |
| Seqs.Dedup | src/indexer.ts:115-117 | `Array.from(new Set(xs))`: no duplicates, the same members, and no longer than the input |
| Seqs.DedupPrefix | src/indexer.ts:115-117 | deduplicating `a + b` keeps the deduplicated `a` in front |
| Sorting.SortBy | src/context.ts:108 | the sorted list is a permutation of the input |
| Sorting.SortBySorted | src/context.ts:108 | for a total preorder, the sorted list is ordered |
| Sorting.TopShape | src/context.ts:110 | `sort(le).slice(0, n)` has `min(n, len)` elements of the input, in order, is a sub-multiset of the input, and every element left out sorts after, or with, every element kept |
| Sorting.TopMap | src/context.ts:110-115 | projecting a field out of the first `n` sorted elements gives a sub-multiset of projecting it out of the input |
| Seqs.Map | src/context.ts:113-115 | `s.map(f)`: same length, and element `i` is `f(s[i])` (`MapAt`) |
| Seqs.MapAt | src/context.ts:113-115 | element `i` of the mapped sequence is `f` of element `i` |
| Text.Lower | src/context.ts:72 | ASCII lower-casing; see `LowerIsLower`, `LowerAppend` and `LowerOfLower` |
| Text.LowerIsLower | src/context.ts:72 | a lower-cased string has no upper-case letter |
| Text.LowerAppend | src/context.ts:72 | lower-casing distributes over concatenation |
| Text.LowerOfLower | src/indexer.ts:64 | lower-casing leaves a lower-case string unchanged |
| Text.Contains | src/context.ts:81 | `includes`; characterised by `ContainsIff` |
| Text.ContainsIff | src/context.ts:81 | `includes` holds exactly when the needle occurs at some offset of the text |
| Text.Join | src/context.ts:199 | `join(sep)`; characterised by `JoinContainsParts` |
| Text.JoinContainsParts | src/context.ts:199 | every part can be found in the joined text |
| Text.LexLeTotal | src/context.ts:108 | the path order used for the tie-break is total |
| Text.LexLeTransitive | src/context.ts:108 | the path order used for the tie-break is transitive |
| Text.NatToStringRoundTrip | src/context.ts:182 | the decimal rendering of a chunk offset reads back to the same number |

## Left out

- `src/cli.ts` is not part of this model. It does command parsing, spinners, colouring and console output.
- `src/ollamaClient.ts` is not part of this model. Its HTTP calls become the `embed` oracle; `askOllama` and the health check are not modelled.
- `cosineSim` (`src/context.ts:130-142`) is the abstract `similarity` oracle with real values, because it uses floating-point `sqrt` and an ε term. The `Float32Array` conversions are left out for the same reason.
- `JSON.parse` and `JSON.stringify` are library code: loading is the `parseIndex` and `parseChunks` oracles, and saving is the `canWrite` oracle. The written bytes are not modelled.
- `async`/`await` ordering: the provider calls are taken in program order, which is the only order that the awaits allow.
- `localeCompare` is plain lexicographic order on characters (`Text.LexLe`), not the locale's collation.
- `path.resolve` is not modelled: the start directory is a list of segments below the filesystem root, and `rootDir` is taken as already resolved. `path.join` does not normalise `.`, `..` or doubled slashes.
- `toLowerCase` lower-cases the ASCII letters A to Z only; other characters are unchanged.
- A Dafny string stands for the source's sequence of UTF-16 code units. A Dafny `char` is a Unicode scalar value, however, so for text outside the Basic Multilingual Plane the model's lengths and offsets differ from JavaScript's. This affects the truncation test and cut of `readFileSnippet` (`src/context.ts:121-124`), and the chunk bounds and offsets of `chunkText` (`src/embeddingIndex.ts:22-25`).
- `JSON.parse(raw) as RepoIndex` checks nothing. A parsed value of the wrong shape makes `buildPromptWithContext` throw later, at the first use of `root` or `entries`. The model has no such value: `parseIndex` returns either a well-formed `RepoIndex` or `None`, and `None` gives the no-index prompt. The same holds for chunk records with missing fields.
- `Seqs.Dedup`: that each value stays at its first occurrence holds by construction, so `usedFiles` of the semantic path is in first-use order; no lemma states that order.
- The numeric options `maxFiles`, `maxCharsPerFile`, `chunkSize` and `maxChunksPerFile` are natural numbers. The JavaScript meaning of negative or fractional values for `slice` and `Math.min` is not modelled.
- `Sorting.SortBy`: the sort is stable by construction, but no lemma states stability.
- `Context.TopChunksShape`: chunks with equal similarity may be chosen in any order that the stable sort gives; only the ordering by similarity is stated.
- `Indexer.WellNamed`: the tree does not encode that a file system gives non-empty, '/'-free and distinct sibling names. The uniqueness and relative form of the paths (`RootPaths`, `BuildRepoIndex`) are proved for trees with such names only.
- `generatedAt` and `process.cwd()` are parameters, not clock or process readings.
- The text of the thrown write errors is not modelled: the error carries the output path only.
- `Context.LoadEmbeddingIndex`: `Array.isArray` is part of the `parseChunks` oracle. As in the code, the fields of each chunk are not validated.
