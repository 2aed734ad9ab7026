/** Shared data model of repomind's retrieval engine: the two persisted
    indexes, the error taxonomy, and the host capabilities (filesystem,
    JSON decoding, embedding provider) that the core only calls. */
module Types {

  datatype Option<+T> = None | Some(value: T) {
    function GetOr(default: T): T {
      match this
      case Some(v) => v
      case None => default
    }
  }

  /** The failures the core raises: a thrown `Error` in the source. */
  datatype Error =
    | IndexWriteFailed(outputPath: string)       // src/indexer.ts:131-133
    | EmbeddingWriteFailed(outputPath: string)   // src/embeddingIndex.ts:69-71
    | DirectoryUnreadable                        // readdirSync throws, src/indexer.ts:72
    | ProviderFailed                             // embedText rejects

  datatype Result<+T> = Ok(value: T) | Err(error: Error)

  /** One indexed file (src/types.ts:19-23). */
  datatype IndexEntry = IndexEntry(path: string, size: nat, ext: string)

  /** The repository index (src/types.ts:25-29). */
  datatype RepoIndex = RepoIndex(root: string, generatedAt: string, entries: seq<IndexEntry>)

  /** One persisted chunk of the embedding index, with the fields written at
      src/embeddingIndex.ts:55-61. Offsets are plain numbers once read back
      from JSON, hence `int`. */
  datatype EmbeddingChunk = EmbeddingChunk(id: int, file: string, start: int, end: int, embedding: seq<int>)

  /** Everything the core asks of its environment, as total functions.
      fileExists    -- fs.existsSync
      readFile      -- fs.readFileSync(path, 'utf8'); None when it throws
      parseIndex    -- JSON.parse(raw) as RepoIndex; None when it throws
      parseChunks   -- JSON.parse(raw) checked by Array.isArray; None otherwise
      embed         -- embedText; None when the provider call rejects
      similarity    -- the score of a chunk vector against the question vector
      canWrite      -- whether fs.writeFileSync on that path succeeds */
  datatype Host = Host(
    fileExists: string -> bool,
    readFile: string -> Option<string>,
    parseIndex: string -> Option<RepoIndex>,
    parseChunks: string -> Option<seq<EmbeddingChunk>>,
    embed: string -> Option<seq<int>>,
    similarity: (seq<int>, seq<int>) -> real,
    canWrite: string -> bool)

  const IndexFileName: string := ".repomind-index.json"
  const EmbeddingFileName: string := ".repomind-vec.json"
}
