/** The chunker and the embedding-index builder of src/embeddingIndex.ts. */
module EmbeddingIndex {
  import opened Types
  import opened Paths
  import opened Seqs

  const DefaultChunkSize: nat := 800
  const DefaultMaxChunksPerFile: nat := 8

  /** One `{ start, end, text }` record produced by `chunkText`. */
  datatype TextChunk = TextChunk(start: nat, end: nat, text: string)

  datatype EmbeddingIndexOptions = EmbeddingIndexOptions(
    rootDir: string,
    index: RepoIndex,
    outputPath: Option<string>,
    chunkSize: Option<nat>,
    maxChunksPerFile: Option<nat>)

  function Min(a: int, b: int): int {
    if a < b then a else b
  }

  /** ceil(n / d) for a positive divisor; `CeilDivBounds` shows it is the
      least k with d * k >= n. */
  function CeilDiv(n: nat, d: nat): nat
    requires d > 0
    decreases n
  {
    if n == 0 then 0 else if n <= d then 1 else 1 + CeilDiv(n - d, d)
  }

  lemma {:induction false} CeilDivBounds(n: nat, d: nat)
    requires d > 0
    ensures d * CeilDiv(n, d) >= n
    ensures n > 0 ==> d * (CeilDiv(n, d) - 1) < n
    decreases n
  {
    if n > d {
      CeilDivBounds(n - d, d);
      var k := CeilDiv(n - d, d);
      assert d * (k + 1) == d * k + d;
    }
  }

  // ---------------------------------------------------------------------
  // chunkText
  // ---------------------------------------------------------------------

  /** The chunks `chunkText` still emits once its cursor is at `start` with
      `budget` chunks left to produce. */
  function ChunksFrom(text: string, start: nat, chunkSize: nat, budget: nat): seq<TextChunk>
    decreases budget
  {
    if start < |text| && budget > 0 then
      var end := Min(start + chunkSize, |text|);
      [TextChunk(start, end, text[start..end])] + ChunksFrom(text, end, chunkSize, budget - 1)
    else []
  }

  function Chunks(text: string, chunkSize: nat, maxChunks: nat): seq<TextChunk> {
    ChunksFrom(text, 0, chunkSize, maxChunks)
  }

  /** `chunkText(text, chunkSize, maxChunks)`: the while loop on `start` and
      `count`. */
  method ChunkText(text: string, chunkSize: nat, maxChunks: nat) returns (chunks: seq<TextChunk>)
    ensures chunks == Chunks(text, chunkSize, maxChunks)
  {
    chunks := [];
    var start: nat := 0;
    var count: nat := 0;
    while start < |text| && count < maxChunks
      invariant start <= |text| && count <= maxChunks
      invariant chunks + ChunksFrom(text, start, chunkSize, maxChunks - count) == Chunks(text, chunkSize, maxChunks)
      decreases maxChunks - count
    {
      var end := Min(start + chunkSize, |text|);
      chunks := chunks + [TextChunk(start, end, text[start..end])];
      start := end;
      count := count + 1;
    }
  }

  /** The number of chunks. With a positive chunk size it is
      min(budget, ceil(remaining / chunkSize)); with chunk size 0 the cursor
      never moves and the whole budget is spent on empty chunks. */
  lemma {:induction false} ChunksFromCount(text: string, start: nat, chunkSize: nat, budget: nat)
    requires start <= |text|
    ensures |ChunksFrom(text, start, chunkSize, budget)| ==
      if start == |text| then 0
      else if chunkSize == 0 then budget
      else Min(budget, CeilDiv(|text| - start, chunkSize))
    decreases budget
  {
    if start < |text| && budget > 0 {
      var end := Min(start + chunkSize, |text|);
      ChunksFromCount(text, end, chunkSize, budget - 1);
    }
  }

  /** What one chunk looks like: it lies inside the text, holds exactly the
      text between its offsets, and is at most `chunkSize` long (and not
      empty when `chunkSize` is positive). */
  predicate ChunkShape(text: string, c: TextChunk, chunkSize: nat) {
    RangeShape(text, c.start, c.end, chunkSize) && c.text == text[c.start..c.end]
  }

  predicate RangeShape(text: string, start: nat, end: nat, chunkSize: nat) {
    && start <= end <= |text|
    && end - start <= chunkSize
    && (chunkSize > 0 ==> start < end)
  }

  /** The concatenated text of a list of chunks. */
  function Texts(cs: seq<TextChunk>): string {
    if |cs| == 0 then "" else cs[0].text + Texts(cs[1..])
  }

  /** The chunks start at the cursor, follow each other without gap or
      overlap, and each is well formed. */
  lemma {:induction false} ChunksFromShape(text: string, start: nat, chunkSize: nat, budget: nat)
    requires start <= |text|
    ensures var cs := ChunksFrom(text, start, chunkSize, budget);
      && (forall i :: 0 <= i < |cs| ==> ChunkShape(text, cs[i], chunkSize) && start <= cs[i].start)
      && (|cs| > 0 ==> cs[0].start == start)
      && (forall i :: 0 <= i < |cs| - 1 ==> cs[i + 1].start == cs[i].end)
    decreases budget
  {
    if start < |text| && budget > 0 {
      var end := Min(start + chunkSize, |text|);
      var rest := ChunksFrom(text, end, chunkSize, budget - 1);
      ChunksFromShape(text, end, chunkSize, budget - 1);
      var cs := [TextChunk(start, end, text[start..end])] + rest;
      assert ChunksFrom(text, start, chunkSize, budget) == cs;
      forall i | 0 <= i < |cs| - 1 ensures cs[i + 1].start == cs[i].end {
        if i > 0 {
          assert cs[i] == rest[i - 1] && cs[i + 1] == rest[i];
        }
      }
    }
  }

  /** The point where chunking stops: the end of the text, or the end of
      the last chunk the budget allows, whichever comes first. */
  function Stop(text: string, start: nat, chunkSize: nat, budget: nat): nat
    requires start <= |text|
  {
    Min(|text|, start + chunkSize * budget)
  }

  lemma StopStep(text: string, start: nat, chunkSize: nat, budget: nat)
    requires start < |text| && budget > 0
    ensures var end := Min(start + chunkSize, |text|);
      Stop(text, end, chunkSize, budget - 1) == Stop(text, start, chunkSize, budget)
  {
    assert chunkSize * budget == chunkSize + chunkSize * (budget - 1);
  }

  /** The last chunk ends at `Stop`. */
  lemma {:induction false} ChunksFromLastEnd(text: string, start: nat, chunkSize: nat, budget: nat)
    requires start <= |text|
    ensures var cs := ChunksFrom(text, start, chunkSize, budget);
      |cs| > 0 ==> cs[|cs| - 1].end == Stop(text, start, chunkSize, budget)
    decreases budget
  {
    if start < |text| && budget > 0 {
      var end := Min(start + chunkSize, |text|);
      var rest := ChunksFrom(text, end, chunkSize, budget - 1);
      ChunksFromLastEnd(text, end, chunkSize, budget - 1);
      StopStep(text, start, chunkSize, budget);
      if rest == [] {
        assert end == |text| || budget == 1;
        if end < |text| {
          assert Stop(text, start, chunkSize, budget) == start + chunkSize;
        }
      }
    }
  }

  /** Together the chunks cover the text from the cursor up to `Stop`: any
      tail beyond the budget is dropped. */
  lemma {:induction false} ChunksFromCoverage(text: string, start: nat, chunkSize: nat, budget: nat)
    requires start <= |text|
    ensures Texts(ChunksFrom(text, start, chunkSize, budget)) == text[start..Stop(text, start, chunkSize, budget)]
    decreases budget
  {
    if start < |text| && budget > 0 {
      var end := Min(start + chunkSize, |text|);
      var rest := ChunksFrom(text, end, chunkSize, budget - 1);
      ChunksFromCoverage(text, end, chunkSize, budget - 1);
      StopStep(text, start, chunkSize, budget);
      var stop := Stop(text, start, chunkSize, budget);
      var cs := [TextChunk(start, end, text[start..end])] + rest;
      assert cs[1..] == rest;
      calc {
        Texts(ChunksFrom(text, start, chunkSize, budget));
        Texts(cs);
        text[start..end] + Texts(rest);
        text[start..end] + text[end..stop];
        text[start..stop];
      }
    } else if budget == 0 {
      assert Stop(text, start, chunkSize, budget) == start;
    }
  }

  /** The properties of `chunkText` as the caller sees them. */
  lemma ChunksShape(text: string, chunkSize: nat, maxChunks: nat)
    ensures var cs := Chunks(text, chunkSize, maxChunks);
      && |cs| <= maxChunks
      && (|text| == 0 || maxChunks == 0 ==> cs == [])
      && (chunkSize > 0 ==> |cs| == Min(maxChunks, CeilDiv(|text|, chunkSize)))
      && (|cs| > 0 ==> cs[0].start == 0)
      && (forall i :: 0 <= i < |cs| - 1 ==> cs[i + 1].start == cs[i].end)
      && (forall i :: 0 <= i < |cs| ==> ChunkShape(text, cs[i], chunkSize))
      && (|cs| > 0 ==> cs[|cs| - 1].end == Min(|text|, chunkSize * maxChunks))
      && Texts(cs) == text[..Min(|text|, chunkSize * maxChunks)]
  {
    ChunksFromCount(text, 0, chunkSize, maxChunks);
    ChunksFromShape(text, 0, chunkSize, maxChunks);
    ChunksFromLastEnd(text, 0, chunkSize, maxChunks);
    ChunksFromCoverage(text, 0, chunkSize, maxChunks);
  }

  // ---------------------------------------------------------------------
  // buildEmbeddingIndex
  // ---------------------------------------------------------------------

  /** A chunk waiting for its embedding: the index entry's path and the
      chunk of that file's content. */
  datatype Piece = Piece(file: string, chunk: TextChunk)

  /** What one index entry contributes: nothing when its file cannot be
      read, else one piece per chunk of its current content. */
  function EntryPieces(rootDir: string, entry: IndexEntry, readFile: string -> Option<string>, chunkSize: nat, maxChunks: nat): seq<Piece> {
    match readFile(JoinPath(rootDir, entry.path))
    case None => []
    case Some(content) => FilePieces(entry.path, Chunks(content, chunkSize, maxChunks))
  }

  function FilePieces(file: string, cs: seq<TextChunk>): (ps: seq<Piece>)
    ensures |ps| == |cs| && forall i :: 0 <= i < |cs| ==> ps[i] == Piece(file, cs[i])
  {
    seq(|cs|, i requires 0 <= i < |cs| => Piece(file, cs[i]))
  }

  function Contribution(rootDir: string, readFile: string -> Option<string>, chunkSize: nat, maxChunks: nat): IndexEntry -> seq<Piece> {
    e => EntryPieces(rootDir, e, readFile, chunkSize, maxChunks)
  }

  /** The pieces of all entries, in entry order, then chunk order. */
  function Pieces(rootDir: string, entries: seq<IndexEntry>, readFile: string -> Option<string>, chunkSize: nat, maxChunks: nat): seq<Piece> {
    FlatMap(entries, Contribution(rootDir, readFile, chunkSize, maxChunks))
  }

  /** Embedding the pieces one after another and numbering them from 0;
      None as soon as one provider call fails. */
  function EmbedAll(pieces: seq<Piece>, embed: string -> Option<seq<int>>): (r: Option<seq<EmbeddingChunk>>)
    ensures r.Some? <==> forall i :: 0 <= i < |pieces| ==> embed(pieces[i].chunk.text).Some?
    ensures r.Some? ==> |r.value| == |pieces|
    ensures r.Some? ==> forall i :: 0 <= i < |pieces| ==>
      && r.value[i].id == i
      && r.value[i].file == pieces[i].file
      && r.value[i].start == pieces[i].chunk.start
      && r.value[i].end == pieces[i].chunk.end
      && Some(r.value[i].embedding) == embed(pieces[i].chunk.text)
    decreases |pieces|
  {
    if |pieces| == 0 then Some([])
    else
      var last := pieces[|pieces| - 1];
      match EmbedAll(pieces[..|pieces| - 1], embed)
      case None => None
      case Some(done) =>
        match embed(last.chunk.text)
        case None => None
        case Some(v) => Some(done + [EmbeddingChunk(|done|, last.file, last.chunk.start, last.chunk.end, v)])
  }

  function OutputPath(options: EmbeddingIndexOptions): string {
    options.outputPath.GetOr(JoinPath(options.rootDir, EmbeddingFileName))
  }

  /** The outcome of `buildEmbeddingIndex`: a provider failure aborts the
      build before anything is written; a write failure raises with the
      output path; otherwise the chunk list. */
  function EmbeddingBuild(options: EmbeddingIndexOptions, host: Host): Result<seq<EmbeddingChunk>> {
    var pieces := Pieces(options.rootDir, options.index.entries, host.readFile,
      options.chunkSize.GetOr(DefaultChunkSize), options.maxChunksPerFile.GetOr(DefaultMaxChunksPerFile));
    match EmbedAll(pieces, host.embed)
    case None => Err(ProviderFailed)
    case Some(chunks) =>
      if host.canWrite(OutputPath(options)) then Ok(chunks) else Err(EmbeddingWriteFailed(OutputPath(options)))
  }

  /** An entry whose file cannot be read contributes no chunks: the build
      goes on with the next entry as if it were not in the index. */
  lemma UnreadableEntrySkipped(rootDir: string, before: seq<IndexEntry>, entry: IndexEntry, after: seq<IndexEntry>,
                               readFile: string -> Option<string>, chunkSize: nat, maxChunks: nat)
    requires readFile(JoinPath(rootDir, entry.path)).None?
    ensures Pieces(rootDir, before + [entry] + after, readFile, chunkSize, maxChunks)
      == Pieces(rootDir, before + after, readFile, chunkSize, maxChunks)
  {
    var f := Contribution(rootDir, readFile, chunkSize, maxChunks);
    FlatMapAppend(before + [entry], after, f);
    FlatMapAppend(before, [entry], f);
    FlatMapAppend(before, after, f);
    assert [entry][..0] == [];
    assert FlatMap([entry], f) == f(entry) == [];
  }

  /** Each piece of an entry names that entry's path and a well-formed
      chunk of the content read for it. */
  lemma EntryPiecesShape(rootDir: string, entry: IndexEntry, readFile: string -> Option<string>, chunkSize: nat, maxChunks: nat, p: Piece)
    requires p in EntryPieces(rootDir, entry, readFile, chunkSize, maxChunks)
    ensures p.file == entry.path
    ensures readFile(JoinPath(rootDir, entry.path)).Some?
    ensures ChunkShape(readFile(JoinPath(rootDir, entry.path)).value, p.chunk, chunkSize)
  {
    var content := readFile(JoinPath(rootDir, entry.path)).value;
    ChunksShape(content, chunkSize, maxChunks);
  }

  /** Every piece names the path of an index entry whose file was read, and
      its chunk is a well-formed chunk of that file's content. */
  lemma PiecesProvenance(rootDir: string, entries: seq<IndexEntry>, readFile: string -> Option<string>, chunkSize: nat, maxChunks: nat, p: Piece)
    requires p in Pieces(rootDir, entries, readFile, chunkSize, maxChunks)
    ensures exists e :: (e in entries && e.path == p.file
      && readFile(JoinPath(rootDir, e.path)).Some?
      && ChunkShape(readFile(JoinPath(rootDir, e.path)).value, p.chunk, chunkSize))
  {
    var f := Contribution(rootDir, readFile, chunkSize, maxChunks);
    FlatMapMember(entries, f, p);
    var i :| 0 <= i < |entries| && p in f(entries[i]);
    EntryPiecesShape(rootDir, entries[i], readFile, chunkSize, maxChunks, p);
  }

  lemma {:induction false} EmbedAllFailureSticks(a: seq<Piece>, b: seq<Piece>, embed: string -> Option<seq<int>>)
    requires a <= b && EmbedAll(a, embed).None?
    ensures EmbedAll(b, embed).None?
  {
    var i :| 0 <= i < |a| && embed(a[i].chunk.text).None?;
    assert b[i] == a[i];
  }

  /** The ids of a built index are 0, 1, ..., n-1 in array order across
      file boundaries, one per piece. Follows from the contract of
      `EmbedAll`. */
  lemma EmbeddingBuildIds(options: EmbeddingIndexOptions, host: Host)
    ensures var r := EmbeddingBuild(options, host);
      r.Ok? ==>
        && |r.value| == |Pieces(options.rootDir, options.index.entries, host.readFile,
                                options.chunkSize.GetOr(DefaultChunkSize),
                                options.maxChunksPerFile.GetOr(DefaultMaxChunksPerFile))|
        && forall i :: 0 <= i < |r.value| ==> r.value[i].id == i
  {
  }

  /** Each chunk of a built index comes from an index entry that could be
      read; its range is a well-formed chunk range of that content, and its
      vector is what the provider returned for the text in that range. */
  lemma EmbeddingBuildProvenance(options: EmbeddingIndexOptions, host: Host, i: nat)
    requires var r := EmbeddingBuild(options, host); r.Ok? && i < |r.value|
    ensures var c := EmbeddingBuild(options, host).value[i];
      exists e :: (e in options.index.entries && e.path == c.file
        && host.readFile(JoinPath(options.rootDir, e.path)).Some?
        && var content := host.readFile(JoinPath(options.rootDir, e.path)).value;
           && RangeShape(content, c.start, c.end, options.chunkSize.GetOr(DefaultChunkSize))
           && host.embed(content[c.start..c.end]) == Some(c.embedding))
  {
    var chunkSize := options.chunkSize.GetOr(DefaultChunkSize);
    var maxChunks := options.maxChunksPerFile.GetOr(DefaultMaxChunksPerFile);
    var pieces := Pieces(options.rootDir, options.index.entries, host.readFile, chunkSize, maxChunks);
    var p := pieces[i];
    PiecesProvenance(options.rootDir, options.index.entries, host.readFile, chunkSize, maxChunks, p);
    var e :| e in options.index.entries && e.path == p.file
      && host.readFile(JoinPath(options.rootDir, e.path)).Some?
      && ChunkShape(host.readFile(JoinPath(options.rootDir, e.path)).value, p.chunk, chunkSize);
  }

  lemma EmbedAllSnoc(ps: seq<Piece>, p: Piece, embed: string -> Option<seq<int>>, done: seq<EmbeddingChunk>)
    requires EmbedAll(ps, embed) == Some(done)
    ensures embed(p.chunk.text).None? ==> EmbedAll(ps + [p], embed).None?
    ensures embed(p.chunk.text).Some? ==>
      EmbedAll(ps + [p], embed) == Some(done + [EmbeddingChunk(|done|, p.file, p.chunk.start, p.chunk.end, embed(p.chunk.text).value)])
  {
    assert (ps + [p])[..|ps|] == ps;
  }

  /** The inner loop of `buildEmbeddingIndex` over one file's chunks: embed
      each chunk and push it with the next id. `ok` is false when a provider
      call fails, which aborts the whole build. */
  method EmbedFile(file: string, fileChunks: seq<TextChunk>, embed: string -> Option<seq<int>>,
                   chunks: seq<EmbeddingChunk>, nextId: nat, ghost done: seq<Piece>)
    returns (ok: bool, chunks': seq<EmbeddingChunk>, nextId': nat)
    requires EmbedAll(done, embed) == Some(chunks) && nextId == |chunks|
    ensures ok <==> EmbedAll(done + FilePieces(file, fileChunks), embed).Some?
    ensures ok ==> EmbedAll(done + FilePieces(file, fileChunks), embed) == Some(chunks') && nextId' == |chunks'|
  {
    ghost var mine := FilePieces(file, fileChunks);
    chunks' := chunks;
    nextId' := nextId;
    assert done + mine[..0] == done;
    for j := 0 to |fileChunks|
      invariant EmbedAll(done + mine[..j], embed) == Some(chunks')
      invariant nextId' == |chunks'|
    {
      var ch := fileChunks[j];
      assert done + mine[..j + 1] == (done + mine[..j]) + [Piece(file, ch)];
      EmbedAllSnoc(done + mine[..j], Piece(file, ch), embed, chunks');
      var embedding := embed(ch.text);
      if embedding.None? {
        assert (done + mine)[|done| + j] == Piece(file, ch);
        return false, chunks', nextId';
      }
      chunks' := chunks' + [EmbeddingChunk(nextId', file, ch.start, ch.end, embedding.value)];
      nextId' := nextId' + 1;
    }
    assert mine[..|fileChunks|] == mine;
    ok := true;
  }

  /** `buildEmbeddingIndex`: for each entry, read the file (skipping it when
      the read throws), chunk it, embed each chunk in turn with the next id;
      then write the list. */
  method BuildEmbeddingIndex(options: EmbeddingIndexOptions, host: Host) returns (r: Result<seq<EmbeddingChunk>>)
    ensures r == EmbeddingBuild(options, host)
  {
    var rootDir := options.rootDir;
    var chunkSize := options.chunkSize.GetOr(DefaultChunkSize);
    var maxChunks := options.maxChunksPerFile.GetOr(DefaultMaxChunksPerFile);
    var entries := options.index.entries;
    ghost var f := Contribution(rootDir, host.readFile, chunkSize, maxChunks);

    var chunks: seq<EmbeddingChunk> := [];
    var nextId := 0;
    for k := 0 to |entries|
      invariant EmbedAll(FlatMap(entries[..k], f), host.embed) == Some(chunks)
      invariant nextId == |chunks|
    {
      var entry := entries[k];
      FlatMapSnoc(entries, k, f);
      var content := host.readFile(JoinPath(rootDir, entry.path));
      if content.None? {
        assert f(entry) == [];
        assert FlatMap(entries[..k + 1], f) == FlatMap(entries[..k], f);
        continue;
      }
      var fileChunks := ChunkText(content.value, chunkSize, maxChunks);
      assert f(entry) == FilePieces(entry.path, fileChunks);
      assert FlatMap(entries[..k + 1], f) == FlatMap(entries[..k], f) + FilePieces(entry.path, fileChunks);
      var ok;
      ok, chunks, nextId := EmbedFile(entry.path, fileChunks, host.embed, chunks, nextId, FlatMap(entries[..k], f));
      if !ok {
        FlatMapPrefix(entries, k + 1, f);
        EmbedAllFailureSticks(FlatMap(entries[..k + 1], f), FlatMap(entries, f), host.embed);
        return Err(ProviderFailed);
      }
    }
    assert entries[..|entries|] == entries;

    var outputPath := options.outputPath.GetOr(JoinPath(rootDir, EmbeddingFileName));
    if !host.canWrite(outputPath) {
      return Err(EmbeddingWriteFailed(outputPath));
    }
    return Ok(chunks);
  }
}
