/** Context retrieval and prompt construction of src/context.ts: the upward
    search for the index, keyword extraction, path scoring, top-N file
    selection, snippet truncation, the semantic path over the embedding
    index, and the choice between the four prompts. */
module Context {
  import opened Types
  import opened Text
  import opened Seqs
  import opened Sorting
  import opened Paths

  const DefaultMaxFiles: nat := 5
  const DefaultMaxCharsPerFile: nat := 2000
  /** How many best-scoring chunks the semantic path considers. */
  const TopChunkCount: nat := 10
  const TruncationMarker := "\n... [truncated]"
  const BlockSeparator := "\n\n"

  /** `BuildContextOptions`; an absent `startDir` means the working
      directory, which the caller passes separately. */
  datatype ContextOptions = ContextOptions(startDir: Option<seq<string>>, maxFiles: Option<nat>, maxCharsPerFile: Option<nat>)

  datatype PromptResult = PromptResult(prompt: string, usedFiles: seq<string>)

  datatype SelectedFile = SelectedFile(absPath: string, relPath: string)

  function Min(a: int, b: int): int {
    if a < b then a else b
  }

  // ---------------------------------------------------------------------
  // findIndexFile, loadIndex, loadEmbeddingIndex
  // ---------------------------------------------------------------------

  /** `path.join(dir, '.repomind-index.json')`. */
  function IndexCandidate(dir: seq<string>): string {
    AbsPath(dir + [IndexFileName])
  }

  /** The nearest directory, starting at `dir` and going up one parent at
      a time to the root, that passes `probe`. */
  function Climb(dir: seq<string>, probe: seq<string> -> bool): Option<seq<string>>
    decreases |dir|
  {
    if probe(dir) then Some(dir)
    else if dir == [] then None
    else Climb(Dirname(dir), probe)
  }

  function HasIndexFile(fileExists: string -> bool): seq<string> -> bool {
    dir => fileExists(IndexCandidate(dir))
  }

  /** The index file of the nearest directory holding one. */
  function NearestIndex(dir: seq<string>, fileExists: string -> bool): Option<string> {
    match Climb(dir, HasIndexFile(fileExists))
    case None => None
    case Some(found) => Some(IndexCandidate(found))
  }

  /** `findIndexFile`: the `while (true)` loop that climbs until
      `dirname(current) === current`. */
  method FindIndexFile(startDir: seq<string>, fileExists: string -> bool) returns (r: Option<string>)
    ensures r == NearestIndex(startDir, fileExists)
  {
    ghost var probe := HasIndexFile(fileExists);
    var current := startDir;
    while true
      invariant Climb(current, probe) == Climb(startDir, probe)
      decreases |current|
    {
      var candidate := IndexCandidate(current);
      if fileExists(candidate) {
        return Some(candidate);
      }
      var parent := Dirname(current);
      if parent == current {
        break;
      }
      current := parent;
    }
    return None;
  }

  /** The ancestors of `dir` are its prefixes `dir[..k]`; the climb finds
      nothing exactly when no ancestor (the directory itself included)
      passes the probe. */
  lemma {:induction false} ClimbNone(dir: seq<string>, probe: seq<string> -> bool)
    ensures Climb(dir, probe).None? <==> forall k :: 0 <= k <= |dir| ==> !probe(dir[..k])
    decreases |dir|
  {
    assert dir[..|dir|] == dir;
    if !probe(dir) && dir != [] {
      var parent := Dirname(dir);
      ClimbNone(parent, probe);
      assert forall k :: 0 <= k <= |parent| ==> parent[..k] == dir[..k];
    }
  }

  /** When the climb finds a directory, it is the deepest ancestor passing
      the probe. */
  lemma {:induction false} ClimbIsNearest(dir: seq<string>, probe: seq<string> -> bool)
    requires Climb(dir, probe).Some?
    ensures exists k :: (0 <= k <= |dir| && Climb(dir, probe) == Some(dir[..k]) && probe(dir[..k])
      && forall j :: k < j <= |dir| ==> !probe(dir[..j]))
    decreases |dir|
  {
    assert dir[..|dir|] == dir;
    if !probe(dir) {
      var parent := Dirname(dir);
      ClimbIsNearest(parent, probe);
      var k :| 0 <= k <= |parent| && Climb(parent, probe) == Some(parent[..k]) && probe(parent[..k])
        && forall j :: k < j <= |parent| ==> !probe(parent[..j]);
      assert parent[..k] == dir[..k];
      forall j | k < j <= |dir| ensures !probe(dir[..j]) {
        if j <= |parent| {
          assert parent[..j] == dir[..j];
        }
      }
    }
  }

  /** `findIndexFile` returns null exactly when no ancestor of the start
      directory holds the index file, and otherwise the index file of the
      nearest one that does. */
  lemma NearestIndexIsNearest(dir: seq<string>, fileExists: string -> bool)
    ensures NearestIndex(dir, fileExists).None? <==>
      forall k :: 0 <= k <= |dir| ==> !fileExists(IndexCandidate(dir[..k]))
    ensures NearestIndex(dir, fileExists).Some? ==>
      exists k :: (0 <= k <= |dir| && NearestIndex(dir, fileExists) == Some(IndexCandidate(dir[..k]))
        && fileExists(IndexCandidate(dir[..k]))
        && forall j :: k < j <= |dir| ==> !fileExists(IndexCandidate(dir[..j])))
  {
    var probe := HasIndexFile(fileExists);
    ClimbNone(dir, probe);
    if Climb(dir, probe).Some? {
      ClimbIsNearest(dir, probe);
      var k :| 0 <= k <= |dir| && Climb(dir, probe) == Some(dir[..k]) && probe(dir[..k])
        && forall j :: k < j <= |dir| ==> !probe(dir[..j]);
      assert NearestIndex(dir, fileExists) == Some(IndexCandidate(dir[..k]));
    }
  }

  /** The parsed index the search leads to, if the file can be read and
      parsed. */
  function IndexAt(startDir: seq<string>, host: Host): Option<RepoIndex> {
    match NearestIndex(startDir, host.fileExists)
    case None => None
    case Some(indexPath) =>
      match host.readFile(indexPath)
      case None => None
      case Some(raw) => host.parseIndex(raw)
  }

  /** `loadIndex`: any read or parse error gives null. */
  method LoadIndex(startDir: seq<string>, host: Host) returns (r: Option<RepoIndex>)
    ensures r == IndexAt(startDir, host)
    ensures (forall k :: 0 <= k <= |startDir| ==> !host.fileExists(IndexCandidate(startDir[..k]))) ==> r.None?
  {
    NearestIndexIsNearest(startDir, host.fileExists);
    var indexPath := FindIndexFile(startDir, host.fileExists);
    if indexPath.None? {
      return None;
    }
    var raw := host.readFile(indexPath.value);
    if raw.None? {
      return None;
    }
    return host.parseIndex(raw.value);
  }

  function EmbeddingPath(index: RepoIndex): string {
    JoinPath(index.root, EmbeddingFileName)
  }

  /** `loadEmbeddingIndex`: the chunk list next to the index root, or null
      when the file is missing, unreadable or not a JSON array. */
  function LoadEmbeddingIndex(index: RepoIndex, host: Host): (r: Option<seq<EmbeddingChunk>>)
    ensures !host.fileExists(EmbeddingPath(index)) ==> r.None?
    ensures r.Some? <==> (host.fileExists(EmbeddingPath(index))
      && host.readFile(EmbeddingPath(index)).Some?
      && host.parseChunks(host.readFile(EmbeddingPath(index)).value).Some?)
  {
    if !host.fileExists(EmbeddingPath(index)) then None
    else
      match host.readFile(EmbeddingPath(index))
      case None => None
      case Some(raw) => host.parseChunks(raw)
  }

  // ---------------------------------------------------------------------
  // extractKeywords
  // ---------------------------------------------------------------------

  predicate IsWord(w: string) {
    forall i :: 0 <= i < |w| ==> IsWordChar(w[i])
  }

  /** Drops the leading run of characters outside [a-z0-9_]. */
  function SkipSeparators(s: string): (r: string)
    ensures |r| <= |s| && r == s[|s| - |r|..]
    ensures r == [] || IsWordChar(r[0])
    ensures forall i :: 0 <= i < |s| - |r| ==> !IsWordChar(s[i])
  {
    if |s| > 0 && !IsWordChar(s[0]) then
      var r := SkipSeparators(s[1..]);
      assert s[1..][|s| - 1 - |r|..] == s[|s| - |r|..];
      assert forall i :: 1 <= i < |s| - |r| ==> s[i] == s[1..][i - 1];
      r
    else s
  }

  /** `s.split(/[^a-z0-9_]+/g)`: the fields between maximal runs of
      separators, with an empty field before a leading run and after a
      trailing one; the empty string gives one empty field. */
  function Split(s: string): (fields: seq<string>)
    ensures |fields| >= 1
    decreases |s|
  {
    if |s| == 0 then [""]
    else if IsWordChar(s[0]) then
      var f := Split(s[1..]);
      [[s[0]] + f[0]] + f[1..]
    else [""] + Split(SkipSeparators(s[1..]))
  }

  /** The characters of `s` in [a-z0-9_], in order. */
  function WordChars(s: string): string {
    if |s| == 0 then "" else (if IsWordChar(s[0]) then [s[0]] else "") + WordChars(s[1..])
  }

  function Concat(parts: seq<string>): string {
    if |parts| == 0 then "" else parts[0] + Concat(parts[1..])
  }

  lemma {:induction false} WordCharsSkip(s: string)
    ensures WordChars(SkipSeparators(s)) == WordChars(s)
  {
    if |s| > 0 && !IsWordChar(s[0]) {
      WordCharsSkip(s[1..]);
    }
  }

  /** Splitting loses only separators: every field is made of word
      characters, and the fields put back together are the word characters
      of the input in order. */
  lemma {:induction false} SplitFields(s: string)
    ensures forall i :: 0 <= i < |Split(s)| ==> IsWord(Split(s)[i])
    ensures Concat(Split(s)) == WordChars(s)
    decreases |s|
  {
    if |s| > 0 {
      if IsWordChar(s[0]) {
        SplitFields(s[1..]);
        FieldsExtend(s[0], Split(s[1..]));
      } else {
        var t := SkipSeparators(s[1..]);
        SplitFields(t);
        WordCharsSkip(s[1..]);
        FieldsOpen(Split(t));
      }
    }
  }

  /** A word character in front of the first field. */
  lemma FieldsExtend(c: char, f: seq<string>)
    requires IsWordChar(c) && |f| >= 1
    requires forall i :: 0 <= i < |f| ==> IsWord(f[i])
    ensures var fs := [[c] + f[0]] + f[1..];
      && (forall i :: 0 <= i < |fs| ==> IsWord(fs[i]))
      && Concat(fs) == [c] + Concat(f)
  {
    FieldsExtendWords(c, f);
    var tail := Concat(f[1..]);
    ConcatCons([c] + f[0], f[1..]);
    assert [f[0]] + f[1..] == f;
    ConcatCons(f[0], f[1..]);
    AppendAssoc([c], f[0], tail);
  }

  lemma FieldsExtendWords(c: char, f: seq<string>)
    requires IsWordChar(c) && |f| >= 1
    requires forall i :: 0 <= i < |f| ==> IsWord(f[i])
    ensures var fs := [[c] + f[0]] + f[1..];
      forall i :: 0 <= i < |fs| ==> IsWord(fs[i])
  {
    var fs := [[c] + f[0]] + f[1..];
    WordCons(c, f[0]);
    forall i | 0 <= i < |fs| ensures IsWord(fs[i]) {
      if i > 0 {
        assert fs[i] == f[i];
      }
    }
  }

  lemma ConcatCons(x: string, rest: seq<string>)
    ensures Concat([x] + rest) == x + Concat(rest)
  {
    assert ([x] + rest)[1..] == rest;
  }

  lemma WordCons(c: char, w: string)
    requires IsWordChar(c) && IsWord(w)
    ensures IsWord([c] + w)
  {
    forall k | 0 <= k < |[c] + w| ensures IsWordChar(([c] + w)[k]) {
      if k > 0 {
        assert ([c] + w)[k] == w[k - 1];
      }
    }
  }

  /** An empty field opened in front of the others. */
  lemma FieldsOpen(f: seq<string>)
    requires forall i :: 0 <= i < |f| ==> IsWord(f[i])
    ensures var fs := [""] + f;
      && (forall i :: 0 <= i < |fs| ==> IsWord(fs[i]))
      && Concat(fs) == Concat(f)
  {
    var fs := [""] + f;
    assert fs[1..] == f;
    forall i | 0 <= i < |fs| ensures IsWord(fs[i]) {
      if i > 0 {
        assert fs[i] == f[i - 1];
      }
    }
  }

  /** A word alone is one field. */
  lemma {:induction false} SplitWord(w: string)
    requires IsWord(w)
    ensures Split(w) == [w]
    decreases |w|
  {
    if |w| > 0 {
      SplitWord(w[1..]);
      assert [w[0]] + w[1..] == w;
    }
  }

  predicate KeywordLength(w: string) {
    3 <= |w| <= 40
  }

  /** `.filter((w) => w.length >= 3 && w.length <= 40)`. */
  function KeepKeywords(ws: seq<string>): seq<string>
    decreases |ws|
  {
    if |ws| == 0 then []
    else
      var rest := KeepKeywords(ws[..|ws| - 1]);
      if KeywordLength(ws[|ws| - 1]) then rest + [ws[|ws| - 1]] else rest
  }

  /** `extractKeywords`: lower-case, split, keep fields of length 3 to 40. */
  function ExtractKeywords(question: string): seq<string> {
    KeepKeywords(Split(Lower(question)))
  }

  /** The filter keeps, in order and with repetitions, exactly the words of
      admissible length. */
  lemma {:induction false} KeepKeywordsFilter(ws: seq<string>)
    ensures var r := KeepKeywords(ws);
      && IsSubsequence(r, ws)
      && (forall i :: 0 <= i < |r| ==> KeywordLength(r[i]))
      && (forall i :: 0 <= i < |ws| && KeywordLength(ws[i]) ==> ws[i] in r)
    decreases |ws|
  {
    if |ws| > 0 {
      var n := |ws| - 1;
      KeepKeywordsFilter(ws[..n]);
      var rest := KeepKeywords(ws[..n]);
      if KeywordLength(ws[n]) {
        assert (rest + [ws[n]])[..|rest|] == rest;
      }
      forall i | 0 <= i < |ws| && KeywordLength(ws[i]) ensures ws[i] in KeepKeywords(ws) {
        if i < n {
          assert ws[..n][i] == ws[i];
        }
      }
    }
  }

  /** Each word of admissible length is kept as many times as it occurs;
      other words not at all. */
  lemma {:induction false} KeepKeywordsMultiplicity(ws: seq<string>)
    ensures forall w :: multiset(KeepKeywords(ws))[w] == if KeywordLength(w) then multiset(ws)[w] else 0
    decreases |ws|
  {
    if |ws| > 0 {
      var n := |ws| - 1;
      assert ws == ws[..n] + [ws[n]];
      KeepKeywordsMultiplicity(ws[..n]);
    }
  }

  /** Every keyword is lower-case, made only of [a-z0-9_], and 3 to 40
      characters long. */
  lemma ExtractKeywordsShape(question: string)
    ensures var kws := ExtractKeywords(question);
      forall i :: 0 <= i < |kws| ==> IsLower(kws[i]) && IsWord(kws[i]) && KeywordLength(kws[i])
  {
    var fields := Split(Lower(question));
    var kws := ExtractKeywords(question);
    assert kws == KeepKeywords(fields);
    SplitFields(Lower(question));
    KeptWords(fields);
    forall i | 0 <= i < |kws| ensures IsLower(kws[i]) {
      assert IsWord(KeepKeywords(fields)[i]);
    }
  }

  /** Keeping words of admissible length out of a list of words keeps words. */
  lemma KeptWords(ws: seq<string>)
    requires forall i :: 0 <= i < |ws| ==> IsWord(ws[i])
    ensures var kws := KeepKeywords(ws);
      forall i :: 0 <= i < |kws| ==> IsWord(kws[i]) && KeywordLength(kws[i])
  {
    var kws := KeepKeywords(ws);
    KeepKeywordsMultiplicity(ws);
    forall i | 0 <= i < |kws| ensures IsWord(kws[i]) && KeywordLength(kws[i]) {
      var w := kws[i];
      assert w in multiset(kws);
      assert w in multiset(ws);
      var j :| 0 <= j < |ws| && ws[j] == w;
    }
  }

  /** The keywords are the admissible fields of the lower-cased question,
      in question order and with repetitions: each admissible field occurs
      among the keywords as often as in the question. */
  lemma ExtractKeywordsOrder(question: string)
    ensures var kws := ExtractKeywords(question);
      var fields := Split(Lower(question));
      && IsSubsequence(kws, fields)
      && (forall i :: 0 <= i < |fields| && KeywordLength(fields[i]) ==> fields[i] in kws)
      && (forall w :: multiset(kws)[w] == if KeywordLength(w) then multiset(fields)[w] else 0)
  {
    KeepKeywordsFilter(Split(Lower(question)));
    KeepKeywordsMultiplicity(Split(Lower(question)));
  }

  lemma {:induction false} SubsequenceMembers(a: seq<string>, b: seq<string>)
    requires IsSubsequence(a, b)
    ensures forall i :: 0 <= i < |a| ==> exists j :: 0 <= j < |b| && b[j] == a[i]
    decreases |b|
  {
    if |a| > 0 {
      var b' := b[..|b| - 1];
      if a[|a| - 1] == b[|b| - 1] && IsSubsequence(a[..|a| - 1], b') {
        SubsequenceMembers(a[..|a| - 1], b');
        forall i | 0 <= i < |a| ensures exists j :: 0 <= j < |b| && b[j] == a[i] {
          if i < |a| - 1 {
            assert a[..|a| - 1][i] == a[i];
            var j :| 0 <= j < |b'| && b'[j] == a[i];
            assert b[j] == a[i];
          } else {
            assert b[|b| - 1] == a[i];
          }
        }
      } else {
        SubsequenceMembers(a, b');
        forall i | 0 <= i < |a| ensures exists j :: 0 <= j < |b| && b[j] == a[i] {
          var j :| 0 <= j < |b'| && b'[j] == a[i];
          assert b[j] == a[i];
        }
      }
    }
  }

  // ---------------------------------------------------------------------
  // scorePath
  // ---------------------------------------------------------------------

  /** The number of keywords, counted with multiplicity, that occur in the
      lower-cased path. */
  function Score(lowerPath: string, keywords: seq<string>): nat
    decreases |keywords|
  {
    if |keywords| == 0 then 0
    else
      Score(lowerPath, keywords[..|keywords| - 1])
      + (if Contains(lowerPath, keywords[|keywords| - 1]) then 1 else 0)
  }

  /** `scorePath`: one point per keyword the lower-cased path includes. */
  method ScorePath(filePath: string, keywords: seq<string>) returns (score: nat)
    ensures score == Score(Lower(filePath), keywords)
  {
    var lower := Lower(filePath);
    score := 0;
    for i := 0 to |keywords|
      invariant score == Score(lower, keywords[..i])
    {
      assert keywords[..i + 1][..i] == keywords[..i];
      if Contains(lower, keywords[i]) {
        score := score + 1;
      }
    }
    assert keywords[..|keywords|] == keywords;
  }

  /** 0 <= score <= |keywords|; the top score means every keyword occurs,
      score 0 means none does. */
  lemma {:induction false} ScoreBounds(lowerPath: string, keywords: seq<string>)
    ensures Score(lowerPath, keywords) <= |keywords|
    ensures Score(lowerPath, keywords) == |keywords| <==>
      forall i :: 0 <= i < |keywords| ==> Contains(lowerPath, keywords[i])
    ensures Score(lowerPath, keywords) == 0 <==>
      forall i :: 0 <= i < |keywords| ==> !Contains(lowerPath, keywords[i])
    decreases |keywords|
  {
    if |keywords| > 0 {
      var n := |keywords| - 1;
      ScoreBounds(lowerPath, keywords[..n]);
      assert forall i :: 0 <= i < n ==> keywords[..n][i] == keywords[i];
    }
  }

  /** The score of a concatenated keyword list is the sum of the scores:
      a keyword listed twice counts twice. */
  lemma {:induction false} ScoreAppend(lowerPath: string, a: seq<string>, b: seq<string>)
    ensures Score(lowerPath, a + b) == Score(lowerPath, a) + Score(lowerPath, b)
    decreases |b|
  {
    if |b| == 0 {
      assert a + b == a;
    } else {
      var b' := b[..|b| - 1];
      assert (a + b)[..|a + b| - 1] == a + b';
      ScoreAppend(lowerPath, a, b');
    }
  }

  // ---------------------------------------------------------------------
  // selectFilesByPath
  // ---------------------------------------------------------------------

  datatype ScoredEntry = ScoredEntry(entry: IndexEntry, score: nat)

  function EntryScore(e: IndexEntry, keywords: seq<string>): nat {
    Score(Lower(e.path), keywords)
  }

  /** The `.map(...)` to scored entries and the `.filter(x => x.score > 0)`. */
  function Ranked(entries: seq<IndexEntry>, keywords: seq<string>): seq<ScoredEntry>
    decreases |entries|
  {
    if |entries| == 0 then []
    else
      var rest := Ranked(entries[..|entries| - 1], keywords);
      var e := entries[|entries| - 1];
      if EntryScore(e, keywords) > 0 then rest + [ScoredEntry(e, EntryScore(e, keywords))] else rest
  }

  /** The positions of the entries the filter keeps. */
  function Matching(entries: seq<IndexEntry>, keywords: seq<string>): nat -> bool {
    (i: nat) => i < |entries| && EntryScore(entries[i], keywords) > 0
  }

  /** The scored list is exactly the entries with a positive score, in index
      order and with their repetitions, each paired with its score. */
  lemma RankedPositions(entries: seq<IndexEntry>, keywords: seq<string>)
    ensures var ps := Positions(|entries|, Matching(entries, keywords));
      var ranked := Ranked(entries, keywords);
      && |ranked| == |ps|
      && forall j :: 0 <= j < |ps| ==> ranked[j] == ScoredEntry(entries[ps[j]], EntryScore(entries[ps[j]], keywords))
  {
    RankedPrefixPositions(entries, keywords, |entries|);
    assert entries[..|entries|] == entries;
  }

  lemma {:induction false} RankedPrefixPositions(entries: seq<IndexEntry>, keywords: seq<string>, k: nat)
    requires k <= |entries|
    ensures var ps := Positions(k, Matching(entries, keywords));
      var ranked := Ranked(entries[..k], keywords);
      && |ranked| == |ps|
      && forall j :: 0 <= j < |ps| ==> ranked[j] == ScoredEntry(entries[ps[j]], EntryScore(entries[ps[j]], keywords))
    decreases k
  {
    if k > 0 {
      RankedPrefixPositions(entries, keywords, k - 1);
      assert entries[..k][..k - 1] == entries[..k - 1];
      PositionsSnoc(k - 1, Matching(entries, keywords));
    }
  }

  /** The comparator `b.score - a.score || a.entry.path.localeCompare(b.entry.path)`
      is at most 0: higher score first, ties by ascending path. */
  function RankedBefore(a: ScoredEntry, b: ScoredEntry): bool {
    a.score > b.score || (a.score == b.score && LexLe(a.entry.path, b.entry.path))
  }

  lemma RankedBeforeTotalPreorder()
    ensures TotalPreorder(RankedBefore)
  {
    forall x: ScoredEntry, y: ScoredEntry ensures RankedBefore(x, y) || RankedBefore(y, x) {
      LexLeTotal(x.entry.path, y.entry.path);
    }
    forall x: ScoredEntry, y: ScoredEntry, z: ScoredEntry | RankedBefore(x, y) && RankedBefore(y, z)
      ensures RankedBefore(x, z)
    {
      if x.score == y.score == z.score {
        LexLeTransitive(x.entry.path, y.entry.path, z.entry.path);
      }
    }
  }

  /** The scored entries kept by `slice(0, maxFiles)` after sorting. */
  function Selection(index: RepoIndex, keywords: seq<string>, maxFiles: nat): seq<ScoredEntry> {
    if |index.entries| == 0 || |keywords| == 0 then []
    else Top(Ranked(index.entries, keywords), RankedBefore, maxFiles)
  }

  /** `selectFilesByPath`. */
  function SelectFilesByPath(index: RepoIndex, keywords: seq<string>, maxFiles: nat): seq<SelectedFile> {
    var top := Selection(index, keywords, maxFiles);
    seq(|top|, i requires 0 <= i < |top| => SelectedFile(JoinPath(index.root, top[i].entry.path), top[i].entry.path))
  }

  function EntryPath(x: ScoredEntry): string {
    x.entry.path
  }

  /** The paths of the entries with a positive score, in index order. */
  function MatchingPaths(entries: seq<IndexEntry>, keywords: seq<string>): (paths: seq<string>) {
    var ps := Positions(|entries|, Matching(entries, keywords));
    seq(|ps|, j requires 0 <= j < |ps| => entries[ps[j]].path)
  }

  /** No path is selected more often than it occurs among the matching
      entries. */
  lemma SelectFilesSubMultiset(index: RepoIndex, keywords: seq<string>, maxFiles: nat)
    ensures multiset(RelPaths(SelectFilesByPath(index, keywords, maxFiles))) <= multiset(MatchingPaths(index.entries, keywords))
  {
    var r := SelectFilesByPath(index, keywords, maxFiles);
    var top := Selection(index, keywords, maxFiles);
    var ranked := Ranked(index.entries, keywords);
    RankedPositions(index.entries, keywords);
    MapAt(ranked, EntryPath);
    assert Map(ranked, EntryPath) == MatchingPaths(index.entries, keywords);
    if |index.entries| > 0 && |keywords| > 0 {
      TopMap(ranked, RankedBefore, maxFiles, EntryPath);
      MapAt(top, EntryPath);
      assert RelPaths(r) == Map(top, EntryPath);
    } else {
      assert RelPaths(r) == [];
    }
  }

  /** The scored list holds exactly the entries with a positive score, each
      with its score. */
  lemma {:induction false} RankedMembers(entries: seq<IndexEntry>, keywords: seq<string>)
    ensures forall x :: x in Ranked(entries, keywords) ==>
      x.entry in entries && x.score == EntryScore(x.entry, keywords) && x.score > 0
    ensures forall k :: 0 <= k < |entries| && EntryScore(entries[k], keywords) > 0 ==>
      ScoredEntry(entries[k], EntryScore(entries[k], keywords)) in Ranked(entries, keywords)
    decreases |entries|
  {
    if |entries| > 0 {
      var n := |entries| - 1;
      RankedMembers(entries[..n], keywords);
      forall k | 0 <= k < n ensures entries[..n][k] == entries[k] {
      }
    }
  }

  /** The result is empty without entries or keywords; otherwise it holds
      min(maxFiles, number of matching entries) files, each an index
      entry with a positive score and `absPath == join(root, relPath)`,
      ordered by descending score and then by ascending path; no path is
      selected more often than it occurs among the matching entries. */
  lemma SelectFilesShape(index: RepoIndex, keywords: seq<string>, maxFiles: nat)
    ensures var r := SelectFilesByPath(index, keywords, maxFiles);
      && (|index.entries| == 0 || |keywords| == 0 ==> r == [])
      && (|index.entries| > 0 && |keywords| > 0 ==> |r| == Min(maxFiles, |Ranked(index.entries, keywords)|))
      && (|index.entries| > 0 && |keywords| > 0 ==>
            |r| == Min(maxFiles, |Positions(|index.entries|, Matching(index.entries, keywords))|))
      && |r| <= maxFiles
      && multiset(RelPaths(r)) <= multiset(MatchingPaths(index.entries, keywords))
      && (forall i :: 0 <= i < |r| ==>
            && r[i].absPath == JoinPath(index.root, r[i].relPath)
            && Score(Lower(r[i].relPath), keywords) > 0
            && exists e :: e in index.entries && e.path == r[i].relPath)
      && (forall i, j :: 0 <= i < j < |r| ==>
            || Score(Lower(r[i].relPath), keywords) > Score(Lower(r[j].relPath), keywords)
            || (Score(Lower(r[i].relPath), keywords) == Score(Lower(r[j].relPath), keywords)
                && LexLe(r[i].relPath, r[j].relPath)))
  {
    SelectFilesRanking(index, keywords, maxFiles);
    SelectFilesSubMultiset(index, keywords, maxFiles);
  }

  lemma SelectFilesRanking(index: RepoIndex, keywords: seq<string>, maxFiles: nat)
    ensures var r := SelectFilesByPath(index, keywords, maxFiles);
      && (|index.entries| == 0 || |keywords| == 0 ==> r == [])
      && (|index.entries| > 0 && |keywords| > 0 ==> |r| == Min(maxFiles, |Ranked(index.entries, keywords)|))
      && (|index.entries| > 0 && |keywords| > 0 ==>
            |r| == Min(maxFiles, |Positions(|index.entries|, Matching(index.entries, keywords))|))
      && |r| <= maxFiles
      && (forall i :: 0 <= i < |r| ==>
            && r[i].absPath == JoinPath(index.root, r[i].relPath)
            && Score(Lower(r[i].relPath), keywords) > 0
            && exists e :: e in index.entries && e.path == r[i].relPath)
      && (forall i, j :: 0 <= i < j < |r| ==>
            || Score(Lower(r[i].relPath), keywords) > Score(Lower(r[j].relPath), keywords)
            || (Score(Lower(r[i].relPath), keywords) == Score(Lower(r[j].relPath), keywords)
                && LexLe(r[i].relPath, r[j].relPath)))
  {
    var r := SelectFilesByPath(index, keywords, maxFiles);
    if |index.entries| > 0 && |keywords| > 0 {
      var ranked := Ranked(index.entries, keywords);
      var top := Selection(index, keywords, maxFiles);
      RankedMembers(index.entries, keywords);
      RankedPositions(index.entries, keywords);
      RankedBeforeTotalPreorder();
      TopOrder(ranked, RankedBefore, maxFiles);
      forall i | 0 <= i < |r| ensures exists e :: e in index.entries && e.path == r[i].relPath {
        assert top[i] in ranked;
      }
      forall i, j | 0 <= i < j < |r| ensures RankedBefore(top[i], top[j]) {
      }
    }
  }

  /** The selection is a top-N: it repeats no path more often than the
      matching entries do, and an entry with a positive score that is not
      selected ranks after (or ties with) every selected file. */
  lemma SelectFilesTop(index: RepoIndex, keywords: seq<string>, maxFiles: nat, e: IndexEntry)
    requires e in index.entries && EntryScore(e, keywords) > 0
    ensures var r := SelectFilesByPath(index, keywords, maxFiles);
      multiset(RelPaths(r)) <= multiset(MatchingPaths(index.entries, keywords))
    ensures var r := SelectFilesByPath(index, keywords, maxFiles);
      || (exists i :: 0 <= i < |r| && r[i].relPath == e.path)
      || forall i :: 0 <= i < |r| ==>
           || Score(Lower(r[i].relPath), keywords) > EntryScore(e, keywords)
           || (Score(Lower(r[i].relPath), keywords) == EntryScore(e, keywords) && LexLe(r[i].relPath, e.path))
  {
    SelectFilesSubMultiset(index, keywords, maxFiles);
    SelectFilesOmitted(index, keywords, maxFiles, e);
  }

  lemma SelectFilesOmitted(index: RepoIndex, keywords: seq<string>, maxFiles: nat, e: IndexEntry)
    requires e in index.entries && EntryScore(e, keywords) > 0
    ensures var r := SelectFilesByPath(index, keywords, maxFiles);
      || (exists i :: 0 <= i < |r| && r[i].relPath == e.path)
      || forall i :: 0 <= i < |r| ==>
           || Score(Lower(r[i].relPath), keywords) > EntryScore(e, keywords)
           || (Score(Lower(r[i].relPath), keywords) == EntryScore(e, keywords) && LexLe(r[i].relPath, e.path))
  {
    var ranked := Ranked(index.entries, keywords);
    var top := Selection(index, keywords, maxFiles);
    var r := SelectFilesByPath(index, keywords, maxFiles);
    RankedMembers(index.entries, keywords);
    RankedBeforeTotalPreorder();
    TopOrder(ranked, RankedBefore, maxFiles);
    var x := ScoredEntry(e, EntryScore(e, keywords));
    var k0 :| 0 <= k0 < |index.entries| && index.entries[k0] == e;
    assert x in ranked;
    var k :| 0 <= k < |ranked| && ranked[k] == x;
    if x in top {
      var i :| 0 <= i < |top| && top[i] == x;
      assert r[i].relPath == e.path;
    } else {
      forall i | 0 <= i < |r| ensures RankedBefore(top[i], x) {
      }
    }
  }

  // ---------------------------------------------------------------------
  // readFileSnippet
  // ---------------------------------------------------------------------

  function Snippet(content: string, maxChars: nat): string {
    if |content| <= maxChars then content else content[..maxChars] + TruncationMarker
  }

  /** `readFileSnippet`: null when the read fails. */
  function ReadFileSnippet(absPath: string, maxChars: nat, readFile: string -> Option<string>): (r: Option<string>)
    ensures r.None? <==> readFile(absPath).None?
    ensures r.Some? ==> r.value == Snippet(readFile(absPath).value, maxChars)
  {
    match readFile(absPath)
    case None => None
    case Some(content) => Some(Snippet(content, maxChars))
  }

  /** Short content is kept whole; long content keeps its first `maxChars`
      characters and gains the marker; the snippet is empty exactly when the
      content is, so `!snippet` skips empty files and nothing else. Follows
      from the definition of `Snippet`. */
  lemma SnippetShape(content: string, maxChars: nat)
    ensures |content| <= maxChars ==> Snippet(content, maxChars) == content
    ensures |content| > maxChars ==>
      && content[..maxChars] <= Snippet(content, maxChars)
      && |Snippet(content, maxChars)| == maxChars + |TruncationMarker|
      && Snippet(content, maxChars)[maxChars..] == TruncationMarker
    ensures Snippet(content, maxChars) == "" <==> content == ""
  {
  }

  /** `if (!snippet) continue;`: a null or empty snippet is skipped. */
  predicate Usable(snippet: Option<string>) {
    snippet.Some? && snippet.value != ""
  }

  // ---------------------------------------------------------------------
  // Prompt templates
  // ---------------------------------------------------------------------

  const ContextPreamble := "You are a helpful assistant for answering questions about this codebase.\n"
    + "You are given a set of file snippets as context. Use them when relevant, "
    + "but do not hallucinate details that are not supported by the snippets.\n\n"
    + "Context:\n"
  const QuestionLead := "\n\nQuestion: "
  const AnswerTrailer := "\n\nAnswer in a concise way and, when useful, mention which files you are using."
  const NoIndexPreamble := "You are a helpful assistant for answering questions about code. "
    + "No repository index is available, so rely only on the question.\n\n"
    + "Question: "
  const NoMatchPreamble := "You are a helpful assistant for answering questions about this codebase. "
    + "No specific files matched the question keywords; answer based only on the question.\n\n"
    + "Question: "

  function ContextPrompt(contextText: string, question: string): string {
    ContextPreamble + contextText + QuestionLead + question + AnswerTrailer
  }

  function NoIndexPrompt(question: string): string {
    NoIndexPreamble + question
  }

  function NoMatchPrompt(question: string): string {
    NoMatchPreamble + question
  }

  function LexicalBlock(relPath: string, snippet: string): string {
    "FILE: " + relPath + "\n-----\n" + snippet + "\n-----"
  }

  function SemanticBlock(ch: EmbeddingChunk, snippet: string): string {
    "FILE: " + ch.file + " [" + IntToString(ch.start) + "-" + IntToString(ch.end) + "]\n-----\n" + snippet + "\n-----"
  }

  lemma QuotedBetween(before: string, quoted: string, after: string)
    ensures Contains(before + quoted + after, quoted)
  {
    var p := before + quoted + after;
    assert p[|before|..|before| + |quoted|] == quoted;
    ContainsAt(p, quoted, |before|);
  }

  lemma QuotedLast(before: string, quoted: string)
    ensures Contains(before + quoted, quoted)
  {
    var p := before + quoted;
    assert p[|before|..|before| + |quoted|] == quoted;
    ContainsAt(p, quoted, |before|);
  }

  /** Each template quotes the question, so every prompt built contains it. */
  lemma TemplatesContainQuestion(contextText: string, question: string)
    ensures Contains(ContextPrompt(contextText, question), question)
    ensures Contains(NoIndexPrompt(question), question)
    ensures Contains(NoMatchPrompt(question), question)
  {
    QuotedBetween(ContextPreamble + contextText + QuestionLead, question, AnswerTrailer);
    QuotedLast(NoIndexPreamble, question);
    QuotedLast(NoMatchPreamble, question);
  }

  /** Every block the loop pushed can be found in the Context prompt. */
  lemma ContextPromptContainsBlocks(blocks: seq<string>, question: string)
    ensures forall i :: 0 <= i < |blocks| ==>
      Contains(ContextPrompt(Join(blocks, BlockSeparator), question), blocks[i])
  {
    var contextText := Join(blocks, BlockSeparator);
    JoinContainsParts(blocks, BlockSeparator);
    forall i | 0 <= i < |blocks| ensures Contains(ContextPrompt(contextText, question), blocks[i]) {
      ContainsSecond(ContextPreamble, contextText, QuestionLead, question, AnswerTrailer, blocks[i]);
    }
  }

  lemma ContainsSelf(s: string)
    ensures Contains(s, s)
  {
    assert OccursAt(s, s, 0);
    ContainsAt(s, s, 0);
  }

  // ---------------------------------------------------------------------
  // buildPromptFromEmbeddings
  // ---------------------------------------------------------------------

  datatype ScoredChunk = ScoredChunk(chunk: EmbeddingChunk, score: real)

  /** The comparator `b.score - a.score` is at most 0. */
  function ByScore(a: ScoredChunk, b: ScoredChunk): bool {
    a.score >= b.score
  }

  lemma ByScoreTotalPreorder()
    ensures TotalPreorder(ByScore)
  {
  }

  function ScoreChunks(chunks: seq<EmbeddingChunk>, question: seq<int>, similarity: (seq<int>, seq<int>) -> real): (s: seq<ScoredChunk>)
    ensures |s| == |chunks|
    ensures forall i :: 0 <= i < |chunks| ==> s[i] == ScoredChunk(chunks[i], similarity(question, chunks[i].embedding))
  {
    seq(|chunks|, i requires 0 <= i < |chunks| => ScoredChunk(chunks[i], similarity(question, chunks[i].embedding)))
  }

  function TopScored(chunks: seq<EmbeddingChunk>, question: seq<int>, similarity: (seq<int>, seq<int>) -> real): seq<ScoredChunk> {
    Top(ScoreChunks(chunks, question, similarity), ByScore, TopChunkCount)
  }

  /** `scored.sort(...)` then `slice(0, 10).map((s) => s.chunk)`. */
  function TopChunks(chunks: seq<EmbeddingChunk>, question: seq<int>, similarity: (seq<int>, seq<int>) -> real): seq<EmbeddingChunk> {
    var top := TopScored(chunks, question, similarity);
    seq(|top|, i requires 0 <= i < |top| => top[i].chunk)
  }

  /** At most ten chunks, all taken from the loaded list, best similarity
      first; every chunk left out is no more similar than any chunk kept. */
  lemma TopChunksShape(chunks: seq<EmbeddingChunk>, question: seq<int>, similarity: (seq<int>, seq<int>) -> real)
    ensures var top := TopChunks(chunks, question, similarity);
      && |top| == Min(TopChunkCount, |chunks|)
      && (forall i :: 0 <= i < |top| ==> top[i] in chunks)
      && multiset(top) <= multiset(chunks)
      && (forall i, j :: 0 <= i < j < |top| ==> similarity(question, top[i].embedding) >= similarity(question, top[j].embedding))
      && (forall k :: 0 <= k < |chunks| ==>
            chunks[k] in top || forall i :: 0 <= i < |top| ==> similarity(question, top[i].embedding) >= similarity(question, chunks[k].embedding))
  {
    var scored := ScoreChunks(chunks, question, similarity);
    var tops := TopScored(chunks, question, similarity);
    var top := TopChunks(chunks, question, similarity);
    ByScoreTotalPreorder();
    TopOrder(scored, ByScore, TopChunkCount);
    TopChunksSubMultiset(chunks, question, similarity);
    forall i | 0 <= i < |top| ensures top[i] in chunks && tops[i].score == similarity(question, top[i].embedding) {
      var k :| 0 <= k < |scored| && scored[k] == tops[i];
    }
    forall i, j | 0 <= i < j < |top| ensures similarity(question, top[i].embedding) >= similarity(question, top[j].embedding) {
      assert ByScore(tops[i], tops[j]);
    }
    forall k | 0 <= k < |chunks|
      ensures chunks[k] in top || forall i :: 0 <= i < |top| ==> similarity(question, top[i].embedding) >= similarity(question, chunks[k].embedding)
    {
      if scored[k] in tops {
        var i :| 0 <= i < |tops| && tops[i] == scored[k];
        assert top[i] == chunks[k];
      } else {
        forall i | 0 <= i < |top| ensures similarity(question, top[i].embedding) >= similarity(question, chunks[k].embedding) {
          assert ByScore(tops[i], scored[k]);
        }
      }
    }
  }

  function ChunkOf(x: ScoredChunk): EmbeddingChunk {
    x.chunk
  }

  /** No chunk is chosen more often than it occurs in the loaded list. */
  lemma TopChunksSubMultiset(chunks: seq<EmbeddingChunk>, question: seq<int>, similarity: (seq<int>, seq<int>) -> real)
    ensures multiset(TopChunks(chunks, question, similarity)) <= multiset(chunks)
  {
    var scored := ScoreChunks(chunks, question, similarity);
    TopMap(scored, ByScore, TopChunkCount, ChunkOf);
    MapAt(scored, ChunkOf);
    MapAt(TopScored(chunks, question, similarity), ChunkOf);
    assert Map(scored, ChunkOf) == chunks;
    assert TopChunks(chunks, question, similarity) == Map(TopScored(chunks, question, similarity), ChunkOf);
  }

  function ChunkSnippet(ch: EmbeddingChunk, root: string, maxChars: nat, readFile: string -> Option<string>): Option<string> {
    ReadFileSnippet(JoinPath(root, ch.file), maxChars, readFile)
  }

  /** The blocks pushed for the chosen chunks whose file gives a usable
      snippet; the snippet is a prefix of the whole file. */
  function SemanticBlocks(top: seq<EmbeddingChunk>, root: string, maxChars: nat, readFile: string -> Option<string>): seq<string>
    decreases |top|
  {
    if |top| == 0 then []
    else
      var rest := SemanticBlocks(top[..|top| - 1], root, maxChars, readFile);
      var ch := top[|top| - 1];
      var snippet := ChunkSnippet(ch, root, maxChars, readFile);
      if Usable(snippet) then rest + [SemanticBlock(ch, snippet.value)] else rest
  }

  /** The files added to `usedFilesSet`, with repetitions and in order. */
  function SemanticFiles(top: seq<EmbeddingChunk>, root: string, maxChars: nat, readFile: string -> Option<string>): seq<string>
    decreases |top|
  {
    if |top| == 0 then []
    else
      var rest := SemanticFiles(top[..|top| - 1], root, maxChars, readFile);
      var ch := top[|top| - 1];
      if Usable(ChunkSnippet(ch, root, maxChars, readFile)) then rest + [ch.file] else rest
  }

  /** The outcome of `buildPromptFromEmbeddings`; a failed question
      embedding propagates as an error. */
  function SemanticPrompt(question: string, index: RepoIndex, chunks: seq<EmbeddingChunk>, maxChars: nat, host: Host): Result<PromptResult> {
    if |chunks| == 0 then Ok(PromptResult(question, []))
    else
      match host.embed(question)
      case None => Err(ProviderFailed)
      case Some(q) => Ok(SemanticContext(question, index.root, TopChunks(chunks, q, host.similarity), maxChars, host.readFile))
  }

  /** What the loop over the chosen chunks leads to: the bare question when
      no block was produced, else the Context template over the blocks and
      the files used, each once in first-use order. */
  function SemanticContext(question: string, root: string, top: seq<EmbeddingChunk>, maxChars: nat, readFile: string -> Option<string>): PromptResult {
    var blocks := SemanticBlocks(top, root, maxChars, readFile);
    if |blocks| == 0 then PromptResult(question, [])
    else PromptResult(ContextPrompt(Join(blocks, BlockSeparator), question), Dedup(SemanticFiles(top, root, maxChars, readFile)))
  }

  /** `buildPromptFromEmbeddings`: nothing to do for an empty list; embed
      the question, rank the chunks and build from the ten best. */
  method BuildPromptFromEmbeddings(question: string, index: RepoIndex, chunks: seq<EmbeddingChunk>, maxChars: nat, host: Host)
    returns (r: Result<PromptResult>)
    ensures r == SemanticPrompt(question, index, chunks, maxChars, host)
  {
    if |chunks| == 0 {
      return Ok(PromptResult(question, []));
    }
    var questionEmbedding := host.embed(question);
    if questionEmbedding.None? {
      return Err(ProviderFailed);
    }
    var top := TopChunks(chunks, questionEmbedding.value, host.similarity);
    var result := CollectSemanticContext(question, index.root, top, maxChars, host.readFile);
    return Ok(result);
  }

  /** The loop of `buildPromptFromEmbeddings` over the chosen chunks,
      filling `contextBlocks` and `usedFilesSet`, and the prompt built from
      them. */
  method CollectSemanticContext(question: string, root: string, top: seq<EmbeddingChunk>, maxChars: nat, readFile: string -> Option<string>)
    returns (result: PromptResult)
    ensures result == SemanticContext(question, root, top, maxChars, readFile)
  {
    var contextBlocks: seq<string> := [];
    var usedFilesSet: seq<string> := [];
    for i := 0 to |top|
      invariant contextBlocks == SemanticBlocks(top[..i], root, maxChars, readFile)
      invariant usedFilesSet == Dedup(SemanticFiles(top[..i], root, maxChars, readFile))
    {
      var ch := top[i];
      assert top[..i + 1][..i] == top[..i];
      ghost var files := SemanticFiles(top[..i], root, maxChars, readFile);
      var snippet := ReadFileSnippet(JoinPath(root, ch.file), maxChars, readFile);
      if snippet.None? || snippet.value == "" {
        continue;
      }
      assert (files + [ch.file])[..|files|] == files;
      if ch.file !in usedFilesSet {
        usedFilesSet := usedFilesSet + [ch.file];
      }
      contextBlocks := contextBlocks + [SemanticBlock(ch, snippet.value)];
    }
    assert top[..|top|] == top;
    if |contextBlocks| == 0 {
      return PromptResult(question, []);
    }
    return PromptResult(ContextPrompt(Join(contextBlocks, BlockSeparator), question), usedFilesSet);
  }

  /** A block is pushed exactly when a file is recorded, and every
      recorded file is the file of a chosen chunk with a usable snippet. */
  lemma {:induction false} SemanticFilesShape(top: seq<EmbeddingChunk>, root: string, maxChars: nat, readFile: string -> Option<string>)
    ensures |SemanticBlocks(top, root, maxChars, readFile)| == |SemanticFiles(top, root, maxChars, readFile)|
    ensures forall f :: f in SemanticFiles(top, root, maxChars, readFile) <==>
      exists i :: 0 <= i < |top| && top[i].file == f && Usable(ChunkSnippet(top[i], root, maxChars, readFile))
    decreases |top|
  {
    if |top| > 0 {
      var n := |top| - 1;
      SemanticFilesShape(top[..n], root, maxChars, readFile);
      forall i | 0 <= i < n ensures top[..n][i] == top[i] {
      }
    }
  }

  /** The positions of the chosen chunks whose file gives a usable snippet. */
  function UsableChunkAt(top: seq<EmbeddingChunk>, root: string, maxChars: nat, readFile: string -> Option<string>): nat -> bool {
    (i: nat) => i < |top| && Usable(ChunkSnippet(top[i], root, maxChars, readFile))
  }

  /** The files added to the set are exactly the files of the usable chosen
      chunks, in chunk order and with their repetitions. */
  lemma SemanticFilesPositions(top: seq<EmbeddingChunk>, root: string, maxChars: nat, readFile: string -> Option<string>)
    ensures var ps := Positions(|top|, UsableChunkAt(top, root, maxChars, readFile));
      var files := SemanticFiles(top, root, maxChars, readFile);
      && |files| == |ps|
      && forall j :: 0 <= j < |ps| ==> files[j] == top[ps[j]].file
  {
    SemanticFilesPrefixPositions(top, root, maxChars, readFile, |top|);
    assert top[..|top|] == top;
  }

  lemma {:induction false} SemanticFilesPrefixPositions(top: seq<EmbeddingChunk>, root: string, maxChars: nat, readFile: string -> Option<string>, k: nat)
    requires k <= |top|
    ensures var ps := Positions(k, UsableChunkAt(top, root, maxChars, readFile));
      var files := SemanticFiles(top[..k], root, maxChars, readFile);
      && |files| == |ps|
      && forall j :: 0 <= j < |ps| ==> files[j] == top[ps[j]].file
    decreases k
  {
    if k > 0 {
      SemanticFilesPrefixPositions(top, root, maxChars, readFile, k - 1);
      assert top[..k][..k - 1] == top[..k - 1];
      PositionsSnoc(k - 1, UsableChunkAt(top, root, maxChars, readFile));
    }
  }

  /** The outcome of the loop: `usedFiles` lists each file of a usable
      chosen chunk once, nothing else; with no block the prompt is the bare
      question and nothing is used; otherwise the Context template, so the
      question is quoted either way. */
  lemma SemanticContextShape(question: string, root: string, top: seq<EmbeddingChunk>, maxChars: nat, readFile: string -> Option<string>)
    ensures var r := SemanticContext(question, root, top, maxChars, readFile);
      && NoDuplicates(r.usedFiles)
      && (r.usedFiles == [] <==> r.prompt == question)
      && (forall f :: f in r.usedFiles <==>
            exists i :: 0 <= i < |top| && top[i].file == f && Usable(ChunkSnippet(top[i], root, maxChars, readFile)))
      && Contains(r.prompt, question)
      && (r.usedFiles != [] ==> exists contextText :: r.prompt == ContextPrompt(contextText, question))
  {
    var blocks := SemanticBlocks(top, root, maxChars, readFile);
    var files := SemanticFiles(top, root, maxChars, readFile);
    var r := SemanticContext(question, root, top, maxChars, readFile);
    SemanticFilesShape(top, root, maxChars, readFile);
    ContainsSelf(question);
    var contextText := Join(blocks, BlockSeparator);
    TemplatesContainQuestion(contextText, question);
    ContextPromptIsNotQuestion(contextText, question);
    if |blocks| == 0 {
      assert files == [];
      assert r == PromptResult(question, []);
    } else {
      assert r == PromptResult(ContextPrompt(contextText, question), Dedup(files));
      forall f ensures f in Dedup(files) <==> f in files {
        if f in files {
          var i :| 0 <= i < |files| && files[i] == f;
        }
        if f in Dedup(files) {
          var i :| 0 <= i < |Dedup(files)| && Dedup(files)[i] == f;
        }
      }
      assert files[0] in Dedup(files);
    }
  }

  /** The Context template is longer than the question it quotes. */
  lemma ContextPromptIsNotQuestion(contextText: string, question: string)
    ensures ContextPrompt(contextText, question) != question
  {
    assert |ContextPrompt(contextText, question)| > |question|;
  }

  /** The semantic path fails exactly when the question cannot be embedded,
      and only after the empty-list check. Follows from the definition of
      `SemanticPrompt`. */
  lemma SemanticPromptShape(question: string, index: RepoIndex, chunks: seq<EmbeddingChunk>, maxChars: nat, host: Host)
    ensures var r := SemanticPrompt(question, index, chunks, maxChars, host);
      && (|chunks| == 0 ==> r == Ok(PromptResult(question, [])))
      && (|chunks| > 0 ==> (r.Err? <==> host.embed(question).None?))
      && (r.Err? ==> r.error == ProviderFailed)
      && (r.Ok? && |chunks| > 0 ==>
            r.value == SemanticContext(question, index.root, TopChunks(chunks, host.embed(question).value, host.similarity), maxChars, host.readFile))
  {
  }

  // ---------------------------------------------------------------------
  // The lexical path of buildPromptWithContext
  // ---------------------------------------------------------------------

  function FileSnippet(file: SelectedFile, maxChars: nat, readFile: string -> Option<string>): Option<string> {
    ReadFileSnippet(file.absPath, maxChars, readFile)
  }

  function LexicalBlocks(selected: seq<SelectedFile>, maxChars: nat, readFile: string -> Option<string>): seq<string>
    decreases |selected|
  {
    if |selected| == 0 then []
    else
      var rest := LexicalBlocks(selected[..|selected| - 1], maxChars, readFile);
      var file := selected[|selected| - 1];
      var snippet := FileSnippet(file, maxChars, readFile);
      if Usable(snippet) then rest + [LexicalBlock(file.relPath, snippet.value)] else rest
  }

  function LexicalUsed(selected: seq<SelectedFile>, maxChars: nat, readFile: string -> Option<string>): seq<string>
    decreases |selected|
  {
    if |selected| == 0 then []
    else
      var rest := LexicalUsed(selected[..|selected| - 1], maxChars, readFile);
      var file := selected[|selected| - 1];
      if Usable(FileSnippet(file, maxChars, readFile)) then rest + [file.relPath] else rest
  }

  /** The loop over the selected files pushing onto `contextBlocks` and
      `usedFiles`. */
  method BuildLexicalContext(selected: seq<SelectedFile>, maxChars: nat, readFile: string -> Option<string>)
    returns (contextBlocks: seq<string>, usedFiles: seq<string>)
    ensures contextBlocks == LexicalBlocks(selected, maxChars, readFile)
    ensures usedFiles == LexicalUsed(selected, maxChars, readFile)
  {
    contextBlocks := [];
    usedFiles := [];
    for i := 0 to |selected|
      invariant contextBlocks == LexicalBlocks(selected[..i], maxChars, readFile)
      invariant usedFiles == LexicalUsed(selected[..i], maxChars, readFile)
    {
      var file := selected[i];
      assert selected[..i + 1][..i] == selected[..i];
      var snippet := ReadFileSnippet(file.absPath, maxChars, readFile);
      if snippet.None? || snippet.value == "" {
        continue;
      }
      usedFiles := usedFiles + [file.relPath];
      contextBlocks := contextBlocks + [LexicalBlock(file.relPath, snippet.value)];
    }
    assert selected[..|selected|] == selected;
  }

  function RelPaths(selected: seq<SelectedFile>): (ps: seq<string>)
    ensures |ps| == |selected| && forall i :: 0 <= i < |selected| ==> ps[i] == selected[i].relPath
  {
    seq(|selected|, i requires 0 <= i < |selected| => selected[i].relPath)
  }

  /** `usedFiles` is an in-order subsequence of the selected paths. */
  lemma {:induction false} LexicalUsedSubsequence(selected: seq<SelectedFile>, maxChars: nat, readFile: string -> Option<string>)
    ensures IsSubsequence(LexicalUsed(selected, maxChars, readFile), RelPaths(selected))
    decreases |selected|
  {
    if |selected| > 0 {
      var n := |selected| - 1;
      LexicalUsedSubsequence(selected[..n], maxChars, readFile);
      assert RelPaths(selected)[..n] == RelPaths(selected[..n]);
      var used := LexicalUsed(selected, maxChars, readFile);
      if Usable(FileSnippet(selected[n], maxChars, readFile)) {
        assert used[..|used| - 1] == LexicalUsed(selected[..n], maxChars, readFile);
      }
    }
  }

  /** The positions of the selected files whose snippet is usable. */
  function UsableAt(selected: seq<SelectedFile>, maxChars: nat, readFile: string -> Option<string>): nat -> bool {
    (i: nat) => i < |selected| && Usable(FileSnippet(selected[i], maxChars, readFile))
  }

  /** `usedFiles` is exactly the `relPath`s of the selected files with a
      usable snippet, in selection order and with their repetitions. */
  lemma LexicalUsedPositions(selected: seq<SelectedFile>, maxChars: nat, readFile: string -> Option<string>)
    ensures var ps := Positions(|selected|, UsableAt(selected, maxChars, readFile));
      var used := LexicalUsed(selected, maxChars, readFile);
      && |used| == |ps|
      && forall j :: 0 <= j < |ps| ==> used[j] == selected[ps[j]].relPath
  {
    LexicalUsedPrefixPositions(selected, maxChars, readFile, |selected|);
    assert selected[..|selected|] == selected;
  }

  lemma {:induction false} LexicalUsedPrefixPositions(selected: seq<SelectedFile>, maxChars: nat, readFile: string -> Option<string>, k: nat)
    requires k <= |selected|
    ensures var ps := Positions(k, UsableAt(selected, maxChars, readFile));
      var used := LexicalUsed(selected[..k], maxChars, readFile);
      && |used| == |ps|
      && forall j :: 0 <= j < |ps| ==> used[j] == selected[ps[j]].relPath
    decreases k
  {
    if k > 0 {
      LexicalUsedPrefixPositions(selected, maxChars, readFile, k - 1);
      assert selected[..k][..k - 1] == selected[..k - 1];
      PositionsSnoc(k - 1, UsableAt(selected, maxChars, readFile));
    }
  }

  function BlockHeader(relPath: string): string {
    "FILE: " + relPath + "\n-----\n"
  }

  /** One block per used file, in the same order: the i-th block starts
      with the header naming the i-th used file. */
  lemma {:induction false} LexicalBlocksFollowUsed(selected: seq<SelectedFile>, maxChars: nat, readFile: string -> Option<string>)
    ensures var used := LexicalUsed(selected, maxChars, readFile);
      var blocks := LexicalBlocks(selected, maxChars, readFile);
      && |blocks| == |used|
      && forall j :: 0 <= j < |used| ==> BlockHeader(used[j]) <= blocks[j]
    decreases |selected|
  {
    if |selected| > 0 {
      var n := |selected| - 1;
      LexicalBlocksFollowUsed(selected[..n], maxChars, readFile);
      var file := selected[n];
      var snippet := FileSnippet(file, maxChars, readFile);
      if Usable(snippet) {
        assert LexicalBlock(file.relPath, snippet.value) == BlockHeader(file.relPath) + (snippet.value + "\n-----");
      }
    }
  }

  /** A selected file is used exactly when its snippet is usable; nothing
      is used when no selected file gives a usable snippet. */
  lemma {:induction false} LexicalUsedMembers(selected: seq<SelectedFile>, maxChars: nat, readFile: string -> Option<string>)
    ensures var used := LexicalUsed(selected, maxChars, readFile);
      && (forall i :: 0 <= i < |selected| && Usable(FileSnippet(selected[i], maxChars, readFile)) ==> selected[i].relPath in used)
      && (forall f :: f in used ==> exists i :: 0 <= i < |selected| && selected[i].relPath == f && Usable(FileSnippet(selected[i], maxChars, readFile)))
      && (used == [] <==> forall i :: 0 <= i < |selected| ==> !Usable(FileSnippet(selected[i], maxChars, readFile)))
    decreases |selected|
  {
    if |selected| > 0 {
      var n := |selected| - 1;
      var prev := selected[..n];
      LexicalUsedMembers(prev, maxChars, readFile);
      forall i | 0 <= i < n ensures prev[i] == selected[i] {
      }
    }
  }

  // ---------------------------------------------------------------------
  // buildPromptWithContext
  // ---------------------------------------------------------------------

  /** The lexical path of `buildPromptWithContext`: the no-match template
      when nothing is selected, else the Context template over the blocks of
      the usable snippets. */
  function LexicalPrompt(question: string, index: RepoIndex, maxFiles: nat, maxChars: nat, readFile: string -> Option<string>): PromptResult {
    var selected := SelectFilesByPath(index, ExtractKeywords(question), maxFiles);
    if |selected| == 0 then PromptResult(NoMatchPrompt(question), [])
    else PromptResult(ContextPrompt(Join(LexicalBlocks(selected, maxChars, readFile), BlockSeparator), question),
                      LexicalUsed(selected, maxChars, readFile))
  }

  /** The outcome of `buildPromptWithContext`. */
  function PromptWithContext(question: string, options: ContextOptions, cwd: seq<string>, host: Host): Result<PromptResult> {
    var startDir := options.startDir.GetOr(cwd);
    var maxFiles := options.maxFiles.GetOr(DefaultMaxFiles);
    var maxChars := options.maxCharsPerFile.GetOr(DefaultMaxCharsPerFile);
    match IndexAt(startDir, host)
    case None => Ok(PromptResult(NoIndexPrompt(question), []))
    case Some(index) =>
      var embeddingChunks := LoadEmbeddingIndex(index, host);
      if embeddingChunks.Some? && |embeddingChunks.value| > 0 then
        SemanticPrompt(question, index, embeddingChunks.value, maxChars, host)
      else Ok(LexicalPrompt(question, index, maxFiles, maxChars, host.readFile))
  }

  /** `buildPromptWithContext`: pick the no-index, semantic, no-match or
      lexical prompt. */
  method BuildPromptWithContext(question: string, options: ContextOptions, cwd: seq<string>, host: Host)
    returns (r: Result<PromptResult>)
    ensures r == PromptWithContext(question, options, cwd, host)
  {
    var startDir := options.startDir.GetOr(cwd);
    var maxFiles := options.maxFiles.GetOr(DefaultMaxFiles);
    var maxCharsPerFile := options.maxCharsPerFile.GetOr(DefaultMaxCharsPerFile);

    var index := LoadIndex(startDir, host);
    if index.None? {
      return Ok(PromptResult(NoIndexPrompt(question), []));
    }
    var embeddingChunks := LoadEmbeddingIndex(index.value, host);
    if embeddingChunks.Some? && |embeddingChunks.value| > 0 {
      r := BuildPromptFromEmbeddings(question, index.value, embeddingChunks.value, maxCharsPerFile, host);
      return;
    }
    var result := BuildLexicalPrompt(question, index.value, maxFiles, maxCharsPerFile, host.readFile);
    return Ok(result);
  }

  /** The lexical path of `buildPromptWithContext`: keywords, selection,
      the no-match template, or the loop over the selected files. */
  method BuildLexicalPrompt(question: string, index: RepoIndex, maxFiles: nat, maxChars: nat, readFile: string -> Option<string>)
    returns (result: PromptResult)
    ensures result == LexicalPrompt(question, index, maxFiles, maxChars, readFile)
  {
    var keywords := ExtractKeywords(question);
    var selected := SelectFilesByPath(index, keywords, maxFiles);
    if |selected| == 0 {
      return PromptResult(NoMatchPrompt(question), []);
    }
    var contextBlocks, usedFiles := BuildLexicalContext(selected, maxChars, readFile);
    return PromptResult(ContextPrompt(Join(contextBlocks, BlockSeparator), question), usedFiles);
  }

  /** Which prompt is built. Without an index: the no-index template and no
      files. With an index whose chunk list loads and is non-empty: the
      semantic path. Otherwise the lexical path, which cannot fail. Follows
      from the definition of `PromptWithContext`. */
  lemma PromptBranches(question: string, options: ContextOptions, cwd: seq<string>, host: Host)
    ensures var r := PromptWithContext(question, options, cwd, host);
      var found := IndexAt(options.startDir.GetOr(cwd), host);
      && (found.None? ==> r == Ok(PromptResult(NoIndexPrompt(question), [])))
      && (found.Some? && LoadEmbeddingIndex(found.value, host).Some? && |LoadEmbeddingIndex(found.value, host).value| > 0 ==>
            r == SemanticPrompt(question, found.value, LoadEmbeddingIndex(found.value, host).value,
                                options.maxCharsPerFile.GetOr(DefaultMaxCharsPerFile), host))
      && (found.Some? && !(LoadEmbeddingIndex(found.value, host).Some? && |LoadEmbeddingIndex(found.value, host).value| > 0) ==>
            r == Ok(LexicalPrompt(question, found.value, options.maxFiles.GetOr(DefaultMaxFiles),
                                  options.maxCharsPerFile.GetOr(DefaultMaxCharsPerFile), host.readFile)))
  {
  }

  /** The lexical path: an empty selection gives the no-match template and
      no files; otherwise the Context template with one block per used
      file, and when no selected file gives a usable snippet the context is
      empty and nothing is used. */
  lemma LexicalPromptShape(question: string, index: RepoIndex, maxFiles: nat, maxChars: nat, readFile: string -> Option<string>)
    ensures var selected := SelectFilesByPath(index, ExtractKeywords(question), maxFiles);
      var r := LexicalPrompt(question, index, maxFiles, maxChars, readFile);
      && (selected == [] ==> r == PromptResult(NoMatchPrompt(question), []))
      && (selected != [] ==> r.prompt == ContextPrompt(Join(LexicalBlocks(selected, maxChars, readFile), BlockSeparator), question))
      && (selected != [] && (forall i :: 0 <= i < |selected| ==> !Usable(FileSnippet(selected[i], maxChars, readFile))) ==>
            r == PromptResult(ContextPrompt("", question), []))
  {
    var selected := SelectFilesByPath(index, ExtractKeywords(question), maxFiles);
    LexicalUsedMembers(selected, maxChars, readFile);
    LexicalBlocksFollowUsed(selected, maxChars, readFile);
  }

  /** Every prompt built quotes the question, and files are reported as
      used only with the Context template. */
  lemma PromptQuotesQuestion(question: string, options: ContextOptions, cwd: seq<string>, host: Host)
    ensures var r := PromptWithContext(question, options, cwd, host);
      r.Ok? ==> Contains(r.value.prompt, question)
    ensures var r := PromptWithContext(question, options, cwd, host);
      r.Ok? && r.value.usedFiles != [] ==>
        exists contextText :: r.value.prompt == ContextPrompt(contextText, question)
  {
    var r := PromptWithContext(question, options, cwd, host);
    var found := IndexAt(options.startDir.GetOr(cwd), host);
    var maxFiles := options.maxFiles.GetOr(DefaultMaxFiles);
    var maxChars := options.maxCharsPerFile.GetOr(DefaultMaxCharsPerFile);
    PromptBranches(question, options, cwd, host);
    if found.None? {
      TemplatesContainQuestion("", question);
    } else if LoadEmbeddingIndex(found.value, host).Some? && |LoadEmbeddingIndex(found.value, host).value| > 0 {
      SemanticQuotesQuestion(question, found.value, LoadEmbeddingIndex(found.value, host).value, maxChars, host);
    } else {
      LexicalQuotesQuestion(question, found.value, maxFiles, maxChars, host.readFile);
    }
  }

  lemma LexicalQuotesQuestion(question: string, index: RepoIndex, maxFiles: nat, maxChars: nat, readFile: string -> Option<string>)
    ensures var r := LexicalPrompt(question, index, maxFiles, maxChars, readFile);
      && Contains(r.prompt, question)
      && (r.usedFiles != [] ==> exists contextText :: r.prompt == ContextPrompt(contextText, question))
  {
    var selected := SelectFilesByPath(index, ExtractKeywords(question), maxFiles);
    var contextText := Join(LexicalBlocks(selected, maxChars, readFile), BlockSeparator);
    TemplatesContainQuestion(contextText, question);
    if selected != [] {
      assert LexicalPrompt(question, index, maxFiles, maxChars, readFile).prompt == ContextPrompt(contextText, question);
    }
  }

  lemma SemanticQuotesQuestion(question: string, index: RepoIndex, chunks: seq<EmbeddingChunk>, maxChars: nat, host: Host)
    ensures var r := SemanticPrompt(question, index, chunks, maxChars, host);
      && (r.Ok? ==> Contains(r.value.prompt, question))
      && (r.Ok? && r.value.usedFiles != [] ==> exists contextText :: r.value.prompt == ContextPrompt(contextText, question))
  {
    ContainsSelf(question);
    if |chunks| > 0 && host.embed(question).Some? {
      var top := TopChunks(chunks, host.embed(question).value, host.similarity);
      SemanticContextShape(question, index.root, top, maxChars, host.readFile);
    }
  }
}
