/** The ingestion driver of maestro.py: whether the extracted bill text is
    fresh enough, how it is chunked and stored, and the order of the steps of
    the script's main block. Running the extractor and the analysis scripts and
    reading the file are effects outside the model: their outcomes are inputs. */
module Maestro {
  import opened Wrappers
  import opened Strings
  import opened Chunker
  import opened VectorStore

  const MaxFileAgeDays: int := 30
  const ChunkSize: int := 2000
  const SecondsPerDay: int := 86400

  /** `is_text_file_valid`: `present` is `os.path.exists(file_path)`, and
      `elapsedSeconds` is `now - mtime` in whole seconds, rounded down.
      `timedelta.days` is that amount floor-divided by a day (Dafny's `/`
      agrees with Python's `//` for a positive divisor, also when the file's
      time lies in the future and the difference is negative). The file is
      valid exactly when it exists and is younger than `maxAgeDays` whole
      days, which is the same as younger than `maxAgeDays` days of seconds. */
  predicate IsTextFileValid(present: bool, elapsedSeconds: int, maxAgeDays: int := MaxFileAgeDays): (valid: bool)
    ensures valid <==> present && elapsedSeconds < maxAgeDays * SecondsPerDay
  {
    var q, r := elapsedSeconds / SecondsPerDay, elapsedSeconds % SecondsPerDay;
    assert elapsedSeconds == q * SecondsPerDay + r && 0 <= r < SecondsPerDay;
    assert q < maxAgeDays ==> q * SecondsPerDay <= (maxAgeDays - 1) * SecondsPerDay;
    assert q >= maxAgeDays ==> q * SecondsPerDay >= maxAgeDays * SecondsPerDay;
    present && elapsedSeconds / SecondsPerDay < maxAgeDays
  }

  /** `[f"C-70_E_{i+1}" for i in range(n)]`: the chunk ids of document
      "C-70_E", hence one per chunk and all distinct. */
  function BillChunkIds(n: nat): (ids: seq<string>)
    ensures ids == ChunkIds("C-70_E", n)
  {
    assert "C-70_E_" == "C-70_E" + "_";
    seq(n, i requires 0 <= i < n => "C-70_E_" + NatToString(i + 1))
  }

  /** `add_to_vector_store(file_path, chunk_size)` given the file's text.
      A zero chunk size makes `range` raise, and the error leaves the function;
      a negative one gives no chunks at all; otherwise the chunks of the
      document are stored under the bill's chunk ids. */
  method AddToVectorStore(store: Collection, document: string, chunkSize: int, fails: bool, replace: bool)
      returns (error: Option<RangeError>)
    modifies store
    ensures error.Some? <==> chunkSize == 0
    ensures chunkSize <= 0 || fails ==> store.records == old(store.records)
    ensures chunkSize > 0 && !fails ==>
      var chunks := Chunks(document, chunkSize);
      store.records == Added(old(store.records), ChunkIds("C-70_E", |chunks|), chunks, replace)
  {
    match SliceChunks(document, chunkSize)
    case Failure(e) =>
      error := Some(e);
    case Success(chunks) =>
      var ids := BillChunkIds(|chunks|);
      AddDocuments(store, chunks, Some(ids), fails, replace);
      error := None;
  }

  /** A step the script's main block performs. */
  datatype Step = Extract | Ingest | Analyze

  /** The steps of the main block in order, and whether the script reaches its
      end. `readable` says whether `open(file_path)` succeeds when the text is
      ingested; when it does not, the exception ends the script before the
      analysis runs. */
  datatype MainRun = MainRun(steps: seq<Step>, completed: bool)

  /** Extraction and ingestion happen, extraction first, exactly when the text
      file is missing or at least 30 days old; the analysis runs last, in both
      branches, unless reading the file for ingestion raised. */
  function MainPlan(present: bool, elapsedSeconds: int, readable: bool): (run: MainRun)
    ensures var stale := !(present && elapsedSeconds < MaxFileAgeDays * SecondsPerDay);
      && (Extract in run.steps <==> stale)
      && (Ingest in run.steps <==> stale)
      && (stale ==> run.steps[0] == Extract && run.steps[1] == Ingest)
      && (run.completed <==> !stale || readable)
      && (Analyze in run.steps <==> run.completed)
      && (run.completed ==> run.steps[|run.steps| - 1] == Analyze)
  {
    if !IsTextFileValid(present, elapsedSeconds, MaxFileAgeDays) then
      if readable then MainRun([Extract, Ingest, Analyze], true)
      else MainRun([Extract, Ingest], false)
    else MainRun([Analyze], true)
  }

  /** The main block run against the documents collection: `file` is the
      text read when ingesting (`None` when opening it raises). */
  method RunMaestro(store: Collection, present: bool, elapsedSeconds: int, file: Option<string>, fails: bool, replace: bool)
      returns (run: MainRun)
    modifies store
    ensures run == MainPlan(present, elapsedSeconds, file.Some?)
    ensures !IsTextFileValid(present, elapsedSeconds) && file.Some? && !fails ==>
      var chunks := Chunks(file.value, StoreChunkSize);
      store.records == Added(old(store.records), ChunkIds("C-70_E", |chunks|), chunks, replace)
    ensures IsTextFileValid(present, elapsedSeconds) || file.None? || fails ==> store.records == old(store.records)
  {
    var steps: seq<Step> := [];
    if !IsTextFileValid(present, elapsedSeconds, MaxFileAgeDays) {
      steps := steps + [Extract];
      steps := steps + [Ingest];
      if file.None? {
        return MainRun(steps, false);
      }
      var _ := AddToVectorStore(store, file.value, ChunkSize, fails, replace);
    }
    steps := steps + [Analyze];
    run := MainRun(steps, true);
  }
}
