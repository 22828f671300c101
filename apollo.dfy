/** The analysis driver of quants/apollo.py: polling an assistant run until it
    settles, turning its outcome into text, and assembling one labelled entry
    per 3500-character chunk of the stored bill. The assistant service is an
    input: what each call would return or raise. Sleeping is recorded as the
    list of waits instead of being performed. */
module Apollo {
  import opened Wrappers
  import opened Strings
  import opened Chunker
  import opened VectorStore

  const FailurePrefix: string := "Thread Analysis Failed: "
  const RunFailedMessage: string := "Run failed or was cancelled. Status: "
  const NoResponse: string := "No response found"
  const FirstWait: nat := 10
  const WaitIncrement: nat := 2
  /** The query text used to fetch the bill from the documents collection. */
  const BillQuery: string := "C-70_E"

  /** What the assistant service does for one chunk: whether creating the run
      raised (with its message), the reply to the k-th status poll (k from 0),
      and the reply to the message listing, whose items are the contents of the
      run's messages in ascending order. */
  datatype AssistantRun = AssistantRun(
    createFailure: Option<string>,
    status: nat -> Call<string>,
    messages: Call<seq<string>>)

  /** A poll after which the loop does not sleep again: the status request
      raised, or the run completed, failed or was cancelled. */
  predicate Settles(poll: Call<string>) {
    poll.Raised? || poll.value == "completed" || poll.value == "failed" || poll.value == "cancelled"
  }

  /** The polling loop has no attempt cap: it ends only if some poll settles. */
  ghost predicate PollingEnds(run: AssistantRun) {
    run.createFailure.Some? || exists k: nat :: Settles(run.status(k))
  }

  /** The text returned after a completed run: the first message's content,
      "No response found" when there is none, or the failure text when the
      listing raised. */
  function Response(messages: Call<seq<string>>): (text: string)
    ensures messages.Ok? && messages.value == [] ==> text == NoResponse
    ensures messages.Ok? && messages.value != [] ==> text == messages.value[0]
    ensures messages.Raised? ==> text == FailurePrefix + messages.message
  {
    match messages
    case Raised(m) => FailurePrefix + m
    case Ok(ms) => if ms == [] then NoResponse else ms[0]
  }

  /** `analyze_chunk_in_thread`. `rounds` is the final value of `intLoop`, the
      number of waits; `waits` lists the sleep times in order. The loop leaves
      normally only on "completed"; "failed" or "cancelled" raise, and the
      handler turns every exception into text starting "Thread Analysis Failed: ". */
  method AnalyzeChunkInThread(run: AssistantRun) returns (text: string, rounds: nat, waits: seq<nat>)
    requires PollingEnds(run)
    ensures run.createFailure.Some? ==> text == FailurePrefix + run.createFailure.value && rounds == 0
    ensures |waits| == rounds
    ensures forall j :: 0 <= j < rounds ==> waits[j] == FirstWait + WaitIncrement * j
    ensures run.createFailure.None? ==> Settles(run.status(rounds))
    ensures run.createFailure.None? ==> forall j :: 0 <= j < rounds ==> !Settles(run.status(j))
    ensures run.createFailure.None? && run.status(rounds).Raised? ==>
      text == FailurePrefix + run.status(rounds).message
    ensures run.createFailure.None? && run.status(rounds).Ok? && run.status(rounds).value != "completed" ==>
      text == FailurePrefix + RunFailedMessage + run.status(rounds).value
    ensures run.createFailure.None? && run.status(rounds) == Ok("completed") ==> text == Response(run.messages)
  {
    rounds, waits := 0, [];
    if run.createFailure.Some? {
      text := FailurePrefix + run.createFailure.value;
      return;
    }
    ghost var stop: nat :| Settles(run.status(stop));
    var sleepTime: nat := FirstWait;
    while true
      invariant rounds <= stop
      invariant sleepTime == FirstWait + WaitIncrement * rounds
      invariant |waits| == rounds
      invariant forall j :: 0 <= j < rounds ==> waits[j] == FirstWait + WaitIncrement * j
      invariant forall j :: 0 <= j < rounds ==> !Settles(run.status(j))
      decreases stop - rounds
    {
      match run.status(rounds)
      case Raised(m) =>
        text := FailurePrefix + m;
        return;
      case Ok(status) =>
        if status == "completed" {
          break;
        } else if status == "failed" || status == "cancelled" {
          text := FailurePrefix + RunFailedMessage + status;
          return;
        }
      waits := waits + [sleepTime];
      rounds := rounds + 1;
      sleepTime := sleepTime + WaitIncrement;
    }
    text := Response(run.messages);
  }

  function Sum(s: seq<nat>): nat {
    if s == [] then 0 else Sum(s[..|s| - 1]) + s[|s| - 1]
  }

  /** After k waits of 10, 12, 14, ... seconds the loop has slept k^2 + 9k
      seconds in all: the back-off grows without bound. */
  lemma {:induction false} TotalWait(waits: seq<nat>)
    requires forall j :: 0 <= j < |waits| ==> waits[j] == FirstWait + WaitIncrement * j
    ensures Sum(waits) == |waits| * |waits| + 9 * |waits|
  {
    var k := |waits|;
    if k > 0 {
      TotalWait(waits[..k - 1]);
      assert (k - 1) * (k - 1) == k * k - 2 * k + 1;
    }
  }

  /** The line written for the i-th (1-based) chunk: its heading, then the
      analysis as it is, then a blank line. */
  function ChunkEntry(i: nat, analysis: string): (e: string)
    ensures var h := "### Analysis of Chunk " + NatToString(i) + ":\n";
      |h| <= |e| && e[..|h|] == h && e[|h|..] == analysis + "\n\n"
  {
    var h := "### Analysis of Chunk " + NatToString(i) + ":\n";
    Split3(h, analysis, "\n\n");
    h + analysis + "\n\n"
  }

  /** Entries of different chunks never coincide, whatever their analyses. */
  lemma ChunkEntryNumbered(i: nat, j: nat, a: string, b: string)
    requires ChunkEntry(i, a) == ChunkEntry(j, b)
    ensures i == j
  {
    var p := "### Analysis of Chunk ";
    var ri, rj := ":\n" + a + "\n\n", ":\n" + b + "\n\n";
    assert ChunkEntry(i, a) == p + NatToString(i) + ri;
    assert ChunkEntry(j, b) == p + NatToString(j) + rj;
    NumberReadBack(p, i, ri, j, rj);
  }

  lemma Split3(h: string, a: string, e: string)
    ensures (h + a + e)[..|h|] == h && (h + a + e)[|h|..] == a + e
  {
    assert h + a + e == h + (a + e);
  }

  /** Why the analysis cannot start. */
  datatype AnalysisError = DocumentNotFound

  /** `analyze_chunks_from_vector_store`: fetch the bill (one result), raise
      when nothing comes back, split it into 3500-character chunks and label
      each chunk's analysis, numbering from 1, in chunk order. `replies` are
      the store's answers to the query `BillQuery`; `analyze` gives the text
      `analyze_chunk_in_thread` returns for a chunk; the lines are what would
      be written to the analysis file. A bill of at most 2000 characters, the
      size of a stored record, gets at most one entry. */
  method AnalyzeChunksFromVectorStore(replies: QueryReplies, analyze: string -> string)
      returns (r: Result<seq<string>, AnalysisError>)
    ensures var first := replies(0);
      && (r.Failure? <==> first.Raised? || first.value == [])
      && (r.Success? ==>
            var chunks := Chunks(first.value[0], AnalysisChunkSize);
            && |r.value| == |chunks|
            && (forall i :: 0 <= i < |chunks| ==> r.value[i] == ChunkEntry(i + 1, analyze(chunks[i])))
            && (|first.value[0]| <= StoreChunkSize ==> |r.value| <= 1))
  {
    var first := replies(0);
    ghost var found := if first.Ok? && first.value != [] then [first.value[0]] else [];
    AnalysedDocument(replies);
    assert Run(replies, Some(1), 1) == Stop(found);
    var results := SearchDocuments(Some(1), replies);
    assert results == found;
    if results == [] {
      return Failure(DocumentNotFound);
    }
    var document := results[0];
    var chunks := Chunks(document, AnalysisChunkSize);
    RecordSizedOneChunk(document);
    var output: seq<string> := [];
    for i := 0 to |chunks|
      invariant |output| == i
      invariant forall j :: 0 <= j < i ==> output[j] == ChunkEntry(j + 1, analyze(chunks[j]))
    {
      output := output + [ChunkEntry(i + 1, analyze(chunks[i]))];
    }
    r := Success(output);
  }

  /** The document analysed is the first one of the store's first reply to the
      bill query, whatever later calls would return; the analysis fails
      exactly when that reply is empty or raises; and its chunks put back
      together are that document. */
  lemma AnalysedDocument(replies: QueryReplies)
    ensures var first := replies(0);
      Run(replies, Some(1), 1) == Stop(if first.Ok? && first.value != [] then [first.value[0]] else [])
    ensures forall k :: Run(replies, Some(1), k).Stop? ==> Run(replies, Some(1), k) == Run(replies, Some(1), 1)
    ensures replies(0).Ok? && replies(0).value != [] ==>
      Concat(Chunks(replies(0).value[0], AnalysisChunkSize)) == replies(0).value[0]
  {
    var first := replies(0);
    if first.Ok? && first.value != [] {
      assert [] + first.value == first.value;
      ChunksPartition(first.value[0], AnalysisChunkSize);
    }
    StopsAt(replies, Some(1), 0);
  }

  /** A record stored by `add_chunks_to_vector_store` holds at most 2000
      characters, so splitting it again at 3500 gives the record itself as the
      only chunk: a bill fetched back as one stored record is analysed whole,
      in a single entry. */
  lemma StoredRecordAnalysedWhole(document: string, i: nat)
    requires i < |Chunks(document, StoreChunkSize)|
    ensures var record := Chunks(document, StoreChunkSize)[i];
      Chunks(record, AnalysisChunkSize) == [record]
  {
    RecordSizedOneChunk(Chunks(document, StoreChunkSize)[i]);
  }

  /** A text no longer than a stored record is at most one analysis chunk,
      itself when not empty. */
  lemma RecordSizedOneChunk(s: string)
    ensures |s| <= StoreChunkSize ==> |Chunks(s, AnalysisChunkSize)| <= 1
    ensures 0 < |s| <= StoreChunkSize ==> Chunks(s, AnalysisChunkSize) == [s]
  {
  }
}
