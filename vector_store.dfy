/** The vector-store layer of quants/tsionhehkwen.py: a collection of id -> text
    records, adding documents (with default ids or chunk ids), the paging loop of
    `search_documents`, `get_analysis_results` and delete-then-verify.
    The store's similarity query is an oracle: a function from the collection's
    records, the query text and the requested result count to what one call of
    `collection.query` gives back. */
module VectorStore {
  import opened Wrappers
  import opened Strings
  import opened Chunker

  /** Default `n_results` of `get_analysis_results`. */
  const DefaultAnalysisResults: int := 5

  /** What one `collection.query` call hands back: the documents of
      `current_results['documents']`, or the exception it raised. */
  type QueryReply = Call<seq<string>>

  /** The similarity query of the store, seen as a function of the collection's
      records, the query text and `n_results`. */
  type QueryOracle = (map<string, string>, string, int) -> QueryReply

  /** The replies to the successive `collection.query` calls of one search, by
      pass (from 0). Every pass sends the same arguments (the offset argument
      is commented out), so the passes differ only in what the store does at
      that moment: the same documents again, other ones, or an exception. */
  type QueryReplies = nat -> QueryReply

  // ---------------------------------------------------------------------------
  // Adding records

  /** Whether the store takes a batch: it raises when it fails on its own
      (`fails`), and a batch must pair each id with one document, ids unrepeated. */
  predicate Accepted(ids: seq<string>, documents: seq<string>, fails: bool) {
    !fails && |ids| == |documents| && Distinct(ids)
  }

  /** Storing one record: the id is present afterwards, every other record is
      untouched, and an existing record is left alone unless the store
      replaces. Whether an id already in the collection has its text replaced
      is the store's policy, left as the parameter `replace`. */
  function Put(m: map<string, string>, id: string, text: string, replace: bool): (r: map<string, string>)
    ensures r.Keys == m.Keys + {id}
    ensures r - {id} == m - {id}
    ensures id !in m || replace ==> r[id] == text
    ensures id in m && !replace ==> r == m
  {
    if replace || id !in m then m[id := text] else m
  }

  /** The records after a batch is stored, record by record in batch order.
      Storing never removes a record. */
  function Added(m: map<string, string>, ids: seq<string>, documents: seq<string>, replace: bool): (r: map<string, string>)
    requires |ids| == |documents|
    ensures m.Keys <= r.Keys
  {
    if ids == [] then m
    else Put(Added(m, ids[..|ids| - 1], documents[..|ids| - 1], replace), ids[|ids| - 1], documents[|ids| - 1], replace)
  }

  /** Storing the first i + 1 records of a batch is storing the first i, then
      record i. */
  lemma AddedStep(m: map<string, string>, ids: seq<string>, documents: seq<string>, replace: bool, i: nat)
    requires |ids| == |documents| && i < |ids|
    ensures Added(m, ids[..i + 1], documents[..i + 1], replace)
      == Put(Added(m, ids[..i], documents[..i], replace), ids[i], documents[i], replace)
  {
    assert ids[..i + 1][..i] == ids[..i] && documents[..i + 1][..i] == documents[..i];
  }

  /** Storing a batch adds exactly its ids to the collection. */
  lemma {:induction false} AddedKeys(m: map<string, string>, ids: seq<string>, documents: seq<string>, replace: bool)
    requires |ids| == |documents|
    ensures forall k :: k in Added(m, ids, documents, replace) <==> k in m || k in ids
  {
    if ids != [] {
      var n := |ids| - 1;
      AddedKeys(m, ids[..n], documents[..n], replace);
      assert ids == ids[..n] + [ids[n]];
    }
  }

  /** Storing a batch leaves every record outside the batch as it was. */
  lemma {:induction false} AddedOthers(m: map<string, string>, ids: seq<string>, documents: seq<string>, replace: bool)
    requires |ids| == |documents|
    ensures forall k :: k in m && k !in ids ==> k in Added(m, ids, documents, replace) && Added(m, ids, documents, replace)[k] == m[k]
  {
    if ids != [] {
      var n := |ids| - 1;
      AddedOthers(m, ids[..n], documents[..n], replace);
      assert ids == ids[..n] + [ids[n]];
    }
  }

  /** In a batch of distinct ids each id ends up with its own document when it
      is new or when the store replaces, and keeps its old text otherwise. */
  lemma {:induction false} AddedValues(m: map<string, string>, ids: seq<string>, documents: seq<string>, replace: bool)
    requires |ids| == |documents| && Distinct(ids)
    ensures forall i :: 0 <= i < |ids| ==> ids[i] in Added(m, ids, documents, replace)
    ensures forall i :: 0 <= i < |ids| && (replace || ids[i] !in m) ==> Added(m, ids, documents, replace)[ids[i]] == documents[i]
    ensures forall i :: 0 <= i < |ids| && !replace && ids[i] in m ==> Added(m, ids, documents, replace)[ids[i]] == m[ids[i]]
  {
    if ids != [] {
      var n := |ids| - 1;
      var ids', docs' := ids[..n], documents[..n];
      var before := Added(m, ids', docs', replace);
      var after := Added(m, ids, documents, replace);
      assert after == Put(before, ids[n], documents[n], replace);
      AddedValues(m, ids', docs', replace);
      AddedKeys(m, ids', docs', replace);
      assert ids[n] !in ids' by {
        forall i | 0 <= i < n ensures ids'[i] != ids[n] {
          assert ids'[i] == ids[i];
        }
      }
      AddedOthers(m, ids', docs', replace);
      forall i | 0 <= i < n
        ensures ids[i] in after
        ensures replace || ids[i] !in m ==> after[ids[i]] == documents[i]
        ensures !replace && ids[i] in m ==> after[ids[i]] == m[ids[i]]
      {
        assert ids[i] == ids'[i] && documents[i] == docs'[i];
        assert ids[i] != ids[n];
      }
    }
  }

  /** Storing the same batch twice leaves the collection as storing it once,
      whichever policy the store follows for existing ids. */
  lemma AddIdempotent(m: map<string, string>, ids: seq<string>, documents: seq<string>, replace: bool)
    requires |ids| == |documents| && Distinct(ids)
    ensures Added(Added(m, ids, documents, replace), ids, documents, replace) == Added(m, ids, documents, replace)
  {
    var once := Added(m, ids, documents, replace);
    var twice := Added(once, ids, documents, replace);
    AddedKeys(m, ids, documents, replace);
    AddedKeys(once, ids, documents, replace);
    AddedValues(m, ids, documents, replace);
    AddedValues(once, ids, documents, replace);
    AddedOthers(once, ids, documents, replace);
    forall k | k in twice
      ensures k in once && twice[k] == once[k]
    {
      if k in ids {
        var i :| 0 <= i < |ids| && ids[i] == k;
      }
    }
  }

  /** A collection of the store: records keyed by id. */
  class Collection {
    const name: string
    var records: map<string, string>

    /** `client.get_or_create_collection(name=...)`: the records already on disk
        under that name, or none. */
    constructor (name: string, existing: map<string, string>)
      ensures this.name == name && records == existing
    {
      this.name := name;
      records := existing;
    }

    /** `collection.get()["ids"]`. */
    function Ids(): set<string>
      reads this
    {
      records.Keys
    }

    /** `collection.add(documents=..., ids=...)`: stores the batch, or raises
        and stores nothing. */
    method Add(ids: seq<string>, documents: seq<string>, fails: bool, replace: bool) returns (ok: bool)
      modifies this
      ensures ok == Accepted(ids, documents, fails)
      ensures records == if ok then Added(old(records), ids, documents, replace) else old(records)
    {
      ok := Accepted(ids, documents, fails);
      if ok {
        var i := 0;
        while i < |ids|
          invariant 0 <= i <= |ids|
          invariant records == Added(old(records), ids[..i], documents[..i], replace)
        {
          AddedStep(old(records), ids, documents, replace, i);
          records := Put(records, ids[i], documents[i], replace);
          i := i + 1;
        }
        assert ids[..|ids|] == ids && documents[..|ids|] == documents;
      }
    }

    /** `collection.delete(ids=...)`: the backend removes the requested ids,
        except those in `kept`, which it failed to remove. */
    method Delete(ids: set<string>, kept: set<string>)
      modifies this
      ensures records == map k | k in old(records) && (k !in ids || k in kept) :: old(records)[k]
    {
      records := map k | k in records && (k !in ids || k in kept) :: records[k];
    }

    /** `get_analysis_results(query, n_results=5)`: the store's answer, or an
        empty dict when the query raises. */
    function GetAnalysisResults(query: string, oracle: QueryOracle, nResults: int := DefaultAnalysisResults): (r: AnalysisResponse)
      reads this
      ensures r == EmptyDict <==> oracle(records, query, nResults).Raised?
      ensures r.Results? ==> r.documents == oracle(records, query, nResults).value
    {
      match oracle(records, query, nResults)
      case Raised(_) => EmptyDict
      case Ok(docs) => Results(docs)
    }
  }

  /** `add_documents`: ids default to "0".."n-1"; an exception from the store
      is logged and swallowed, so the caller cannot tell whether anything was
      stored. */
  method AddDocuments(store: Collection, documents: seq<string>, ids: Option<seq<string>>, fails: bool, replace: bool)
    modifies store
    ensures var batch := if ids.Some? then ids.value else DefaultIds(|documents|);
      store.records == if Accepted(batch, documents, fails) then Added(old(store.records), batch, documents, replace) else old(store.records)
  {
    var batch := if ids.None? then DefaultIds(|documents|) else ids.value;
    var _ := store.Add(batch, documents, fails, replace);
  }

  /** `add_analysis_results`: the same default ids, but an exception from the
      store propagates to the caller (`raised`). */
  method AddAnalysisResults(store: Collection, results: seq<string>, ids: Option<seq<string>>, fails: bool, replace: bool) returns (raised: bool)
    modifies store
    ensures var batch := if ids.Some? then ids.value else DefaultIds(|results|);
      && raised == !Accepted(batch, results, fails)
      && store.records == if raised then old(store.records) else Added(old(store.records), batch, results, replace)
  {
    var batch := if ids.None? then DefaultIds(|results|) else ids.value;
    var ok := store.Add(batch, results, fails, replace);
    raised := !ok;
  }

  /** With no ids given, a batch is accepted unless the store itself fails: the
      default ids are one per document and distinct. */
  lemma DefaultBatchAccepted(documents: seq<string>, fails: bool)
    ensures Accepted(DefaultIds(|documents|), documents, fails) <==> !fails
  {
  }

  /** `add_chunks_to_vector_store`: 2000-character chunks stored under
      `doc_id_1`, `doc_id_2`, ... The chunk ids are distinct, so only a failure
      of the store itself can keep the batch out. */
  method AddChunksToVectorStore(store: Collection, document: string, docId: string, fails: bool, replace: bool)
    modifies store
    ensures var chunks := Chunks(document, StoreChunkSize);
      store.records == if fails then old(store.records) else Added(old(store.records), ChunkIds(docId, |chunks|), chunks, replace)
  {
    var chunks := Chunks(document, StoreChunkSize);
    var ids := ChunkIds(docId, |chunks|);
    AddDocuments(store, chunks, Some(ids), fails, replace);
  }

  /** After a chunked document is stored, each chunk id holds its chunk (when
      new or when the store replaces), and storing it again changes nothing. */
  lemma ChunkedDocumentStored(m: map<string, string>, document: string, docId: string, replace: bool)
    ensures var chunks := Chunks(document, StoreChunkSize);
      var ids := ChunkIds(docId, |chunks|);
      var after := Added(m, ids, chunks, replace);
      && (forall i :: 0 <= i < |chunks| ==> ids[i] in after && (replace || ids[i] !in m ==> after[ids[i]] == chunks[i]))
      && Added(after, ids, chunks, replace) == after
  {
    var chunks := Chunks(document, StoreChunkSize);
    AddedValues(m, ChunkIds(docId, |chunks|), chunks, replace);
    AddIdempotent(m, ChunkIds(docId, |chunks|), chunks, replace);
  }

  // ---------------------------------------------------------------------------
  // search_documents

  /** Python's `s[:n]`, including a negative `n`, which counts from the end. */
  function SliceTo(s: seq<string>, n: int): seq<string> {
    if n >= 0 then s[..Min(n, |s|)]
    else if |s| + n >= 0 then s[..|s| + n]
    else []
  }

  /** What one pass of the loop body leaves: the loop exits with a result, or
      goes round again with new `results` and `page`. */
  datatype RoundResult = Stop(documents: seq<string>) | Next(results: seq<string>, page: nat)

  /** One pass of the loop body of `search_documents` given the reply it gets.
      An exception leaves the loop through the `except` clause with no
      documents. A pass that goes round again has added a non-empty page and
      is still short of `n_results`; `page` counts only when no `n_results` is
      given. A pass that stops never returns more than `n_results`. */
  function Round(results: seq<string>, page: nat, reply: QueryReply, nResults: Option<int>): (r: RoundResult)
    ensures reply.Raised? ==> r == Stop([])
    ensures r.Next? ==> reply.Ok? && reply.value != [] && r.results == results + reply.value
    ensures r.Next? && nResults.Some? ==> |r.results| < nResults.value && r.page == page
    ensures r.Next? && nResults.None? ==> r.page == page + 1
    ensures r.Stop? && nResults.Some? && 0 <= |results| <= nResults.value ==> |r.documents| <= nResults.value
  {
    match reply
    case Raised(_) => Stop([])
    case Ok(docs) =>
      if docs == [] then Stop(results)
      else
        var extended := results + docs;
        if nResults.Some? && |extended| >= nResults.value then Stop(SliceTo(extended, nResults.value))
        else Next(extended, if nResults.None? then page + 1 else page)
  }

  /** The documents of a reply; an exception carries none. */
  function PageOf(reply: QueryReply): seq<string> {
    if reply.Ok? then reply.value else []
  }

  /** The documents of the first k replies, laid end to end. */
  function Pages(replies: QueryReplies, k: nat): seq<string> {
    if k == 0 then [] else Pages(replies, k - 1) + PageOf(replies(k - 1))
  }

  /** The loop state after k passes, starting from `results = []`, `page = 0`;
      pass j receives `replies(j)`. */
  function Run(replies: QueryReplies, nResults: Option<int>, k: nat): RoundResult {
    if k == 0 then Next([], 0)
    else match Run(replies, nResults, k - 1)
      case Stop(r) => Stop(r)
      case Next(r, pg) => Round(r, pg, replies(k - 1), nResults)
  }

  /** Once the loop has stopped, later passes change nothing. */
  lemma {:induction false} StopIsFinal(replies: QueryReplies, nResults: Option<int>, j: nat, k: nat)
    ensures j <= k && Run(replies, nResults, j).Stop? ==> Run(replies, nResults, k) == Run(replies, nResults, j)
    decreases k
  {
    if j < k {
      StopIsFinal(replies, nResults, j, k - 1);
    }
  }

  /** While the loop runs, every reply so far brought a non-empty page,
      `results` holds those pages in order, `page` counts the passes when no
      `n_results` is given (and stays 0 otherwise), and with `n_results`
      given fewer than that many documents have come in. */
  lemma {:induction false} Running(replies: QueryReplies, nResults: Option<int>, k: nat)
    requires Run(replies, nResults, k).Next?
    ensures Run(replies, nResults, k) == Next(Pages(replies, k), if nResults.None? then k else 0)
    ensures forall j :: 0 <= j < k ==> replies(j).Ok? && replies(j).value != []
    ensures |Pages(replies, k)| >= k
    ensures k > 0 && nResults.Some? ==> |Pages(replies, k)| < nResults.value
  {
    if k > 0 {
      Running(replies, nResults, k - 1);
    }
  }

  /** What pass k does while the loop is still running. An exception throws
      away everything gathered so far and returns no documents. An empty page
      returns the documents gathered so far. Otherwise the page is added, and
      once `n_results` documents are in, the loop stops with the first
      `n_results` of them. */
  lemma PassExit(replies: QueryReplies, nResults: Option<int>, k: nat)
    requires Run(replies, nResults, k).Next?
    ensures replies(k).Raised? ==> Run(replies, nResults, k + 1) == Stop([])
    ensures replies(k) == Ok([]) ==> Run(replies, nResults, k + 1) == Stop(Pages(replies, k))
    ensures replies(k).Ok? && replies(k).value != [] ==>
      var all := Pages(replies, k + 1);
      Run(replies, nResults, k + 1) ==
        if nResults.Some? && |all| >= nResults.value then Stop(SliceTo(all, nResults.value))
        else Next(all, if nResults.None? then k + 1 else 0)
  {
    Running(replies, nResults, k);
  }

  /** When pass j is the one that stops the loop, every earlier state is
      still running and every later one is that stop. */
  lemma StopsAt(replies: QueryReplies, nResults: Option<int>, j: nat)
    requires Run(replies, nResults, j).Next? && Run(replies, nResults, j + 1).Stop?
    ensures forall k: nat :: k <= j ==> Run(replies, nResults, k).Next?
    ensures forall k :: k > j ==> Run(replies, nResults, k) == Run(replies, nResults, j + 1)
  {
    forall k: nat | k <= j
      ensures Run(replies, nResults, k).Next?
    {
      StopIsFinal(replies, nResults, k, j);
    }
    forall k | k > j
      ensures Run(replies, nResults, k) == Run(replies, nResults, j + 1)
    {
      StopIsFinal(replies, nResults, j + 1, k);
    }
  }

  /** With `n_results` given the loop always stops, at the latest on pass
      `max(n_results, 1)`, whatever the store replies: every pass that goes
      round again has added at least one document. */
  lemma LimitedSearchStops(replies: QueryReplies, n: int)
    ensures Run(replies, Some(n), if n > 1 then n else 1).Stop?
  {
    var k: nat := if n > 1 then n else 1;
    if Run(replies, Some(n), k).Next? {
      Running(replies, Some(n), k);
    }
  }

  /** With `n_results = n >= 0` the documents returned never number more than n,
      whichever replies the passes receive. */
  lemma {:induction false} StopBounded(replies: QueryReplies, n: nat, k: nat)
    ensures Run(replies, Some(n), k).Stop? ==> |Run(replies, Some(n), k).documents| <= n
  {
    if k > 0 && Run(replies, Some(n), k).Stop? {
      if Run(replies, Some(n), k - 1).Stop? {
        StopBounded(replies, n, k - 1);
      } else {
        Running(replies, Some(n), k - 1);
      }
    }
  }

  /** `search_documents(query, n_results)`, where `replies` are the store's
      answers to the successive query calls. It requires that the loop stops,
      which it can fail to do only without `n_results` (see
      `UnlimitedSearchNeverStops`); the documents are those of the pass that
      stops it. */
  method SearchDocuments(nResults: Option<int>, replies: QueryReplies) returns (documents: seq<string>)
    requires exists k :: Run(replies, nResults, k).Stop?
    ensures forall k :: Run(replies, nResults, k).Stop? ==> Run(replies, nResults, k) == Stop(documents)
  {
    ghost var bound: nat :| Run(replies, nResults, bound).Stop?;
    var results: seq<string> := [];
    var page: nat := 0;
    var pass: nat := 0;
    while true
      invariant Run(replies, nResults, pass) == Next(results, page)
      invariant pass < bound
      decreases bound - pass
    {
      var current := replies(pass);
      if current.Raised? {
        StopsAt(replies, nResults, pass);
        return [];
      }
      if current.value == [] {
        StopsAt(replies, nResults, pass);
        return results;
      }
      results := results + current.value;
      if nResults.Some? && |results| >= nResults.value {
        StopsAt(replies, nResults, pass);
        return SliceTo(results, nResults.value);
      }
      if nResults.None? {
        page := page + 1;
      }
      pass := pass + 1;
      StopIsFinal(replies, nResults, bound, pass);
    }
  }

  /** The same reply on every pass: what the store gives when nothing changes
      between two identical calls. */
  function Always(reply: QueryReply): QueryReplies {
    _ => reply
  }

  /** `p` repeated k times. */
  function Repeat(p: seq<string>, k: nat): seq<string> {
    if k == 0 then [] else Repeat(p, k - 1) + p
  }

  /** The first n items of the endless repetition of a non-empty page. */
  function Cycle(p: seq<string>, n: nat): seq<string>
    requires p != []
    decreases n
  {
    if n <= |p| then p[..n] else p + Cycle(p, n - |p|)
  }

  lemma {:induction false} RepeatLength(p: seq<string>, k: nat)
    ensures p == [] ==> Repeat(p, k) == []
  {
    if k > 0 {
      RepeatLength(p, k - 1);
    }
  }

  lemma {:induction false} RepeatFront(p: seq<string>, k: nat)
    ensures Repeat(p, k + 1) == p + Repeat(p, k)
  {
    if k > 0 {
      RepeatFront(p, k - 1);
    }
  }

  lemma {:induction false} RepeatPrefixIsCycle(p: seq<string>, k: nat, n: nat)
    requires p != [] && n <= |Repeat(p, k)|
    ensures Repeat(p, k)[..n] == Cycle(p, n)
    decreases k
  {
    if n > |p| {
      RepeatFront(p, k - 1);
      RepeatPrefixIsCycle(p, k - 1, n - |p|);
      assert (p + Repeat(p, k - 1))[..n] == p + Repeat(p, k - 1)[..n - |p|];
    } else if k > 0 {
      RepeatFront(p, k - 1);
      assert (p + Repeat(p, k - 1))[..n] == p[..n];
    }
  }

  /** The i-th item of the cycle is the page item at i mod the page length:
      with `n_results` beyond the page, the page's documents come back repeated. */
  lemma {:induction false} CycleAt(p: seq<string>, n: nat, i: nat)
    requires p != [] && i < n
    ensures |Cycle(p, n)| == n && Cycle(p, n)[i] == p[i % |p|]
    decreases n
  {
    if n > |p| {
      CycleAt(p, n - |p|, if i >= |p| then i - |p| else 0);
      if i >= |p| {
        var q, r := (i - |p|) / |p|, (i - |p|) % |p|;
        assert i == (q + 1) * |p| + r;
        ModUnique(i, |p|, q + 1, r);
      } else {
        ModUnique(i, |p|, 0, i);
      }
    } else {
      ModUnique(i, |p|, 0, i);
    }
  }

  /** What `search_documents` gives back, once its loop stops, or `Diverges`. */
  datatype SearchOutcome = Returned(documents: seq<string>) | Diverges

  /** `search_documents` in closed form when every pass receives the same
      reply: it diverges exactly when no `n_results` is given and the page is
      not empty, and an exception or an empty page gives no documents. */
  function SearchResult(reply: QueryReply, nResults: Option<int>): (o: SearchOutcome)
    ensures o.Diverges? <==> nResults.None? && reply.Ok? && reply.value != []
    ensures reply.Raised? || reply.value == [] ==> o == Returned([])
  {
    match reply
    case Raised(_) => Returned([])
    case Ok(p) =>
      if p == [] then Returned([])
      else if nResults.None? then Diverges
      else if nResults.value >= 0 then Returned(Cycle(p, nResults.value))
      else Returned(SliceTo(p, nResults.value))
  }

  /** With `n_results` given, the loop always stops; it never returns more
      than `n_results` documents, exactly that many when the page is not empty,
      each taken from the page in page order, repeating the page when it is
      shorter than `n_results`. */
  lemma LimitedSearchBounded(reply: QueryReply, n: nat)
    ensures SearchResult(reply, Some(n)).Returned?
    ensures |SearchResult(reply, Some(n)).documents| <= n
    ensures reply.Ok? && reply.value != [] ==>
      var docs := SearchResult(reply, Some(n)).documents;
      |docs| == n && forall i :: 0 <= i < n ==> docs[i] == reply.value[i % |reply.value|]
  {
    if reply.Ok? && reply.value != [] {
      forall i | 0 <= i < n
        ensures |Cycle(reply.value, n)| == n && Cycle(reply.value, n)[i] == reply.value[i % |reply.value|]
      {
        CycleAt(reply.value, n, i);
      }
      if n == 0 {
        assert Cycle(reply.value, 0) == [];
      } else {
        CycleAt(reply.value, n, 0);
      }
    }
  }

  /** Without `n_results` and with a non-empty page on every pass the loop
      never stops: after any number k of passes it is still running, `page`
      has counted k passes (never being used in the query) and `results`
      holds the page k times. */
  lemma {:induction false} UnlimitedSearchNeverStops(reply: QueryReply, k: nat)
    requires reply.Ok? && reply.value != []
    ensures Run(Always(reply), None, k) == Next(Repeat(reply.value, k), k)
  {
    if k > 0 {
      UnlimitedSearchNeverStops(reply, k - 1);
    }
  }

  lemma {:induction false} AlwaysPages(reply: QueryReply, k: nat)
    ensures Pages(Always(reply), k) == Repeat(PageOf(reply), k)
  {
    if k > 0 {
      AlwaysPages(reply, k - 1);
    }
  }

  /** The closed form is the loop: with the same reply on every pass, the loop
      stops exactly when `SearchResult` says it returns, and then with the
      documents `SearchResult` names. */
  lemma {:induction false} SearchResultIsRun(reply: QueryReply, nResults: Option<int>, k: nat)
    ensures Run(Always(reply), nResults, k).Stop? ==>
      SearchResult(reply, nResults) == Returned(Run(Always(reply), nResults, k).documents)
    ensures SearchResult(reply, nResults).Returned? ==> Run(Always(reply), nResults, Stopping(nResults)).Stop?
  {
    var replies := Always(reply);
    if SearchResult(reply, nResults).Returned? {
      if nResults.Some? {
        LimitedSearchStops(replies, nResults.value);
      }
    }
    if k > 0 && Run(replies, nResults, k).Stop? {
      if Run(replies, nResults, k - 1).Stop? {
        SearchResultIsRun(reply, nResults, k - 1);
      } else {
        Running(replies, nResults, k - 1);
        AlwaysPages(reply, k - 1);
        AlwaysPages(reply, k);
        var p := PageOf(reply);
        if reply.Ok? && p != [] && nResults.Some? && nResults.value >= 0 {
          RepeatPrefixIsCycle(p, k, nResults.value);
        } else if p == [] {
          RepeatLength(p, k - 1);
        }
      }
    }
  }

  /** A pass by which a search that stops has stopped. */
  function Stopping(nResults: Option<int>): nat {
    if nResults.Some? && nResults.value > 1 then nResults.value else 1
  }

  // ---------------------------------------------------------------------------
  // get_analysis_results

  /** The answer of `get_analysis_results`: the store's documents, or `{}`. */
  datatype AnalysisResponse = Results(documents: seq<string>) | EmptyDict

  // ---------------------------------------------------------------------------
  // delete_all_analysis_results

  /** The outcome of delete-then-verify: success, or a warning naming the ids
      still present. */
  datatype DeleteReport = AllDeleted | SomeRemain(remaining: set<string>)

  /** The report for the ids a second `get()` finds. */
  function Report(remaining: set<string>): DeleteReport {
    if remaining == {} then AllDeleted else SomeRemain(remaining)
  }

  /** The records left when every id is asked to be deleted and the backend
      keeps those in `kept`. */
  function Survivors(records: map<string, string>, kept: set<string>): map<string, string> {
    map k | k in records && k in kept :: records[k]
  }

  /** Where `delete_all_analysis_results` is interrupted. It has no handler,
      so an exception from either `get()` or from `delete()` reaches the
      caller and no report is made. */
  datatype DeleteFailure = NoFailure | FirstGetRaises | DeleteRaises | SecondGetRaises

  /** `delete_all_analysis_results`: fetch every id, delete them, fetch again
      and report. A `delete` that raises has removed what it removed before
      raising: the ids outside `kept`. */
  method DeleteAllAnalysisResults(store: Collection, kept: set<string>, failure: DeleteFailure)
      returns (report: Option<DeleteReport>)
    modifies store
    ensures report.None? <==> failure != NoFailure
    ensures store.records == if failure == FirstGetRaises then old(store.records) else Survivors(old(store.records), kept)
    ensures report.Some? ==> report.value == Report(store.Ids())
  {
    if failure == FirstGetRaises {
      return None;
    }
    var idsToDelete := store.Ids();
    store.Delete(idsToDelete, kept);
    if failure == DeleteRaises {
      return None;
    }
    if failure == SecondGetRaises {
      return None;
    }
    var remaining := store.Ids();
    report := Some(Report(remaining));
  }

  /** The report is success exactly when no record survives; a warning names
      exactly the surviving ids (those the backend kept), each still holding
      its text. Against a backend that removes every requested id, the report
      is always success. */
  lemma DeletionReportedExactly(records: map<string, string>, kept: set<string>)
    ensures Report(Survivors(records, kept).Keys) == AllDeleted <==> records.Keys * kept == {}
    ensures Report(Survivors(records, kept).Keys).SomeRemain? ==>
      Report(Survivors(records, kept).Keys).remaining == records.Keys * kept
    ensures forall k :: k in Survivors(records, kept) ==> Survivors(records, kept)[k] == records[k]
    ensures kept == {} ==> Report(Survivors(records, kept).Keys) == AllDeleted
  {
    assert Survivors(records, kept).Keys == records.Keys * kept;
  }
}
