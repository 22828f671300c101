# Bill analysis pipeline — a Dafny model

This project models the core of a small pipeline that fetches a parliamentary
bill (C-70_E), flattens its XML into text, stores the text in 2000-character
chunks in a vector store, fetches one stored record back (at most 2000
characters) and splits it at 3500 characters, which leaves that record as a
single chunk, asks an assistant service for one analysis per chunk, and renders the extracted scores
and explanations as HTML. The model covers:

- `strings.dfy`, `chunker.dfy`: Python's `str(n)` and `''.join`; the slicing
  comprehension `[doc[i:i+k] for i in range(0, len(doc), k)]` shared by three
  files; and the chunk-id and default-id conventions.
- `vector_store.dfy` (quants/tsionhehkwen.py): a `Collection` class over an
  id → text map. It models `add_documents`, `add_chunks_to_vector_store`,
  `add_analysis_results`, the `while True` paging loop of `search_documents`,
  `get_analysis_results` and `delete_all_analysis_results`. The store's
  replies to the successive query calls of the search loop are a function
  parameter from the pass number to the documents returned or the exception
  raised; `get_analysis_results`' single query is a function (an oracle) of
  the records, the query and `n_results`.
- `maestro.py` in `maestro.dfy`: `is_text_file_valid`, `add_to_vector_store`,
  and the order of the steps of the main block.
- `apollo.dfy` (quants/apollo.py): the polling loop of
  `analyze_chunk_in_thread`, given the assistant's replies as inputs, and the
  labelled per-chunk output of `analyze_chunks_from_vector_store`.
- `xml_text.dfy` (extractors/xml2text.py): the recursive `extract_text` over
  an element tree given as a datatype, with a full model of `str.strip`.
- `analysis_html.dfy` (quants/gen_dev.py): the extraction loop of
  `generate_analysis_html` and `generate_html_for_analyses`.

## Model

| member | source | states |
|---|---|---|
| `Strings.NatToString` | quants/tsionhehkwen.py:75 | `str(n)` is a non-empty run of decimal digits, one digit exactly for n < 10 |
| `Chunker.Chunks` | quants/tsionhehkwen.py:95 | no chunks exactly for an empty document; every chunk has 1..size characters; all but the last have exactly size |
| `Chunker.ChunksPartition` | quants/tsionhehkwen.py:95 | the chunks laid end to end are the document |
| `Chunker.ChunkCount` | quants/tsionhehkwen.py:95-96 | there are ceil(len/size) chunks, so an empty document gives no chunks and no ids |
| `Chunker.ChunkAt` | quants/tsionhehkwen.py:95 | chunk i is the slice from i*size to (i+1)*size, clamped to the end as Python slicing clamps |
| `Chunker.SliceChunks` | maestro.py:90 | `range(0, n, k)`: a zero step raises, a negative step gives no chunks, a positive step partitions the text into slices of at most k characters |
| `Chunker.ChunkIds` | quants/tsionhehkwen.py:96 | one id per chunk, the i-th (from 0) is `doc_id + "_" + str(i+1)`, all distinct |
| `Chunker.DefaultIds` | quants/tsionhehkwen.py:74-75 | default ids are `str(0)..str(n-1)`, one per document, all distinct |
| `Chunker.IdConventionsDiffer` | quants/tsionhehkwen.py:75-96 | chunk ids count from 1 while default ids count from 0, and no chunk id equals a default id |
| `VectorStore.Put` | quants/tsionhehkwen.py:78-82 | storing one record adds its id and leaves every other record as it was; the id holds the new text when it was absent or the store replaces, and otherwise nothing changes |
| `VectorStore.Added` | quants/tsionhehkwen.py:78-82 | storing a batch keeps every id already present |
| `VectorStore.AddedStep` | quants/tsionhehkwen.py:78-82 | a batch is stored one record after another in list order |
| `VectorStore.AddedKeys` | quants/tsionhehkwen.py:78-82 | storing a batch adds exactly its ids to the collection |
| `VectorStore.AddedOthers` | quants/tsionhehkwen.py:78-82 | records outside the batch are unchanged |
| `VectorStore.AddedValues` | quants/tsionhehkwen.py:78-82 | each id of a batch holds its own document when it is new or when the store replaces, else its old text |
| `VectorStore.AddIdempotent` | quants/tsionhehkwen.py:78-82 | storing the same batch twice gives the same records as storing it once |
| `VectorStore.Collection.Add` | quants/tsionhehkwen.py:78-82 | the batch is stored record by record exactly when the store accepts it; otherwise nothing changes |
| `VectorStore.Collection.Delete` | quants/tsionhehkwen.py:186 | the requested ids are removed, except those the backend keeps |
| `VectorStore.Round` | quants/tsionhehkwen.py:112-132 | one pass of the loop: an exception returns no documents; going round again needs a non-empty page, appends it to `results` and stays short of `n_results`; `page` moves only without `n_results`; a stop with `n_results` returns at most that many |
| `VectorStore.StopIsFinal` | quants/tsionhehkwen.py:112-126 | once the loop has exited, later passes change nothing |
| `VectorStore.Running` | quants/tsionhehkwen.py:112-126 | while the loop runs, every reply so far was a non-empty page, `results` holds those pages in order, `page` counts the passes only without `n_results`, and with `n_results` fewer than that many documents are in |
| `VectorStore.PassExit` | quants/tsionhehkwen.py:112-132 | each pass exits on an exception with no documents, on an empty page with the documents accumulated so far, and once `n_results` documents are in with the first `n_results` of them; else it goes round again |
| `VectorStore.StopsAt` | quants/tsionhehkwen.py:112-126 | the pass that exits the loop fixes the result: every earlier state is running and every later one is that exit |
| `VectorStore.LimitedSearchStops` | quants/tsionhehkwen.py:116-124 | with `n_results` given the loop exits by pass max(n_results, 1), whatever the store replies |
| `VectorStore.StopBounded` | quants/tsionhehkwen.py:122-123 | with `n_results >= 0` the loop never returns more than `n_results` documents, whatever the store replies |
| `VectorStore.SearchDocuments` | quants/tsionhehkwen.py:100-132 | the loop returns the documents of the pass at which the iterated loop body exits, for any sequence of per-pass replies |
| `VectorStore.SearchResult` | quants/tsionhehkwen.py:112-132 | with the same reply on every pass the search diverges exactly when no `n_results` is given and the page is non-empty; an exception or an empty page returns no documents |
| `VectorStore.SearchResultIsRun` | quants/tsionhehkwen.py:112-132 | with the same reply on every pass, the loop exits exactly when `SearchResult` returns, and with its documents |
| `VectorStore.LimitedSearchBounded` | quants/tsionhehkwen.py:116-124 | with the same reply on every pass and `n_results` given the loop returns at most `n_results` documents: exactly that many when the page is non-empty, taken from the page in order and repeating it |
| `VectorStore.UnlimitedSearchNeverStops` | quants/tsionhehkwen.py:112-126 | without `n_results` and with the same non-empty page on every pass, after any number k of passes the loop is still running, `page` is k and `results` holds the page k times |
| `VectorStore.Collection.GetAnalysisResults` | quants/tsionhehkwen.py:152-169 | the store's answer, or the empty dict exactly when the query raises |
| `VectorStore.AddDocuments` | quants/tsionhehkwen.py:66-85 | ids default to `"0".."n-1"`; the batch is stored if the store accepts it, and a store exception is swallowed with nothing stored |
| `VectorStore.AddAnalysisResults` | quants/tsionhehkwen.py:135-149 | the same default ids, but a store exception reaches the caller, and then nothing is stored |
| `VectorStore.DefaultBatchAccepted` | quants/tsionhehkwen.py:74-75 | with default ids a batch is refused only when the store itself fails |
| `VectorStore.AddChunksToVectorStore` | quants/tsionhehkwen.py:88-97 | the 2000-character chunks are stored under `doc_id_1`, `doc_id_2`, ...; only a store failure keeps them out |
| `VectorStore.ChunkedDocumentStored` | quants/tsionhehkwen.py:88-97 | after storing, each chunk id holds its chunk (when new or replaced), and storing again changes nothing |
| `VectorStore.DeleteAllAnalysisResults` | quants/tsionhehkwen.py:180-193 | no report exactly when one of the two `get()` calls or the `delete()` raises; unless the first `get()` raised, the records left are those the backend kept; the report is made from the second fetch of the ids |
| `VectorStore.DeletionReportedExactly` | quants/tsionhehkwen.py:185-193 | success exactly when no record survives; a warning names exactly the surviving ids; a backend that removes every id always yields success |
| `Maestro.IsTextFileValid` | maestro.py:65-75 | valid exactly when the file exists and its age in whole days is below `max_age_days`, i.e. its age in seconds is below max_age_days * 86400 |
| `Maestro.BillChunkIds` | maestro.py:91 | the bill's ids are the chunk ids of document `C-70_E` (`"C-70_E_" + str(i+1)`), hence one per chunk and all distinct |
| `Maestro.AddToVectorStore` | maestro.py:78-94 | a zero chunk size raises, a negative one stores nothing, a positive one stores the chunks of the file under the bill's chunk ids |
| `Maestro.MainPlan` | maestro.py:97-105 | extraction then ingestion run exactly when the file is missing or at least 30 days old; the script completes exactly when the file was fresh or reading it succeeded; analysis runs, last, exactly when it completes |
| `Maestro.RunMaestro` | maestro.py:97-105 | the main block performs the planned steps and changes the store exactly as ingestion of the file's chunks does |
| `Apollo.Response` | quants/apollo.py:61-66 | the first message, "No response found" for an empty list, or the failure text when the listing raises |
| `Apollo.AnalyzeChunkInThread` | quants/apollo.py:23-68 | the k-th wait is 10 + 2k seconds and `intLoop` counts the waits; the loop exits normally only on "completed", "failed"/"cancelled" raise, and every exception becomes text starting "Thread Analysis Failed: " |
| `Apollo.TotalWait` | quants/apollo.py:37-51 | after k waits the loop has slept k^2 + 9k seconds in total |
| `Apollo.ChunkEntry` | quants/apollo.py:86 | an entry is the heading `### Analysis of Chunk i:` and a newline, then the analysis verbatim, then a blank line |
| `Apollo.ChunkEntryNumbered` | quants/apollo.py:83-86 | entries of different chunks differ, whatever their analyses |
| `Apollo.AnalyzeChunksFromVectorStore` | quants/apollo.py:71-88 | fails exactly when the store's first reply raises or is empty; otherwise one entry per 3500-character chunk of its first document, in chunk order, numbered from 1; a document of at most 2000 characters gets at most one entry |
| `Apollo.AnalysedDocument` | quants/apollo.py:72-79 | the search with `n_results=1` exits on its first pass with the first document of the first reply (or nothing), whatever later replies would be, and the chunks rebuild that document |
| `Apollo.StoredRecordAnalysedWhole` | quants/apollo.py:78-79 | a record stored in 2000-character chunks, split again at 3500, is its own single chunk |
| `Apollo.RecordSizedOneChunk` | quants/apollo.py:78-79 | a text of at most 2000 characters makes at most one 3500-character chunk, itself when non-empty |
| `XmlText.StripEmpty` | extractors/xml2text.py:24 | `strip()` gives "" exactly for a whitespace-only string |
| `XmlText.Strip` | extractors/xml2text.py:24 | `strip()` returns a contiguous piece of its input, starting where the leading whitespace ends |
| `XmlText.StripSides` | extractors/xml2text.py:24 | what `strip()` drops on either side is whitespace only |
| `XmlText.StripSpec` | extractors/xml2text.py:24 | `strip()` keeps a contiguous piece with only whitespace removed on either side, and the result neither starts nor ends with whitespace |
| `XmlText.StripIdempotent` | extractors/xml2text.py:24 | stripping twice is stripping once |
| `XmlText.ExtractText` | extractors/xml2text.py:21-29 | the result never begins or ends with whitespace |
| `XmlText.ChildParts` | extractors/xml2text.py:25-28 | every part the child loop appends is free of surrounding whitespace |
| `XmlText.ExtractTextFlat` | extractors/xml2text.py:21-29 | the result is the single-space join of the non-empty stripped texts and child tails in document order; the root's own tail never appears |
| `XmlText.ChildrenFlat` | extractors/xml2text.py:25-28 | the child loop's parts join like the flat document-order sequence of the children's texts and tails |
| `XmlText.ExtractTextEmpty` | extractors/xml2text.py:23-29 | the result is "" exactly when no text or child tail in the subtree has a non-whitespace character |
| `XmlText.ChildrenEmpty` | extractors/xml2text.py:25-28 | the child loop's parts join to "" exactly when every child subtree and tail is whitespace only |
| `AnalysisHtml.Classify` | quants/gen_dev.py:16-33 | an entry is skipped exactly when its text is not a list or its inner JSON fails to decode; it contributes exactly when the Score and Explanation lookups succeed |
| `AnalysisHtml.Extracted` | quants/gen_dev.py:10-36 | when the extraction does not give up, it yields at most one pair per entry |
| `AnalysisHtml.AbortIsFinal` | quants/gen_dev.py:34-36 | once the outer handler has returned, later entries change nothing |
| `AnalysisHtml.ExtractedFront` | quants/gen_dev.py:16-33 | a skipped first entry contributes nothing, a kept one comes first, an aborting one ends the function |
| `AnalysisHtml.ExtractedFails` | quants/gen_dev.py:11-36 | the function gives up (returns None) exactly when some entry raises outside the decode handler |
| `AnalysisHtml.ExtractedKeeps` | quants/gen_dev.py:16-33 | one pair per kept entry, each at the position counting the kept entries before it: file order |
| `AnalysisHtml.ExtractAnalyses` | quants/gen_dev.py:10-36 | the loop with `continue` computes the extraction function exactly |
| `AnalysisHtml.GenerateHtmlForAnalyses` | quants/gen_dev.py:63-71 | `generate_html_for_analyses([])` is "" and only then |
| `AnalysisHtml.RenderedAppend` | quants/gen_dev.py:65-70 | each analysis appended to the list adds exactly its own rendered block, numbered after those before it |
| `AnalysisHtml.HtmlAppend` | quants/gen_dev.py:65-71 | appending an analysis appends block len+1 to the output |
| `AnalysisHtml.RenderedJoin` | quants/gen_dev.py:64-71 | the accumulated string is the join of one rendered block per analysis, numbered consecutively from the start number |
| `AnalysisHtml.HtmlIsJoin` | quants/gen_dev.py:64-71 | the output is the join of one block per analysis in list order, the i-th (from 0) numbered i+1 |
| `AnalysisHtml.Block` | quants/gen_dev.py:66-69 | a block starts with a newline, the indentation and `<h2>Chunk ` followed by its number k, and has more after it |
| `AnalysisHtml.BlockLayout` | quants/gen_dev.py:66-69 | a block opens with the heading `Chunk k` and carries score and explanation verbatim at fixed positions |
| `AnalysisHtml.BlockNumbered` | quants/gen_dev.py:67 | blocks with different numbers differ, whatever their analyses |
| `AnalysisHtml.NotEscaped` | quants/gen_dev.py:68-69 | nothing is escaped: two different pairs can render the same block |
| `AnalysisHtml.GenerateAnalysisHtml` | quants/gen_dev.py:9-56 | no page exactly when some entry aborts; otherwise the page holds the blocks of the extracted pairs |

## Left out

- The chromadb client, the embedding function and the persistence directory
  (quants/tsionhehkwen.py:24-63) are a foreign library and disk I/O. A
  collection is an id → text map given at construction. Metadata are not
  modelled.
- The store's own behaviour is a set of parameters: whether an `add` raises
  (`fails`), whether it replaces the text of an existing id (`replace`), which
  ids a `delete` fails to remove (`kept`), which of the calls of
  `delete_all_analysis_results` raises (`failure`), the per-pass replies of
  the search and the query oracle. Similarity ranking is not modelled.
- VectorStore.Collection.Add: a raising `add` is taken to store nothing (the
  batch is atomic); a backend that stores part of a batch before raising is
  not modelled.
- VectorStore.SearchDocuments: the `n_results` the query is sent (10 when
  none is given) is not an argument of the replies; whatever the store does
  with it is folded into the reply each pass receives.
- VectorStore.DeleteAllAnalysisResults: a `delete` that raises is taken to
  have removed the ids outside `kept` before raising; a partial removal in any
  other shape is not modelled.
- chromadb nests the documents of a query per query text. The model treats
  `current_results['documents']` as the flat list of documents returned.
- `get()["ids"]` is a list in the store; the model uses the set of ids. The
  success message and the warning text of `delete_all_analysis_results` are
  reduced to `AllDeleted` and the set of remaining ids.
- `list_all_analysis_results` is a pass-through to chromadb's `peek` and is not modelled.
- VectorStore.SearchDocuments: requires the loop to stop. Without `n_results` and
  with non-empty pages it never does; `UnlimitedSearchNeverStops` states
  that divergence on the loop body instead.
- Logging, `print`, `time.sleep`, `subprocess` launches, dotenv, and file
  reads and writes are effects. The waits are returned as a list, and the
  outcome of reading a file is an input.
- The OpenAI calls are inputs (`AssistantRun`). A message's content is a
  string; the rendering of the SDK's content-block list is not modelled.
- Apollo.AnalyzeChunksFromVectorStore: the per-chunk analysis text is a parameter. The
  `except` around `analyze_chunk_in_thread` (quants/apollo.py:87-88) cannot fire, because that
  function catches every exception itself. The entries are returned rather
  than written to the analysis file.
- Apollo.AnalyzeChunkInThread: requires that some status poll settles. The
  source has no bound on the number of polls.
- `is_text_file_valid` takes the file's existence and its age in whole seconds
  as inputs; clocks and the file system are not modelled.
- HTTP download and lxml parsing in extractors/xml2text.py. Comments and
  processing instructions, which lxml also yields as children, are not
  modelled.
- In quants/gen_dev.py the JSON file is taken as already loaded: its entries
  in dictionary order, decoding of the inner string as a parameter. A file
  that cannot be opened or parsed is not modelled. The inner value is assumed
  to be a string, and Score and Explanation to be strings (Python would
  render other JSON values with `str`). The page template around the blocks
  and the file write are not modelled.
