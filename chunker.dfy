/** Fixed-size chunking of a document and the identifiers given to its chunks
    (quants/tsionhehkwen.py, maestro.py and quants/apollo.py all slice a text
    with `[document[i:i+k] for i in range(0, len(document), k)]`). */
module Chunker {
  import opened Wrappers
  import opened Strings

  /** Chunk size used when a bill is stored in the documents collection. */
  const StoreChunkSize: nat := 2000
  /** Chunk size used when a stored bill is sent for analysis. */
  const AnalysisChunkSize: nat := 3500

  function Min(a: int, b: int): int {
    if a <= b then a else b
  }

  /** The consecutive slices of `s` of `size` characters, the last one possibly
      shorter. Together they are a partition of `s`. */
  function Chunks(s: string, size: nat): (r: seq<string>)
    requires size > 0
    ensures r == [] <==> s == []
    ensures forall i :: 0 <= i < |r| ==> 0 < |r[i]| <= size
    ensures forall i :: 0 <= i < |r| - 1 ==> |r[i]| == size
    decreases |s|
  {
    if s == [] then []
    else if |s| <= size then [s]
    else [s[..size]] + Chunks(s[size..], size)
  }

  lemma MulSucc(i: int, d: int)
    ensures (i + 1) * d == i * d + d
  {
  }

  lemma MulAtLeast(k: int, d: int)
    requires k >= 1 && d > 0
    ensures k * d >= d
  {
    MulSucc(k - 1, d);
    assert (k - 1) * d >= 0;
  }

  /** Concatenating the chunks in order gives back the document exactly:
      nothing is dropped, duplicated or reordered. */
  lemma {:induction false} ChunksPartition(s: string, size: nat)
    requires size > 0
    ensures Concat(Chunks(s, size)) == s
    decreases |s|
  {
    if |s| > size {
      var r := Chunks(s, size);
      assert r == [s[..size]] + Chunks(s[size..], size);
      assert r[1..] == Chunks(s[size..], size);
      ChunksPartition(s[size..], size);
      assert s[..size] + s[size..] == s;
    }
  }

  /** Integer division is determined by the quotient-remainder decomposition. */
  lemma DivisionUnique(x: int, d: int, q: int, r: int)
    requires d > 0 && x == q * d + r && 0 <= r < d
    ensures x / d == q
  {
    var q', r' := x / d, x % d;
    assert x == q' * d + r';
    if q > q' {
      assert (q - q') * d == q * d - q' * d;
      MulAtLeast(q - q', d);
    } else if q < q' {
      assert (q' - q) * d == q' * d - q * d;
      MulAtLeast(q' - q, d);
    }
  }

  lemma ModUnique(x: int, d: int, q: int, r: int)
    requires d > 0 && x == q * d + r && 0 <= r < d
    ensures x % d == r
  {
    DivisionUnique(x, d, q, r);
  }

  /** There are ceil(|s| / size) chunks; an empty document has none. */
  lemma {:induction false} ChunkCount(s: string, size: nat)
    requires size > 0
    ensures |Chunks(s, size)| == (|s| + size - 1) / size
    decreases |s|
  {
    if s == [] {
      DivisionUnique(size - 1, size, 0, size - 1);
    } else if |s| <= size {
      DivisionUnique(|s| + size - 1, size, 1, |s| - 1);
    } else {
      var rest := s[size..];
      ChunkCount(rest, size);
      var q := (|rest| + size - 1) / size;
      var r := (|rest| + size - 1) % size;
      assert |rest| + size - 1 == q * size + r;
      assert |s| == |rest| + size;
      MulSucc(q, size);
      DivisionUnique(|s| + size - 1, size, q + 1, r);
    }
  }

  /** `i * size`, the start of the i-th slice, written as repeated addition so
      that the proofs below stay linear. */
  function Offset(i: nat, size: nat): nat
  {
    if i == 0 then 0 else Offset(i - 1, size) + size
  }

  lemma {:induction false} OffsetIsProduct(i: nat, size: nat)
    ensures Offset(i, size) == i * size
  {
    if i > 0 {
      OffsetIsProduct(i - 1, size);
      MulSucc(i - 1, size);
    }
  }

  /** The i-th chunk is the slice `s[i*size : (i+1)*size]` of the comprehension,
      clamped to the end of `s` as Python slicing clamps. */
  lemma ChunkHead(s: string, size: nat)
    requires size > 0 && 0 < |Chunks(s, size)|
    ensures Chunks(s, size)[0] == s[..Min(size, |s|)]
  {
  }

  lemma ChunkTail(s: string, size: nat, i: nat)
    requires size > 0 && 0 < i < |Chunks(s, size)|
    ensures |s| > size && i - 1 < |Chunks(s[size..], size)|
    ensures Chunks(s, size)[i] == Chunks(s[size..], size)[i - 1]
  {
    assert |s| > size;
  }

  lemma {:induction false} ChunkAt(s: string, size: nat, i: nat)
    requires size > 0 && i < |Chunks(s, size)|
    ensures Offset(i, size) < |s|
    ensures Chunks(s, size)[i] == s[Offset(i, size) .. Min(Offset(i + 1, size), |s|)]
    decreases |s|
  {
    if i == 0 {
      ChunkHead(s, size);
    } else {
      ChunkTail(s, size, i);
      var rest := s[size..];
      ChunkAt(rest, size, i - 1);
      var lo, hi := Offset(i - 1, size), Offset(i, size);
      assert Offset(i, size) == lo + size && Offset(i + 1, size) == hi + size;
      assert Min(hi + size, |s|) == Min(hi, |rest|) + size;
      SliceShift(s, size, lo, Min(hi, |rest|));
    }
  }

  /** A slice of `s[d..]` is the slice of `s` shifted by d. */
  lemma SliceShift(s: string, d: nat, lo: nat, hi: nat)
    requires d <= |s| && lo <= hi <= |s| - d
    ensures s[d..][lo..hi] == s[lo + d..hi + d]
  {
  }

  /** Why a Python `range` raised. */
  datatype RangeError = ZeroStep

  /** The comprehension with an arbitrary integer step `k`, as `range(0, len, k)`
      evaluates it: a zero step raises, a negative step gives an empty range. */
  function SliceChunks(s: string, k: int): (r: Result<seq<string>, RangeError>)
    ensures r.Failure? <==> k == 0
    ensures k < 0 ==> r == Success([])
    ensures k > 0 ==> r == Success(Chunks(s, k))
    ensures k > 0 ==> Concat(r.value) == s
    ensures k > 0 ==> forall i :: 0 <= i < |r.value| ==> 0 < |r.value[i]| <= k
  {
    if k == 0 then Failure(ZeroStep)
    else if k < 0 then Success([])
    else ChunksPartition(s, k); Success(Chunks(s, k))
  }

  /** No id occurs twice. */
  predicate Distinct(ids: seq<string>) {
    forall i, j :: 0 <= i < j < |ids| ==> ids[i] != ids[j]
  }

  /** `f"{doc_id}_{i+1}"` for the chunk at 0-based position i: one id per
      chunk, and no two alike. */
  function ChunkIds(docId: string, n: nat): (ids: seq<string>)
    ensures |ids| == n
    ensures Distinct(ids)
  {
    var ids := seq(n, i requires 0 <= i < n => docId + "_" + NatToString(i + 1));
    assert forall i, j :: 0 <= i < j < n ==> ids[i] != ids[j] by {
      forall i, j | 0 <= i < j < n
        ensures ids[i] != ids[j]
      {
        if ids[i] == ids[j] {
          assert ids[i][|docId| + 1..] == NatToString(i + 1);
          assert ids[j][|docId| + 1..] == NatToString(j + 1);
          NatToStringInjective(i + 1, j + 1);
        }
      }
    }
    ids
  }

  /** `[str(i) for i in range(n)]`: the ids used when a caller passes none,
      one per document, and no two alike. */
  function DefaultIds(n: nat): (ids: seq<string>)
    ensures |ids| == n
    ensures Distinct(ids)
  {
    var ids := seq(n, i requires 0 <= i < n => NatToString(i));
    assert forall i, j :: 0 <= i < j < n ==> ids[i] != ids[j] by {
      forall i, j | 0 <= i < j < n
        ensures ids[i] != ids[j]
      {
        if ids[i] == ids[j] {
          NatToStringInjective(i, j);
        }
      }
    }
    ids
  }

  /** The two id conventions of the ingestion code disagree: chunk ids count
      from 1 (the i-th chunk id ends in the default id of position i+1), and no
      chunk id ever equals a default id, because chunk ids contain '_' and
      default ids are all digits. */
  lemma IdConventionsDiffer(docId: string, n: nat, m: nat)
    ensures forall i :: 0 <= i < m ==> ChunkIds(docId, m)[i] == docId + "_" + DefaultIds(m + 1)[i + 1]
    ensures forall i, j :: 0 <= i < n && 0 <= j < m ==> DefaultIds(n)[i] != ChunkIds(docId, m)[j]
  {
    forall i, j | 0 <= i < n && 0 <= j < m
      ensures DefaultIds(n)[i] != ChunkIds(docId, m)[j]
    {
      var c := ChunkIds(docId, m)[j];
      assert c[|docId|] == '_';
      assert !IsDigit(c[|docId|]);
    }
  }
}
