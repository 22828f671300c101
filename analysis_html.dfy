/** quants/gen_dev.py: pulling (score, explanation) pairs out of the saved
    analysis file and rendering one HTML block per pair. The file is taken as
    already loaded (its entries in dictionary order), and decoding the inner
    JSON string is a parameter. */
module AnalysisHtml {
  import opened Wrappers
  import opened Strings

  /** One extracted pair, as `{'score': ..., 'explanation': ...}`. */
  datatype Analysis = Analysis(score: string, explanation: string)

  /** One value of the analysis file, as far as the extraction looks into it:
      - `MissingText`: `value['text']` raises (no such key, or not a mapping);
      - `TextNotList`: `value['text']` is present but not a list;
      - `TextList(inner)`: a list, and `inner` is `value['text'][0]['text']['value']`,
        or None when that lookup raises. */
  datatype Entry =
    | MissingText
    | TextNotList
    | TextList(inner: Option<string>)

  /** What `json.loads` and the key lookups that follow make of an inner string:
      a decode error, or the parsed document, with `borg` holding the Score and
      Explanation of `['Analysis']['Borg_Collective_Analysis']`, None when one
      of those four keys is missing. */
  datatype Decoded =
    | DecodeError
    | Parsed(borg: Option<Analysis>)

  /** What the loop does with one entry. Only a decode error is caught by the
      inner handler; every other exception reaches the outer handler, which
      gives up on the whole file. */
  datatype Verdict = Abort | Skip | Keep(analysis: Analysis)

  function Classify(e: Entry, decode: string -> Decoded): (v: Verdict)
    ensures v.Skip? <==> e.TextNotList? || (e.TextList? && e.inner.Some? && decode(e.inner.value).DecodeError?)
    ensures v.Keep? <==> e.TextList? && e.inner.Some? && decode(e.inner.value).Parsed? && decode(e.inner.value).borg.Some?
    ensures v.Keep? ==> v.analysis == decode(e.inner.value).borg.value
  {
    match e
    case MissingText => Abort
    case TextNotList => Skip
    case TextList(inner) =>
      match inner
      case None => Abort
      case Some(s) =>
        match decode(s)
        case DecodeError => Skip
        case Parsed(borg) => if borg.None? then Abort else Keep(borg.value)
  }

  /** The list `analyses` after the loop has seen `entries`, or None once the
      outer handler has returned. Defined on the last entry, as the loop reads.
      It holds at most one pair per entry. */
  function Extracted(entries: seq<Entry>, decode: string -> Decoded): (r: Option<seq<Analysis>>)
    ensures r.Some? ==> |r.value| <= |entries|
  {
    if entries == [] then Some([])
    else
      var front := Extracted(entries[..|entries| - 1], decode);
      if front.None? then None
      else
        match Classify(entries[|entries| - 1], decode)
        case Abort => None
        case Skip => front
        case Keep(a) => Some(front.value + [a])
  }

  /** Once the outer handler has returned, later entries change nothing. */
  lemma {:induction false} AbortIsFinal(entries: seq<Entry>, more: seq<Entry>, decode: string -> Decoded)
    requires Extracted(entries, decode) == None
    ensures Extracted(entries + more, decode) == None
    decreases |more|
  {
    if more != [] {
      var all := entries + more;
      var shorter := entries + more[..|more| - 1];
      assert all[..|all| - 1] == shorter;
      AbortIsFinal(entries, more[..|more| - 1], decode);
    } else {
      assert entries + more == entries;
    }
  }

  /** The same list read from the first entry: an aborting first entry gives
      None, a skipped one contributes nothing, and a kept one comes first. */
  lemma {:induction false} ExtractedFront(e: Entry, entries: seq<Entry>, decode: string -> Decoded)
    ensures Classify(e, decode).Abort? ==> Extracted([e] + entries, decode) == None
    ensures Classify(e, decode).Skip? ==> Extracted([e] + entries, decode) == Extracted(entries, decode)
    ensures Classify(e, decode).Keep? ==>
      Extracted([e] + entries, decode) ==
        (if Extracted(entries, decode).None? then None
         else Some([Classify(e, decode).analysis] + Extracted(entries, decode).value))
    decreases |entries|
  {
    if entries == [] {
      assert [e] + entries == [e];
      assert ([e] + entries)[..0] == [];
      assert Extracted([], decode) == Some([]);
      assert forall a: Analysis :: [] + [a] == [a] + [];
    } else {
      var all := [e] + entries;
      var init := entries[..|entries| - 1];
      assert all[..|all| - 1] == [e] + init;
      assert all[|all| - 1] == entries[|entries| - 1];
      ExtractedFront(e, init, decode);
      var v, w := Classify(e, decode), Classify(entries[|entries| - 1], decode);
      if v.Keep? && Extracted(init, decode).Some? && w.Keep? {
        var ys := Extracted(init, decode).value;
        assert [v.analysis] + ys + [w.analysis] == [v.analysis] + (ys + [w.analysis]);
      }
    }
  }

  /** The extraction gives up on the whole file exactly when some entry aborts. */
  lemma {:induction false} ExtractedFails(entries: seq<Entry>, decode: string -> Decoded)
    ensures Extracted(entries, decode).None? <==>
      exists i :: 0 <= i < |entries| && Classify(entries[i], decode).Abort?
    decreases |entries|
  {
    if entries != [] {
      var init := entries[..|entries| - 1];
      ExtractedFails(init, decode);
      if Extracted(init, decode).None? {
        var i :| 0 <= i < |init| && Classify(init[i], decode).Abort?;
        assert entries[i] == init[i];
      } else if Classify(entries[|entries| - 1], decode).Abort? {
      } else {
        forall i | 0 <= i < |entries|
          ensures !Classify(entries[i], decode).Abort?
        {
          if i < |init| {
            assert entries[i] == init[i];
          }
        }
      }
    }
  }

  /** The number of entries that contribute a pair. */
  function KeptCount(entries: seq<Entry>, decode: string -> Decoded): (n: nat)
    ensures n <= |entries|
  {
    if entries == [] then 0
    else KeptCount(entries[1..], decode) + (if Classify(entries[0], decode).Keep? then 1 else 0)
  }

  /** When nothing aborts, there is one pair per kept entry, and a kept entry
      at position i is found at the position that counts the kept entries
      before it: the pairs come in the order of the file. */
  lemma {:induction false} ExtractedKeeps(entries: seq<Entry>, decode: string -> Decoded)
    requires Extracted(entries, decode).Some?
    ensures |Extracted(entries, decode).value| == KeptCount(entries, decode)
    ensures forall i :: 0 <= i < |entries| && Classify(entries[i], decode).Keep? ==>
      KeptCount(entries[..i], decode) < |Extracted(entries, decode).value| &&
      Extracted(entries, decode).value[KeptCount(entries[..i], decode)] == Classify(entries[i], decode).analysis
    decreases |entries|
  {
    if entries != [] {
      var e, rest := entries[0], entries[1..];
      assert entries == [e] + rest;
      ExtractedFront(e, rest, decode);
      var v := Classify(e, decode);
      ExtractedKeeps(rest, decode);
      var xs := Extracted(entries, decode).value;
      var ys := Extracted(rest, decode).value;
      forall i | 0 <= i < |entries| && Classify(entries[i], decode).Keep?
        ensures KeptCount(entries[..i], decode) < |xs|
        ensures xs[KeptCount(entries[..i], decode)] == Classify(entries[i], decode).analysis
      {
        if i == 0 {
          assert entries[..0] == [];
        } else {
          assert entries[..i][1..] == rest[..i - 1];
          assert entries[i] == rest[i - 1];
        }
      }
    }
  }

  /** The extraction loop of `generate_analysis_html`: for each entry in turn,
      skip it, append its pair, or give up on the whole file (None). */
  method ExtractAnalyses(entries: seq<Entry>, decode: string -> Decoded) returns (r: Option<seq<Analysis>>)
    ensures r == Extracted(entries, decode)
  {
    var analyses: seq<Analysis> := [];
    var i := 0;
    while i < |entries|
      invariant 0 <= i <= |entries|
      invariant Extracted(entries[..i], decode) == Some(analyses)
    {
      var e := entries[i];
      assert entries[..i + 1][..i] == entries[..i];
      i := i + 1;
      if e.MissingText? {
        AbortIsFinal(entries[..i], entries[i..], decode);
        assert entries[..i] + entries[i..] == entries;
        return None;
      }
      if e.TextNotList? {
        continue;
      }
      if e.inner.None? {
        AbortIsFinal(entries[..i], entries[i..], decode);
        assert entries[..i] + entries[i..] == entries;
        return None;
      }
      var parsed := decode(e.inner.value);
      if parsed.DecodeError? {
        continue;
      }
      if parsed.borg.None? {
        AbortIsFinal(entries[..i], entries[i..], decode);
        assert entries[..i] + entries[i..] == entries;
        return None;
      }
      analyses := analyses + [parsed.borg.value];
    }
    assert entries[..i] == entries;
    return Some(analyses);
  }

  /** The indentation of the block's lines inside the template. */
  const Indent: string := "            "
  const BlockLead: string := "\n" + Indent + "<h2>Chunk "
  const BlockScore: string := "</h2>\n" + Indent + "<p><strong>Score:</strong> "
  const BlockExplanation: string := "</p>\n" + Indent + "<p><strong>Explanation:</strong> "
  const BlockEnd: string := "</p>\n" + "        "

  /** The block for the k-th analysis (k from 1), score and explanation inserted
      as they are. It opens with the heading `Chunk k` and goes on past it. */
  function Block(k: nat, a: Analysis): (b: string)
    ensures var head := BlockLead + NatToString(k); |head| < |b| && b[..|head|] == head
  {
    var head := BlockLead + NatToString(k);
    Layout(head, BlockScore, a.score, BlockExplanation, a.explanation, BlockEnd);
    ScoreMarkupOpens();
    head + BlockScore + a.score + BlockExplanation + a.explanation + BlockEnd
  }

  /** The items of `analyses` rendered with their numbers, counting from `k`,
      laid end to end. */
  function Rendered(analyses: seq<Analysis>, k: nat, render: (nat, Analysis) -> string): string
  {
    if analyses == [] then "" else render(k, analyses[0]) + Rendered(analyses[1..], k + 1, render)
  }

  /** `generate_html_for_analyses`: an empty list, and only an empty list,
      gives the empty string. */
  function GenerateHtmlForAnalyses(analyses: seq<Analysis>): (html: string)
    ensures analyses == [] <==> html == ""
  {
    if analyses == [] then ""
    else assert |Block(1, analyses[0])| > 0; Rendered(analyses, 1, Block)
  }

  lemma {:induction false} RenderedAppend(analyses: seq<Analysis>, a: Analysis, k: nat, render: (nat, Analysis) -> string)
    ensures Rendered(analyses + [a], k, render) == Rendered(analyses, k, render) + render(k + |analyses|, a)
    decreases |analyses|
  {
    if analyses == [] {
      assert analyses + [a] == [a];
    } else {
      var all := analyses + [a];
      assert all[0] == analyses[0] && all[1..] == analyses[1..] + [a];
      RenderedAppend(analyses[1..], a, k + 1, render);
    }
  }

  lemma {:induction false} RenderedJoin(analyses: seq<Analysis>, k: nat, render: (nat, Analysis) -> string)
    ensures Rendered(analyses, k, render) ==
      Concat(seq(|analyses|, i requires 0 <= i < |analyses| => render(k + i, analyses[i])))
    decreases |analyses|
  {
    var parts := seq(|analyses|, i requires 0 <= i < |analyses| => render(k + i, analyses[i]));
    if analyses != [] {
      var rest := seq(|analyses| - 1, i requires 0 <= i < |analyses| - 1 => render(k + 1 + i, analyses[1..][i]));
      assert parts[1..] == rest;
      RenderedJoin(analyses[1..], k + 1, render);
    }
  }

  /** Each analysis adds exactly its own block, numbered after those before it. */
  lemma HtmlAppend(analyses: seq<Analysis>, a: Analysis)
    ensures GenerateHtmlForAnalyses(analyses + [a]) ==
      GenerateHtmlForAnalyses(analyses) + Block(|analyses| + 1, a)
  {
    RenderedAppend(analyses, a, 1, Block);
    assert GenerateHtmlForAnalyses(analyses + [a]) == Rendered(analyses + [a], 1, Block);
    assert GenerateHtmlForAnalyses(analyses) == Rendered(analyses, 1, Block);
  }

  /** The output is the join of one block per analysis, the i-th (from 0)
      numbered i + 1, in list order. */
  lemma HtmlIsJoin(analyses: seq<Analysis>)
    ensures GenerateHtmlForAnalyses(analyses) ==
      Concat(seq(|analyses|, i requires 0 <= i < |analyses| => Block(i + 1, analyses[i])))
  {
    var render: (nat, Analysis) -> string := Block;
    RenderedJoin(analyses, 1, render);
    assert GenerateHtmlForAnalyses(analyses) == Rendered(analyses, 1, render);
    var general := seq(|analyses|, i requires 0 <= i < |analyses| => render(1 + i, analyses[i]));
    var blocks := seq(|analyses|, i requires 0 <= i < |analyses| => Block(i + 1, analyses[i]));
    assert forall i :: 0 <= i < |analyses| ==> general[i] == blocks[i];
    assert general == blocks;
  }

  /** Where the pieces of `head + m1 + x + m2 + y + tail` sit. */
  lemma Layout(head: string, m1: string, x: string, m2: string, y: string, tail: string)
    ensures var w := head + m1 + x + m2 + y + tail;
      w[..|head|] == head &&
      (|m1| > 0 ==> w[|head|] == m1[0]) &&
      w[|head| + |m1|..][..|x|] == x &&
      w[|head| + |m1| + |x| + |m2|..][..|y|] == y
  {
    var w := head + m1 + x + m2 + y + tail;
    assert w == head + (m1 + (x + (m2 + (y + tail))));
    assert w[|head|..] == m1 + (x + (m2 + (y + tail)));
    assert w[|head| + |m1|..] == x + (m2 + (y + tail));
    assert w[|head| + |m1| + |x| + |m2|..] == y + tail;
  }

  lemma ScoreMarkupOpens()
    ensures |BlockScore| > 0 && BlockScore[0] == '<'
  {
  }

  /** After its heading `Chunk k` a block goes on with a non-digit, then
      carries the score and the explanation verbatim at fixed places. */
  lemma BlockLayout(k: nat, a: Analysis)
    ensures var head := BlockLead + NatToString(k); var w := Block(k, a);
      && w[|head|] == '<'
      && w[|head| + |BlockScore|..][..|a.score|] == a.score
      && w[|head| + |BlockScore| + |a.score| + |BlockExplanation|..][..|a.explanation|] == a.explanation
  {
    ScoreMarkupOpens();
    var head := BlockLead + NatToString(k);
    Layout(head, BlockScore, a.score, BlockExplanation, a.explanation, BlockEnd);
    assert Block(k, a) == head + BlockScore + a.score + BlockExplanation + a.explanation + BlockEnd;
  }

  /** The number of a block can be read back, since the numeral is followed by
      a non-digit: distinct numbers give distinct blocks, whatever the analyses
      hold. */
  lemma BlockNumbered(k: nat, j: nat, a: Analysis, b: Analysis)
    requires Block(k, a) == Block(j, b)
    ensures k == j
  {
    ScoreMarkupOpens();
    var rk := BlockScore + a.score + BlockExplanation + a.explanation + BlockEnd;
    var rj := BlockScore + b.score + BlockExplanation + b.explanation + BlockEnd;
    Regroup(BlockLead, NatToString(k), BlockScore, a.score, BlockExplanation, a.explanation, BlockEnd);
    Regroup(BlockLead, NatToString(j), BlockScore, b.score, BlockExplanation, b.explanation, BlockEnd);
    NumberReadBack(BlockLead, k, rk, j, rj);
  }

  /** A block read as its heading, its number, then the rest. */
  lemma Regroup(h: string, n: string, m1: string, x: string, m2: string, y: string, e: string)
    ensures h + n + m1 + x + m2 + y + e == h + n + (m1 + x + m2 + y + e)
    ensures |m1| > 0 ==> (m1 + x + m2 + y + e)[0] == m1[0]
  {
  }

  /** Nothing is escaped: a score holding the markup that separates score from
      explanation renders exactly like a different pair. */
  lemma NotEscaped(k: nat)
    ensures Analysis(BlockExplanation, "") != Analysis("", BlockExplanation)
    ensures Block(k, Analysis(BlockExplanation, "")) == Block(k, Analysis("", BlockExplanation))
  {
  }

  /** `generate_analysis_html` up to the page template: None when the outer
      handler returned, otherwise the blocks inserted into the page. */
  method GenerateAnalysisHtml(entries: seq<Entry>, decode: string -> Decoded) returns (blocks: Option<string>)
    ensures blocks.None? <==> exists i :: 0 <= i < |entries| && Classify(entries[i], decode).Abort?
    ensures blocks.Some? ==>
      Extracted(entries, decode).Some? && blocks.value == GenerateHtmlForAnalyses(Extracted(entries, decode).value)
  {
    ExtractedFails(entries, decode);
    var analyses := ExtractAnalyses(entries, decode);
    if analyses.None? {
      return None;
    }
    return Some(GenerateHtmlForAnalyses(analyses.value));
  }
}
