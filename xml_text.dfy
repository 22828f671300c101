/** `extract_text` of extractors/xml2text.py: the text of an XML element tree
    flattened into one line. Downloading and parsing the bill are outside the
    model; the tree is given as a value. */
module XmlText {
  import opened Wrappers

  /** An element as the parser exposes it: the text before its first child,
      its children in document order, and its tail (the text after its end
      tag). Absent text or tail is `None`. */
  datatype Node = Node(text: Option<string>, children: seq<Node>, tail: Option<string>)

  /** The characters for which Python's `str.isspace` holds. */
  const Whitespace: set<char> := {
    ' ', '\t', '\n', '\r', '\U{000B}', '\U{000C}',
    '\U{001C}', '\U{001D}', '\U{001E}', '\U{001F}', '\U{0085}', '\U{00A0}', '\U{1680}',
    '\U{2000}', '\U{2001}', '\U{2002}', '\U{2003}', '\U{2004}', '\U{2005}',
    '\U{2006}', '\U{2007}', '\U{2008}', '\U{2009}', '\U{200A}',
    '\U{2028}', '\U{2029}', '\U{202F}', '\U{205F}', '\U{3000}'
  }

  /** Python's `str.isspace` for one character. */
  predicate IsSpace(c: char) {
    c in Whitespace
  }

  /** Every character is whitespace (the empty string included). */
  predicate Blank(s: string) {
    forall i :: 0 <= i < |s| ==> IsSpace(s[i])
  }

  /** Neither starts nor ends with whitespace. */
  predicate Clean(s: string) {
    s == [] || (!IsSpace(s[0]) && !IsSpace(s[|s| - 1]))
  }

  function TrimStart(s: string): (r: string)
    ensures |r| <= |s| && r == s[|s| - |r|..]
    ensures r == [] || !IsSpace(r[0])
  {
    if s != [] && IsSpace(s[0]) then TrimStart(s[1..]) else s
  }

  /** What `TrimStart` removes is whitespace. */
  lemma {:induction false} TrimStartBlank(s: string)
    ensures Blank(s[..|s| - |TrimStart(s)|])
    decreases |s|
  {
    if s != [] && IsSpace(s[0]) {
      TrimStartBlank(s[1..]);
      var n := |s| - |TrimStart(s)|;
      forall k | 0 <= k < n
        ensures IsSpace(s[..n][k])
      {
        if k > 0 {
          assert s[..n][k] == s[1..][..n - 1][k - 1];
        }
      }
    }
  }

  function TrimEnd(s: string): (r: string)
    ensures |r| <= |s| && r == s[..|r|]
    ensures r == [] || !IsSpace(r[|r| - 1])
  {
    if s != [] && IsSpace(s[|s| - 1]) then TrimEnd(s[..|s| - 1]) else s
  }

  /** What `TrimEnd` removes is whitespace. */
  lemma {:induction false} TrimEndBlank(s: string)
    ensures Blank(s[|TrimEnd(s)|..])
    decreases |s|
  {
    if s != [] && IsSpace(s[|s| - 1]) {
      var init := s[..|s| - 1];
      TrimEndBlank(init);
      var n := |TrimEnd(s)|;
      forall k | 0 <= k < |s| - n
        ensures IsSpace(s[n..][k])
      {
        if n + k < |s| - 1 {
          assert s[n..][k] == init[n..][k];
        }
      }
    }
  }

  /** Python's `str.strip()` with no argument: what it keeps is a contiguous
      piece of `s`, starting where `TrimStart` stopped. */
  function Strip(s: string): (r: string)
    ensures var i := |s| - |TrimStart(s)|; i + |r| <= |s| && r == s[i..i + |r|]
  {
    var t := TrimStart(s);
    Middle(s, t, TrimEnd(t));
    TrimEnd(t)
  }

  lemma {:induction false} BlankTrimStart(s: string)
    requires Blank(s)
    ensures TrimStart(s) == []
    decreases |s|
  {
    if s != [] {
      BlankTrimStart(s[1..]);
    }
  }

  /** `strip` gives the empty string exactly for a blank string. */
  lemma StripEmpty(s: string)
    ensures Strip(s) == [] <==> Blank(s)
  {
    var t := TrimStart(s);
    var i := |s| - |t|;
    if Blank(s) {
      BlankTrimStart(s);
    }
    if Strip(s) == [] {
      TrimStartBlank(s);
      TrimEndBlank(t);
      assert Blank(t[0..]);
      assert t == [];
      forall k | 0 <= k < |s|
        ensures IsSpace(s[k])
      {
        assert s[k] == s[..i][k];
      }
    }
  }

  /** `strip` removes only leading and trailing whitespace: what it keeps is a
      contiguous piece of `s` with whitespace alone on either side, and it
      neither starts nor ends with whitespace. */
  lemma StripSpec(s: string)
    ensures var r := Strip(s); var i := |s| - |TrimStart(s)|;
      && i + |r| <= |s| && r == s[i..i + |r|]
      && Blank(s[..i]) && Blank(s[i + |r|..])
      && Clean(r)
  {
    StripSides(s);
    StripClean(s);
  }

  /** What `strip` removes on either side is whitespace. */
  lemma StripSides(s: string)
    ensures var i := |s| - |TrimStart(s)|; Blank(s[..i]) && Blank(s[i + |Strip(s)|..])
  {
    var t := TrimStart(s);
    var r := TrimEnd(t);
    assert Strip(s) == r;
    TrimStartBlank(s);
    TrimEndBlank(t);
    Middle(s, t, r);
  }

  lemma StripClean(s: string)
    ensures Clean(Strip(s))
  {
    var t := TrimStart(s);
    assert Strip(s) == [] || Strip(s)[0] == t[0];
  }

  /** A prefix `r` of a suffix `t` of `s` is the slice of `s` where it sits, and
      what follows it in `t` is what follows it in `s`. */
  lemma Middle(s: string, t: string, r: string)
    requires |t| <= |s| && t == s[|s| - |t|..]
    requires |r| <= |t| && r == t[..|r|]
    ensures var i := |s| - |t|; r == s[i..i + |r|] && s[i + |r|..] == t[|r|..]
  {
  }

  /** Stripping a stripped string changes nothing. */
  lemma StripIdempotent(s: string)
    ensures Strip(Strip(s)) == Strip(s)
  {
    var r := Strip(s);
    StripSpec(s);
    if r != [] {
      assert TrimStart(r) == r;
      assert TrimEnd(r) == r;
    }
  }

  /** `filter(None, parts)`: the non-empty parts, in order. */
  function NonEmpty(parts: seq<string>): (r: seq<string>)
    ensures forall k :: 0 <= k < |r| ==> r[k] != []
  {
    if parts == [] then []
    else if parts[0] == [] then NonEmpty(parts[1..])
    else [parts[0]] + NonEmpty(parts[1..])
  }

  /** `" ".join(parts)`. */
  function Join(parts: seq<string>): string {
    if parts == [] then ""
    else if |parts| == 1 then parts[0]
    else parts[0] + " " + Join(parts[1..])
  }

  /** `" ".join(filter(None, parts))`. */
  function JoinNonEmpty(parts: seq<string>): string {
    Join(NonEmpty(parts))
  }

  /** A part as `extract_text` records it: the stripped text when the text is
      present and not empty (`if x:` in Python), else nothing. */
  function Part(o: Option<string>): seq<string> {
    if o.Some? && o.value != [] then [Strip(o.value)] else []
  }

  /** `extract_text`: the element's own stripped text, then for each child its
      extracted text followed by the child's stripped tail, joined with single
      spaces once the empty parts are dropped. The result is never padded with
      whitespace. */
  function ExtractText(n: Node): (r: string)
    ensures Clean(r)
    decreases n, 1
  {
    var parts := Part(n.text) + ChildParts(n.children);
    PartsClean(n.text);
    JoinClean(parts);
    JoinNonEmpty(parts)
  }

  /** The parts the loop over the children appends. All of them are clean. */
  function ChildParts(cs: seq<Node>): (r: seq<string>)
    ensures forall k :: 0 <= k < |r| ==> Clean(r[k])
    decreases cs, 0
  {
    if cs == [] then []
    else
      PartsClean(cs[0].tail);
      [ExtractText(cs[0])] + (Part(cs[0].tail) + ChildParts(cs[1..]))
  }

  lemma PartsClean(o: Option<string>)
    ensures forall k :: 0 <= k < |Part(o)| ==> Clean(Part(o)[k])
  {
    if o.Some? && o.value != [] {
      StripSpec(o.value);
    }
  }

  /** A part list of three pieces joins piece by piece. */
  lemma JoinThree(xs: seq<string>, a: seq<string>, b: seq<string>)
    ensures JoinNonEmpty(xs + (a + b)) == Glue(JoinNonEmpty(xs), Glue(JoinNonEmpty(a), JoinNonEmpty(b)))
  {
    JoinNonEmptyAppend(xs, a + b);
    JoinNonEmptyAppend(a, b);
  }

  lemma {:induction false} NonEmptyAppend(xs: seq<string>, ys: seq<string>)
    ensures NonEmpty(xs + ys) == NonEmpty(xs) + NonEmpty(ys)
  {
    if xs == [] {
      assert xs + ys == ys;
    } else {
      assert (xs + ys)[0] == xs[0];
      assert (xs + ys)[1..] == xs[1..] + ys;
      NonEmptyAppend(xs[1..], ys);
    }
  }

  /** Every part of `NonEmpty(xs)` is a part of `xs`. */
  lemma {:induction false} NonEmptyFrom(xs: seq<string>)
    ensures forall k :: 0 <= k < |NonEmpty(xs)| ==> NonEmpty(xs)[k] in xs
  {
    if xs != [] {
      NonEmptyFrom(xs[1..]);
    }
  }

  /** The joined text of non-empty parts opens with the first part's first
      character and closes with the last part's last character. */
  lemma {:induction false} JoinEnds(ps: seq<string>)
    requires ps != [] && forall k :: 0 <= k < |ps| ==> ps[k] != []
    ensures |Join(ps)| >= |ps[0]|
    ensures Join(ps)[0] == ps[0][0]
    ensures Join(ps)[|Join(ps)| - 1] == ps[|ps| - 1][|ps[|ps| - 1]| - 1]
  {
    if |ps| == 1 {
      assert Join(ps) == ps[0];
    } else {
      var rest := ps[1..];
      JoinEnds(rest);
      var r, j := Join(rest), Join(ps);
      assert j == ps[0] + " " + r;
      assert rest[|rest| - 1] == ps[|ps| - 1];
      assert j[|j| - 1] == r[|r| - 1];
      assert j[0] == ps[0][0];
    }
  }

  /** Joining clean parts, with the empty ones dropped, gives clean text. */
  lemma JoinClean(parts: seq<string>)
    requires forall k :: 0 <= k < |parts| ==> Clean(parts[k])
    ensures Clean(JoinNonEmpty(parts))
  {
    var ps := NonEmpty(parts);
    NonEmptyFrom(parts);
    if ps != [] {
      JoinEnds(ps);
      assert ps[0] in parts && ps[|ps| - 1] in parts;
    }
  }

  /** Two joined texts put side by side with one space, unless one is empty. */
  function Glue(a: string, b: string): string {
    if a == "" then b else if b == "" then a else a + " " + b
  }

  lemma {:induction false} JoinAppend(xs: seq<string>, ys: seq<string>)
    requires forall k :: 0 <= k < |xs| ==> xs[k] != []
    requires forall k :: 0 <= k < |ys| ==> ys[k] != []
    ensures Join(xs + ys) == Glue(Join(xs), Join(ys))
  {
    if ys != [] {
      JoinEnds(ys);
    }
    if xs == [] {
      assert xs + ys == ys;
    } else if |xs| == 1 {
      if ys == [] {
        assert xs + ys == xs;
      } else {
        assert (xs + ys)[1..] == ys;
      }
    } else {
      var rest := xs[1..];
      assert (xs + ys)[1..] == rest + ys;
      JoinAppend(rest, ys);
      JoinEnds(rest);
      var a, b := Join(rest), Join(ys);
      assert Join(xs + ys) == xs[0] + " " + Glue(a, b);
      assert Join(xs) == xs[0] + " " + a;
      if b != "" {
        assert xs[0] + " " + (a + " " + b) == xs[0] + " " + a + " " + b;
      }
    }
  }

  /** Dropping empty parts and joining commutes with concatenating part lists. */
  lemma JoinNonEmptyAppend(xs: seq<string>, ys: seq<string>)
    ensures JoinNonEmpty(xs + ys) == Glue(JoinNonEmpty(xs), JoinNonEmpty(ys))
  {
    NonEmptyAppend(xs, ys);
    JoinAppend(NonEmpty(xs), NonEmpty(ys));
  }

  /** A joined text taken as a single part joins to itself. */
  lemma JoinSingle(x: string)
    ensures JoinNonEmpty([x]) == x
  {
    assert [x][1..] == [];
    if x != [] {
      assert NonEmpty([x]) == [x];
    }
  }

  /** The texts and tails of a tree in document order, stripped, except the
      root's own tail. */
  function Pieces(n: Node): seq<string>
    decreases n, 1
  {
    Part(n.text) + ChildPieces(n.children)
  }

  function ChildPieces(cs: seq<Node>): seq<string>
    decreases cs, 0
  {
    if cs == [] then [] else Pieces(cs[0]) + (Part(cs[0].tail) + ChildPieces(cs[1..]))
  }

  /** The nested joins of `extract_text` are one flat join: the result is the
      single-space join of the non-empty stripped texts and tails of the tree in
      document order (the element's text, then each child's subtree followed
      by that child's tail). The root's own tail never appears. */
  lemma {:induction false} ExtractTextFlat(n: Node, t: Option<string>)
    ensures ExtractText(n) == JoinNonEmpty(Pieces(n))
    ensures ExtractText(n.(tail := t)) == ExtractText(n)
    decreases n, 1
  {
    JoinNonEmptyAppend(Part(n.text), ChildParts(n.children));
    JoinNonEmptyAppend(Part(n.text), ChildPieces(n.children));
    ChildrenFlat(n.children);
  }

  lemma {:induction false} ChildrenFlat(cs: seq<Node>)
    ensures JoinNonEmpty(ChildParts(cs)) == JoinNonEmpty(ChildPieces(cs))
    decreases cs, 0
  {
    if cs != [] {
      var c := cs[0];
      var a, b, b' := Part(c.tail), ChildParts(cs[1..]), ChildPieces(cs[1..]);
      ExtractTextFlat(c, c.tail);
      ChildrenFlat(cs[1..]);
      JoinThree([ExtractText(c)], a, b);
      JoinThree(Pieces(c), a, b');
      JoinSingle(ExtractText(c));
    }
  }

  /** Absent or whitespace-only text or tail. */
  predicate BlankPart(o: Option<string>) {
    o.None? || Blank(o.value)
  }

  /** No text anywhere in the subtree (the root's tail aside) has a
      non-whitespace character. */
  predicate AllBlank(n: Node)
    decreases n
  {
    BlankPart(n.text)
    && forall k :: 0 <= k < |n.children| ==> AllBlank(n.children[k]) && BlankPart(n.children[k].tail)
  }

  lemma PartEmpty(o: Option<string>)
    ensures JoinNonEmpty(Part(o)) == "" <==> BlankPart(o)
  {
    if o.Some? && o.value != [] {
      StripEmpty(o.value);
      JoinSingle(Strip(o.value));
    } else if o.Some? {
      assert Blank(o.value);
    }
  }

  /** Whitespace contributes nothing: `extract_text` yields the empty string
      exactly for a subtree with no non-whitespace text. */
  lemma {:induction false} ExtractTextEmpty(n: Node)
    ensures ExtractText(n) == "" <==> AllBlank(n)
    decreases n, 1
  {
    PartEmpty(n.text);
    JoinNonEmptyAppend(Part(n.text), ChildParts(n.children));
    ChildrenEmpty(n.children);
  }

  lemma {:induction false} ChildrenEmpty(cs: seq<Node>)
    ensures JoinNonEmpty(ChildParts(cs)) == "" <==>
      forall k :: 0 <= k < |cs| ==> BlankChild(cs[k])
    decreases cs, 0
  {
    if cs != [] {
      var c := cs[0];
      ChildPartsEmpty(cs);
      ExtractTextEmpty(c);
      ChildrenEmpty(cs[1..]);
      PartEmpty(c.tail);
      BlankChildrenSplit(cs);
    }
  }

  /** A child adds nothing exactly when its subtree and its tail are blank. */
  predicate BlankChild(c: Node) {
    AllBlank(c) && BlankPart(c.tail)
  }

  lemma BlankChildrenSplit(cs: seq<Node>)
    requires cs != []
    ensures (forall k :: 0 <= k < |cs| ==> BlankChild(cs[k])) <==>
      BlankChild(cs[0]) && forall k :: 0 <= k < |cs[1..]| ==> BlankChild(cs[1..][k])
  {
    assert forall k :: 1 <= k < |cs| ==> cs[k] == cs[1..][k - 1];
  }

  /** The child loop's parts join to "" exactly when the first child's text,
      its tail and the rest all join to "". */
  lemma ChildPartsEmpty(cs: seq<Node>)
    requires cs != []
    ensures JoinNonEmpty(ChildParts(cs)) == "" <==>
      ExtractText(cs[0]) == "" && JoinNonEmpty(Part(cs[0].tail)) == "" && JoinNonEmpty(ChildParts(cs[1..])) == ""
  {
    var c := cs[0];
    var a, b := Part(c.tail), ChildParts(cs[1..]);
    JoinThree([ExtractText(c)], a, b);
    JoinSingle(ExtractText(c));
    GlueEmpty(JoinNonEmpty(a), JoinNonEmpty(b));
    GlueEmpty(ExtractText(c), Glue(JoinNonEmpty(a), JoinNonEmpty(b)));
  }

  lemma GlueEmpty(x: string, y: string)
    ensures Glue(x, y) == "" <==> x == "" && y == ""
  {
  }

}
