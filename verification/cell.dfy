/** `parse_cell`: one chart cell becomes one display string, and the listRef
    codes it holds are added to the chart-wide counter. */
module ChartCell {
  import opened Wrappers
  import opened Text
  import opened Counter

  /** One child element of a cell's `main` element: its tag and its text,
      `None` when the element has no text. */
  datatype Node = Node(tag: string, text: Option<string>)

  /** A chart cell: the children of its first `main` element, when it has one;
      the texts of the `gloss` children of its first `glosses` element, when it
      has one; and its `cols` attribute, 1 when the attribute is absent. */
  datatype Cell = Cell(main: Option<seq<Node>>, glosses: Option<seq<Option<string>>>, cols: int)

  const WordTag: string := "word"
  const LitTag: string := "lit"
  const ListRefTag: string := "listRef"
  const RowNumTag: string := "rownum"
  const MoveMkrTag: string := "moveMkr"
  const NoteTag: string := "note"

  /** `elem.text or ''`. */
  function TextOr(text: Option<string>): string
  {
    if text.Some? then text.value else ""
  }

  /** Python truthiness of an element text: present and not empty. */
  predicate Truthy(text: Option<string>)
  {
    TextOr(text) != ""
  }

  /** The stripped text the interpreter looks at for every `main` child. */
  function Token(n: Node): string
  {
    Strip(TextOr(n.text))
  }

  /** `main.find(tag)`: the first child carrying the tag. */
  function First(nodes: seq<Node>, tag: string): (r: Option<Node>)
    ensures r.None? <==> forall i :: 0 <= i < |nodes| ==> nodes[i].tag != tag
    ensures r.Some? ==> r.value.tag == tag && r.value in nodes
  {
    if nodes == [] then None
    else if nodes[0].tag == tag then Some(nodes[0])
    else
      assert forall i :: 1 <= i < |nodes| ==> nodes[i] == nodes[1..][i - 1];
      First(nodes[1..], tag)
  }

  /** The children carrying the tag, in document order. */
  function ByTag(nodes: seq<Node>, tag: string): seq<Node>
  {
    if nodes == [] then []
    else (if nodes[0].tag == tag then [nodes[0]] else []) + ByTag(nodes[1..], tag)
  }

  /** One branch of the collection loop: the stripped texts of the children
      carrying `tag` that `keep` accepts, in document order. */
  function Pick(nodes: seq<Node>, tag: string, keep: string -> bool): (r: seq<string>)
    ensures forall i :: 0 <= i < |r| ==> keep(r[i])
    ensures |r| <= |nodes|
  {
    if nodes == [] then []
    else
      var head := if nodes[0].tag == tag && keep(Token(nodes[0])) then [Token(nodes[0])] else [];
      var rest := Pick(nodes[1..], tag, keep);
      assert forall i :: |head| <= i < |head + rest| ==> (head + rest)[i] == rest[i - |head|];
      head + rest
  }

  /** A `word` child counts when its stripped text is not empty. */
  predicate KeepWord(t: string)
  {
    t != ""
  }

  /** A `lit` child counts when its stripped text is neither empty nor a bare
      parenthesis. */
  predicate KeepLit(t: string)
  {
    t != "" && t != "(" && t != ")"
  }

  /** A `listRef` child counts when its stripped code is not empty. */
  predicate KeepCode(t: string)
  {
    t != ""
  }

  function Words(nodes: seq<Node>): seq<string>
  {
    Pick(nodes, WordTag, KeepWord)
  }

  function Literals(nodes: seq<Node>): seq<string>
  {
    Pick(nodes, LitTag, KeepLit)
  }

  function Codes(nodes: seq<Node>): seq<string>
  {
    Pick(nodes, ListRefTag, KeepCode)
  }

  /** `gloss_texts`: empty when the cell has no `glosses` element. */
  function GlossTexts(cell: Cell): seq<Option<string>>
  {
    if cell.glosses.Some? then cell.glosses.value else []
  }

  /** `[g for g in gloss_texts if g]`. */
  function PresentGlosses(gs: seq<Option<string>>): (r: seq<string>)
    ensures forall i :: 0 <= i < |r| ==> r[i] != ""
    ensures |r| <= |gs|
    ensures (forall i :: 0 <= i < |gs| ==> !Truthy(gs[i])) ==> r == []
  {
    if gs == [] then []
    else
      assert forall i :: 1 <= i < |gs| ==> gs[i] == gs[1..][i - 1];
      (if Truthy(gs[0]) then [TextOr(gs[0])] else []) + PresentGlosses(gs[1..])
  }

  /** The one parenthesised group of the glosses that are present. */
  function GlossGroup(gs: seq<Option<string>>): string
  {
    "(" + Join(PresentGlosses(gs)) + ")"
  }

  /** The 1:1 pairing loop over `zip(words, gloss_texts)`. */
  function PairWords(ws: seq<string>, gs: seq<Option<string>>): seq<string>
    requires |ws| == |gs|
  {
    if ws == [] then []
    else
      (if ws[0] != "" && Truthy(gs[0]) then [ws[0] + " (" + TextOr(gs[0]) + ")"]
       else if ws[0] != "" then [ws[0]]
       else [])
      + PairWords(ws[1..], gs[1..])
  }

  /** The segments that carry word and gloss material, before any literal. */
  function PairingSegments(ws: seq<string>, gs: seq<Option<string>>): seq<string>
  {
    if |ws| > 0 && |gs| > 0 then
      if |gs| == |ws| then
        var paired := PairWords(ws, gs);
        if paired != [] then [Join(paired)] else []
      else [Join(ws), GlossGroup(gs)]
    else if |ws| > 0 then [Join(ws)]
    else if |gs| > 0 then [GlossGroup(gs)]
    else []
  }

  /** Each code rendered as `(code)`. */
  function Parenthesize(codes: seq<string>): seq<string>
  {
    seq(|codes|, i requires 0 <= i < |codes| => "(" + codes[i] + ")")
  }

  /** `content_segments`: pairing output, then literals, then codes. */
  function Segments(nodes: seq<Node>, gs: seq<Option<string>>): seq<string>
  {
    PairingSegments(Words(nodes), gs) + Literals(nodes) + Parenthesize(Codes(nodes))
  }

  /** `seg for seg in content_segments if seg`. */
  function NonEmpty(segs: seq<string>): seq<string>
  {
    if segs == [] then []
    else (if segs[0] != "" then [segs[0]] else []) + NonEmpty(segs[1..])
  }

  /** A cell whose `main` has no row-number, move-marker or note child. */
  predicate IsContent(nodes: seq<Node>)
  {
    First(nodes, RowNumTag).None? && First(nodes, MoveMkrTag).None? && First(nodes, NoteTag).None?
  }

  /** The raw text of the first `lit` child, or the empty string. */
  function Fallback(nodes: seq<Node>): string
  {
    var lit := First(nodes, LitTag);
    if lit.Some? && TextOr(lit.value.text) != "" then TextOr(lit.value.text) else ""
  }

  /** The display string `parse_cell` returns. */
  function CellText(cell: Cell): (r: string)
    ensures cell.main.None? ==> r == ""
    ensures cell.main.Some? && IsContent(cell.main.value) && Segments(cell.main.value, GlossTexts(cell)) != [] ==>
      && NoSpaceBeforeClose(r) && NoSpaceAfterOpen(r) && Cleanup(r) == r
      && NonSpace(r) == NonSpace(Join(Segments(cell.main.value, GlossTexts(cell))))
    ensures cell.main.Some? && IsContent(cell.main.value) && Segments(cell.main.value, GlossTexts(cell)) != [] ==>
      var joined := Join(Segments(cell.main.value, GlossTexts(cell)));
      NoSpaceBeforeClose(joined) && NoSpaceAfterOpen(joined) ==> r == joined
  {
    match cell.main
    case None => ""
    case Some(nodes) =>
      var rownum := First(nodes, RowNumTag);
      var moveMkr := First(nodes, MoveMkrTag);
      var note := First(nodes, NoteTag);
      if rownum.Some? then TextOr(rownum.value.text)
      else if moveMkr.Some? then TextOr(moveMkr.value.text)
      else if note.Some? then TextOr(note.value.text)
      else
        var segs := Segments(nodes, GlossTexts(cell));
        if segs == [] then Fallback(nodes)
        else
          SegmentsNonEmpty(nodes, GlossTexts(cell));
          CleanupIdempotent(Join(NonEmpty(segs)));
          Cleanup(Join(NonEmpty(segs)))
  }

  /** The codes a cell adds to the counter: none unless it is a content cell. */
  function CellCodes(cell: Cell): seq<string>
  {
    match cell.main
    case None => []
    case Some(nodes) => if IsContent(nodes) then Codes(nodes) else []
  }

  /** The number of children carrying `tag` whose stripped text is `k`. */
  function TagCount(nodes: seq<Node>, tag: string, k: string): nat
  {
    if nodes == [] then 0
    else (if nodes[0].tag == tag && Token(nodes[0]) == k then 1 else 0) + TagCount(nodes[1..], tag, k)
  }

  /** `parse_cell(cell, counter)`: the display string and the updated counter. */
  function ParseCell(cell: Cell, counter: map<string, nat>): (r: (string, map<string, nat>))
    ensures r.0 == CellText(cell)
    ensures forall k :: Count(r.1, k) == Count(counter, k) + multiset(CellCodes(cell))[k]
    ensures Count(r.1, "") == Count(counter, "")
    ensures cell.main.None? || !IsContent(cell.main.value) ==> r.1 == counter
    ensures cell.main.Some? && IsContent(cell.main.value) ==>
      forall k :: k != "" ==> Count(r.1, k) == Count(counter, k) + TagCount(cell.main.value, ListRefTag, k)
  {
    if cell.main.Some? then
      forall k | true
        ensures multiset(Codes(cell.main.value))[k] == if k == "" then 0 else TagCount(cell.main.value, ListRefTag, k)
      {
        CodesCountRefs(cell.main.value, k);
      }
      (CellText(cell), Tally(counter, CellCodes(cell)))
    else
      (CellText(cell), Tally(counter, CellCodes(cell)))
  }

  // ---------------------------------------------------------------------------
  // Lemmas

  lemma SegmentsNonEmpty(nodes: seq<Node>, gs: seq<Option<string>>)
    ensures NonEmpty(Segments(nodes, gs)) == Segments(nodes, gs)
  {
    var segs := Segments(nodes, gs);
    var ws := Words(nodes);
    if |ws| > 0 {
      JoinStartsWithFirst(ws);
    }
    if |ws| > 0 && |gs| == |ws| {
      PairWordsNonEmpty(ws, gs);
      var paired := PairWords(ws, gs);
      if paired != [] {
        JoinStartsWithFirst(paired);
      }
    }
    forall i | 0 <= i < |segs|
      ensures segs[i] != ""
    {
    }
    NonEmptyKeepsFull(segs);
  }

  lemma {:induction false} NonEmptyKeepsFull(segs: seq<string>)
    requires forall i :: 0 <= i < |segs| ==> segs[i] != ""
    ensures NonEmpty(segs) == segs
  {
    if segs != [] {
      NonEmptyKeepsFull(segs[1..]);
    }
  }

  lemma JoinStartsWithFirst(parts: seq<string>)
    requires |parts| > 0
    ensures |Join(parts)| >= |parts[0]| && Join(parts)[..|parts[0]|] == parts[0]
  {
  }

  lemma {:induction false} PairWordsNonEmpty(ws: seq<string>, gs: seq<Option<string>>)
    requires |ws| == |gs|
    requires forall i :: 0 <= i < |ws| ==> ws[i] != ""
    ensures forall i :: 0 <= i < |PairWords(ws, gs)| ==> PairWords(ws, gs)[i] != ""
  {
    if ws != [] {
      PairWordsNonEmpty(ws[1..], gs[1..]);
    }
  }

  /** Codes are counted per listRef child: the multiset of collected codes has
      each non-empty code as often as a listRef child carries it, and never
      holds the empty code. */
  lemma {:induction false} CodesCountRefs(nodes: seq<Node>, k: string)
    ensures multiset(Codes(nodes))[k] == if k == "" then 0 else TagCount(nodes, ListRefTag, k)
  {
    PickCounts(nodes, ListRefTag, KeepCode, k);
  }

  /** Every branch of the collection loop keeps each accepted token once per
      child of its tag that carries it, and nothing else: together with
      `PickAppend` and `PickOne` this fixes the words, the literals and the
      codes of a child list. */
  lemma {:induction false} PickCounts(nodes: seq<Node>, tag: string, keep: string -> bool, t: string)
    ensures multiset(Pick(nodes, tag, keep))[t] == if keep(t) then TagCount(nodes, tag, t) else 0
  {
    if nodes != [] {
      PickCounts(nodes[1..], tag, keep, t);
    }
  }

  /** One child contributes its stripped text exactly when it carries the tag
      and the filter accepts that text. */
  lemma PickOne(n: Node, tag: string, keep: string -> bool)
    ensures Pick([n], tag, keep) == if n.tag == tag && keep(Token(n)) then [Token(n)] else []
  {
    assert [n][1..] == [];
  }

  /** The number of glosses whose text is `g`. */
  function GlossCount(gs: seq<Option<string>>, g: string): nat
  {
    if gs == [] then 0 else (if gs[0] == Some(g) then 1 else 0) + GlossCount(gs[1..], g)
  }

  /** The grouped glosses hold each non-empty gloss text once per gloss that
      carries it, and nothing else. */
  lemma {:induction false} PresentGlossesCounts(gs: seq<Option<string>>, g: string)
    ensures multiset(PresentGlosses(gs))[g] == if g == "" then 0 else GlossCount(gs, g)
  {
    if gs != [] {
      PresentGlossesCounts(gs[1..], g);
    }
  }

  /** The gloss filter keeps document order: the present glosses of two
      gloss lists in a row are those of the first, then those of the second. */
  lemma {:induction false} PresentGlossesAppend(a: seq<Option<string>>, b: seq<Option<string>>)
    ensures PresentGlosses(a + b) == PresentGlosses(a) + PresentGlosses(b)
  {
    if a == [] {
      assert a + b == b;
    } else {
      assert (a + b)[0] == a[0];
      assert (a + b)[1..] == a[1..] + b;
      var head := if Truthy(a[0]) then [TextOr(a[0])] else [];
      PresentGlossesAppend(a[1..], b);
      calc {
        PresentGlosses(a + b);
        head + PresentGlosses(a[1..] + b);
        head + (PresentGlosses(a[1..]) + PresentGlosses(b));
        (head + PresentGlosses(a[1..])) + PresentGlosses(b);
      }
    }
  }

  /** One gloss is kept, as its text, exactly when it is present and not
      empty. */
  lemma PresentGlossesOne(g: Option<string>)
    ensures PresentGlosses([g]) == if Truthy(g) then [TextOr(g)] else []
  {
    assert [g][1..] == [];
  }

  /** Tokens from earlier children come first: each branch collects in
      encounter order. */
  lemma {:induction false} PickAppend(a: seq<Node>, b: seq<Node>, tag: string, keep: string -> bool)
    ensures Pick(a + b, tag, keep) == Pick(a, tag, keep) + Pick(b, tag, keep)
  {
    if a == [] {
      assert a + b == b;
    } else {
      assert (a + b)[0] == a[0];
      assert (a + b)[1..] == a[1..] + b;
      PickAppend(a[1..], b, tag, keep);
    }
  }

  lemma {:induction false} ByTagAppend(a: seq<Node>, b: seq<Node>, tag: string)
    ensures ByTag(a + b, tag) == ByTag(a, tag) + ByTag(b, tag)
  {
    if a == [] {
      assert a + b == b;
    } else {
      assert (a + b)[0] == a[0];
      assert (a + b)[1..] == a[1..] + b;
      var head := if a[0].tag == tag then [a[0]] else [];
      ByTagAppend(a[1..], b, tag);
      calc {
        ByTag(a + b, tag);
        head + ByTag(a[1..] + b, tag);
        head + (ByTag(a[1..], tag) + ByTag(b, tag));
        (head + ByTag(a[1..], tag)) + ByTag(b, tag);
      }
    }
  }

  lemma {:induction false} FirstAppend(a: seq<Node>, b: seq<Node>, tag: string)
    ensures First(a + b, tag) == if First(a, tag).Some? then First(a, tag) else First(b, tag)
  {
    if a == [] {
      assert a + b == b;
    } else {
      assert (a + b)[0] == a[0];
      assert (a + b)[1..] == a[1..] + b;
      FirstAppend(a[1..], b, tag);
    }
  }

  /** A branch of the collection loop sees only the children with its tag. */
  lemma {:induction false} PickByTag(nodes: seq<Node>, tag: string, keep: string -> bool)
    ensures Pick(nodes, tag, keep) == Pick(ByTag(nodes, tag), tag, keep)
  {
    if nodes != [] {
      PickByTag(nodes[1..], tag, keep);
      var rest := ByTag(nodes[1..], tag);
      if nodes[0].tag == tag {
        assert ByTag(nodes, tag) == [nodes[0]] + rest;
        assert ([nodes[0]] + rest)[1..] == rest;
      } else {
        assert ByTag(nodes, tag) == rest;
      }
    }
  }

  /** `find(tag)` sees only the children with the tag. */
  lemma {:induction false} FirstByTag(nodes: seq<Node>, tag: string)
    ensures First(nodes, tag) == if ByTag(nodes, tag) == [] then None else Some(ByTag(nodes, tag)[0])
  {
    if nodes != [] {
      FirstByTag(nodes[1..], tag);
    }
  }

  /** Two child lists that look alike to the interpreter: the same first
      row-number, move-marker and note children, and the same words, literals
      and codes. */
  predicate SamePieces(a: seq<Node>, b: seq<Node>)
  {
    && First(a, RowNumTag) == First(b, RowNumTag)
    && First(a, MoveMkrTag) == First(b, MoveMkrTag)
    && First(a, NoteTag) == First(b, NoteTag)
    && Words(a) == Words(b) && Literals(a) == Literals(b) && Codes(a) == Codes(b)
  }

  lemma SamePiecesSameCodes(a: seq<Node>, b: seq<Node>, glosses: Option<seq<Option<string>>>, cols: int)
    requires SamePieces(a, b)
    ensures CellCodes(Cell(Some(a), glosses, cols)) == CellCodes(Cell(Some(b), glosses, cols))
  {
  }

  lemma SamePiecesSameText(a: seq<Node>, b: seq<Node>, glosses: Option<seq<Option<string>>>, cols: int)
    requires SamePieces(a, b)
    requires First(a, LitTag) == First(b, LitTag) || Segments(a, GlossTexts(Cell(None, glosses, cols))) != []
    ensures CellText(Cell(Some(a), glosses, cols)) == CellText(Cell(Some(b), glosses, cols))
  {
    var gs := GlossTexts(Cell(None, glosses, cols));
    assert Segments(a, gs) == Segments(b, gs);
  }

  lemma SamePiecesSameCell(a: seq<Node>, b: seq<Node>, glosses: Option<seq<Option<string>>>, cols: int,
                           counter: map<string, nat>)
    requires SamePieces(a, b) && First(a, LitTag) == First(b, LitTag)
    ensures ParseCell(Cell(Some(a), glosses, cols), counter) == ParseCell(Cell(Some(b), glosses, cols), counter)
  {
    SamePiecesSameCodes(a, b, glosses, cols);
    SamePiecesSameText(a, b, glosses, cols);
  }

  lemma SameTagSameBranch(a: seq<Node>, b: seq<Node>, t: string, keep: string -> bool)
    requires ByTag(a, t) == ByTag(b, t)
    ensures Pick(a, t, keep) == Pick(b, t, keep) && First(a, t) == First(b, t)
  {
    PickByTag(a, t, keep);
    PickByTag(b, t, keep);
    FirstByTag(a, t);
    FirstByTag(b, t);
  }

  /** Two `main` child lists that agree tag by tag (the same children of each
      tag, in the same order) give the same text and the same counter, however
      children of different tags are interleaved: gloss material comes before
      literals and literals before codes whatever the source order. */
  lemma CrossTagOrderIrrelevant(a: seq<Node>, b: seq<Node>, glosses: Option<seq<Option<string>>>, cols: int,
                                counter: map<string, nat>)
    requires forall t :: ByTag(a, t) == ByTag(b, t)
    ensures ParseCell(Cell(Some(a), glosses, cols), counter) == ParseCell(Cell(Some(b), glosses, cols), counter)
  {
    SameTagSameBranch(a, b, WordTag, KeepWord);
    SameTagSameBranch(a, b, LitTag, KeepLit);
    SameTagSameBranch(a, b, ListRefTag, KeepCode);
    SameTagSameBranch(a, b, RowNumTag, KeepWord);
    SameTagSameBranch(a, b, MoveMkrTag, KeepWord);
    SameTagSameBranch(a, b, NoteTag, KeepWord);
    SamePiecesSameCell(a, b, glosses, cols, counter);
  }

  /** The child list with the children at `i` and `i + 1` exchanged. */
  function Swap(nodes: seq<Node>, i: nat): seq<Node>
    requires i + 1 < |nodes|
  {
    nodes[..i] + [nodes[i + 1], nodes[i]] + nodes[i + 2..]
  }

  lemma ByTagPairSwap(x: Node, y: Node, t: string)
    requires x.tag != y.tag
    ensures ByTag([x, y], t) == ByTag([y, x], t)
  {
    assert [x, y][1..] == [y];
    assert [y, x][1..] == [x];
  }

  lemma SwapKeepsTagOrder(nodes: seq<Node>, i: nat)
    requires i + 1 < |nodes| && nodes[i].tag != nodes[i + 1].tag
    ensures forall t :: ByTag(Swap(nodes, i), t) == ByTag(nodes, t)
  {
    var pre, x, y, post := nodes[..i], nodes[i], nodes[i + 1], nodes[i + 2..];
    assert nodes == pre + [x, y] + post;
    assert Swap(nodes, i) == pre + [y, x] + post;
    forall t
      ensures ByTag(Swap(nodes, i), t) == ByTag(nodes, t)
    {
      ByTagAppend(pre + [x, y], post, t);
      ByTagAppend(pre, [x, y], t);
      ByTagAppend(pre + [y, x], post, t);
      ByTagAppend(pre, [y, x], t);
      ByTagPairSwap(x, y, t);
    }
  }

  /** Exchanging two neighbouring children with different tags changes
      neither the text nor the counter. */
  lemma SwapDistinctTagsKeepsCell(nodes: seq<Node>, i: nat, glosses: Option<seq<Option<string>>>, cols: int,
                                  counter: map<string, nat>)
    requires i + 1 < |nodes| && nodes[i].tag != nodes[i + 1].tag
    ensures ParseCell(Cell(Some(Swap(nodes, i)), glosses, cols), counter) == ParseCell(Cell(Some(nodes), glosses, cols), counter)
  {
    SwapKeepsTagOrder(nodes, i);
    CrossTagOrderIrrelevant(Swap(nodes, i), nodes, glosses, cols, counter);
  }

  /** A word paired with its gloss: `w (g)`, or the bare word when the gloss
      is empty or missing. */
  function Paired(w: string, g: Option<string>): string
  {
    if Truthy(g) then w + " (" + TextOr(g) + ")" else w
  }

  lemma {:induction false} PairWordsPairs(ws: seq<string>, gs: seq<Option<string>>)
    requires |ws| == |gs|
    requires forall i :: 0 <= i < |ws| ==> ws[i] != ""
    ensures PairWords(ws, gs) == seq(|ws|, i requires 0 <= i < |ws| => Paired(ws[i], gs[i]))
  {
    if ws != [] {
      PairWordsPairs(ws[1..], gs[1..]);
      var whole := seq(|ws|, i requires 0 <= i < |ws| => Paired(ws[i], gs[i]));
      var tail := seq(|ws| - 1, i requires 0 <= i < |ws| - 1 => Paired(ws[1..][i], gs[1..][i]));
      assert whole == [Paired(ws[0], gs[0])] + tail;
    }
  }

  /** Equal, non-zero word and gloss counts: the pairing segment is the words
      in source order, each followed by ` (gloss)` unless its gloss is empty
      or missing; literals and codes follow it. */
  lemma EqualCountsPairEachWord(nodes: seq<Node>, gs: seq<Option<string>>)
    requires |Words(nodes)| == |gs| > 0
    ensures var ws := Words(nodes);
      Segments(nodes, gs)
        == [Join(seq(|ws|, i requires 0 <= i < |ws| => Paired(ws[i], gs[i])))] + Literals(nodes) + Parenthesize(Codes(nodes))
  {
    PairWordsPairs(Words(nodes), gs);
  }

  /** Unequal non-zero word and gloss counts: the joined words, then one
      group of the glosses that are present, `()` when none is. */
  lemma UnequalCountsGroupGlosses(nodes: seq<Node>, gs: seq<Option<string>>)
    requires |Words(nodes)| > 0 && |gs| > 0 && |Words(nodes)| != |gs|
    ensures Segments(nodes, gs) == [Join(Words(nodes)), GlossGroup(gs)] + Literals(nodes) + Parenthesize(Codes(nodes))
    ensures GlossGroup(gs) == "(" + Join(PresentGlosses(gs)) + ")"
    ensures (forall i :: 0 <= i < |gs| ==> !Truthy(gs[i])) ==> GlossGroup(gs) == "()"
  {
    assert PairingSegments(Words(nodes), gs) == [Join(Words(nodes)), GlossGroup(gs)];
  }

  /** Glosses without words give just the gloss group; words without glosses
      give just the joined words. */
  lemma OneSidedPairing(nodes: seq<Node>, gs: seq<Option<string>>)
    ensures Words(nodes) == [] && |gs| > 0 ==>
      Segments(nodes, gs) == [GlossGroup(gs)] + Literals(nodes) + Parenthesize(Codes(nodes))
    ensures |Words(nodes)| > 0 && gs == [] ==>
      Segments(nodes, gs) == [Join(Words(nodes))] + Literals(nodes) + Parenthesize(Codes(nodes))
  {
  }

  /** A child that the collection loop skips: a whitespace-only word, literal
      or code, a bare-parenthesis literal, or an element of another tag. */
  predicate Ignorable(n: Node)
  {
    || (n.tag == WordTag && !KeepWord(Token(n)))
    || (n.tag == LitTag && !KeepLit(Token(n)))
    || (n.tag == ListRefTag && !KeepCode(Token(n)))
    || (n.tag != WordTag && n.tag != LitTag && n.tag != ListRefTag
        && n.tag != RowNumTag && n.tag != MoveMkrTag && n.tag != NoteTag)
  }

  lemma {:induction false} FirstSkips(a: seq<Node>, n: Node, b: seq<Node>, t: string)
    requires n.tag != t
    ensures First(a + [n] + b, t) == First(a + b, t)
  {
    FirstAppend(a + [n], b, t);
    FirstAppend(a, [n], t);
    FirstAppend(a, b, t);
  }

  lemma PickSkips(a: seq<Node>, n: Node, b: seq<Node>, tag: string, keep: string -> bool)
    requires n.tag != tag || !keep(Token(n))
    ensures Pick(a + [n] + b, tag, keep) == Pick(a + b, tag, keep)
  {
    PickAppend(a + [n], b, tag, keep);
    PickAppend(a, [n], tag, keep);
    PickAppend(a, b, tag, keep);
    PickOne(n, tag, keep);
  }

  /** Inserting a skipped child anywhere changes no segment and no count; it
      changes the text only through the bare-literal fallback, so only when it
      is a literal and the cell has no segment. */
  lemma IgnoredChildAddsNothing(a: seq<Node>, n: Node, b: seq<Node>, glosses: Option<seq<Option<string>>>,
                                cols: int, counter: map<string, nat>)
    requires Ignorable(n)
    ensures var gs := GlossTexts(Cell(None, glosses, cols));
      Segments(a + [n] + b, gs) == Segments(a + b, gs)
    ensures ParseCell(Cell(Some(a + [n] + b), glosses, cols), counter).1 == ParseCell(Cell(Some(a + b), glosses, cols), counter).1
    ensures n.tag != LitTag || Segments(a + b, GlossTexts(Cell(None, glosses, cols))) != [] ==>
      ParseCell(Cell(Some(a + [n] + b), glosses, cols), counter).0 == ParseCell(Cell(Some(a + b), glosses, cols), counter).0
  {
    var c := a + [n] + b;
    IgnoredChildSamePieces(a, n, b);
    SamePiecesSameCodes(c, a + b, glosses, cols);
    if n.tag != LitTag || Segments(a + b, GlossTexts(Cell(None, glosses, cols))) != [] {
      SamePiecesSameText(c, a + b, glosses, cols);
    }
  }

  lemma IgnoredChildSamePieces(a: seq<Node>, n: Node, b: seq<Node>)
    requires Ignorable(n)
    ensures SamePieces(a + [n] + b, a + b)
    ensures n.tag != LitTag ==> First(a + [n] + b, LitTag) == First(a + b, LitTag)
  {
    PickSkips(a, n, b, WordTag, KeepWord);
    PickSkips(a, n, b, LitTag, KeepLit);
    PickSkips(a, n, b, ListRefTag, KeepCode);
    FirstSkips(a, n, b, RowNumTag);
    FirstSkips(a, n, b, MoveMkrTag);
    FirstSkips(a, n, b, NoteTag);
    if n.tag != LitTag {
      FirstSkips(a, n, b, LitTag);
    }
  }

  /** Row-number, move-marker and note children win in that order: the first
      child of the winning kind supplies the whole text, and nothing is
      counted. */
  lemma SpecialChildWins(a: seq<Node>, n: Node, b: seq<Node>, glosses: Option<seq<Option<string>>>, cols: int,
                         counter: map<string, nat>, p: nat)
    requires p < 3 && n.tag == [RowNumTag, MoveMkrTag, NoteTag][p]
    requires forall i :: 0 <= i < |a| ==> a[i].tag != n.tag
    requires forall i :: 0 <= i < |a| + 1 + |b| ==>
      (a + [n] + b)[i].tag != RowNumTag || p == 0
    requires forall i :: 0 <= i < |a| + 1 + |b| ==>
      (a + [n] + b)[i].tag != MoveMkrTag || p <= 1
    ensures ParseCell(Cell(Some(a + [n] + b), glosses, cols), counter) == (TextOr(n.text), counter)
  {
    FirstAppend(a, [n] + b, n.tag);
    assert a + [n] + b == a + ([n] + b);
  }

  lemma {:induction false} PickEmptyKeepsNone(nodes: seq<Node>, tag: string, keep: string -> bool)
    requires Pick(nodes, tag, keep) == []
    ensures forall i :: 0 <= i < |nodes| && nodes[i].tag == tag ==> !keep(Token(nodes[i]))
  {
    if nodes != [] {
      PickEmptyKeepsNone(nodes[1..], tag, keep);
      assert forall i :: 1 <= i < |nodes| ==> nodes[i] == nodes[1..][i - 1];
    }
  }

  /** A content cell has no segment exactly when it has no word, no gloss, no
      kept literal and no code; its text is then the raw text of its first
      literal, which can only be blank or a bare parenthesis, or empty. */
  lemma BareCellFallsBack(cell: Cell)
    requires cell.main.Some? && IsContent(cell.main.value)
    ensures var nodes := cell.main.value;
      Segments(nodes, GlossTexts(cell)) == [] <==>
        Words(nodes) == [] && GlossTexts(cell) == [] && Literals(nodes) == [] && Codes(nodes) == []
    ensures var nodes := cell.main.value;
      var lit := First(nodes, LitTag);
      Segments(nodes, GlossTexts(cell)) == [] ==>
        && CellText(cell) == (if lit.Some? then TextOr(lit.value.text) else "")
        && (lit.Some? ==> !KeepLit(Token(lit.value)))
  {
    var nodes := cell.main.value;
    var ws := Words(nodes);
    var gs := GlossTexts(cell);
    if |ws| > 0 && |gs| == |ws| {
      PairWordsPairs(ws, gs);
      assert |PairWords(ws, gs)| == |ws|;
    }
    if Segments(nodes, gs) == [] {
      PickEmptyKeepsNone(nodes, LitTag, KeepLit);
    }
  }
}
