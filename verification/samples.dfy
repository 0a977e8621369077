/** The display string and counter `parse_cell` produces for each shape of
    content cell, for any words, glosses and codes that are plain tokens. */
module CellSamples {
  import opened Wrappers
  import opened Text
  import opened Counter
  import opened ChartCell

  function Word(t: string): Node { Node(WordTag, Some(t)) }

  function Lit(t: string): Node { Node(LitTag, Some(t)) }

  function Ref(t: string): Node { Node(ListRefTag, Some(t)) }

  /** A token with no whitespace and no parenthesis in it. */
  predicate Plain(t: string)
  {
    t != [] && forall i :: 0 <= i < |t| ==> !IsSpace(t[i]) && t[i] != '(' && t[i] != ')'
  }

  predicate SpaceFree(s: string)
  {
    forall i :: 0 <= i < |s| ==> !IsSpace(s[i])
  }

  // ---------------------------------------------------------------------------
  // Building blocks

  /** A string without whitespace is left alone by both passes. */
  lemma SpaceFreeClean(s: string)
    requires SpaceFree(s)
    ensures Cleanup(s) == s
  {
    assert NoSpaceBeforeClose(s);
    assert NoSpaceAfterOpen(s);
  }

  /** A plain token is tidy, is its own stripped text, and so is its
      parenthesised form. */
  lemma PlainFacts(t: string)
    requires Plain(t)
    ensures Tidy(t) && Cleanup(t) == t && Strip(t) == t
    ensures Tidy("(" + t + ")") && Cleanup("(" + t + ")") == "(" + t + ")"
  {
    SpaceFreeClean(t);
    var p := "(" + t + ")";
    assert forall i :: 1 <= i < |p| - 1 ==> p[i] == t[i - 1];
    SpaceFreeClean(p);
    assert TrimLeft(t) == t;
  }

  lemma PlainToken(n: Node, t: string)
    requires n.text == Some(t) && Plain(t)
    ensures Token(n) == t
  {
    PlainFacts(t);
  }

  /** Surrounding whitespace is stripped from a plain token. */
  lemma PaddedToken(n: Node, t: string)
    requires n.text == Some(" " + t + " ") && Plain(t)
    ensures Token(n) == t
  {
    var s := " " + t + " ";
    assert s[1..] == t + " ";
    assert TrimLeft(s) == TrimLeft(t + " ") == t + " ";
    assert (t + " ")[..|t|] == t;
    assert TrimRight(t + " ") == TrimRight(t) == t;
  }

  lemma PickTwo(n1: Node, n2: Node, tag: string, keep: string -> bool)
    ensures Pick([n1, n2], tag, keep)
      == (if n1.tag == tag && keep(Token(n1)) then [Token(n1)] else [])
       + (if n2.tag == tag && keep(Token(n2)) then [Token(n2)] else [])
  {
    assert [n1, n2] == [n1] + [n2];
    PickAppend([n1], [n2], tag, keep);
    PickOne(n1, tag, keep);
    PickOne(n2, tag, keep);
  }

  lemma JoinTwo(a: string, b: string)
    ensures Join([a, b]) == a + " " + b
  {
    assert [a, b][1..] == [b];
  }

  /** A content cell with at least one segment shows its joined segments,
      cleaned. */
  lemma ContentText(cell: Cell, segs: seq<string>)
    requires cell.main.Some? && IsContent(cell.main.value)
    requires Segments(cell.main.value, GlossTexts(cell)) == segs != []
    ensures CellText(cell) == Cleanup(Join(segs))
  {
    SegmentsNonEmpty(cell.main.value, GlossTexts(cell));
  }

  /** The result pair of a cell, from its text and codes. */
  lemma ParseCellParts(cell: Cell, counter: map<string, nat>, s: string, codes: seq<string>)
    requires CellText(cell) == s && CellCodes(cell) == codes
    ensures ParseCell(cell, counter) == (s, Tally(counter, codes))
  {
  }

  /** A content cell whose one segment is tidy and clean shows it as it is. */
  lemma OneCleanSegment(cell: Cell, a: string)
    requires cell.main.Some? && IsContent(cell.main.value)
    requires Segments(cell.main.value, GlossTexts(cell)) == [a]
    requires Tidy(a) && Cleanup(a) == a
    ensures CellText(cell) == a
  {
    ContentText(cell, [a]);
    assert Join([a]) == a;
  }

  /** Two tidy, clean segments are shown joined by one space. */
  lemma TwoCleanSegments(cell: Cell, a: string, b: string)
    requires cell.main.Some? && IsContent(cell.main.value)
    requires Segments(cell.main.value, GlossTexts(cell)) == [a, b]
    requires Tidy(a) && Cleanup(a) == a && Tidy(b) && Cleanup(b) == b
    ensures CellText(cell) == Join([a, b])
  {
    ContentText(cell, [a, b]);
    JoinTwo(a, b);
    CleanupJoin(a, b);
  }

  /** Three tidy, clean segments are shown joined by single spaces. */
  lemma ThreeCleanSegments(cell: Cell, a: string, b: string, c: string)
    requires cell.main.Some? && IsContent(cell.main.value)
    requires Segments(cell.main.value, GlossTexts(cell)) == [a, b, c]
    requires Tidy(a) && Cleanup(a) == a && Tidy(b) && Cleanup(b) == b && Tidy(c) && Cleanup(c) == c
    ensures CellText(cell) == Join([a, b, c])
  {
    ContentText(cell, [a, b, c]);
    assert [a, b, c][1..] == [b, c];
    JoinTwo(b, c);
    JoinTidy([b, c]);
    CleanupJoin(b, c);
    CleanupJoin(a, Join([b, c]));
  }

  /** Two plain words as the whole of `main`. */
  lemma TwoWords(w1: string, w2: string)
    requires Plain(w1) && Plain(w2)
    ensures var nodes := [Word(w1), Word(w2)];
      && Words(nodes) == [w1, w2] && Literals(nodes) == [] && Codes(nodes) == []
      && IsContent(nodes)
  {
    var nodes := [Word(w1), Word(w2)];
    PlainToken(Word(w1), w1);
    PlainToken(Word(w2), w2);
    PickTwo(Word(w1), Word(w2), WordTag, KeepWord);
    PickTwo(Word(w1), Word(w2), LitTag, KeepLit);
    PickTwo(Word(w1), Word(w2), ListRefTag, KeepCode);
    assert forall i :: 0 <= i < |nodes| ==> nodes[i].tag == WordTag;
  }

  /** `w (g)` for plain tokens is tidy and clean. */
  lemma PairFacts(w: string, g: string)
    requires Plain(w) && Plain(g)
    ensures var p := w + " (" + g + ")";
      Tidy(p) && Cleanup(p) == p
  {
    var p := w + " (" + g + ")";
    var n := |w|;
    assert |p| == n + |g| + 3;
    assert forall i :: 0 <= i < n ==> p[i] == w[i];
    assert p[n] == ' ' && p[n + 1] == '(';
    assert forall i :: n + 2 <= i < |p| - 1 ==> p[i] == g[i - n - 2];
    assert p[|p| - 1] == ')';
    assert NoSpaceBeforeClose(p);
    assert NoSpaceAfterOpen(p);
  }

  /** `w1 w2` for plain words is tidy and clean. */
  lemma WordsFacts(w1: string, w2: string)
    requires Plain(w1) && Plain(w2)
    ensures Tidy(Join([w1, w2])) && Cleanup(Join([w1, w2])) == Join([w1, w2])
  {
    PlainFacts(w1);
    PlainFacts(w2);
    JoinTwo(w1, w2);
    JoinTidy([w1, w2]);
    CleanupJoin(w1, w2);
  }

  // ---------------------------------------------------------------------------
  // One lemma per shape

  lemma PairedText(w1: string, w2: string, g: string, cols: int)
    requires Plain(w1) && Plain(w2) && Plain(g)
    ensures var cell := Cell(Some([Word(w1), Word(w2)]), Some([Some(g), None]), cols);
      CellText(cell) == Join([w1 + " (" + g + ")", w2]) && CellCodes(cell) == []
  {
    var cell := Cell(Some([Word(w1), Word(w2)]), Some([Some(g), None]), cols);
    TwoWords(w1, w2);
    PairedSegments(w1, w2, g);
    PairedFacts(w1, w2, g);
    OneCleanSegment(cell, Join([w1 + " (" + g + ")", w2]));
  }

  /** Equal word and gloss counts: a word with a gloss becomes `w (g)`, a word
      whose gloss is missing stays bare, and the counter is untouched. */
  lemma PairedSample(w1: string, w2: string, g: string, cols: int, counter: map<string, nat>)
    requires Plain(w1) && Plain(w2) && Plain(g)
    ensures ParseCell(Cell(Some([Word(w1), Word(w2)]), Some([Some(g), None]), cols), counter)
      == (Join([w1 + " (" + g + ")", w2]), counter)
  {
    PairedText(w1, w2, g, cols);
    ParseCellParts(Cell(Some([Word(w1), Word(w2)]), Some([Some(g), None]), cols), counter, Join([w1 + " (" + g + ")", w2]), []);
  }

  /** The pairing segment `w1 (g) w2` is tidy and clean. */
  lemma PairedFacts(w1: string, w2: string, g: string)
    requires Plain(w1) && Plain(w2) && Plain(g)
    ensures var seg := Join([w1 + " (" + g + ")", w2]);
      Tidy(seg) && Cleanup(seg) == seg
  {
    var p := w1 + " (" + g + ")";
    PairFacts(w1, g);
    PlainFacts(w2);
    JoinTwo(p, w2);
    JoinTidy([p, w2]);
    CleanupJoin(p, w2);
  }

  lemma PairedSegments(w1: string, w2: string, g: string)
    requires Plain(w1) && Plain(w2) && Plain(g)
    ensures Segments([Word(w1), Word(w2)], [Some(g), None]) == [Join([w1 + " (" + g + ")", w2])]
  {
    var gs: seq<Option<string>> := [Some(g), None];
    TwoWords(w1, w2);
    assert [w1, w2][1..] == [w2] && gs[1..] == [None];
    assert PairWords([w2], [None]) == [w2];
    assert Truthy(Some(g));
    assert PairWords([w1, w2], gs) == [w1 + " (" + g + ")", w2];
  }

  lemma GroupedSegments(w1: string, w2: string, g: string)
    requires Plain(w1) && Plain(w2) && Plain(g)
    ensures Segments([Word(w1), Word(w2)], [Some(g)]) == [Join([w1, w2]), "(" + g + ")"]
  {
    TwoWords(w1, w2);
    UnequalCountsGroupGlosses([Word(w1), Word(w2)], [Some(g)]);
    PresentGlossesOne(Some(g));
  }

  lemma GroupedText(w1: string, w2: string, g: string, cols: int)
    requires Plain(w1) && Plain(w2) && Plain(g)
    ensures var cell := Cell(Some([Word(w1), Word(w2)]), Some([Some(g)]), cols);
      CellText(cell) == Join([Join([w1, w2]), "(" + g + ")"]) && CellCodes(cell) == []
  {
    var cell := Cell(Some([Word(w1), Word(w2)]), Some([Some(g)]), cols);
    TwoWords(w1, w2);
    GroupedSegments(w1, w2, g);
    WordsFacts(w1, w2);
    PlainFacts(g);
    TwoCleanSegments(cell, Join([w1, w2]), "(" + g + ")");
  }

  /** Unequal counts: the words, then one group of the glosses that are
      present. */
  lemma GroupedSample(w1: string, w2: string, g: string, cols: int, counter: map<string, nat>)
    requires Plain(w1) && Plain(w2) && Plain(g)
    ensures ParseCell(Cell(Some([Word(w1), Word(w2)]), Some([Some(g)]), cols), counter)
      == (Join([Join([w1, w2]), "(" + g + ")"]), counter)
  {
    GroupedText(w1, w2, g, cols);
    ParseCellParts(Cell(Some([Word(w1), Word(w2)]), Some([Some(g)]), cols), counter, Join([Join([w1, w2]), "(" + g + ")"]), []);
  }

  lemma EmptyGroupFacts()
    ensures Tidy("()") && Cleanup("()") == "()"
  {
    SpaceFreeClean("()");
  }

  lemma EmptyGroupText(w1: string, w2: string, cols: int)
    requires Plain(w1) && Plain(w2)
    ensures var cell := Cell(Some([Word(w1), Word(w2)]), Some([None, Some(""), None]), cols);
      CellText(cell) == Join([Join([w1, w2]), "()"]) && CellCodes(cell) == []
  {
    var cell := Cell(Some([Word(w1), Word(w2)]), Some([None, Some(""), None]), cols);
    TwoWords(w1, w2);
    EmptyGroupSegments(w1, w2);
    WordsFacts(w1, w2);
    EmptyGroupFacts();
    TwoCleanSegments(cell, Join([w1, w2]), "()");
  }

  /** Unequal counts with every gloss empty or missing: the group is `()`. */
  lemma EmptyGroupSample(w1: string, w2: string, cols: int, counter: map<string, nat>)
    requires Plain(w1) && Plain(w2)
    ensures ParseCell(Cell(Some([Word(w1), Word(w2)]), Some([None, Some(""), None]), cols), counter)
      == (Join([Join([w1, w2]), "()"]), counter)
  {
    EmptyGroupText(w1, w2, cols);
    ParseCellParts(Cell(Some([Word(w1), Word(w2)]), Some([None, Some(""), None]), cols), counter, Join([Join([w1, w2]), "()"]), []);
  }

  lemma EmptyGroupSegments(w1: string, w2: string)
    requires Plain(w1) && Plain(w2)
    ensures Segments([Word(w1), Word(w2)], [None, Some(""), None]) == [Join([w1, w2]), "()"]
  {
    var gs: seq<Option<string>> := [None, Some(""), None];
    TwoWords(w1, w2);
    assert forall i :: 0 <= i < |gs| ==> !Truthy(gs[i]);
    UnequalCountsGroupGlosses([Word(w1), Word(w2)], gs);
  }

  /** The group of two present glosses. */
  lemma GroupOfTwo(g1: string, g2: string)
    requires Plain(g1) && Plain(g2)
    ensures GlossGroup([Some(g1), Some(g2)]) == "(" + Join([g1, g2]) + ")"
  {
    PresentGlossesAppend([Some(g1)], [Some(g2)]);
    assert [Some(g1)] + [Some(g2)] == [Some(g1), Some(g2)];
    PresentGlossesOne(Some(g1));
    PresentGlossesOne(Some(g2));
  }

  /** `(g1 g2)` for plain glosses is tidy and clean. */
  lemma GroupFacts(g1: string, g2: string)
    requires Plain(g1) && Plain(g2)
    ensures var p := "(" + Join([g1, g2]) + ")";
      Tidy(p) && Cleanup(p) == p
  {
    JoinTwo(g1, g2);
    var p := "(" + Join([g1, g2]) + ")";
    var n := |g1|;
    assert |p| == n + |g2| + 3;
    assert p[0] == '(';
    assert forall i :: 1 <= i <= n ==> p[i] == g1[i - 1];
    assert p[n + 1] == ' ';
    assert forall i :: n + 2 <= i < |p| - 1 ==> p[i] == g2[i - n - 2];
    assert p[|p| - 1] == ')';
    assert NoSpaceBeforeClose(p);
    assert NoSpaceAfterOpen(p);
  }

  lemma GlossOnlyText(g1: string, g2: string, cols: int)
    requires Plain(g1) && Plain(g2)
    ensures var cell := Cell(Some([]), Some([Some(g1), Some(g2)]), cols);
      CellText(cell) == "(" + Join([g1, g2]) + ")" && CellCodes(cell) == []
  {
    var gs: seq<Option<string>> := [Some(g1), Some(g2)];
    var cell := Cell(Some([]), Some(gs), cols);
    var grp := "(" + Join([g1, g2]) + ")";
    assert IsContent([]);
    assert Words([]) == [] && Literals([]) == [] && Codes([]) == [];
    OneSidedPairing([], gs);
    GroupOfTwo(g1, g2);
    assert Segments([], gs) == [grp];
    GroupFacts(g1, g2);
    OneCleanSegment(cell, grp);
  }

  /** Glosses without words: just the group of the glosses. */
  lemma GlossOnlySample(g1: string, g2: string, cols: int, counter: map<string, nat>)
    requires Plain(g1) && Plain(g2)
    ensures ParseCell(Cell(Some([]), Some([Some(g1), Some(g2)]), cols), counter)
      == ("(" + Join([g1, g2]) + ")", counter)
  {
    GlossOnlyText(g1, g2, cols);
    ParseCellParts(Cell(Some([]), Some([Some(g1), Some(g2)]), cols), counter, "(" + Join([g1, g2]) + ")", []);
  }

  /** The children of the ordering sample: a padded code first, then a bare
      `(`, a word and a literal. */
  function Mixed(c: string, w: string, x: string): seq<Node>
  {
    [Ref(" " + c + " "), Lit("("), Word(w), Lit(x)]
  }

  lemma MixedBranch(c: string, w: string, x: string, tag: string, keep: string -> bool)
    ensures Pick(Mixed(c, w, x), tag, keep)
      == Pick([Ref(" " + c + " "), Lit("(")], tag, keep) + Pick([Word(w), Lit(x)], tag, keep)
  {
    assert Mixed(c, w, x) == [Ref(" " + c + " "), Lit("(")] + [Word(w), Lit(x)];
    PickAppend([Ref(" " + c + " "), Lit("(")], [Word(w), Lit(x)], tag, keep);
  }

  lemma MixedTokens(c: string, w: string, x: string)
    requires Plain(c) && Plain(w) && Plain(x)
    ensures Token(Ref(" " + c + " ")) == c && Token(Lit("(")) == "(" && Token(Word(w)) == w && Token(Lit(x)) == x
  {
    PaddedToken(Ref(" " + c + " "), c);
    assert TrimLeft("(") == "(" && TrimRight("(") == "(";
    PlainToken(Word(w), w);
    PlainToken(Lit(x), x);
  }

  lemma MixedWords(c: string, w: string, x: string)
    requires Plain(c) && Plain(w) && Plain(x)
    ensures Words(Mixed(c, w, x)) == [w]
  {
    MixedTokens(c, w, x);
    MixedBranch(c, w, x, WordTag, KeepWord);
    PickTwo(Ref(" " + c + " "), Lit("("), WordTag, KeepWord);
    PickTwo(Word(w), Lit(x), WordTag, KeepWord);
  }

  lemma MixedLiterals(c: string, w: string, x: string)
    requires Plain(c) && Plain(w) && Plain(x)
    ensures Literals(Mixed(c, w, x)) == [x]
  {
    MixedTokens(c, w, x);
    assert x != "(" && x != ")" by {
      assert x[0] != '(' && x[0] != ')';
    }
    MixedBranch(c, w, x, LitTag, KeepLit);
    PickTwo(Ref(" " + c + " "), Lit("("), LitTag, KeepLit);
    PickTwo(Word(w), Lit(x), LitTag, KeepLit);
  }

  lemma MixedCodes(c: string, w: string, x: string)
    requires Plain(c) && Plain(w) && Plain(x)
    ensures Codes(Mixed(c, w, x)) == [c]
  {
    MixedTokens(c, w, x);
    MixedBranch(c, w, x, ListRefTag, KeepCode);
    PickTwo(Ref(" " + c + " "), Lit("("), ListRefTag, KeepCode);
    PickTwo(Word(w), Lit(x), ListRefTag, KeepCode);
  }

  lemma MixedSegments(c: string, w: string, x: string)
    requires Plain(c) && Plain(w) && Plain(x)
    ensures IsContent(Mixed(c, w, x))
    ensures Segments(Mixed(c, w, x), []) == [w, x, "(" + c + ")"]
  {
    var nodes := Mixed(c, w, x);
    assert forall i :: 0 <= i < |nodes| ==> nodes[i].tag in {WordTag, LitTag, ListRefTag};
    MixedWords(c, w, x);
    MixedLiterals(c, w, x);
    MixedCodes(c, w, x);
    OneSidedPairing(nodes, []);
    assert Join([w]) == w;
    assert Parenthesize([c]) == ["(" + c + ")"];
  }

  lemma MixedText(c: string, w: string, x: string, cols: int)
    requires Plain(c) && Plain(w) && Plain(x)
    ensures var cell := Cell(Some(Mixed(c, w, x)), None, cols);
      CellText(cell) == Join([w, x, "(" + c + ")"]) && CellCodes(cell) == [c]
  {
    var cell := Cell(Some(Mixed(c, w, x)), None, cols);
    MixedSegments(c, w, x);
    MixedCodes(c, w, x);
    PlainFacts(c);
    PlainFacts(w);
    PlainFacts(x);
    ThreeCleanSegments(cell, w, x, "(" + c + ")");
  }

  /** A code written before the word and a bare `(` literal: the bare
      parenthesis is dropped, the word comes first, then the literal, then the
      code stripped and parenthesised, and the code is counted once. */
  lemma MixedSample(c: string, w: string, x: string, cols: int, counter: map<string, nat>)
    requires Plain(c) && Plain(w) && Plain(x)
    ensures ParseCell(Cell(Some(Mixed(c, w, x)), None, cols), counter)
      == (Join([w, x, "(" + c + ")"]), Bump(counter, c))
  {
    MixedText(c, w, x, cols);
    assert Tally(counter, [c]) == Bump(counter, c);
    ParseCellParts(Cell(Some(Mixed(c, w, x)), None, cols), counter, Join([w, x, "(" + c + ")"]), [c]);
  }

  /** The segment `w ( g )`, split before its last space. */
  lemma SpacedSplit(w: string, g: string)
    ensures w + " (" + (" " + g + " ") + ")" == (w + " ( " + g) + " )"
  {
    var l := w + " (" + (" " + g + " ") + ")";
    var r := (w + " ( " + g) + " )";
    assert |l| == |r|;
    forall i | 0 <= i < |l|
      ensures l[i] == r[i]
    {
      if i < |w| + 3 + |g| {
      }
    }
  }

  /** `w ( g)`, split after the word. */
  lemma SpacedRegroup(w: string, g: string)
    ensures (w + " ( " + g) + ")" == w + (" " + ("(" + (" " + (g + ")"))))
  {
    var l := (w + " ( " + g) + ")";
    var r := w + (" " + ("(" + (" " + (g + ")"))));
    assert |l| == |r|;
    forall i | 0 <= i < |l|
      ensures l[i] == r[i]
    {
      if i < |w| {
      } else if i < |w| + 3 {
      }
    }
  }

  /** `w (g)` as the join of the word and the group. */
  lemma SpacedJoined(w: string, g: string)
    ensures w + (" " + ("(" + (g + ")"))) == Join([w, "(" + g + ")"])
  {
    JoinTwo(w, "(" + g + ")");
    var l := w + (" " + ("(" + (g + ")")));
    var r := w + " " + ("(" + g + ")");
    assert |l| == |r|;
    forall i | 0 <= i < |l|
      ensures l[i] == r[i]
    {
      if i < |w| {
      } else if i < |w| + 2 {
      }
    }
  }

  /** The first pass removes the whitespace before the `)` of `w ( g )`. */
  lemma SpacedFirstPass(w: string, g: string)
    requires Plain(w) && Plain(g)
    ensures SubClose(w + " (" + (" " + g + " ") + ")") == (w + " ( " + g) + ")"
  {
    var a := w + " ( " + g;
    SpacedSplit(w, g);
    assert a[|a| - 1] == g[|g| - 1];
    SubCloseAppend(a, " )");
    assert TrimLeft(" )") == ")";
    assert SubClose(" )") == ")";
    assert NoSpaceBeforeClose(a) by {
      var n := |w|;
      assert forall i :: 0 <= i < n ==> a[i] == w[i];
      assert a[n] == ' ' && a[n + 1] == '(' && a[n + 2] == ' ';
      assert forall i :: n + 3 <= i < |a| ==> a[i] == g[i - n - 3];
    }
    SubCloseKeepsClean(a);
  }

  /** `( r` loses the space after its `(` when `r` starts with no space. */
  lemma OpenSpaceDropped(r: string)
    requires r != [] && !IsSpace(r[0])
    ensures SubOpen("(" + (" " + r)) == "(" + SubOpen(r)
  {
    var t := "(" + (" " + r);
    assert t[1..] == " " + r;
    assert (" " + r)[1..] == r;
    assert TrimLeft(r) == r;
    assert TrimLeft(" " + r) == r;
  }

  /** The second pass removes the whitespace after the `(` of `w ( g)`. */
  lemma SpacedSecondPass(w: string, g: string)
    requires Plain(w) && Plain(g)
    ensures SubOpen((w + " ( " + g) + ")") == w + (" " + ("(" + (g + ")")))
  {
    var rest := g + ")";
    var tail := " " + ("(" + (" " + rest));
    SpacedRegroup(w, g);
    PlainFacts(w);
    assert w[|w| - 1] != '(' && !IsSpace(w[|w| - 1]);
    SubOpenAppend(w, tail);
    assert NoSpaceAfterOpen(w);
    SubOpenKeepsClean(w);
    assert tail[1..] == "(" + (" " + rest);
    assert SubOpen(tail) == " " + SubOpen("(" + (" " + rest));
    OpenSpaceDropped(rest);
    assert NoSpaceAfterOpen(rest) by {
      assert forall i :: 0 <= i < |rest| - 1 ==> rest[i] == g[i];
    }
    SubOpenKeepsClean(rest);
  }

  lemma SpacedText(w: string, g: string, cols: int)
    requires Plain(w) && Plain(g)
    ensures var cell := Cell(Some([Word(w)]), Some([Some(" " + g + " ")]), cols);
      CellText(cell) == Join([w, "(" + g + ")"]) && CellCodes(cell) == []
  {
    var cell := Cell(Some([Word(w)]), Some([Some(" " + g + " ")]), cols);
    var seg := w + " (" + (" " + g + " ") + ")";
    SpacedSegments(w, g);
    ContentText(cell, [seg]);
    assert Join([seg]) == seg;
    SpacedFirstPass(w, g);
    SpacedSecondPass(w, g);
    SpacedJoined(w, g);
    assert Cleanup(seg) == SubOpen(SubClose(seg));
  }

  /** A gloss padded with whitespace: the pair is `w (g)`, the whitespace
      inside the parentheses removed. */
  lemma SpacedGlossSample(w: string, g: string, cols: int, counter: map<string, nat>)
    requires Plain(w) && Plain(g)
    ensures ParseCell(Cell(Some([Word(w)]), Some([Some(" " + g + " ")]), cols), counter)
      == (Join([w, "(" + g + ")"]), counter)
  {
    SpacedText(w, g, cols);
    ParseCellParts(Cell(Some([Word(w)]), Some([Some(" " + g + " ")]), cols), counter, Join([w, "(" + g + ")"]), []);
  }

  lemma SpacedSegments(w: string, g: string)
    requires Plain(w) && Plain(g)
    ensures IsContent([Word(w)]) && Codes([Word(w)]) == []
    ensures Segments([Word(w)], [Some(" " + g + " ")]) == [w + " (" + (" " + g + " ") + ")"]
  {
    var gs: seq<Option<string>> := [Some(" " + g + " ")];
    PlainToken(Word(w), w);
    PickOne(Word(w), WordTag, KeepWord);
    PickOne(Word(w), LitTag, KeepLit);
    PickOne(Word(w), ListRefTag, KeepCode);
    assert IsContent([Word(w)]);
    assert [w][1..] == [] && gs[1..] == [];
    assert Truthy(gs[0]);
    assert PairWords([w], gs) == [w + " (" + (" " + g + " ") + ")"];
  }
}
