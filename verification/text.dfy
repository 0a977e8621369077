/** The string operations the cell interpreter relies on: Python's `str.strip()`,
    `' '.join(...)`, and the two `re.sub` passes that tidy spacing around
    parentheses. */
module Text {

  /** Python's `str.isspace()` for one character. Both `str.strip()` and the
      regular-expression class `\s` use exactly this set. */
  predicate IsSpace(c: char)
  {
    var n := c as int;
    n == 0x20 || 0x09 <= n <= 0x0D || 0x1C <= n <= 0x1F || n == 0x85 || n == 0xA0
    || n == 0x1680 || 0x2000 <= n <= 0x200A || n == 0x2028 || n == 0x2029
    || n == 0x202F || n == 0x205F || n == 0x3000
  }

  predicate AllSpace(s: string)
  {
    forall i :: 0 <= i < |s| ==> IsSpace(s[i])
  }

  /** `s.lstrip()`: the suffix left after the leading whitespace run. */
  function TrimLeft(s: string): (r: string)
    ensures |r| <= |s|
  {
    if s == [] || !IsSpace(s[0]) then s else TrimLeft(s[1..])
  }

  /** `s.rstrip()`: the prefix left after the trailing whitespace run. */
  function TrimRight(s: string): (r: string)
    ensures |r| <= |s|
  {
    if s == [] || !IsSpace(s[|s| - 1]) then s else TrimRight(s[..|s| - 1])
  }

  /** `lstrip` removes exactly the leading whitespace run. */
  lemma {:induction false} TrimLeftFacts(s: string)
    ensures var r := TrimLeft(s);
      && r == s[|s| - |r|..]
      && AllSpace(s[..|s| - |r|])
      && (r == [] || !IsSpace(r[0]))
  {
    if s != [] && IsSpace(s[0]) {
      TrimLeftFacts(s[1..]);
      var t := TrimLeft(s[1..]);
      assert s[..|s| - |t|] == [s[0]] + s[1..][..|s| - 1 - |t|];
    }
  }

  /** `rstrip` removes exactly the trailing whitespace run. */
  lemma {:induction false} TrimRightFacts(s: string)
    ensures var r := TrimRight(s);
      && r == s[..|r|]
      && AllSpace(s[|r|..])
      && (r == [] || !IsSpace(r[|r| - 1]))
  {
    if s != [] && IsSpace(s[|s| - 1]) {
      TrimRightFacts(s[..|s| - 1]);
      var t := TrimRight(s[..|s| - 1]);
      assert s[|t|..] == s[..|s| - 1][|t|..] + [s[|s| - 1]];
    }
  }

  /** `s.strip()`. */
  function Strip(s: string): string
  {
    TrimRight(TrimLeft(s))
  }

  /** `strip` leaves the slice of `s` between its leading and its trailing
      whitespace run: empty exactly when `s` is all whitespace, and otherwise
      starting and ending with a non-whitespace character. */
  lemma StripSpec(s: string)
    ensures var r := Strip(s);
      && (r == [] <==> AllSpace(s))
      && (r != [] ==> !IsSpace(r[0]) && !IsSpace(r[|r| - 1]))
      && LeadingSpace(s) + |r| <= |s| && r == s[LeadingSpace(s)..LeadingSpace(s) + |r|]
      && AllSpace(s[..LeadingSpace(s)]) && AllSpace(s[LeadingSpace(s) + |r|..])
  {
    StripEnds(s);
    StripSlice(s);
  }

  /** The length of the leading whitespace run of `s`. */
  function LeadingSpace(s: string): nat
  {
    |s| - |TrimLeft(s)|
  }

  lemma StripEnds(s: string)
    ensures var r := TrimRight(TrimLeft(s));
      && (r == [] <==> AllSpace(s))
      && (r != [] ==> !IsSpace(r[0]) && !IsSpace(r[|r| - 1]))
  {
    TrimLeftFacts(s);
    TrimRightFacts(TrimLeft(s));
    var t := TrimLeft(s);
    var i := |s| - |t|;
    var r := TrimRight(t);
    if t == [] {
      assert s[..i] == s;
    } else {
      assert t[0] == s[i];
      assert !AllSpace(s) by { assert !IsSpace(s[i]); }
      assert r[0] == t[0];
    }
  }

  lemma StripSlice(s: string)
    ensures var r := TrimRight(TrimLeft(s));
      var i := LeadingSpace(s);
      && 0 <= i <= |s| - |r| && r == s[i..i + |r|]
      && AllSpace(s[..i]) && AllSpace(s[i + |r|..])
  {
    var t := TrimLeft(s);
    var r := TrimRight(t);
    TrimLeftFacts(s);
    TrimRightFacts(t);
    SliceOfSuffix(s, t, r);
    TailOfSuffix(s, t, r);
  }

  /** A prefix of a suffix of `s` is a slice of `s`. */
  lemma SliceOfSuffix(s: string, t: string, r: string)
    requires |t| <= |s| && t == s[|s| - |t|..] && |r| <= |t| && r == t[..|r|]
    ensures r == s[|s| - |t|..|s| - |t| + |r|]
  {
  }

  /** What follows that prefix inside the suffix is also what follows the
      slice inside `s`. */
  lemma TailOfSuffix(s: string, t: string, r: string)
    requires |t| <= |s| && t == s[|s| - |t|..] && |r| <= |t| && AllSpace(t[|r|..])
    ensures AllSpace(s[|s| - |t| + |r|..])
  {
    var tail := s[|s| - |t| + |r|..];
    assert tail == t[|r|..];
  }

  /** `' '.join(parts)`. */
  function Join(parts: seq<string>): string
  {
    if |parts| == 0 then ""
    else if |parts| == 1 then parts[0]
    else parts[0] + " " + Join(parts[1..])
  }

  /** The non-whitespace characters of `s`, in order. */
  function NonSpace(s: string): string
  {
    if s == [] then [] else (if IsSpace(s[0]) then [] else [s[0]]) + NonSpace(s[1..])
  }

  lemma {:induction false} NonSpaceSkipsLeadingSpace(s: string)
    ensures NonSpace(TrimLeft(s)) == NonSpace(s)
  {
    if s != [] && IsSpace(s[0]) {
      NonSpaceSkipsLeadingSpace(s[1..]);
    }
  }

  lemma NonSpaceCons(c: char, s: string)
    ensures NonSpace([c] + s) == (if IsSpace(c) then [] else [c]) + NonSpace(s)
  {
    assert ([c] + s)[1..] == s;
  }

  /** Position `i` holds whitespace and position `i + 1` a `)`. */
  predicate SpaceThenClose(s: string, i: int)
  {
    0 <= i < |s| - 1 && IsSpace(s[i]) && s[i + 1] == ')'
  }

  /** Position `i` holds a `(` and position `i + 1` whitespace. */
  predicate OpenThenSpace(s: string, i: int)
  {
    0 <= i < |s| - 1 && s[i] == '(' && IsSpace(s[i + 1])
  }

  /** No whitespace character stands immediately before a `)`. */
  predicate NoSpaceBeforeClose(s: string)
  {
    forall i :: 0 <= i < |s| - 1 ==> !SpaceThenClose(s, i)
  }

  /** No whitespace character stands immediately after a `(`. */
  predicate NoSpaceAfterOpen(s: string)
  {
    forall i :: 0 <= i < |s| - 1 ==> !OpenThenSpace(s, i)
  }

  lemma SuffixKeepsClean(s: string, j: nat)
    requires j <= |s|
    ensures NoSpaceBeforeClose(s) ==> NoSpaceBeforeClose(s[j..])
    ensures NoSpaceAfterOpen(s) ==> NoSpaceAfterOpen(s[j..])
  {
    if NoSpaceBeforeClose(s) {
      forall i | 0 <= i < |s[j..]| - 1
        ensures !SpaceThenClose(s[j..], i)
      {
        assert s[j..][i] == s[j + i] && s[j..][i + 1] == s[j + i + 1];
        assert !SpaceThenClose(s, j + i);
      }
    }
    if NoSpaceAfterOpen(s) {
      forall i | 0 <= i < |s[j..]| - 1
        ensures !OpenThenSpace(s[j..], i)
      {
        assert s[j..][i] == s[j + i] && s[j..][i + 1] == s[j + i + 1];
        assert !OpenThenSpace(s, j + i);
      }
    }
  }

  /** `re.sub(r'\s+\)', ')', s)`. The scan runs left to right: at a whitespace
      character whose run ends just before a `)`, the run and the `)` become a
      single `)`; any other character is copied and the scan moves on by one. */
  function SubClose(s: string): string
    decreases |s|
  {
    if s == [] then []
    else if IsSpace(s[0]) && TrimLeft(s) != [] && TrimLeft(s)[0] == ')' then
      [')'] + SubClose(TrimLeft(s)[1..])
    else
      [s[0]] + SubClose(s[1..])
  }

  /** The first pass's output starts with `)` exactly when the input's first
      non-whitespace character is `)`. */
  lemma SubCloseHead(s: string)
    ensures (SubClose(s) != [] && SubClose(s)[0] == ')') <==> (TrimLeft(s) != [] && TrimLeft(s)[0] == ')')
  {
    if s != [] && !IsSpace(s[0]) {
      assert TrimLeft(s) == s;
    }
  }

  /** The first pass leaves no whitespace before a `)`. */
  lemma {:induction false} SubCloseCleans(s: string)
    ensures NoSpaceBeforeClose(SubClose(s))
    decreases |s|
  {
    if s == [] {
    } else if IsSpace(s[0]) && TrimLeft(s) != [] && TrimLeft(s)[0] == ')' {
      SubCloseCleans(TrimLeft(s)[1..]);
      var rest := SubClose(TrimLeft(s)[1..]);
      var r := [')'] + rest;
      forall i | 0 <= i < |r| - 1
        ensures !SpaceThenClose(r, i)
      {
        if i > 0 {
          assert r[i] == rest[i - 1] && r[i + 1] == rest[i - 1 + 1];
          assert !SpaceThenClose(rest, i - 1);
        }
      }
    } else {
      var rest := SubClose(s[1..]);
      SubCloseCleans(s[1..]);
      SubCloseHead(s[1..]);
      if IsSpace(s[0]) {
        assert TrimLeft(s) == TrimLeft(s[1..]);
      }
      var r := [s[0]] + rest;
      forall i | 0 <= i < |r| - 1
        ensures !SpaceThenClose(r, i)
      {
        if i > 0 {
          assert r[i] == rest[i - 1] && r[i + 1] == rest[i - 1 + 1];
          assert !SpaceThenClose(rest, i - 1);
        }
      }
    }
  }

  /** The first pass removes whitespace and nothing else. */
  lemma {:induction false} SubCloseKeepsText(s: string)
    ensures NonSpace(SubClose(s)) == NonSpace(s) && |SubClose(s)| <= |s|
    decreases |s|
  {
    if s == [] {
    } else if IsSpace(s[0]) && TrimLeft(s) != [] && TrimLeft(s)[0] == ')' {
      var t := TrimLeft(s);
      SubCloseKeepsText(t[1..]);
      NonSpaceSkipsLeadingSpace(s);
      NonSpaceCons(')', t[1..]);
      NonSpaceCons(')', SubClose(t[1..]));
      assert t == [t[0]] + t[1..];
    } else {
      SubCloseKeepsText(s[1..]);
      NonSpaceCons(s[0], SubClose(s[1..]));
      NonSpaceCons(s[0], s[1..]);
      assert s == [s[0]] + s[1..];
    }
  }

  /** The first pass leaves a string with no whitespace before a `)` unchanged. */
  lemma {:induction false} SubCloseKeepsClean(s: string)
    ensures NoSpaceBeforeClose(s) ==> SubClose(s) == s
    decreases |s|
  {
    if s == [] {
    } else if IsSpace(s[0]) && TrimLeft(s) != [] && TrimLeft(s)[0] == ')' {
      var t := TrimLeft(s);
      var k := |s| - |t|;
      TrimLeftFacts(s);
      assert IsSpace(s[..k][k - 1]);
      assert s[k] == t[0];
      assert SpaceThenClose(s, k - 1);
    } else {
      SuffixKeepsClean(s, 1);
      SubCloseKeepsClean(s[1..]);
      assert s == [s[0]] + s[1..];
    }
  }

  /** `re.sub(r'\(\s+', '(', s)`: every `(` followed by a whitespace run loses
      the run; the scan resumes after it. */
  function SubOpen(s: string): string
    decreases |s|
  {
    if s == [] then []
    else if s[0] == '(' && |s| > 1 && IsSpace(s[1]) then ['('] + SubOpen(TrimLeft(s[1..]))
    else [s[0]] + SubOpen(s[1..])
  }

  /** The second pass leaves no whitespace after a `(` and keeps the first
      character. */
  lemma {:induction false} SubOpenCleans(s: string)
    ensures NoSpaceAfterOpen(SubOpen(s))
    ensures SubOpen(s) != [] <==> s != []
    ensures SubOpen(s) != [] ==> SubOpen(s)[0] == s[0]
    decreases |s|
  {
    if s == [] {
    } else if s[0] == '(' && |s| > 1 && IsSpace(s[1]) {
      var rest := SubOpen(TrimLeft(s[1..]));
      SubOpenCleans(TrimLeft(s[1..]));
      TrimLeftFacts(s[1..]);
      var r := ['('] + rest;
      forall i | 0 <= i < |r| - 1
        ensures !OpenThenSpace(r, i)
      {
        if i > 0 {
          assert r[i] == rest[i - 1] && r[i + 1] == rest[i - 1 + 1];
          assert !OpenThenSpace(rest, i - 1);
        }
      }
    } else {
      var rest := SubOpen(s[1..]);
      SubOpenCleans(s[1..]);
      var r := [s[0]] + rest;
      forall i | 0 <= i < |r| - 1
        ensures !OpenThenSpace(r, i)
      {
        if i > 0 {
          assert r[i] == rest[i - 1] && r[i + 1] == rest[i - 1 + 1];
          assert !OpenThenSpace(rest, i - 1);
        }
      }
    }
  }

  /** The second pass cannot put whitespace before a `)`: it only deletes
      whitespace that follows a `(`. */
  lemma {:induction false} SubOpenKeepsCloseClean(s: string)
    requires NoSpaceBeforeClose(s)
    ensures NoSpaceBeforeClose(SubOpen(s))
    decreases |s|
  {
    if s == [] {
    } else if s[0] == '(' && |s| > 1 && IsSpace(s[1]) {
      var t := TrimLeft(s[1..]);
      var rest := SubOpen(t);
      TrimLeftFacts(s[1..]);
      assert t == s[|s| - |t|..];
      SuffixKeepsClean(s, |s| - |t|);
      SubOpenKeepsCloseClean(t);
      var r := ['('] + rest;
      forall i | 0 <= i < |r| - 1
        ensures !SpaceThenClose(r, i)
      {
        if i > 0 {
          assert r[i] == rest[i - 1] && r[i + 1] == rest[i - 1 + 1];
          assert !SpaceThenClose(rest, i - 1);
        }
      }
    } else {
      var rest := SubOpen(s[1..]);
      SuffixKeepsClean(s, 1);
      SubOpenKeepsCloseClean(s[1..]);
      SubOpenCleans(s[1..]);
      if IsSpace(s[0]) && |s| > 1 {
        assert s[1] != ')' by { assert !SpaceThenClose(s, 0); }
      }
      var r := [s[0]] + rest;
      forall i | 0 <= i < |r| - 1
        ensures !SpaceThenClose(r, i)
      {
        if i > 0 {
          assert r[i] == rest[i - 1] && r[i + 1] == rest[i - 1 + 1];
          assert !SpaceThenClose(rest, i - 1);
        }
      }
    }
  }

  /** The second pass removes whitespace and nothing else. */
  lemma {:induction false} SubOpenKeepsText(s: string)
    ensures NonSpace(SubOpen(s)) == NonSpace(s) && |SubOpen(s)| <= |s|
    decreases |s|
  {
    if s == [] {
    } else if s[0] == '(' && |s| > 1 && IsSpace(s[1]) {
      var t := TrimLeft(s[1..]);
      SubOpenKeepsText(t);
      NonSpaceSkipsLeadingSpace(s[1..]);
      NonSpaceCons('(', SubOpen(t));
      NonSpaceCons('(', s[1..]);
      assert s == [s[0]] + s[1..];
    } else {
      SubOpenKeepsText(s[1..]);
      NonSpaceCons(s[0], SubOpen(s[1..]));
      NonSpaceCons(s[0], s[1..]);
      assert s == [s[0]] + s[1..];
    }
  }

  /** The second pass leaves a string with no whitespace after a `(` unchanged. */
  lemma {:induction false} SubOpenKeepsClean(s: string)
    ensures NoSpaceAfterOpen(s) ==> SubOpen(s) == s
    decreases |s|
  {
    if s == [] {
    } else if s[0] == '(' && |s| > 1 && IsSpace(s[1]) {
      assert OpenThenSpace(s, 0);
    } else {
      SuffixKeepsClean(s, 1);
      SubOpenKeepsClean(s[1..]);
      assert s == [s[0]] + s[1..];
    }
  }

  /** The two cleanup passes, in the order the interpreter applies them. */
  function Cleanup(s: string): (r: string)
    ensures NoSpaceBeforeClose(r) && NoSpaceAfterOpen(r)
    ensures NonSpace(r) == NonSpace(s) && |r| <= |s|
    ensures NoSpaceBeforeClose(s) && NoSpaceAfterOpen(s) ==> r == s
  {
    SubCloseCleans(s);
    SubCloseKeepsText(s);
    SubOpenCleans(SubClose(s));
    SubOpenKeepsCloseClean(SubClose(s));
    SubOpenKeepsText(SubClose(s));
    CleanInputUnchanged(s);
    SubOpen(SubClose(s))
  }

  lemma CleanInputUnchanged(s: string)
    ensures NoSpaceBeforeClose(s) && NoSpaceAfterOpen(s) ==> SubOpen(SubClose(s)) == s
  {
    if NoSpaceBeforeClose(s) && NoSpaceAfterOpen(s) {
      SubCloseKeepsClean(s);
      SubOpenKeepsClean(s);
    }
  }

  /** Cleaning an already clean string changes nothing. */
  lemma CleanupIdempotent(s: string)
    ensures Cleanup(Cleanup(s)) == Cleanup(s)
  {
  }

  // ---------------------------------------------------------------------------
  // What the cleanup keeps: a join of pieces that neither end in whitespace or
  // `(` nor start with whitespace or `)` is cleaned piece by piece, and the
  // separating spaces survive.

  /** A piece the join separator cannot interact with: not empty, not starting
      with whitespace or `)`, not ending with whitespace or `(`. */
  predicate Tidy(p: string)
  {
    p != [] && !IsSpace(p[0]) && p[0] != ')' && !IsSpace(p[|p| - 1]) && p[|p| - 1] != '('
  }

  /** `lstrip` of a text that ends in a non-space character keeps that
      character. */
  lemma {:induction false} TrimLeftKeepsLast(a: string)
    requires a != [] && !IsSpace(a[|a| - 1])
    ensures TrimLeft(a) != [] && TrimLeft(a)[|TrimLeft(a)| - 1] == a[|a| - 1]
    decreases |a|
  {
    if IsSpace(a[0]) {
      assert a[1..][|a[1..]| - 1] == a[|a| - 1];
      TrimLeftKeepsLast(a[1..]);
    }
  }

  /** `lstrip` of a text that ends in a non-space character never reaches past
      it: whatever follows is kept whole. */
  lemma {:induction false} TrimLeftAppend(a: string, s: string)
    requires a != [] && !IsSpace(a[|a| - 1])
    ensures TrimLeft(a + s) == TrimLeft(a) + s
    ensures TrimLeft(a) != [] && TrimLeft(a)[|TrimLeft(a)| - 1] == a[|a| - 1]
    decreases |a|
  {
    TrimLeftKeepsLast(a);
    if IsSpace(a[0]) {
      assert (a + s)[0] == a[0];
      assert (a + s)[1..] == a[1..] + s;
      assert a[1..][|a[1..]| - 1] == a[|a| - 1];
      TrimLeftAppend(a[1..], s);
    } else {
      assert (a + s)[0] == a[0];
    }
  }

  /** The first pass over a text that ends in a non-space character, followed
      by more text, treats the two parts separately. */
  lemma {:induction false} SubCloseAppend(a: string, s: string)
    requires a == [] || !IsSpace(a[|a| - 1])
    ensures SubClose(a + s) == SubClose(a) + SubClose(s)
    decreases |a|
  {
    if a == [] {
      assert a + s == s;
    } else if IsSpace(a[0]) {
      TrimLeftAppend(a, s);
      var t := TrimLeft(a);
      assert t == TrimLeft(a[1..]);
      if t[0] == ')' {
        if |t| > 1 {
          assert t[1..][|t[1..]| - 1] == t[|t| - 1];
        }
        SubCloseAppend(t[1..], s);
        SubCloseRunThenRest(a, s);
        SubCloseRunHead(a);
        CloseStep(SubClose(a + s), SubClose(a), SubClose(t[1..]), SubClose(t[1..] + s), SubClose(s));
      } else {
        assert a[1..][|a[1..]| - 1] == a[|a| - 1];
        SubCloseAppend(a[1..], s);
        SubCloseStepCopy(a, s);
      }
    } else {
      if |a| > 1 {
        assert a[1..][|a[1..]| - 1] == a[|a| - 1];
      }
      SubCloseAppend(a[1..], s);
      SubCloseStepCopy(a, s);
    }
  }

  /** The sequence algebra behind one step of `SubCloseAppend`: a `)`
      followed by `x + r` is the `)` followed by `x`, then `r`. */
  lemma CloseStep(w: string, l: string, x: string, y: string, r: string)
    requires w == [')'] + y && y == x + r && l == [')'] + x
    ensures w == l + r
  {
  }

  /** A whitespace run that ends at a `)` becomes that `)`. */
  lemma SubCloseRunHead(a: string)
    requires a != [] && IsSpace(a[0]) && TrimLeft(a) != [] && TrimLeft(a)[0] == ')'
    ensures SubClose(a) == [')'] + SubClose(TrimLeft(a)[1..])
  {
  }

  lemma SubCloseRunThenRest(a: string, s: string)
    requires a != [] && IsSpace(a[0]) && TrimLeft(a) != [] && TrimLeft(a)[0] == ')'
    requires TrimLeft(a + s) == TrimLeft(a) + s
    ensures SubClose(a + s) == [')'] + SubClose(TrimLeft(a)[1..] + s)
  {
    var t := TrimLeft(a);
    var w := a + s;
    assert w[0] == a[0];
    assert (t + s)[0] == t[0];
    assert TrimLeft(w)[1..] == t[1..] + s;
  }

  /** One step of `SubCloseAppend`: a character of `a` that does not start a
      whitespace run ending at `)` is copied with or without what follows. */
  lemma SubCloseStepCopy(a: string, s: string)
    requires a != [] && !(IsSpace(a[0]) && TrimLeft(a) != [] && TrimLeft(a)[0] == ')')
    requires IsSpace(a[0]) ==> TrimLeft(a) != [] && TrimLeft(a + s) == TrimLeft(a) + s
    requires SubClose(a[1..] + s) == SubClose(a[1..]) + SubClose(s)
    ensures SubClose(a + s) == SubClose(a) + SubClose(s)
  {
    assert (a + s)[0] == a[0];
    assert (a + s)[1..] == a[1..] + s;
    if IsSpace(a[0]) {
      assert (TrimLeft(a) + s)[0] == TrimLeft(a)[0];
    }
  }

  /** The first pass keeps a final non-space character. */
  lemma {:induction false} SubCloseLast(a: string)
    requires a != [] && !IsSpace(a[|a| - 1])
    ensures SubClose(a) != [] && SubClose(a)[|SubClose(a)| - 1] == a[|a| - 1]
    decreases |a|
  {
    if IsSpace(a[0]) {
      TrimLeftKeepsLast(a);
      var t := TrimLeft(a);
      assert t == TrimLeft(a[1..]);
      if t[0] == ')' {
        assert SubClose(a) == [')'] + SubClose(t[1..]);
        if |t| > 1 {
          assert t[1..][|t[1..]| - 1] == t[|t| - 1];
          SubCloseLast(t[1..]);
        }
      } else {
        assert SubClose(a) == [a[0]] + SubClose(a[1..]);
        assert a[1..][|a[1..]| - 1] == a[|a| - 1];
        SubCloseLast(a[1..]);
      }
    } else {
      assert SubClose(a) == [a[0]] + SubClose(a[1..]);
      if |a| > 1 {
        assert a[1..][|a[1..]| - 1] == a[|a| - 1];
        SubCloseLast(a[1..]);
      }
    }
  }

  /** The second pass over a text that ends in neither whitespace nor `(`,
      followed by more text, treats the two parts separately. */
  lemma {:induction false} SubOpenAppend(x: string, s: string)
    requires x == [] || (!IsSpace(x[|x| - 1]) && x[|x| - 1] != '(')
    ensures SubOpen(x + s) == SubOpen(x) + SubOpen(s)
    decreases |x|
  {
    if x == [] {
      assert x + s == s;
    } else if x[0] == '(' && |x| > 1 && IsSpace(x[1]) {
      assert x[1..][|x[1..]| - 1] == x[|x| - 1];
      TrimLeftAppend(x[1..], s);
      SubOpenAppend(TrimLeft(x[1..]), s);
      SubOpenStepJoin(x, s);
    } else {
      if |x| > 1 {
        assert x[1..][|x[1..]| - 1] == x[|x| - 1];
      }
      SubOpenAppend(x[1..], s);
      SubOpenStepCopy(x, s);
    }
  }

  /** One step of `SubOpenAppend`: a `(` of `x` followed by whitespace drops
      the run the same way with or without what follows. */
  lemma SubOpenStepJoin(x: string, s: string)
    requires |x| > 1 && x[0] == '(' && IsSpace(x[1])
    requires TrimLeft(x[1..] + s) == TrimLeft(x[1..]) + s
    requires SubOpen(TrimLeft(x[1..]) + s) == SubOpen(TrimLeft(x[1..])) + SubOpen(s)
    ensures SubOpen(x + s) == SubOpen(x) + SubOpen(s)
  {
    assert (x + s)[0] == x[0] && (x + s)[1] == x[1];
    assert (x + s)[1..] == x[1..] + s;
  }

  /** One step of `SubOpenAppend`: any other character of `x` is copied with
      or without what follows. */
  lemma SubOpenStepCopy(x: string, s: string)
    requires x != [] && !(x[0] == '(' && |x| > 1 && IsSpace(x[1]))
    requires |x| == 1 ==> x[0] != '('
    requires SubOpen(x[1..] + s) == SubOpen(x[1..]) + SubOpen(s)
    ensures SubOpen(x + s) == SubOpen(x) + SubOpen(s)
  {
    assert (x + s)[0] == x[0];
    assert (x + s)[1..] == x[1..] + s;
    if |x| > 1 {
      assert (x + s)[1] == x[1];
    }
  }

  /** The second pass keeps a final non-space character. */
  lemma {:induction false} SubOpenLast(x: string)
    requires x != [] && !IsSpace(x[|x| - 1])
    ensures SubOpen(x) != [] && SubOpen(x)[|SubOpen(x)| - 1] == x[|x| - 1]
    decreases |x|
  {
    if x[0] == '(' && |x| > 1 && IsSpace(x[1]) {
      assert x[1..][|x[1..]| - 1] == x[|x| - 1];
      TrimLeftKeepsLast(x[1..]);
      assert SubOpen(x) == ['('] + SubOpen(TrimLeft(x[1..]));
      SubOpenLast(TrimLeft(x[1..]));
    } else {
      assert SubOpen(x) == [x[0]] + SubOpen(x[1..]);
      if |x| > 1 {
        assert x[1..][|x[1..]| - 1] == x[|x| - 1];
        SubOpenLast(x[1..]);
      }
    }
  }

  /** Cleanup keeps a tidy piece tidy at its ends: the first and the last
      character survive both passes. */
  lemma TidyEnds(p: string)
    requires Tidy(p)
    ensures var c := Cleanup(p);
      c != [] && c[0] == p[0] && c[|c| - 1] == p[|p| - 1]
  {
    SubCloseLast(p);
    SubOpenLast(SubClose(p));
    SubOpenCleans(SubClose(p));
  }

  /** The first pass keeps a separating space that neither follows
      whitespace nor precedes whitespace or `)`. */
  lemma SubCloseSpace(a: string, b: string)
    requires a == [] || !IsSpace(a[|a| - 1])
    requires b != [] && !IsSpace(b[0]) && b[0] != ')'
    ensures SubClose(a + " " + b) == SubClose(a) + " " + SubClose(b)
  {
    var sb := [' '] + b;
    assert a + " " + b == a + sb;
    SubCloseAppend(a, sb);
    assert TrimLeft(b) == b;
    assert TrimLeft(sb) == b;
    assert sb[1..] == b;
    assert SubClose(sb) == [' '] + SubClose(b);
  }

  /** The second pass keeps a separating space that does not follow `(` or
      whitespace. */
  lemma SubOpenSpace(x: string, y: string)
    requires x == [] || (!IsSpace(x[|x| - 1]) && x[|x| - 1] != '(')
    ensures SubOpen(x + " " + y) == SubOpen(x) + " " + SubOpen(y)
  {
    var sy := [' '] + y;
    assert x + " " + y == x + sy;
    SubOpenAppend(x, sy);
    assert sy[1..] == y;
    assert SubOpen(sy) == [' '] + SubOpen(y);
  }

  /** The space between two tidy pieces survives the cleanup, and each piece
      is cleaned on its own. */
  lemma CleanupJoin(a: string, b: string)
    requires Tidy(a) && Tidy(b)
    ensures Cleanup(a + " " + b) == Cleanup(a) + " " + Cleanup(b)
  {
    SubCloseSpace(a, b);
    SubCloseLast(a);
    SubOpenSpace(SubClose(a), SubClose(b));
    assert Cleanup(a + " " + b) == SubOpen(SubClose(a + " " + b));
    assert Cleanup(a) == SubOpen(SubClose(a));
    assert Cleanup(b) == SubOpen(SubClose(b));
  }

  /** `' '.join` of tidy pieces, cleaned, is the join of the cleaned pieces:
      the cleanup touches only the whitespace inside each piece. */
  lemma {:induction false} CleanupJoinAll(parts: seq<string>)
    requires forall i :: 0 <= i < |parts| ==> Tidy(parts[i])
    ensures Cleanup(Join(parts)) == Join(seq(|parts|, i requires 0 <= i < |parts| => Cleanup(parts[i])))
  {
    var cleaned := seq(|parts|, i requires 0 <= i < |parts| => Cleanup(parts[i]));
    if |parts| == 0 {
      assert Cleanup([]) == [];
    } else if |parts| == 1 {
      assert Join(cleaned) == cleaned[0];
    } else {
      var rest := parts[1..];
      var tail := seq(|rest|, i requires 0 <= i < |rest| => Cleanup(rest[i]));
      CleanupJoinAll(rest);
      JoinTidy(rest);
      assert Tidy(parts[0]);
      CleanupJoin(parts[0], Join(rest));
      assert cleaned[1..] == tail;
      assert Join(parts) == parts[0] + " " + Join(rest);
      assert Join(cleaned) == cleaned[0] + " " + Join(cleaned[1..]);
    }
  }

  /** The join of tidy pieces is tidy. */
  lemma {:induction false} JoinTidy(parts: seq<string>)
    requires |parts| > 0 && forall i :: 0 <= i < |parts| ==> Tidy(parts[i])
    ensures Tidy(Join(parts))
  {
    if |parts| > 1 {
      JoinTidy(parts[1..]);
      assert Tidy(parts[1..][0]);
      var j := parts[0] + " " + Join(parts[1..]);
      assert j[0] == parts[0][0];
      assert j[|j| - 1] == Join(parts[1..])[|Join(parts[1..])| - 1];
    }
  }
}
