/**
 * The OCR text normalizer `clean_and_normalize_text` of src/embed.py: four
 * regular-expression substitutions and a final `strip()`, each written as a
 * left-to-right scanner that deletes or rewrites what the expression matches.
 *
 * Only ASCII digits and ASCII whitespace are modelled for `\d` and `\s`.
 */
module Normalizer {
  import opened Util
  import opened Text

  /** The symbols of the artifact class `[‘"“”'`~!@#$%^&*_+=|{}[]<>/\\]`. */
  predicate IsArtifactSymbol(c: char)
  {
    c == '\U{2018}' || c == '\U{201C}' || c == '\U{201D}' || c in "\"'`~!@#$%^&*_+=|{}[]<>/\\"
  }

  /** Printable ASCII, the class `[\x20-\x7E]`. */
  predicate IsPrintable(c: char)
  {
    0x20 <= c as int <= 0x7E
  }

  function DigitRunLength(s: string): (n: nat)
    ensures n <= |s|
    ensures forall i :: 0 <= i < n ==> IsDigit(s[i])
    ensures n < |s| ==> !IsDigit(s[n])
  {
    if s != [] && IsDigit(s[0]) then 1 + DigitRunLength(s[1..]) else 0
  }

  /** `s` starts with a match of `Page \d`. */
  predicate PageMarkerAt(s: string)
  {
    |s| > 5 && s[..5] == "Page " && IsDigit(s[5])
  }

  /**
   * Length of the match of `Page \d+:?` at the start of `s`, or 0 if there is
   * none: the digits are taken greedily, then an optional colon.
   */
  function PageMarkerLength(s: string): (n: nat)
    ensures n <= |s|
    ensures n > 0 <==> PageMarkerAt(s)
  {
    if PageMarkerAt(s) then
      var d := 5 + DigitRunLength(s[5..]);
      if d < |s| && s[d] == ':' then d + 1 else d
    else 0
  }

  /**
   * Step 1, `re.sub(r'(Page \d+:?|[symbols]+)', '', text)`. Deleting a run of
   * symbols one symbol at a time gives the same text as deleting the run.
   */
  function RemoveArtifacts(s: string): (r: string)
    ensures forall c :: c in r ==> c in s && !IsArtifactSymbol(c)
    decreases |s|
  {
    if s == [] then []
    else
      var m := PageMarkerLength(s);
      if m > 0 then RemoveArtifacts(s[m..])
      else if IsArtifactSymbol(s[0]) then RemoveArtifacts(s[1..])
      else [s[0]] + RemoveArtifacts(s[1..])
  }

  /** A page header `Page <n>:` vanishes whatever follows it. */
  lemma PageHeaderRemoved(n: nat, rest: string)
    ensures RemoveArtifacts("Page " + NatToString(n) + ":" + rest) == RemoveArtifacts(rest)
  {
    var digits := NatToString(n);
    var s := "Page " + digits + ":" + rest;
    assert s[..5] == "Page ";
    assert s[5..] == digits + ":" + rest;
    DigitRunPrefix(digits, ":" + rest);
    assert |s| > 5 && IsDigit(s[5]) by { assert s[5] == digits[0]; }
    assert s[5 + |digits|] == ':';
    assert PageMarkerLength(s) == 5 + |digits| + 1;
    assert s[5 + |digits| + 1..] == rest;
  }

  lemma {:induction false} DigitRunPrefix(digits: string, rest: string)
    requires forall i :: 0 <= i < |digits| ==> IsDigit(digits[i])
    requires rest == [] || !IsDigit(rest[0])
    ensures DigitRunLength(digits + rest) == |digits|
  {
    if digits != [] {
      assert (digits + rest)[1..] == digits[1..] + rest;
      DigitRunPrefix(digits[1..], rest);
    }
  }

  function SpaceRunLength(s: string): (n: nat)
    ensures n <= |s|
    ensures forall i :: 0 <= i < n ==> IsSpace(s[i])
    ensures n < |s| ==> !IsSpace(s[n])
  {
    if s != [] && IsSpace(s[0]) then 1 + SpaceRunLength(s[1..]) else 0
  }

  /** No two newlines stand next to each other. */
  predicate NoAdjacentNewlines(s: string)
  {
    forall i :: 0 <= i < |s| - 1 ==> !(s[i] == '\n' && s[i + 1] == '\n')
  }

  /** What step 2 puts in place of a maximal whitespace run. */
  function RunReplacement(run: string): (piece: string)
    ensures run != [] ==> piece != []
    ensures forall c :: c in piece ==> c in run
    ensures NoAdjacentNewlines(piece)
  {
    if '\n' in run then "\n" else run
  }

  /**
   * Step 2, `re.sub(r'\s*\n\s*', '\n', text)`: every maximal whitespace run
   * that contains a newline becomes a single newline; other runs stay.
   */
  function CollapseNewlines(s: string): (r: string)
    ensures forall c :: c in r ==> c in s
    ensures s != [] && !IsSpace(s[0]) ==> r != [] && r[0] == s[0]
    ensures NoAdjacentNewlines(r)
    decreases |s|
  {
    if s == [] then []
    else if IsSpace(s[0]) then
      var k := SpaceRunLength(s);
      var piece := RunReplacement(s[..k]);
      var rest := CollapseNewlines(s[k..]);
      assert piece[|piece| - 1] != '\n' || rest == [] || rest[0] != '\n';
      NoAdjacentNewlinesConcat(piece, rest);
      piece + rest
    else
      var rest := CollapseNewlines(s[1..]);
      NoAdjacentNewlinesConcat([s[0]], rest);
      [s[0]] + rest
  }

  lemma NoAdjacentNewlinesConcat(a: string, b: string)
    requires NoAdjacentNewlines(a) && NoAdjacentNewlines(b)
    requires a == [] || b == [] || a[|a| - 1] != '\n' || b[0] != '\n'
    ensures NoAdjacentNewlines(a + b)
  {
    var s := a + b;
    forall i | 0 <= i < |s| - 1 ensures !(s[i] == '\n' && s[i + 1] == '\n') {
      if i < |a| - 1 {
        assert s[i] == a[i] && s[i + 1] == a[i + 1];
      } else if i >= |a| {
        assert s[i] == b[i - |a|] && s[i + 1] == b[i - |a| + 1];
      }
    }
  }

  function NewlineRunLength(s: string): (n: nat)
    ensures n <= |s|
  {
    if s != [] && s[0] == '\n' then 1 + NewlineRunLength(s[1..]) else 0
  }

  /** Step 3, `re.sub(r'\n{2,}', '\n\n', text)`. */
  function CollapseBlankLines(s: string): string
    decreases |s|
  {
    if s == [] then []
    else if s[0] == '\n' then
      var k := NewlineRunLength(s);
      (if k >= 2 then "\n\n" else "\n") + CollapseBlankLines(s[k..])
    else [s[0]] + CollapseBlankLines(s[1..])
  }

  /** After step 2 there is no run of two newlines left, so step 3 changes nothing. */
  lemma {:induction false} BlankLinesAlreadyCollapsed(s: string)
    requires NoAdjacentNewlines(s)
    ensures CollapseBlankLines(s) == s
    decreases |s|
  {
    if s != [] {
      assert NoAdjacentNewlines(s[1..]) by {
        forall i | 0 <= i < |s[1..]| - 1 ensures !(s[1..][i] == '\n' && s[1..][i + 1] == '\n') {
          assert s[1..][i] == s[i + 1] && s[1..][i + 1] == s[i + 2];
        }
      }
      if s[0] == '\n' {
        assert NewlineRunLength(s) == 1 by {
          assert |s| == 1 || s[1] != '\n';
        }
      }
      BlankLinesAlreadyCollapsed(s[1..]);
    }
  }

  /** Step 4, `re.sub(r'[^\x20-\x7E]', '', text)`: this also deletes every newline. */
  function KeepPrintable(s: string): string
  {
    if s == [] then [] else (if IsPrintable(s[0]) then [s[0]] else []) + KeepPrintable(s[1..])
  }

  lemma {:induction false} KeepPrintableOutput(s: string)
    ensures forall c :: c in KeepPrintable(s) ==> c in s && IsPrintable(c)
  {
    if s != [] {
      KeepPrintableOutput(s[1..]);
    }
  }

  /** Step 4 keeps every printable character: printable text is unchanged. */
  lemma {:induction false} KeepPrintableKeeps(s: string)
    requires forall c :: c in s ==> IsPrintable(c)
    ensures KeepPrintable(s) == s
  {
    if s != [] {
      assert s[0] in s;
      assert forall c :: c in s[1..] ==> c in s;
      KeepPrintableKeeps(s[1..]);
      assert [s[0]] + s[1..] == s;
    }
  }

  /** Step 4 works character by character, so it distributes over concatenation. */
  lemma {:induction false} KeepPrintableConcat(a: string, b: string)
    ensures KeepPrintable(a + b) == KeepPrintable(a) + KeepPrintable(b)
  {
    if a == [] {
      assert a + b == b;
    } else {
      assert (a + b)[0] == a[0];
      assert (a + b)[1..] == a[1..] + b;
      KeepPrintableConcat(a[1..], b);
      var head := if IsPrintable(a[0]) then [a[0]] else [];
      ConcatAssoc(head, KeepPrintable(a[1..]), KeepPrintable(b));
    }
  }

  /**
   * Lines are fused in general: a whitespace run holding a newline, between
   * non-space text, leaves nothing at all after steps 2 to 4, so the two sides
   * are joined with no separator.
   */
  lemma LinesFusedAround(a: string, ws: string, b: string)
    requires a == [] || !IsSpace(a[|a| - 1])
    requires AllSpace(ws) && '\n' in ws
    requires b == [] || !IsSpace(b[0])
    ensures KeepPrintable(CollapseBlankLines(CollapseNewlines(a + ws + b))) ==
      KeepPrintable(CollapseNewlines(a)) + KeepPrintable(CollapseNewlines(b))
  {
    var x := CollapseNewlines(a);
    var y := CollapseNewlines(b);
    CollapseNewlinesSplits(a, ws, b);
    BlankLinesAlreadyCollapsed(CollapseNewlines(a + ws + b));
    KeepPrintableConcat(x + "\n", y);
    KeepPrintableConcat(x, "\n");
    assert KeepPrintable("\n") == [];
    assert KeepPrintable(x) + [] == KeepPrintable(x);
  }

  /** `clean_and_normalize_text`: the four substitutions, then `strip()`. */
  function Normalize(text: string): string
  {
    Strip(KeepPrintable(CollapseBlankLines(CollapseNewlines(RemoveArtifacts(text)))))
  }

  /**
   * The normalized text is printable ASCII only, has no newline, no
   * surrounding space, and none of the artifact symbols.
   */
  lemma NormalizeOutput(text: string)
    ensures var r := Normalize(text);
      && (forall c :: c in r ==> IsPrintable(c) && c != '\n' && !IsArtifactSymbol(c))
      && (r == [] || (r[0] != ' ' && r[|r| - 1] != ' '))
  {
    var r := Normalize(text);
    var p := KeepPrintable(CollapseBlankLines(CollapseNewlines(RemoveArtifacts(text))));
    BlankLinesAlreadyCollapsed(CollapseNewlines(RemoveArtifacts(text)));
    KeepPrintableOutput(CollapseNewlines(RemoveArtifacts(text)));
    StripInfix(p);
  }

  /** What `strip()` keeps is a piece of its input. */
  lemma {:induction false} StripInfix(s: string)
    ensures forall c :: c in Strip(s) ==> c in s
  {
    TrimRightInfix(s);
    TrimLeftInfix(TrimRight(s));
  }

  lemma {:induction false} TrimLeftInfix(s: string)
    ensures forall c :: c in TrimLeft(s) ==> c in s
  {
    if s != [] && IsSpace(s[0]) {
      TrimLeftInfix(s[1..]);
    }
  }

  lemma {:induction false} TrimRightInfix(s: string)
    ensures forall c :: c in TrimRight(s) ==> c in s
  {
    if s != [] && IsSpace(s[|s| - 1]) {
      TrimRightInfix(s[..|s| - 1]);
    }
  }

  /**
   * Text that is already clean comes out unchanged: printable, with no
   * newline, no artifact symbol, no `Page <digit>` and no surrounding space.
   */
  lemma NormalizeKeepsCleanText(s: string)
    requires forall c :: c in s ==> IsPrintable(c) && c != '\n' && !IsArtifactSymbol(c)
    requires forall i :: 0 <= i < |s| ==> !PageMarkerAt(s[i..])
    requires s == [] || (!IsSpace(s[0]) && !IsSpace(s[|s| - 1]))
    ensures Normalize(s) == s
  {
    RemoveArtifactsNothingToDo(s);
    CollapseNewlinesNoNewline(s);
    BlankLinesAlreadyCollapsed(CollapseNewlines(s));
    KeepPrintableKeeps(s);
    StripUnchanged(s);
  }

  /**
   * Because every newline is gone, `text.split('\n\n')` of the normalized text
   * is always one single paragraph: the whole text.
   */
  lemma NormalizedIsOneParagraph(text: string)
    ensures SplitOn(Normalize(text), "\n\n") == [Normalize(text)]
  {
    NormalizeOutput(text);
    SplitAbsent(Normalize(text), "\n\n");
  }

  /**
   * Text without artifact symbols and without an occurrence of `Page <digit>`
   * has nothing for step 1 to delete.
   */
  lemma {:induction false} RemoveArtifactsNothingToDo(s: string)
    requires forall c :: c in s ==> !IsArtifactSymbol(c)
    requires forall i :: 0 <= i < |s| ==> !PageMarkerAt(s[i..])
    ensures RemoveArtifacts(s) == s
    decreases |s|
  {
    if s != [] {
      assert s[0] in s;
      assert s[0..] == s;
      forall i | 0 <= i < |s[1..]| ensures !PageMarkerAt(s[1..][i..]) {
        assert s[1..][i..] == s[i + 1..];
      }
      RemoveArtifactsNothingToDo(s[1..]);
      assert s == [s[0]] + s[1..];
    }
  }

  /**
   * Text with no newline has no whitespace run for step 2 to rewrite: every
   * run of spaces stays as it is.
   */
  lemma {:induction false} CollapseNewlinesNoNewline(s: string)
    requires '\n' !in s
    ensures CollapseNewlines(s) == s
    decreases |s|
  {
    if s != [] {
      if IsSpace(s[0]) {
        var k := SpaceRunLength(s);
        assert '\n' !in s[..k];
        CollapseNewlinesNoNewline(s[k..]);
        assert s[..k] + s[k..] == s;
      } else {
        CollapseNewlinesNoNewline(s[1..]);
        assert [s[0]] + s[1..] == s;
      }
    }
  }

  /** A whitespace run that stops inside `x` stops there in `x + y` too. */
  lemma {:induction false} SpaceRunWithin(x: string, y: string)
    requires SpaceRunLength(x) < |x|
    ensures SpaceRunLength(x + y) == SpaceRunLength(x)
    decreases |x|
  {
    if IsSpace(x[0]) {
      assert (x + y)[1..] == x[1..] + y;
      SpaceRunWithin(x[1..], y);
    }
  }

  /** A run of whitespace followed by a non-space is one whole run. */
  lemma {:induction false} SpaceRunWhole(ws: string, y: string)
    requires AllSpace(ws) && (y == [] || !IsSpace(y[0]))
    ensures SpaceRunLength(ws + y) == |ws|
    decreases |ws|
  {
    if ws != [] {
      assert (ws + y)[1..] == ws[1..] + y;
      SpaceRunWhole(ws[1..], y);
    } else {
      assert ws + y == y;
    }
  }

  /** Step 2 on a whitespace run and what follows it: the run becomes one newline. */
  lemma CollapseNewlinesAtRun(ws: string, b: string)
    requires AllSpace(ws) && '\n' in ws
    requires b == [] || !IsSpace(b[0])
    ensures CollapseNewlines(ws + b) == "\n" + CollapseNewlines(b)
  {
    var s := ws + b;
    SpaceRunWhole(ws, b);
    assert s[..|ws|] == ws && s[|ws|..] == b;
  }

  /** A whitespace run at the start of text that ends in a non-space stops inside it. */
  lemma SpaceRunEndsInside(a: string)
    requires a != [] && !IsSpace(a[|a| - 1])
    ensures SpaceRunLength(a) < |a|
  {
  }

  /**
   * Step 2 on text that opens with a whitespace run ending inside `a`: the
   * run is rewritten the same way whatever follows `a`.
   */
  lemma CollapseNewlinesLeadingRun(a: string, t: string)
    requires a != [] && IsSpace(a[0]) && SpaceRunLength(a) < |a|
    ensures var k := SpaceRunLength(a);
      && CollapseNewlines(a) == RunReplacement(a[..k]) + CollapseNewlines(a[k..])
      && CollapseNewlines(a + t) == RunReplacement(a[..k]) + CollapseNewlines(a[k..] + t)
  {
    var k := SpaceRunLength(a);
    SpaceRunWithin(a, t);
    assert (a + t)[..k] == a[..k];
    assert (a + t)[k..] == a[k..] + t;
  }

  /** Step 2 keeps a leading non-space character whatever follows it. */
  lemma CollapseNewlinesLeadingChar(a: string, t: string)
    requires a != [] && !IsSpace(a[0])
    ensures CollapseNewlines(a) == [a[0]] + CollapseNewlines(a[1..])
    ensures CollapseNewlines(a + t) == [a[0]] + CollapseNewlines(a[1..] + t)
  {
    assert (a + t)[0] == a[0];
    assert (a + t)[1..] == a[1..] + t;
  }

  /**
   * No whitespace run crosses the end of text that ends in a non-space, so
   * step 2 rewrites such text and what follows it independently.
   */
  lemma {:induction false} CollapseNewlinesConcat(a: string, t: string)
    requires a == [] || !IsSpace(a[|a| - 1])
    ensures CollapseNewlines(a + t) == CollapseNewlines(a) + CollapseNewlines(t)
    decreases |a|, 1
  {
    if a == [] {
      assert a + t == t;
    } else if IsSpace(a[0]) {
      CollapseNewlinesConcatAfterRun(a, t);
    } else {
      CollapseNewlinesConcatAfterChar(a, t);
    }
  }

  lemma {:induction false} CollapseNewlinesConcatAfterRun(a: string, t: string)
    requires a != [] && IsSpace(a[0]) && !IsSpace(a[|a| - 1])
    ensures CollapseNewlines(a + t) == CollapseNewlines(a) + CollapseNewlines(t)
    decreases |a|, 0
  {
    var k := SpaceRunLength(a);
    SpaceRunEndsInside(a);
    assert a[k..][|a[k..]| - 1] == a[|a| - 1];
    CollapseNewlinesLeadingRun(a, t);
    CollapseNewlinesConcat(a[k..], t);
    ConcatAssoc(RunReplacement(a[..k]), CollapseNewlines(a[k..]), CollapseNewlines(t));
  }

  lemma {:induction false} CollapseNewlinesConcatAfterChar(a: string, t: string)
    requires a != [] && !IsSpace(a[0]) && !IsSpace(a[|a| - 1])
    ensures CollapseNewlines(a + t) == CollapseNewlines(a) + CollapseNewlines(t)
    decreases |a|, 0
  {
    assert a[1..] == [] || a[1..][|a[1..]| - 1] == a[|a| - 1];
    CollapseNewlinesLeadingChar(a, t);
    CollapseNewlinesConcat(a[1..], t);
    ConcatAssoc([a[0]], CollapseNewlines(a[1..]), CollapseNewlines(t));
  }

  /**
   * Step 2 works line by line: a whitespace run holding a newline, between
   * non-space text on either side, becomes exactly one newline, and the text
   * before and after it is collapsed on its own.
   */
  lemma CollapseNewlinesSplits(a: string, ws: string, b: string)
    requires a == [] || !IsSpace(a[|a| - 1])
    requires AllSpace(ws) && '\n' in ws
    requires b == [] || !IsSpace(b[0])
    ensures CollapseNewlines(a + ws + b) == CollapseNewlines(a) + "\n" + CollapseNewlines(b)
  {
    ConcatAssoc(a, ws, b);
    CollapseNewlinesConcat(a, ws + b);
    CollapseNewlinesAtRun(ws, b);
    ConcatAssoc(CollapseNewlines(a), "\n", CollapseNewlines(b));
  }

  lemma CollapseNewlinesKeepsBareBreak()
    ensures CollapseNewlines("ab\ncd") == "ab\ncd"
  {
    assert SpaceRunLength("\ncd") == 1;
    assert CollapseNewlines("cd") == "cd";
    assert CollapseNewlines("\ncd") == "\ncd";
    assert "ab\ncd"[2..] == "\ncd";
  }

  lemma CollapseNewlinesTrimsSpacedBreak()
    ensures CollapseNewlines("a \n b") == "a\nb"
  {
    assert SpaceRunLength(" \n b") == 3;
    assert " \n b"[3..] == "b";
    assert CollapseNewlines(" \n b") == "\nb";
  }

  lemma KeepPrintableExamples()
    ensures KeepPrintable("ab\ncd") == "abcd"
    ensures KeepPrintable("a\nb") == "ab"
  {
    assert KeepPrintable("cd") == "cd";
  }

  /**
   * Words on adjacent lines are fused: the newline between them is dropped,
   * not turned into a space.
   */
  lemma LinesFused()
    ensures Normalize("ab\ncd") == "abcd"
  {
    calc {
      Normalize("ab\ncd");
      { RemoveArtifactsNothingToDo("ab\ncd"); }
      Strip(KeepPrintable(CollapseBlankLines(CollapseNewlines("ab\ncd"))));
      { CollapseNewlinesKeepsBareBreak(); }
      Strip(KeepPrintable(CollapseBlankLines("ab\ncd")));
      { BlankLinesAlreadyCollapsed("ab\ncd"); }
      Strip(KeepPrintable("ab\ncd"));
      { KeepPrintableExamples(); }
      Strip("abcd");
      { StripUnchanged("abcd"); }
      "abcd";
    }
  }

  /** The whole whitespace run around a newline goes, spaces included. */
  lemma SpacedLinesFused()
    ensures Normalize("a \n b") == "ab"
  {
    calc {
      Normalize("a \n b");
      { RemoveArtifactsNothingToDo("a \n b"); }
      Strip(KeepPrintable(CollapseBlankLines(CollapseNewlines("a \n b"))));
      { CollapseNewlinesTrimsSpacedBreak(); }
      Strip(KeepPrintable(CollapseBlankLines("a\nb")));
      { BlankLinesAlreadyCollapsed("a\nb"); }
      Strip(KeepPrintable("a\nb"));
      { KeepPrintableExamples(); }
      Strip("ab");
      { StripUnchanged("ab"); }
      "ab";
    }
  }
}
