/**
 * String primitives of Python's `str` that the pipeline relies on, over
 * `seq<char>`: whitespace, `strip()`, `split()` word counting, `" ".join`,
 * `split(sep)`, `replace`, and `str()` of an integer.
 *
 * Whitespace is Python's `str.isspace()` restricted to ASCII (space, \t, \n,
 * \v, \f, \r and the separators 0x1C-0x1F); the wider Unicode spaces are not
 * modelled.
 */
module Text {
  import opened Util

  predicate IsSpace(c: char)
  {
    c == ' ' || 9 <= c as int <= 13 || 28 <= c as int <= 31
  }

  predicate IsDigit(c: char)
  {
    '0' <= c <= '9'
  }

  predicate AllSpace(s: string)
  {
    forall i :: 0 <= i < |s| ==> IsSpace(s[i])
  }

  // ---------------------------------------------------------------------------
  // strip()

  function TrimLeft(s: string): string
  {
    if s != [] && IsSpace(s[0]) then TrimLeft(s[1..]) else s
  }

  function TrimRight(s: string): string
  {
    if s != [] && IsSpace(s[|s| - 1]) then TrimRight(s[..|s| - 1]) else s
  }

  /** `str.strip()`: the result neither starts nor ends with whitespace. */
  function Strip(s: string): (r: string)
    ensures r == [] || (!IsSpace(r[0]) && !IsSpace(r[|r| - 1]))
  {
    TrimRightEnd(s);
    TrimLeftKeepsRightEnd(TrimRight(s));
    TrimLeft(TrimRight(s))
  }

  lemma {:induction false} TrimLeftKeepsRightEnd(s: string)
    requires s == [] || !IsSpace(s[|s| - 1])
    ensures var r := TrimLeft(s); r == [] || (!IsSpace(r[0]) && !IsSpace(r[|r| - 1]))
  {
    if s != [] && IsSpace(s[0]) {
      TrimLeftKeepsRightEnd(s[1..]);
    }
  }

  lemma {:induction false} TrimRightEnd(s: string)
    ensures var r := TrimRight(s); r == [] || !IsSpace(r[|r| - 1])
  {
    if s != [] && IsSpace(s[|s| - 1]) {
      TrimRightEnd(s[..|s| - 1]);
    }
  }

  /** A string without surrounding whitespace is its own `strip()`. */
  lemma StripUnchanged(s: string)
    requires s == [] || (!IsSpace(s[0]) && !IsSpace(s[|s| - 1]))
    ensures Strip(s) == s
  {
  }

  // ---------------------------------------------------------------------------
  // len(s.split()): the number of maximal runs of non-whitespace

  /** Position `i` begins a word: a non-space with a space (or nothing) before it. */
  predicate WordStart(s: string, i: int)
    requires 0 <= i < |s|
  {
    !IsSpace(s[i]) && (i == 0 || IsSpace(s[i - 1]))
  }

  function WordCount(s: string): nat
  {
    if s == [] then 0 else WordCount(s[..|s| - 1]) + (if WordStart(s, |s| - 1) then 1 else 0)
  }

  /** Word counts add up when whitespace separates the two parts. */
  lemma {:induction false} WordCountConcat(a: string, b: string)
    requires a == [] || b == [] || IsSpace(a[|a| - 1]) || IsSpace(b[0])
    ensures WordCount(a + b) == WordCount(a) + WordCount(b)
  {
    if b == [] {
      assert a + b == a;
    } else {
      var b' := b[..|b| - 1];
      assert (a + b)[..|a + b| - 1] == a + b';
      WordCountConcat(a, b');
    }
  }

  lemma {:induction false} WordCountAllSpace(s: string)
    requires AllSpace(s)
    ensures WordCount(s) == 0
  {
    if s != [] {
      WordCountAllSpace(s[..|s| - 1]);
    }
  }

  lemma {:induction false} WordCountTrimLeft(s: string)
    ensures WordCount(TrimLeft(s)) == WordCount(s)
  {
    if s != [] && IsSpace(s[0]) {
      assert s == [s[0]] + s[1..];
      WordCountConcat([s[0]], s[1..]);
      WordCountTrimLeft(s[1..]);
    }
  }

  lemma {:induction false} WordCountTrimRight(s: string)
    ensures WordCount(TrimRight(s)) == WordCount(s)
  {
    if s != [] && IsSpace(s[|s| - 1]) {
      WordCountTrimRight(s[..|s| - 1]);
    }
  }

  /** `strip()` never changes the number of words. */
  lemma StripWordCount(s: string)
    ensures WordCount(Strip(s)) == WordCount(s)
  {
    WordCountTrimRight(s);
    WordCountTrimLeft(TrimRight(s));
  }

  // ---------------------------------------------------------------------------
  // " ".join(ps)

  function JoinSpace(ps: seq<string>): string
  {
    if ps == [] then ""
    else if |ps| == 1 then ps[0]
    else JoinSpace(ps[..|ps| - 1]) + " " + ps[|ps| - 1]
  }

  /** Total word count of a list of paragraphs. */
  function Words(ps: seq<string>): nat
  {
    if ps == [] then 0 else Words(ps[..|ps| - 1]) + WordCount(ps[|ps| - 1])
  }

  lemma {:induction false} WordsAppend(ps: seq<string>, qs: seq<string>)
    ensures Words(ps + qs) == Words(ps) + Words(qs)
  {
    if qs == [] {
      assert ps + qs == ps;
    } else {
      assert (ps + qs)[..|ps + qs| - 1] == ps + qs[..|qs| - 1];
      WordsAppend(ps, qs[..|qs| - 1]);
    }
  }

  /** Joining with single spaces neither fuses nor splits words. */
  lemma {:induction false} WordCountSpaced(a: string, b: string)
    ensures WordCount(a + " " + b) == WordCount(a) + WordCount(b)
  {
    WordCountConcat(a, " ");
    assert WordCount(" ") == 0 by { assert " "[..0] == ""; }
    WordCountConcat(a + " ", b);
  }

  /** The words of `" ".join(ps)` are exactly the words of the paragraphs. */
  lemma {:induction false} JoinSpaceWordCount(ps: seq<string>)
    ensures WordCount(JoinSpace(ps)) == Words(ps)
  {
    if |ps| > 1 {
      var init := ps[..|ps| - 1];
      JoinSpaceWordCount(init);
      WordCountSpaced(JoinSpace(init), ps[|ps| - 1]);
    } else if |ps| == 1 {
      assert ps[..0] == [];
    }
  }

  // ---------------------------------------------------------------------------
  // s.split(sep) for a non-empty separator

  predicate OccursAt(s: string, sep: string, i: int)
  {
    0 <= i && i + |sep| <= |s| && s[i..i + |sep|] == sep
  }

  /** Leftmost occurrence of `sep` at or after `from`. */
  function IndexFrom(s: string, sep: string, from: nat): (r: Option<nat>)
    ensures r.Some? ==> from <= r.value && OccursAt(s, sep, r.value)
    ensures r.Some? ==> forall i :: from <= i < r.value ==> !OccursAt(s, sep, i)
    ensures r.None? ==> forall i :: from <= i ==> !OccursAt(s, sep, i)
    decreases |s| - from
  {
    if from + |sep| > |s| then None
    else if s[from..from + |sep|] == sep then Some(from)
    else IndexFrom(s, sep, from + 1)
  }

  /** Python's `s.split(sep)`: the pieces between the leftmost non-overlapping occurrences. */
  function SplitOn(s: string, sep: string): (r: seq<string>)
    requires sep != []
    ensures r != []
    decreases |s|
  {
    match IndexFrom(s, sep, 0)
    case None => [s]
    case Some(i) => [s[..i]] + SplitOn(s[i + |sep|..], sep)
  }

  /** A one-character separator occurs exactly where that character is. */
  lemma OccursAtChar(s: string, c: char, i: int)
    ensures OccursAt(s, [c], i) <==> 0 <= i < |s| && s[i] == c
  {
    if 0 <= i < |s| {
      assert s[i..i + 1] == [s[i]];
    }
  }

  /** The first piece of a split on `c` never contains `c`. */
  lemma SplitFirstLacks(s: string, c: char)
    ensures c !in SplitOn(s, [c])[0]
  {
    match IndexFrom(s, [c], 0)
    case None =>
      forall i | 0 <= i < |s| ensures s[i] != c { OccursAtChar(s, c, i); }
    case Some(k) =>
      forall i | 0 <= i < k ensures s[i] != c { OccursAtChar(s, c, i); }
  }

  /** The last piece of a split on `c` never contains `c`. */
  lemma {:induction false} SplitLastLacks(s: string, c: char)
    ensures var r := SplitOn(s, [c]); c !in r[|r| - 1]
    decreases |s|
  {
    match IndexFrom(s, [c], 0)
    case None =>
      forall i | 0 <= i < |s| ensures s[i] != c { OccursAtChar(s, c, i); }
    case Some(k) =>
      SplitLastLacks(s[k + 1..], c);
  }

  /** A string without `c` splits on `c` into itself alone. */
  lemma SplitAbsent(s: string, sep: string)
    requires sep != [] && sep[0] !in s
    ensures SplitOn(s, sep) == [s]
  {
  }

  /** The text after the last `c`: Python's `s.split(c)[-1]`. */
  function AfterLast(s: string, c: char): (r: string)
    ensures c !in r
  {
    SplitLastLacks(s, c);
    var pieces := SplitOn(s, [c]);
    pieces[|pieces| - 1]
  }

  /** The text before the first `c`: Python's `s.split(c)[0]`. */
  function BeforeFirst(s: string, c: char): (r: string)
    ensures c !in r
  {
    SplitFirstLacks(s, c);
    SplitOn(s, [c])[0]
  }

  /** What `split` drops cannot come back: a string free of `c` is its own piece. */
  lemma AfterLastAbsent(s: string, c: char)
    requires c !in s
    ensures AfterLast(s, c) == s
  {
    SplitAbsent(s, [c]);
  }

  lemma BeforeFirstAbsent(s: string, c: char)
    requires c !in s
    ensures BeforeFirst(s, c) == s
  {
    SplitAbsent(s, [c]);
  }

  /** The first piece ends right before the first `c`. */
  lemma BeforeFirstAt(s: string, c: char, t: string)
    requires c !in s
    ensures BeforeFirst(s + [c] + t, c) == s
  {
    var x := s + [c] + t;
    OccursAtChar(x, c, |s|);
    forall i | 0 <= i < |s| ensures !OccursAt(x, [c], i) {
      OccursAtChar(x, c, i);
      assert x[i] == s[i];
    }
  }

  /** The last piece starts right after the last `c`. */
  lemma {:induction false} AfterLastAt(s: string, c: char, t: string)
    requires c !in t
    ensures AfterLast(s + [c] + t, c) == t
    decreases |s|
  {
    var x := s + [c] + t;
    OccursAtChar(x, c, |s|);
    match IndexFrom(x, [c], 0)
    case Some(k) =>
      var rest := SplitOn(x[k + 1..], [c]);
      assert SplitOn(x, [c]) == [x[..k]] + rest;
      if k < |s| {
        assert x[k + 1..] == s[k + 1..] + [c] + t;
        AfterLastAt(s[k + 1..], c, t);
      } else {
        if k > |s| {
          assert false;
        }
        assert x[k + 1..] == t;
        AfterLastAbsent(t, c);
      }
  }

  /** The first piece is a prefix of the string. */
  lemma BeforeFirstIsPrefix(s: string, c: char)
    ensures BeforeFirst(s, c) <= s
  {
  }

  // ---------------------------------------------------------------------------
  // s.replace(old, new)

  /** Python's `s.replace(pattern, replacement)`: leftmost, non-overlapping replacement. */
  function ReplaceAll(s: string, pattern: string, replacement: string): string
    requires pattern != []
    decreases |s|
  {
    if s == [] then []
    else if |pattern| <= |s| && s[..|pattern|] == pattern then replacement + ReplaceAll(s[|pattern|..], pattern, replacement)
    else [s[0]] + ReplaceAll(s[1..], pattern, replacement)
  }

  /** Replacing a pattern that never occurs leaves the string as it was. */
  lemma {:induction false} ReplaceAllAbsent(s: string, pattern: string, replacement: string)
    requires pattern != []
    requires forall i :: 0 <= i ==> !OccursAt(s, pattern, i)
    ensures ReplaceAll(s, pattern, replacement) == s
    decreases |s|
  {
    if s != [] {
      assert !OccursAt(s, pattern, 0);
      forall i | 0 <= i ensures !OccursAt(s[1..], pattern, i) {
        assert !OccursAt(s, pattern, i + 1);
      }
      ReplaceAllAbsent(s[1..], pattern, replacement);
    }
  }

  // ---------------------------------------------------------------------------
  // str(n)

  function DigitChar(d: nat): char
    requires d < 10
  {
    ('0' as int + d) as char
  }

  /** Python's `str(n)` of a non-negative integer: decimal digits, no leading zero. */
  function NatToString(n: nat): (r: string)
    ensures r != [] && forall i :: 0 <= i < |r| ==> IsDigit(r[i])
    ensures |r| > 1 ==> r[0] != '0'
  {
    if n < 10 then [DigitChar(n)] else NatToString(n / 10) + [DigitChar(n % 10)]
  }

  /** Python's `str(i)` of an integer. */
  function IntToString(i: int): (r: string)
    ensures r != [] && (IsDigit(r[0]) || r[0] == '-')
  {
    if i < 0 then "-" + NatToString(-i) else NatToString(i)
  }

  function DigitValue(c: char): (d: nat)
    requires IsDigit(c)
    ensures d < 10
  {
    c as int - '0' as int
  }

  /** Reads back a string of decimal digits. */
  function ParseNat(s: string): nat
    requires forall i :: 0 <= i < |s| ==> IsDigit(s[i])
  {
    if s == [] then 0 else ParseNat(s[..|s| - 1]) * 10 + DigitValue(s[|s| - 1])
  }

  /** `str(n)` loses nothing: the digits read back as `n`. */
  lemma {:induction false} NatToStringRoundTrip(n: nat)
    ensures ParseNat(NatToString(n)) == n
  {
    if n >= 10 {
      var s := NatToString(n);
      assert s[..|s| - 1] == NatToString(n / 10);
      NatToStringRoundTrip(n / 10);
    }
  }

  /** Different numbers print differently. */
  lemma NatToStringInjective(m: nat, n: nat)
    requires NatToString(m) == NatToString(n)
    ensures m == n
  {
    NatToStringRoundTrip(m);
    NatToStringRoundTrip(n);
  }
}
