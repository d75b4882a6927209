/**
 * The paragraph chunker `chunk_text` of src/embed.py.
 *
 * The loop is modelled over an arbitrary list of paragraphs by
 * `ChunkParagraphs`, proved equal to the fold `Chunks`; `ChunkText` adds the
 * normalizer and the paragraph split in front, as the source does. The fold
 * keeps, besides the strings, the paragraph groups each chunk was built from,
 * so that its lemmas can speak of whole paragraphs and word budgets.
 */
module Chunker {
  import opened Util
  import opened Text
  import opened Normalizer

  /** Default word budget of a chunk (src/embed.py:7-8). */
  const MinChunkSize: int := 100
  const MaxChunkSize: int := 500

  /**
   * The loop state: paragraph groups already emitted as chunks, the open group
   * `current_chunk`, and `current_size`.
   */
  datatype Acc = Acc(closed: seq<seq<string>>, current: seq<string>, size: int)

  /** The paragraph is discarded: it would overflow and the open chunk is already big enough. */
  predicate Drops(a: Acc, p: string, minSize: int, maxSize: int)
  {
    a.size + WordCount(p) > maxSize && a.size >= minSize
  }

  /** One iteration of the loop body for paragraph `p`. */
  function Step(a: Acc, p: string, minSize: int, maxSize: int): Acc
  {
    var n := WordCount(p);
    if a.size + n > maxSize then
      if a.size >= minSize then Acc(a.closed + [a.current], [], 0)
      else Acc(a.closed + [a.current + [p]], [], 0)
    else Acc(a.closed, a.current + [p], a.size + n)
  }

  /** The loop state after all of `ps`. */
  function Run(ps: seq<string>, minSize: int, maxSize: int): Acc
  {
    if ps == [] then Acc([], [], 0)
    else Step(Run(ps[..|ps| - 1], minSize, maxSize), ps[|ps| - 1], minSize, maxSize)
  }

  /** A group becomes the chunk `" ".join(group).strip()`. */
  function Close(g: seq<string>): string
  {
    Strip(JoinSpace(g))
  }

  function CloseAll(gs: seq<seq<string>>): (r: seq<string>)
    ensures |r| == |gs| && forall i :: 0 <= i < |gs| ==> r[i] == Close(gs[i])
  {
    if gs == [] then [] else CloseAll(gs[..|gs| - 1]) + [Close(gs[|gs| - 1])]
  }

  lemma CloseAllAppend(gs: seq<seq<string>>, g: seq<string>)
    ensures CloseAll(gs + [g]) == CloseAll(gs) + [Close(g)]
  {
    assert (gs + [g])[..|gs|] == gs;
  }

  lemma RunAppend(ps: seq<string>, i: nat, minSize: int, maxSize: int)
    requires i < |ps|
    ensures Run(ps[..i + 1], minSize, maxSize) == Step(Run(ps[..i], minSize, maxSize), ps[i], minSize, maxSize)
  {
    assert ps[..i + 1][..i] == ps[..i];
  }

  /**
   * After the loop: keep the open group as a last chunk if it has at least
   * `minSize` words, otherwise append it to the previous chunk when there is one.
   */
  function Finish(a: Acc, minSize: int): seq<string>
  {
    var cs := CloseAll(a.closed);
    if a.current != [] && a.size >= minSize then cs + [Close(a.current)]
    else if cs != [] && a.current != [] then
      cs[..|cs| - 1] + [Strip(cs[|cs| - 1] + " " + JoinSpace(a.current))]
    else cs
  }

  /** The chunks `chunk_text` returns for the paragraph list `ps`. */
  function Chunks(ps: seq<string>, minSize: int, maxSize: int): seq<string>
  {
    Finish(Run(ps, minSize, maxSize), minSize)
  }

  /** The loop of `chunk_text` (src/embed.py:35-71) over the given paragraphs. */
  method ChunkParagraphs(paragraphs: seq<string>, minSize: int, maxSize: int) returns (chunks: seq<string>)
    ensures chunks == Chunks(paragraphs, minSize, maxSize)
  {
    chunks := [];
    var currentChunk: seq<string> := [];
    var currentSize := 0;
    ghost var closed: seq<seq<string>> := [];
    for i := 0 to |paragraphs|
      invariant Run(paragraphs[..i], minSize, maxSize) == Acc(closed, currentChunk, currentSize)
      invariant chunks == CloseAll(closed)
    {
      RunAppend(paragraphs, i, minSize, maxSize);
      var paragraph := paragraphs[i];
      var paragraphSize := WordCount(paragraph);
      if currentSize + paragraphSize > maxSize {
        if currentSize >= minSize {
          CloseAllAppend(closed, currentChunk);
          chunks := chunks + [Strip(JoinSpace(currentChunk))];
          closed := closed + [currentChunk];
          currentChunk := [];
          currentSize := 0;
        } else {
          // the paragraph is added even though it overflows, to reach the minimum
          currentChunk := currentChunk + [paragraph];
          currentSize := currentSize + paragraphSize;
          CloseAllAppend(closed, currentChunk);
          chunks := chunks + [Strip(JoinSpace(currentChunk))];
          closed := closed + [currentChunk];
          currentChunk := [];
          currentSize := 0;
        }
        continue;
      }
      currentChunk := currentChunk + [paragraph];
      currentSize := currentSize + paragraphSize;
    }
    assert paragraphs[..|paragraphs|] == paragraphs;
    if currentChunk != [] && currentSize >= minSize {
      chunks := chunks + [Strip(JoinSpace(currentChunk))];
    } else if chunks != [] && currentChunk != [] {
      var lastChunk := chunks[|chunks| - 1];
      chunks := chunks[..|chunks| - 1];
      var merged := Strip(lastChunk + " " + JoinSpace(currentChunk));
      chunks := chunks + [merged];
    }
  }

  /**
   * `chunk_text(text, min, max)`: normalize, split on blank lines, chunk.
   * Since the normalizer leaves no newline there is exactly one paragraph, so
   * the result is empty, the whole normalized text, or (only when the minimum
   * is not positive and the text overflows the maximum) one empty chunk.
   */
  method ChunkText(text: string, minSize: int, maxSize: int) returns (chunks: seq<string>)
    ensures chunks == Chunks(SplitOn(Normalize(text), "\n\n"), minSize, maxSize)
    ensures var p := Normalize(text); var n := WordCount(p);
      chunks == if n > maxSize && minSize <= 0 then [""]
                else if n > maxSize || n >= minSize then [p]
                else []
  {
    var cleaned := Normalize(text);
    var paragraphs := SplitOn(cleaned, "\n\n");
    chunks := ChunkParagraphs(paragraphs, minSize, maxSize);
    NormalizedIsOneParagraph(text);
    NormalizedChunks(text, minSize, maxSize);
  }

  lemma NormalizedChunks(text: string, minSize: int, maxSize: int)
    ensures var p := Normalize(text); var n := WordCount(p);
      Chunks([p], minSize, maxSize) ==
        if n > maxSize && minSize <= 0 then [""]
        else if n > maxSize || n >= minSize then [p]
        else []
  {
    var p := Normalize(text);
    var n := WordCount(p);
    NormalizeOutput(text);
    StripUnchanged(p);
    assert [p][..0] == [];
    assert Run([p], minSize, maxSize) == Step(Acc([], [], 0), p, minSize, maxSize);
    assert Close([p]) == p;
    assert Close([]) == "";
    if n > maxSize {
      if minSize <= 0 {
        assert Run([p], minSize, maxSize) == Acc([[]], [], 0);
        assert CloseAll([[]]) == [""];
      } else {
        assert [] + [p] == [p];
        assert Run([p], minSize, maxSize) == Acc([[p]], [], 0);
        assert CloseAll([[p]]) == [p];
      }
    } else {
      assert Run([p], minSize, maxSize) == Acc([], [p], n);
    }
  }

  // ---------------------------------------------------------------------------
  // Properties of the fold

  /**
   * `current_size` is the word count of `current_chunk`, and an open chunk
   * never holds more than `maxSize` words.
   */
  lemma {:induction false} RunSize(ps: seq<string>, minSize: int, maxSize: int)
    ensures var a := Run(ps, minSize, maxSize);
      a.size == Words(a.current) && (a.current != [] ==> a.size <= maxSize)
  {
    if ps != [] {
      var a := Run(ps[..|ps| - 1], minSize, maxSize);
      RunSize(ps[..|ps| - 1], minSize, maxSize);
      var p := ps[|ps| - 1];
      if a.size + WordCount(p) <= maxSize {
        assert (a.current + [p])[..|a.current|] == a.current;
      }
    }
  }

  /**
   * The chunk groups are built from whole paragraphs: a closed group either
   * has between `minSize` and `maxSize` words (closed at line 45), or it was
   * forced (lines 48-54): it exceeds `maxSize` only because its last
   * paragraph overflowed a part that was still under `minSize`.
   */
  predicate GroupWithinBudget(g: seq<string>, minSize: int, maxSize: int)
  {
    g != [] &&
    ((minSize <= Words(g) <= maxSize) ||
     (Words(g) > maxSize && Words(g[..|g| - 1]) < minSize))
  }

  lemma {:induction false} ClosedGroupsWithinBudget(ps: seq<string>, minSize: int, maxSize: int)
    requires 1 <= minSize
    ensures forall g :: g in Run(ps, minSize, maxSize).closed ==> GroupWithinBudget(g, minSize, maxSize)
  {
    if ps != [] {
      var init := ps[..|ps| - 1];
      var a := Run(init, minSize, maxSize);
      var p := ps[|ps| - 1];
      ClosedGroupsWithinBudget(init, minSize, maxSize);
      RunSize(init, minSize, maxSize);
      if a.size + WordCount(p) > maxSize {
        if a.size >= minSize {
          assert a.current != [];
        } else {
          var g := a.current + [p];
          assert g[..|g| - 1] == a.current;
          assert g[..|g| - 1] + [p] == g;
        }
      }
    }
  }

  /** The paragraphs that survive, in input order: all except the dropped ones. */
  function Kept(ps: seq<string>, minSize: int, maxSize: int): seq<string>
  {
    if ps == [] then []
    else
      var init := ps[..|ps| - 1];
      var p := ps[|ps| - 1];
      Kept(init, minSize, maxSize) + (if Drops(Run(init, minSize, maxSize), p, minSize, maxSize) then [] else [p])
  }

  /**
   * Kept paragraphs appear whole and in input order: the groups, read one
   * after the other, are exactly the input minus the paragraphs that arrived
   * while the open chunk was at least `minSize` and would have overflowed.
   * Such a paragraph is discarded, not carried into the next chunk.
   */
  lemma {:induction false} RunKeepsParagraphsInOrder(ps: seq<string>, minSize: int, maxSize: int)
    ensures var a := Run(ps, minSize, maxSize); Flatten(a.closed) + a.current == Kept(ps, minSize, maxSize)
  {
    if ps != [] {
      var init := ps[..|ps| - 1];
      var a := Run(init, minSize, maxSize);
      var p := ps[|ps| - 1];
      RunKeepsParagraphsInOrder(init, minSize, maxSize);
      if a.size + WordCount(p) > maxSize {
        if a.size >= minSize {
          FlattenAppend(a.closed, [a.current]);
          assert Flatten([a.current]) == a.current by { assert [a.current][..0] == []; }
        } else {
          FlattenAppend(a.closed, [a.current + [p]]);
          assert Flatten([a.current + [p]]) == a.current + [p] by { assert [a.current + [p]][..0] == []; }
        }
      }
    }
  }

  /**
   * A paragraph that overflows a chunk already at the minimum is discarded,
   * not carried into the next chunk: when the first paragraph fits and
   * reaches the minimum and the second overflows, the output is the first
   * paragraph alone and the second appears nowhere.
   */
  lemma DroppedParagraphNotCarried(p1: string, p2: string, minSize: int, maxSize: int)
    requires minSize <= WordCount(p1) <= maxSize < WordCount(p1) + WordCount(p2)
    ensures Chunks([p1, p2], minSize, maxSize) == [Strip(p1)]
  {
    assert [p1, p2][..1] == [p1];
    assert [p1][..0] == [];
    var a1 := Acc([], [p1], WordCount(p1));
    assert Run([p1], minSize, maxSize) == a1;
    assert Drops(a1, p2, minSize, maxSize);
    assert Run([p1, p2], minSize, maxSize) == Acc([[p1]], [], 0);
    assert JoinSpace([p1]) == p1;
    assert CloseAll([[p1]]) == [Close([p1])];
  }

  /** While the total stays within `maxSize`, nothing is closed and every paragraph is open. */
  lemma {:induction false} RunWithinMax(ps: seq<string>, minSize: int, maxSize: int)
    requires Words(ps) <= maxSize
    ensures Run(ps, minSize, maxSize) == Acc([], ps, Words(ps))
  {
    if ps != [] {
      var init := ps[..|ps| - 1];
      assert init + [ps[|ps| - 1]] == ps;
      WordsAppend(init, [ps[|ps| - 1]]);
      assert Words([ps[|ps| - 1]]) == WordCount(ps[|ps| - 1]) by { assert [ps[|ps| - 1]][..0] == []; }
      RunWithinMax(init, minSize, maxSize);
    }
  }

  /**
   * A text of fewer than `minSize` words yields no chunk at all
   * (src/embed.py:62-69): there is no earlier chunk to merge the small one into.
   */
  lemma ShortInputNoChunks(ps: seq<string>, minSize: int, maxSize: int)
    requires minSize <= maxSize && Words(ps) < minSize
    ensures Chunks(ps, minSize, maxSize) == []
  {
    RunWithinMax(ps, minSize, maxSize);
  }

  lemma CloseWordCount(g: seq<string>)
    ensures WordCount(Close(g)) == Words(g)
  {
    JoinSpaceWordCount(g);
    StripWordCount(JoinSpace(g));
  }

  /**
   * With `1 <= minSize <= maxSize` every chunk returned holds at least
   * `minSize` words: closed chunks reach it, a forced one passes `maxSize`,
   * and a small trailing part is merged into the chunk before it.
   */
  lemma ChunksReachMinimum(ps: seq<string>, minSize: int, maxSize: int)
    requires 1 <= minSize <= maxSize
    ensures forall c :: c in Chunks(ps, minSize, maxSize) ==> WordCount(c) >= minSize
  {
    var a := Run(ps, minSize, maxSize);
    var cs := CloseAll(a.closed);
    ClosedGroupsWithinBudget(ps, minSize, maxSize);
    RunSize(ps, minSize, maxSize);
    forall i | 0 <= i < |cs| ensures WordCount(cs[i]) >= minSize {
      CloseWordCount(a.closed[i]);
      assert a.closed[i] in a.closed;
    }
    CloseWordCount(a.current);
    if !(a.current != [] && a.size >= minSize) && cs != [] && a.current != [] {
      var last := cs[|cs| - 1];
      StripWordCount(last + " " + JoinSpace(a.current));
      WordCountSpaced(last, JoinSpace(a.current));
    }
  }

  /**
   * Two paragraphs of 80 and 90 words with budget 100..150 give one chunk of
   * 170 words: the second paragraph is forced in to reach the minimum.
   */
  lemma ForcedChunkScenario(p1: string, p2: string)
    requires WordCount(p1) == 80 && WordCount(p2) == 90
    ensures Chunks([p1, p2], 100, 150) == [Strip(p1 + " " + p2)]
    ensures WordCount(Strip(p1 + " " + p2)) == 170
  {
    assert [p1, p2][..1] == [p1];
    assert [p1][..0] == [];
    var a1 := Acc([], [p1], 80);
    assert Run([p1], 100, 150) == a1;
    assert Run([p1, p2], 100, 150) == Step(a1, p2, 100, 150);
    assert [p1] + [p2] == [p1, p2];
    assert Step(a1, p2, 100, 150) == Acc([[p1, p2]], [], 0);
    assert JoinSpace([p1, p2]) == p1 + " " + p2;
    assert CloseAll([[p1, p2]]) == [Close([p1, p2])];
    StripWordCount(p1 + " " + p2);
    WordCountSpaced(p1, p2);
  }
}
