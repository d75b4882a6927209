/**
 * `embed_document` of src/embed.py: replace the passages of one document in
 * the embeddings table. The table is an in-memory list of rows; the
 * embedding service is an oracle `embed` that answers `None` on failure.
 */
module Passages {
  import opened Util
  import opened Text
  import opened Normalizer
  import opened Chunker

  /** One row of the embeddings table: the fields written at src/embed.py:130. */
  datatype Passage = Passage(docId: string, chunkId: nat, content: string, embedding: seq<real>)

  /** How a call ends: skipped, cancelled by a failed embedding, or `count` rows stored. */
  datatype EmbedOutcome = Skipped | Cancelled | Stored(count: nat)

  /** The rows of document `docId`, in table order (the `doc_id == ...` query). */
  function RowsOf(rows: seq<Passage>, docId: string): (r: seq<Passage>)
    ensures forall p :: p in r ==> p in rows && p.docId == docId
  {
    if rows == [] then []
    else (if rows[0].docId == docId then [rows[0]] else []) + RowsOf(rows[1..], docId)
  }

  /** The table after deleting every row of `docId`. */
  function Without(rows: seq<Passage>, docId: string): (r: seq<Passage>)
    ensures forall p :: p in r ==> p in rows && p.docId != docId
  {
    if rows == [] then []
    else (if rows[0].docId != docId then [rows[0]] else []) + Without(rows[1..], docId)
  }

  lemma {:induction false} RowsOfAppend(a: seq<Passage>, b: seq<Passage>, docId: string)
    ensures RowsOf(a + b, docId) == RowsOf(a, docId) + RowsOf(b, docId)
  {
    if a != [] {
      assert (a + b)[1..] == a[1..] + b;
      RowsOfAppend(a[1..], b, docId);
      var head := if a[0].docId == docId then [a[0]] else [];
      ConcatAssoc(head, RowsOf(a[1..], docId), RowsOf(b, docId));
    } else {
      assert a + b == b;
    }
  }

  lemma {:induction false} WithoutAppend(a: seq<Passage>, b: seq<Passage>, docId: string)
    ensures Without(a + b, docId) == Without(a, docId) + Without(b, docId)
  {
    if a != [] {
      assert (a + b)[1..] == a[1..] + b;
      WithoutAppend(a[1..], b, docId);
      var head := if a[0].docId != docId then [a[0]] else [];
      ConcatAssoc(head, Without(a[1..], docId), Without(b, docId));
    } else {
      assert a + b == b;
    }
  }

  /** Deleting `docId` removes exactly its rows and keeps every other document's rows. */
  lemma {:induction false} RowsOfWithout(rows: seq<Passage>, docId: string, d: string)
    ensures RowsOf(Without(rows, docId), d) == if d == docId then [] else RowsOf(rows, d)
  {
    if rows != [] {
      RowsOfWithout(rows[1..], docId, d);
      var head := if rows[0].docId != docId then [rows[0]] else [];
      RowsOfAppend(head, Without(rows[1..], docId), d);
    }
  }

  /** A document without rows loses nothing by the delete. */
  lemma {:induction false} WithoutAbsent(rows: seq<Passage>, docId: string)
    requires RowsOf(rows, docId) == []
    ensures Without(rows, docId) == rows
  {
    if rows != [] {
      WithoutAbsent(rows[1..], docId);
      assert [rows[0]] + rows[1..] == rows;
    }
  }

  /**
   * The embeddings of all chunks, or `None` if the service fails for any of
   * them (src/embed.py:119-125).
   */
  function EmbedChunks(chunks: seq<string>, embed: string -> Option<Vectors>): Option<seq<Vectors>>
  {
    if forall i :: 0 <= i < |chunks| ==> embed(chunks[i]).Some? then
      Some(seq(|chunks|, i requires 0 <= i < |chunks| => embed(chunks[i]).value))
    else None
  }

  /** The rows added for the chunks, numbered from 0, each with its flattened vector. */
  function NewPassages(docId: string, chunks: seq<string>, vectors: seq<Vectors>): (r: seq<Passage>)
    requires |vectors| == |chunks|
  {
    seq(|chunks|, i requires 0 <= i < |chunks| => Passage(docId, i, chunks[i], Flatten(vectors[i])))
  }

  lemma NewPassagesSnoc(docId: string, chunks: seq<string>, vectors: seq<Vectors>, i: nat)
    requires |vectors| == |chunks| && i < |chunks|
    ensures NewPassages(docId, chunks[..i + 1], vectors[..i + 1]) ==
      NewPassages(docId, chunks[..i], vectors[..i]) + [Passage(docId, i, chunks[i], Flatten(vectors[i]))]
  {
  }

  lemma NewPassagesOfDoc(docId: string, chunks: seq<string>, vectors: seq<Vectors>, d: string)
    requires |vectors| == |chunks|
    ensures RowsOf(NewPassages(docId, chunks, vectors), d) == if d == docId then NewPassages(docId, chunks, vectors) else []
    ensures Without(NewPassages(docId, chunks, vectors), d) == if d == docId then [] else NewPassages(docId, chunks, vectors)
  {
    var ps := NewPassages(docId, chunks, vectors);
    NewPassagesFilter(ps, docId, d);
  }

  lemma {:induction false} NewPassagesFilter(ps: seq<Passage>, docId: string, d: string)
    requires forall i :: 0 <= i < |ps| ==> ps[i].docId == docId
    ensures RowsOf(ps, d) == if d == docId then ps else []
    ensures Without(ps, d) == if d == docId then [] else ps
  {
    if ps != [] {
      NewPassagesFilter(ps[1..], docId, d);
    }
  }

  /** The chunks `chunk_text` makes of the document text. */
  function DocumentChunks(text: string): seq<string>
  {
    Chunks(SplitOn(Normalize(text), "\n\n"), MinChunkSize, MaxChunkSize)
  }

  /**
   * Delete every row of `docId`, embed the chunks, and append one row per
   * chunk, unless an embedding failed: then nothing is appended.
   */
  function ReplacePassages(rows: seq<Passage>, docId: string, chunks: seq<string>, embed: string -> Option<Vectors>): seq<Passage>
  {
    match EmbedChunks(chunks, embed)
    case None => Without(rows, docId)
    case Some(vectors) => Without(rows, docId) + NewPassages(docId, chunks, vectors)
  }

  /** The table after `embed_document(text, doc_id)` with the force flag `force`. */
  function EmbedDocumentRows(rows: seq<Passage>, text: string, docId: string, force: bool, embed: string -> Option<Vectors>): seq<Passage>
  {
    if !force && RowsOf(rows, docId) != [] then rows
    else ReplacePassages(rows, docId, DocumentChunks(text), embed)
  }

  function EmbedDocumentOutcome(rows: seq<Passage>, text: string, docId: string, force: bool, embed: string -> Option<Vectors>): EmbedOutcome
  {
    if !force && RowsOf(rows, docId) != [] then Skipped
    else if EmbedChunks(DocumentChunks(text), embed).None? then Cancelled
    else Stored(|DocumentChunks(text)|)
  }

  /**
   * The loop of src/embed.py:119-125: ask for each chunk's embedding in
   * order and give up at the first failure.
   */
  method EmbedEach(chunks: seq<string>, embed: string -> Option<Vectors>) returns (r: Option<seq<Vectors>>)
    ensures r == EmbedChunks(chunks, embed)
    ensures r.Some? ==> |r.value| == |chunks|
  {
    var embeddings: seq<Vectors> := [];
    for i := 0 to |chunks|
      invariant |embeddings| == i
      invariant forall j :: 0 <= j < i ==> embed(chunks[j]).Some? && embeddings[j] == embed(chunks[j]).value
    {
      var embedding := embed(chunks[i]);
      if embedding.None? {
        return None;
      }
      embeddings := embeddings + [embedding.value];
    }
    assert EmbedChunks(chunks, embed).value == embeddings;
    return Some(embeddings);
  }

  /** The embeddings table (created by src/config.py:55-62, not part of this model). */
  class EmbeddingsTable {
    var rows: seq<Passage>

    constructor (initial: seq<Passage>)
      ensures rows == initial
    {
      rows := initial;
    }

    /** The loop of src/embed.py:128-132: one row per chunk, numbered from 0. */
    method AppendPassages(docId: string, chunks: seq<string>, vectors: seq<Vectors>)
      requires |vectors| == |chunks|
      modifies this
      ensures rows == old(rows) + NewPassages(docId, chunks, vectors)
    {
      for i := 0 to |chunks|
        invariant rows == old(rows) + NewPassages(docId, chunks[..i], vectors[..i])
      {
        var flatEmbedding := Flatten(vectors[i]);
        NewPassagesSnoc(docId, chunks, vectors, i);
        rows := rows + [Passage(docId, i, chunks[i], flatEmbedding)];
      }
      assert chunks[..|chunks|] == chunks && vectors[..|chunks|] == vectors;
    }

    /** `embed_document` (src/embed.py:108-132). */
    method EmbedDocument(text: string, docId: string, force: bool, embed: string -> Option<Vectors>) returns (outcome: EmbedOutcome)
      modifies this
      ensures rows == EmbedDocumentRows(old(rows), text, docId, force, embed)
      ensures outcome == EmbedDocumentOutcome(old(rows), text, docId, force, embed)
    {
      var existing := RowsOf(rows, docId);
      if !force && existing != [] {
        return Skipped;
      }
      if existing != [] {
        rows := Without(rows, docId);
      } else {
        WithoutAbsent(rows, docId);
      }
      var chunks := ChunkText(text, MinChunkSize, MaxChunkSize);
      var embeddings := EmbedEach(chunks, embed);
      if embeddings.None? {
        return Cancelled;
      }
      AppendPassages(docId, chunks, embeddings.value);
      return Stored(|chunks|);
    }
  }

  // ---------------------------------------------------------------------------
  // Properties

  /** The rows of any other document are the same before and after, in every outcome. */
  lemma OtherDocumentsUntouched(rows: seq<Passage>, text: string, docId: string, force: bool, embed: string -> Option<Vectors>, d: string)
    requires d != docId
    ensures RowsOf(EmbedDocumentRows(rows, text, docId, force, embed), d) == RowsOf(rows, d)
  {
    if force || RowsOf(rows, docId) == [] {
      var chunks := DocumentChunks(text);
      RowsOfWithout(rows, docId, d);
      match EmbedChunks(chunks, embed)
      case None =>
      case Some(vectors) =>
        RowsOfAppend(Without(rows, docId), NewPassages(docId, chunks, vectors), d);
        NewPassagesOfDoc(docId, chunks, vectors, d);
    }
  }

  /**
   * Replacing a document's passages by `chunks` leaves exactly one row per
   * chunk, numbered 0..n-1 in chunk order with the chunk as content, or none
   * at all when an embedding failed after the old rows were deleted.
   */
  lemma ReplacedPassages(rows: seq<Passage>, docId: string, chunks: seq<string>, embed: string -> Option<Vectors>)
    ensures var r := RowsOf(ReplacePassages(rows, docId, chunks, embed), docId);
      && (EmbedChunks(chunks, embed).None? ==> r == [])
      && (EmbedChunks(chunks, embed).Some? ==>
            |r| == |chunks| &&
            forall i :: 0 <= i < |r| ==>
              r[i] == Passage(docId, i, chunks[i], Flatten(embed(chunks[i]).value)))
  {
    RowsOfWithout(rows, docId, docId);
    match EmbedChunks(chunks, embed)
    case None =>
    case Some(vectors) =>
      var ps := NewPassages(docId, chunks, vectors);
      RowsOfAppend(Without(rows, docId), ps, docId);
      NewPassagesOfDoc(docId, chunks, vectors, docId);
      assert RowsOf(ReplacePassages(rows, docId, chunks, embed), docId) == [] + ps;
      assert [] + ps == ps;
  }

  /** Unless skipped, `embed_document` replaces the document's rows as above. */
  lemma DocumentPassages(rows: seq<Passage>, text: string, docId: string, force: bool, embed: string -> Option<Vectors>)
    requires force || RowsOf(rows, docId) == []
    ensures var chunks := DocumentChunks(text);
      var r := RowsOf(EmbedDocumentRows(rows, text, docId, force, embed), docId);
      && (EmbedChunks(chunks, embed).None? ==> r == [])
      && (EmbedChunks(chunks, embed).Some? ==>
            |r| == |chunks| &&
            forall i :: 0 <= i < |r| ==>
              r[i] == Passage(docId, i, chunks[i], Flatten(embed(chunks[i]).value)))
  {
    ReplacedPassages(rows, docId, DocumentChunks(text), embed);
  }

  /** With force off, a document that has rows is left alone, and so is the whole table. */
  lemma SkipKeepsTable(rows: seq<Passage>, text: string, docId: string, embed: string -> Option<Vectors>)
    requires RowsOf(rows, docId) != []
    ensures EmbedDocumentRows(rows, text, docId, false, embed) == rows
    ensures EmbedDocumentOutcome(rows, text, docId, false, embed) == Skipped
  {
  }

  /**
   * Re-embedding a document whose old chunks had ids 0, 1, 2 as two chunks
   * leaves exactly the ids 0 and 1: no stale third row survives.
   */
  lemma ReembedShrinks(docId: string, other: Passage, v: seq<real>, embed: string -> Option<Vectors>)
    requires other.docId != docId
    requires forall s :: embed(s) == Some([v])
    ensures var old3 := [Passage(docId, 0, "a", v), other, Passage(docId, 1, "b", v), Passage(docId, 2, "c", v)];
      var r := ReplacePassages(old3, docId, ["x", "y"], embed);
      r == [other, Passage(docId, 0, "x", v), Passage(docId, 1, "y", v)]
  {
    var old3 := [Passage(docId, 0, "a", v), other, Passage(docId, 1, "b", v), Passage(docId, 2, "c", v)];
    assert Without(old3, docId) == [other] by {
      var t3 := [Passage(docId, 2, "c", v)];
      var t2 := [Passage(docId, 1, "b", v)] + t3;
      var t1 := [other] + t2;
      assert old3 == [Passage(docId, 0, "a", v)] + t1;
      assert Without(t3, docId) == [] by { assert t3[1..] == []; }
      assert Without(t2, docId) == [] by { assert t2[1..] == t3; }
      assert Without(t1, docId) == [other] by { assert t1[1..] == t2; }
      assert old3[1..] == t1;
    }
    assert Flatten([v]) == v by { assert [v][..0] == []; }
    var vectors := EmbedChunks(["x", "y"], embed).value;
    assert vectors == [[v], [v]];
  }

  /** A forced run repeated with the same answers leaves the table as the first run did. */
  lemma ForcedRerunIdempotent(rows: seq<Passage>, text: string, docId: string, embed: string -> Option<Vectors>)
    ensures var once := EmbedDocumentRows(rows, text, docId, true, embed);
      EmbedDocumentRows(once, text, docId, true, embed) == once
  {
    var chunks := DocumentChunks(text);
    var kept := Without(rows, docId);
    RowsOfWithout(rows, docId, docId);
    WithoutAbsent(kept, docId);
    match EmbedChunks(chunks, embed)
    case None =>
    case Some(vectors) =>
      var added := NewPassages(docId, chunks, vectors);
      var once := kept + added;
      assert EmbedDocumentRows(rows, text, docId, true, embed) == once;
      WithoutAppend(kept, added, docId);
      NewPassagesOfDoc(docId, chunks, vectors, docId);
      assert Without(once, docId) == kept;
  }

  /**
   * Because the chunker sees one paragraph, a document never has more than
   * one passage after `embed_document` stored it.
   */
  lemma AtMostOnePassage(rows: seq<Passage>, text: string, docId: string, force: bool, embed: string -> Option<Vectors>)
    requires force || RowsOf(rows, docId) == []
    ensures |RowsOf(EmbedDocumentRows(rows, text, docId, force, embed), docId)| <= 1
  {
    NormalizedIsOneParagraph(text);
    NormalizedChunks(text, MinChunkSize, MaxChunkSize);
    DocumentPassages(rows, text, docId, force, embed);
  }
}
