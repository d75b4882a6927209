/**
 * The first generation of the pipeline, process.py: one table of `GovDoc`
 * rows keyed by filename, filled by `embed_documents` with blank metadata
 * and completed by `generate_metadata`, plus its cleaner `clean_metadata`
 * and the title quote stripping of `get_title`.
 *
 * An exception that is not caught ends the whole run: the methods then
 * report `false` and the table keeps what earlier files stored.
 */
module Process {
  import opened Util
  import opened Text
  import opened JsonValue
  import opened Cleaning
  import opened Classes
  import opened Store
  import Metadata

  // ---------------------------------------------------------------------------
  // clean_metadata (process.py:136-148)

  /** The first loop on one value: only `None`, `""` and `"null"` become `""`. */
  function BlankNullish(j: Json): Json
  {
    if IsNullish(Some(j)) then JString("") else j
  }

  /** The keys this cleaner forces to be lists (`language`, not `languages`). */
  const LegacyListKeys: seq<string> := ["authors", "editors", "language"]

  /** The object `clean_metadata` returns; an empty list field is `[""]`. */
  function LegacyCleaned(m: Object): Object
  {
    FixLists(MapValues(m, BlankNullish), LegacyListKeys, JArray([JString("")]))
  }

  /** `clean_metadata`: two loops rewriting the dictionary. */
  method CleanMetadata(metadata: Object) returns (r: Object)
    ensures r == LegacyCleaned(metadata)
  {
    r := metadata;
    var keys := metadata.Keys;
    while keys != {}
      invariant keys <= metadata.Keys && r.Keys == metadata.Keys
      invariant forall k :: k in metadata && k !in keys ==> r[k] == BlankNullish(metadata[k])
      invariant forall k :: k in keys ==> r[k] == metadata[k]
      decreases keys
    {
      var key :| key in keys;
      if IsNullish(Get(r, key)) {
        r := r[key := JString("")];
      }
      keys := keys - {key};
    }
    assert r == MapValues(metadata, BlankNullish);
    r := FixListFields(r, LegacyListKeys, JArray([JString("")]));
  }

  /**
   * Every key keeps its value except that `None`, `""` and `"null"` become
   * `""`; the three list keys hold lists: a list stays, a missing or
   * null-like value gives `[""]`, any other value `x` gives `[x]`.
   */
  lemma LegacyCleanedValues(m: Object, k: string)
    ensures (k in m || k in LegacyListKeys) <==> k in LegacyCleaned(m)
    ensures k in m && k !in LegacyListKeys ==> LegacyCleaned(m)[k] == BlankNullish(m[k])
    ensures k in LegacyListKeys ==>
      LegacyCleaned(m)[k] == if IsNullish(Get(m, k)) then JArray([JString("")])
                             else if m[k].JArray? then m[k]
                             else JArray([m[k]])
  {
    FixListsResult(MapValues(m, BlankNullish), LegacyListKeys, JArray([JString("")]));
  }

  /**
   * The two generations disagree: `"unknown"` survives here but is blanked
   * by src/metadata.py, and an `int` stays an `int` here but becomes a
   * string there.
   */
  lemma UnknownAndNumbersDiffer(m: Object, k: string)
    requires k in m && k !in LegacyListKeys && k !in Metadata.ListKeys
    ensures k in LegacyCleaned(m) && k in Metadata.Cleaned(m)
    ensures m[k] == JString("unknown") ==>
      LegacyCleaned(m)[k] == JString("unknown") && Metadata.Cleaned(m)[k] == JString("")
    ensures m[k].JInt? ==>
      LegacyCleaned(m)[k] == m[k] && Metadata.Cleaned(m)[k] == JString(IntToString(m[k].i))
  {
    LegacyCleanedValues(m, k);
    Metadata.CleanedValues(m, k);
  }

  /** An empty author list becomes `[""]` here, and `[]` in src/metadata.py. */
  lemma EmptyListsDiffer(m: Object, k: string)
    requires k == "authors" || k == "editors"
    requires k !in m || m[k] == JNull || m[k] == JString("")
    ensures k in LegacyCleaned(m) && k in Metadata.Cleaned(m)
    ensures LegacyCleaned(m)[k] == JArray([JString("")])
    ensures Metadata.Cleaned(m)[k] == JArray([])
  {
    LegacyCleanedValues(m, k);
    Metadata.CleanedValues(m, k);
  }

  // ---------------------------------------------------------------------------
  // get_title (process.py:98-104)

  /**
   * The quote stripping of `get_title`: when the first character is `"`,
   * the first and the last character go (`title[1:-1]`), whether the last
   * one is a quote or not. An empty title raises (`None` here).
   */
  function StripTitleQuotes(title: string): (r: Option<string>)
    ensures r.Some? <==> title != []
    ensures r.Some? && title[0] != '"' ==> r.value == title
    ensures r.Some? && title[0] == '"' ==>
      |r.value| == (if |title| >= 2 then |title| - 2 else 0) &&
      forall i :: 0 <= i < |r.value| ==> r.value[i] == title[i + 1]
  {
    if title == [] then None
    else if title[0] == '"' then Some(if |title| >= 2 then title[1..|title| - 1] else "")
    else Some(title)
  }

  /** A quoted title comes back without its quotes. */
  lemma QuotedTitle(t: string)
    ensures StripTitleQuotes("\"" + t + "\"") == Some(t)
  {
    var q := "\"" + t + "\"";
    assert q[1..|q| - 1] == t;
  }

  /** An opening quote without a closing one still costs the last character. */
  lemma HalfQuotedTitle(t: string, c: char)
    requires c != '"'
    ensures StripTitleQuotes("\"" + t + [c]) == Some(t)
  {
    var q := "\"" + t + [c];
    assert q[1..|q| - 1] == t;
  }

  // ---------------------------------------------------------------------------
  // The documents table and the two passes over the files

  /** A text file of the run: `file.name` (the last path component) and its contents. */
  datatype TextFile = TextFile(name: string, text: string)

  /** The merge key. */
  function GovFilename(d: GovDoc): string
  {
    d.filename
  }

  /** The table after some files, and whether an exception ended the run. */
  datatype RunState = RunState(rows: seq<GovDoc>, aborted: bool)

  /** The row `embed_documents` stores: blank metadata and the flattened vectors. */
  function BlankRecord(name: string, vectors: Vectors): GovDoc
  {
    CreateGovDoc(NewMetaInfo(), name, Flatten(vectors))
  }

  /**
   * One file of `embed_documents`: skipped when a row has its filename and
   * force is off; a failed embedding raises when it is flattened.
   */
  function EmbedStep(st: RunState, file: TextFile, force: bool, embed: string -> Option<Vectors>): RunState
  {
    if st.aborted then st
    else if !force && HasKey(st.rows, file.name, GovFilename) then st
    else
      match embed(file.text)
      case None => st.(aborted := true)
      case Some(vectors) => RunState(Upsert(st.rows, BlankRecord(file.name, vectors), GovFilename), false)
  }

  function EmbedRun(rows: seq<GovDoc>, files: seq<TextFile>, force: bool, embed: string -> Option<Vectors>): RunState
  {
    if files == [] then RunState(rows, false)
    else EmbedStep(EmbedRun(rows, files[..|files| - 1], force, embed), files[|files| - 1], force, embed)
  }

  lemma EmbedRunAppend(rows: seq<GovDoc>, files: seq<TextFile>, i: nat, force: bool, embed: string -> Option<Vectors>)
    requires i < |files|
    ensures EmbedRun(rows, files[..i + 1], force, embed) == EmbedStep(EmbedRun(rows, files[..i], force, embed), files[i], force, embed)
  {
    assert files[..i + 1][..i] == files[..i];
  }

  /** Once the run is aborted, the remaining files change nothing. */
  lemma {:induction false} EmbedRunAbortedStays(rows: seq<GovDoc>, files: seq<TextFile>, k: nat, force: bool, embed: string -> Option<Vectors>)
    requires k <= |files| && EmbedRun(rows, files[..k], force, embed).aborted
    ensures EmbedRun(rows, files, force, embed) == EmbedRun(rows, files[..k], force, embed)
    decreases |files| - k
  {
    if k < |files| {
      EmbedRunAppend(rows, files, k, force, embed);
      EmbedRunAbortedStays(rows, files, k + 1, force, embed);
    } else {
      assert files[..k] == files;
    }
  }

  /** `generate_metadata`'s lookup: the first row of the snapshot with the filename. */
  function FirstByFilename(rows: seq<GovDoc>, name: string): (r: Option<GovDoc>)
    ensures r.Some? ==> r.value in rows && r.value.filename == name
    ensures r.None? <==> !HasKey(rows, name, GovFilename)
  {
    if rows == [] then None
    else if rows[0].filename == name then Some(rows[0])
    else
      var r := FirstByFilename(rows[1..], name);
      assert HasKey(rows, name, GovFilename) ==> HasKey(rows[1..], name, GovFilename) by {
        if HasKey(rows, name, GovFilename) {
          var i :| 0 <= i < |rows| && rows[i].filename == name;
          assert rows[1..][i - 1] == rows[i];
        }
      }
      r
  }

  /** The services `generate_metadata` relies on. */
  datatype Services = Services(metadataAnswer: string -> Option<Json>, mergeAccepts: GovDoc -> bool)

  /**
   * One file of `generate_metadata`, looked up in the snapshot `records`
   * taken before the loop. A failed answer, a non-object answer or a record
   * the schema rejects raises; a rejected merge is caught and ignored.
   */
  function GenerateStep(st: RunState, file: TextFile, records: seq<GovDoc>, force: bool, services: Services): RunState
  {
    if st.aborted then st
    else
      var existing := FirstByFilename(records, file.name);
      if existing.None? then st
      else if existing.value.meta.title != "" && !force then st
      else
        var answer := services.metadataAnswer(file.text);
        if answer.None? || !answer.value.JObject? then st.(aborted := true)
        else
          var meta := CreateMetaInfo(LegacyCleaned(answer.value.fields));
          if meta.None? then st.(aborted := true)
          else
            var govdoc := CreateGovDoc(meta.value, file.name, existing.value.embedding);
            if services.mergeAccepts(govdoc) then RunState(Upsert(st.rows, govdoc, GovFilename), false)
            else st
  }

  function GenerateRun(rows: seq<GovDoc>, files: seq<TextFile>, records: seq<GovDoc>, force: bool, services: Services): RunState
  {
    if files == [] then RunState(rows, false)
    else GenerateStep(GenerateRun(rows, files[..|files| - 1], records, force, services), files[|files| - 1], records, force, services)
  }

  lemma GenerateRunAppend(rows: seq<GovDoc>, files: seq<TextFile>, i: nat, records: seq<GovDoc>, force: bool, services: Services)
    requires i < |files|
    ensures GenerateRun(rows, files[..i + 1], records, force, services) ==
      GenerateStep(GenerateRun(rows, files[..i], records, force, services), files[i], records, force, services)
  {
    assert files[..i + 1][..i] == files[..i];
  }

  lemma {:induction false} GenerateRunAbortedStays(rows: seq<GovDoc>, files: seq<TextFile>, k: nat, records: seq<GovDoc>, force: bool, services: Services)
    requires k <= |files| && GenerateRun(rows, files[..k], records, force, services).aborted
    ensures GenerateRun(rows, files, records, force, services) == GenerateRun(rows, files[..k], records, force, services)
    decreases |files| - k
  {
    if k < |files| {
      GenerateRunAppend(rows, files, k, records, force, services);
      GenerateRunAbortedStays(rows, files, k + 1, records, force, services);
    } else {
      assert files[..k] == files;
    }
  }

  /** The table of process.py (created at process.py:44-49 with the sample row). */
  class DocumentTable {
    var rows: seq<GovDoc>

    /** A new table holds the single sample row `new_GovDoc()`. */
    constructor ()
      ensures rows == [NewGovDoc()]
    {
      rows := [NewGovDoc()];
    }

    /** `embed_documents(files)` (process.py:113-133); `false` when an exception ended it. */
    method EmbedDocuments(files: seq<TextFile>, force: bool, embed: string -> Option<Vectors>) returns (completed: bool)
      modifies this
      ensures RunState(rows, !completed) == EmbedRun(old(rows), files, force, embed)
    {
      for i := 0 to |files|
        invariant EmbedRun(old(rows), files[..i], force, embed) == RunState(rows, false)
      {
        EmbedRunAppend(old(rows), files, i, force, embed);
        var file := files[i];
        if !force && HasKey(rows, file.name, GovFilename) {
          continue;
        }
        var embedding := embed(file.text);
        if embedding.None? {
          EmbedRunAbortedStays(old(rows), files, i + 1, force, embed);
          return false;
        }
        var flatEmbedding := Flatten(embedding.value);
        var govdoc := CreateGovDoc(NewMetaInfo(), file.name, flatEmbedding);
        rows := Upsert(rows, govdoc, GovFilename);
      }
      assert files[..|files|] == files;
      return true;
    }

    /** `generate_metadata(files)` (process.py:151-182); `false` when an exception ended it. */
    method GenerateMetadata(files: seq<TextFile>, force: bool, services: Services) returns (completed: bool)
      modifies this
      ensures RunState(rows, !completed) == GenerateRun(old(rows), files, old(rows), force, services)
    {
      var records := rows;
      for i := 0 to |files|
        invariant GenerateRun(old(rows), files[..i], records, force, services) == RunState(rows, false)
      {
        GenerateRunAppend(old(rows), files, i, records, force, services);
        var file := files[i];
        var existing := FirstByFilename(records, file.name);
        if existing.None? {
          continue;
        }
        if existing.value.meta.title != "" && !force {
          continue;
        }
        var answer := services.metadataAnswer(file.text);
        if answer.None? || !answer.value.JObject? {
          GenerateRunAbortedStays(old(rows), files, i + 1, records, force, services);
          return false;
        }
        var metadata := CleanMetadata(answer.value.fields);
        var meta := CreateMetaInfo(metadata);
        if meta.None? {
          GenerateRunAbortedStays(old(rows), files, i + 1, records, force, services);
          return false;
        }
        var govdoc := CreateGovDoc(meta.value, file.name, existing.value.embedding);
        if services.mergeAccepts(govdoc) {
          rows := Upsert(rows, govdoc, GovFilename);
        }
      }
      assert files[..|files|] == files;
      return true;
    }
  }

  // ---------------------------------------------------------------------------
  // Properties of the two passes

  /** A file that already has a row is not embedded again unless forced. */
  lemma EmbedSkipsExisting(st: RunState, file: TextFile, embed: string -> Option<Vectors>)
    requires HasKey(st.rows, file.name, GovFilename)
    ensures EmbedStep(st, file, false, embed) == st
  {
  }

  /**
   * A (re-)embedded file ends with exactly one kind of row under its name:
   * blank metadata (a title extracted earlier is reset to `""`), its id, and
   * the flattened vectors; every other file's rows stay.
   */
  lemma EmbedStoresBlankRecord(rows: seq<GovDoc>, file: TextFile, force: bool, embed: string -> Option<Vectors>)
    requires force || !HasKey(rows, file.name, GovFilename)
    requires embed(file.text).Some?
    ensures var after := EmbedStep(RunState(rows, false), file, force, embed).rows;
      && !EmbedStep(RunState(rows, false), file, force, embed).aborted
      && (forall d: GovDoc :: d in after && d.filename == file.name ==>
            d.meta == NewMetaInfo() && d.meta.title == "" && d.id == IdFromFilename(file.name) &&
            d.embedding == Flatten(embed(file.text).value))
      && (exists d :: d in after && d.filename == file.name)
      && (forall d: GovDoc :: d.filename != file.name ==> (d in after <==> d in rows))
  {
    var record := BlankRecord(file.name, embed(file.text).value);
    UpsertSpec(rows, record, GovFilename);
    forall d | d in Upsert(rows, record, GovFilename) && d.filename == file.name
      ensures d == record
    {
      UpsertRowsWithKey(rows, record, GovFilename, d);
    }
    forall d: GovDoc | d.filename != file.name
      ensures d in Upsert(rows, record, GovFilename) <==> d in rows
    {
      UpsertKeepsOthers(rows, record, GovFilename, d);
    }
  }

  /** Both passes keep one row per filename when the table starts that way. */
  lemma {:induction false} EmbedRunKeepsFilenamesUnique(rows: seq<GovDoc>, files: seq<TextFile>, force: bool, embed: string -> Option<Vectors>)
    requires UniqueKeys(rows, GovFilename)
    ensures UniqueKeys(EmbedRun(rows, files, force, embed).rows, GovFilename)
  {
    if files != [] {
      var st := EmbedRun(rows, files[..|files| - 1], force, embed);
      EmbedRunKeepsFilenamesUnique(rows, files[..|files| - 1], force, embed);
      var file := files[|files| - 1];
      if !st.aborted && (force || !HasKey(st.rows, file.name, GovFilename)) && embed(file.text).Some? {
        UpsertKeepsKeysUnique(st.rows, BlankRecord(file.name, embed(file.text).value), GovFilename);
      }
    }
  }

  lemma {:induction false} GenerateRunKeepsFilenamesUnique(rows: seq<GovDoc>, files: seq<TextFile>, records: seq<GovDoc>, force: bool, services: Services)
    requires UniqueKeys(rows, GovFilename)
    ensures UniqueKeys(GenerateRun(rows, files, records, force, services).rows, GovFilename)
  {
    if files != [] {
      var st := GenerateRun(rows, files[..|files| - 1], records, force, services);
      GenerateRunKeepsFilenamesUnique(rows, files[..|files| - 1], records, force, services);
      GenerateStepKeepsFilenamesUnique(st, files[|files| - 1], records, force, services);
    }
  }

  /** One file of `generate_metadata` keeps filenames unique. */
  lemma GenerateStepKeepsFilenamesUnique(st: RunState, file: TextFile, records: seq<GovDoc>, force: bool, services: Services)
    requires UniqueKeys(st.rows, GovFilename)
    ensures UniqueKeys(GenerateStep(st, file, records, force, services).rows, GovFilename)
  {
    var existing := FirstByFilename(records, file.name);
    var answer := services.metadataAnswer(file.text);
    if !st.aborted && existing.Some? && answer.Some? && answer.value.JObject? {
      var meta := CreateMetaInfo(LegacyCleaned(answer.value.fields));
      if meta.Some? {
        var govdoc := CreateGovDoc(meta.value, file.name, existing.value.embedding);
        UpsertKeepsKeysUnique(st.rows, govdoc, GovFilename);
      }
    }
  }

  /** A file without a row in the snapshot, or with a title there and force off, is skipped. */
  lemma GenerateSkips(st: RunState, file: TextFile, records: seq<GovDoc>, force: bool, services: Services)
    requires var e := FirstByFilename(records, file.name); e.None? || (e.value.meta.title != "" && !force)
    ensures GenerateStep(st, file, records, force, services) == st
  {
  }

  /**
   * A stored record holds the validated cleaned answer, the filename, the
   * id of the filename and the embedding of the snapshot row; a rejected
   * merge leaves the table as it was.
   */
  lemma GenerateStoresRecord(rows: seq<GovDoc>, file: TextFile, records: seq<GovDoc>, force: bool, services: Services)
    requires !GenerateStep(RunState(rows, false), file, records, force, services).aborted
    requires GenerateStep(RunState(rows, false), file, records, force, services).rows != rows
    ensures var existing := FirstByFilename(records, file.name);
      var answer := services.metadataAnswer(file.text);
      && existing.Some? && answer.Some? && answer.value.JObject?
      && CreateMetaInfo(LegacyCleaned(answer.value.fields)).Some?
      && var govdoc := GovDoc(CreateMetaInfo(LegacyCleaned(answer.value.fields)).value,
                              IdFromFilename(file.name), file.name, existing.value.embedding);
         services.mergeAccepts(govdoc) &&
         GenerateStep(RunState(rows, false), file, records, force, services).rows == Upsert(rows, govdoc, GovFilename)
  {
  }

  /**
   * A `copyright_year` given as a number passes `clean_metadata` unchanged
   * and fails validation, so the whole run stops there; src/metadata.py
   * turns the same number into a string.
   */
  lemma NumericYearAborts(rows: seq<GovDoc>, file: TextFile, records: seq<GovDoc>, force: bool, services: Services)
    requires var e := FirstByFilename(records, file.name); e.Some? && (e.value.meta.title == "" || force)
    requires var a := services.metadataAnswer(file.text);
      a.Some? && a.value.JObject? && "copyright_year" in a.value.fields && a.value.fields["copyright_year"].JInt?
    ensures GenerateStep(RunState(rows, false), file, records, force, services).aborted
  {
    var m := services.metadataAnswer(file.text).value.fields;
    LegacyCleanedValues(m, "copyright_year");
    assert !HasString(LegacyCleaned(m), "copyright_year");
  }

  /**
   * A fresh table already has a row for `sample.txt`, so a real file of that
   * name is never embedded unless forced.
   */
  lemma SampleFileShadowed(text: string, embed: string -> Option<Vectors>)
    ensures EmbedStep(RunState([NewGovDoc()], false), TextFile("sample.txt", text), false, embed) ==
      RunState([NewGovDoc()], false)
  {
    assert GovFilename([NewGovDoc()][0]) == "sample.txt";
  }
}
