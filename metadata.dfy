/**
 * Metadata extraction of src/metadata.py: the cleaner `clean_metadata_json`
 * and the skip / map / merge logic of `extract_metadata` over the documents
 * table.
 *
 * The record schema src/metadata.py writes (with `doc_id`, `keywords` and
 * `category`) is not part of this model; `Document` holds the fields the
 * code reads or writes, and whether the schema accepts the cleaned answer is
 * the parameter `validate`.
 */
module Metadata {
  import opened Util
  import opened Text
  import opened JsonValue
  import opened Cleaning
  import opened Classes
  import opened Store

  // ---------------------------------------------------------------------------
  // clean_metadata_json (src/metadata.py:66-84)

  /** `value in (None, "", "null", "unknown")`. */
  predicate IsNullLike(j: Json)
  {
    j == JNull || j == JString("") || j == JString("null") || j == JString("unknown")
  }

  /** Python's `str` of a bool. */
  function BoolString(b: bool): string
  {
    if b then "True" else "False"
  }

  /**
   * The first loop on one value: null-likes become `""`, then an `int`
   * (a `bool` is one in Python) becomes its `str`.
   */
  function CoerceScalar(j: Json): Json
  {
    var v := if IsNullLike(j) then JString("") else j;
    if v.JInt? then JString(IntToString(v.i))
    else if v.JBool? then JString(BoolString(v.b))
    else v
  }

  /** The keys the cleaner forces to be lists. */
  const ListKeys: seq<string> := ["authors", "editors", "languages", "keywords"]

  /** The object `clean_metadata_json` returns. */
  function Cleaned(m: Object): Object
  {
    FixLists(MapValues(m, CoerceScalar), ListKeys, JArray([]))
  }

  /** `clean_metadata_json`: two loops rewriting the dictionary. */
  method CleanMetadataJson(metadata: Object) returns (r: Object)
    ensures r == Cleaned(metadata)
  {
    r := metadata;
    var keys := metadata.Keys;
    while keys != {}
      invariant keys <= metadata.Keys && r.Keys == metadata.Keys
      invariant forall k :: k in metadata && k !in keys ==> r[k] == CoerceScalar(metadata[k])
      invariant forall k :: k in keys ==> r[k] == metadata[k]
      decreases keys
    {
      var key :| key in keys;
      if IsNullLike(r[key]) {
        r := r[key := JString("")];
      }
      var value := r[key];
      if value.JInt? {
        r := r[key := JString(IntToString(value.i))];
      } else if value.JBool? {
        r := r[key := JString(BoolString(value.b))];
      }
      keys := keys - {key};
    }
    assert r == MapValues(metadata, CoerceScalar);
    r := FixListFields(r, ListKeys, JArray([]));
  }

  /** The keys afterwards: the original ones plus the four list keys, nothing else. */
  lemma CleanedKeys(m: Object)
    ensures Cleaned(m).Keys == m.Keys + {"authors", "editors", "languages", "keywords"}
  {
    FixListsResult(MapValues(m, CoerceScalar), ListKeys, JArray([]));
    assert (set k | k in ListKeys) == {"authors", "editors", "languages", "keywords"};
  }

  /**
   * Every key keeps its value up to the two coercions, except that the four
   * list keys hold lists: a list stays, a missing or null-like value gives
   * `[]`, any other value `x` gives `[x]` (after the coercions).
   */
  lemma CleanedValues(m: Object, k: string)
    ensures k in m || k in ListKeys ==> k in Cleaned(m)
    ensures k in m && k !in ListKeys ==> Cleaned(m)[k] == CoerceScalar(m[k])
    ensures k in ListKeys ==>
      Cleaned(m)[k] == if k !in m || IsNullLike(m[k]) then JArray([])
                       else if m[k].JArray? then m[k]
                       else JArray([CoerceScalar(m[k])])
  {
    var c := MapValues(m, CoerceScalar);
    FixListsResult(c, ListKeys, JArray([]));
  }

  /** A null-like value becomes `""`, or `[]` under a list key. */
  lemma NullLikeBlanked(m: Object, k: string)
    requires k in m && IsNullLike(m[k])
    ensures k in Cleaned(m)
    ensures Cleaned(m)[k] == if k in ListKeys then JArray([]) else JString("")
  {
    CleanedValues(m, k);
  }

  /** An `int` becomes its decimal string, and a `bool` `"True"` or `"False"`. */
  lemma NumbersBecomeStrings(m: Object, k: string)
    requires k in m && k !in ListKeys
    ensures k in Cleaned(m)
    ensures m[k].JInt? ==> Cleaned(m)[k] == JString(IntToString(m[k].i))
    ensures m[k].JBool? ==> Cleaned(m)[k] == JString(BoolString(m[k].b))
    ensures m[k].JFloat? ==> Cleaned(m)[k] == m[k]
  {
    CleanedValues(m, k);
  }

  /** The four list keys are always present and hold lists. */
  lemma ListKeysAreLists(m: Object)
    ensures forall k :: k in ListKeys ==> k in Cleaned(m) && Cleaned(m)[k].JArray?
  {
    forall k | k in ListKeys ensures k in Cleaned(m) && Cleaned(m)[k].JArray? {
      CleanedValues(m, k);
      CleanedKeys(m);
    }
  }

  /** A cleaned value is never null-like, an int or a bool (except inside lists). */
  lemma CoerceScalarResult(j: Json)
    ensures var r := CoerceScalar(j); !r.JInt? && !r.JBool? && r != JNull
    ensures var r := CoerceScalar(j); IsNullLike(r) ==> r == JString("")
  {
    var r := CoerceScalar(j);
    if j.JInt? && !IsNullLike(j) {
      assert r.s == IntToString(j.i);
    }
  }

  lemma CoerceScalarIdempotent(j: Json)
    ensures CoerceScalar(CoerceScalar(j)) == CoerceScalar(j)
  {
    CoerceScalarResult(j);
  }

  /** Cleaning a cleaned object changes nothing. */
  lemma CleanedIdempotent(m: Object)
    ensures Cleaned(Cleaned(m)) == Cleaned(m)
  {
    var c := Cleaned(m);
    CleanedKeys(m);
    var cc := MapValues(c, CoerceScalar);
    forall k | k in c ensures cc[k] == c[k] {
      CleanedValues(m, k);
      if k in ListKeys {
        ListKeysAreLists(m);
      } else {
        CoerceScalarIdempotent(m[k]);
      }
    }
    assert cc == c;
    ListKeysAreLists(m);
    FixListsOfLists(c, ListKeys, JArray([]));
  }

  /**
   * `{"authors": "Jane Doe", "copyright_year": 2020, "languages": null}`
   * becomes `{"authors": ["Jane Doe"], "copyright_year": "2020",
   * "languages": [], "editors": [], "keywords": []}`, for any author name
   * that is not null-like and any year.
   */
  lemma CleanedExample(author: string, year: int)
    requires !IsNullLike(JString(author))
    ensures Cleaned(map["authors" := JString(author), "copyright_year" := JInt(year), "languages" := JNull]) ==
      map["authors" := JArray([JString(author)]), "copyright_year" := JString(IntToString(year)),
          "languages" := JArray([]), "editors" := JArray([]), "keywords" := JArray([])]
  {
    var m := map["authors" := JString(author), "copyright_year" := JInt(year), "languages" := JNull];
    var want := map["authors" := JArray([JString(author)]), "copyright_year" := JString(IntToString(year)),
                    "languages" := JArray([]), "editors" := JArray([]), "keywords" := JArray([])];
    var c := Cleaned(m);
    CleanedKeys(m);
    assert c.Keys == want.Keys;
    forall k | k in c ensures c[k] == want[k] {
      CleanedValues(m, k);
    }
  }

  // ---------------------------------------------------------------------------
  // extract_metadata (src/metadata.py:87-116)

  /**
   * A row of the documents table as src/metadata.py uses it: the document
   * id and filename, the title it checks, the cleaned first answer, and the
   * `keywords` and `category` taken from the second answer (`dict.get`, so
   * possibly `None`).
   */
  datatype Document = Document(docId: string, filename: string, title: string, metadata: Object,
                               keywords: Option<Json>, category: Option<Json>)

  /** The merge key. */
  function DocFilename(d: Document): string
  {
    d.filename
  }

  /**
   * The services `extract_metadata` relies on: the two model answers as
   * decoded JSON (`None` when the call or `json.loads` raises), whether the
   * record schema accepts the cleaned answer, and whether the table accepts
   * the merge.
   */
  datatype Services = Services(
    metadataAnswer: string -> Option<Json>,
    categoryAnswer: string -> Option<Json>,
    validate: Object -> bool,
    mergeAccepts: Document -> bool)

  /** How a call ends; `Raised` is an exception that leaves the function. */
  datatype Outcome = Skipped | Raised | MappingFailed | MergeFailed | Merged

  /** `existing_record["title"].values[0]`: the title of the first row with the id. */
  function FirstTitle(rows: seq<Document>, docId: string): Option<string>
  {
    if rows == [] then None
    else if rows[0].docId == docId then Some(rows[0].title)
    else FirstTitle(rows[1..], docId)
  }

  /** `str` value of `key`, or `""` if it is missing or not a string. */
  function StringOr(m: Object, key: string): string
  {
    if key in m && m[key].JString? then m[key].s else ""
  }

  /** `create_GovDoc(create_MetaInfo(metadata), ...)`: the record, if the schema accepts it. */
  function MapRecord(metadata: Object, docId: string, filename: string, validate: Object -> bool): Option<Document>
  {
    if validate(metadata) then Some(Document(docId, filename, StringOr(metadata, "title"), metadata, None, None))
    else None
  }

  /**
   * The outcome of `extract_metadata`, and the record it merges when it merges
   * one. The document id is taken to be `IdFromFilename(filename)`, the rule
   * of src/classes.py:47: the `get_id_from_filename` that src/metadata.py:88
   * calls is not part of this model.
   */
  function Extract(rows: seq<Document>, text: string, filename: string, force: bool, services: Services): (Outcome, Option<Document>)
  {
    var docId := IdFromFilename(filename);
    var existing := FirstTitle(rows, docId);
    if existing.Some? && existing.value != "" && !force then (Skipped, None)
    else
      var answer := services.metadataAnswer(text);
      if answer.None? || !answer.value.JObject? then (Raised, None)
      else
        var record := MapRecord(Cleaned(answer.value.fields), docId, filename, services.validate);
        if record.None? then (MappingFailed, None)
        else
          var category := services.categoryAnswer(text);
          if category.None? || !category.value.JObject? then (Raised, None)
          else
            var cat := Cleaned(category.value.fields);
            var doc := record.value.(keywords := Get(cat, "keywords"), category := Get(cat, "category"));
            if !services.mergeAccepts(doc) then (MergeFailed, None)
            else (Merged, Some(doc))
  }

  /** The table after `extract_metadata`: only a merge changes it. */
  function ExtractRows(rows: seq<Document>, text: string, filename: string, force: bool, services: Services): seq<Document>
  {
    var (outcome, doc) := Extract(rows, text, filename, force, services);
    if outcome == Merged then Upsert(rows, doc.value, DocFilename) else rows
  }

  /** The documents table (created by src/config.py:46-53, not part of this model). */
  class DocumentsTable {
    var rows: seq<Document>

    constructor (initial: seq<Document>)
      ensures rows == initial
    {
      rows := initial;
    }

    /** `extract_metadata(text, filename)` with the force flag `force`. */
    method ExtractMetadata(text: string, filename: string, force: bool, services: Services) returns (outcome: Outcome)
      modifies this
      ensures outcome == Extract(old(rows), text, filename, force, services).0
      ensures rows == ExtractRows(old(rows), text, filename, force, services)
    {
      var docId := IdFromFilename(filename);
      var existing := FirstTitle(rows, docId);
      if existing.Some? {
        if existing.value != "" && !force {
          return Skipped;
        }
      }
      var answer := services.metadataAnswer(text);
      if answer.None? || !answer.value.JObject? {
        return Raised;
      }
      var metadata := CleanMetadataJson(answer.value.fields);
      var govdoc := MapRecord(metadata, docId, filename, services.validate);
      if govdoc.None? {
        return MappingFailed;
      }
      var catAnswer := services.categoryAnswer(text);
      if catAnswer.None? || !catAnswer.value.JObject? {
        return Raised;
      }
      var cat := CleanMetadataJson(catAnswer.value.fields);
      var doc := govdoc.value.(keywords := Get(cat, "keywords"), category := Get(cat, "category"));
      if !services.mergeAccepts(doc) {
        return MergeFailed;
      }
      rows := Upsert(rows, doc, DocFilename);
      return Merged;
    }
  }

  // ---------------------------------------------------------------------------
  // Properties of extract_metadata

  /** A titled row for the id, with force off, stops the call before any service is asked. */
  lemma TitledDocumentSkipped(rows: seq<Document>, text: string, filename: string, services: Services)
    requires var t := FirstTitle(rows, IdFromFilename(filename)); t.Some? && t.value != ""
    ensures Extract(rows, text, filename, false, services).0 == Skipped
    ensures ExtractRows(rows, text, filename, false, services) == rows
  {
  }

  /**
   * A merged record has the id of its file and the filename, its keywords
   * are always a list (from the cleaned second answer) and its category is
   * that answer's `category`; the merge replaces the rows with that filename
   * and keeps every row of another file.
   */
  lemma MergedRecord(rows: seq<Document>, text: string, filename: string, force: bool, services: Services)
    requires Extract(rows, text, filename, force, services).0 == Merged
    ensures var doc := Extract(rows, text, filename, force, services).1.value;
      var cat := Cleaned(services.categoryAnswer(text).value.fields);
      && doc.docId == IdFromFilename(filename) && doc.filename == filename
      && doc.metadata == Cleaned(services.metadataAnswer(text).value.fields)
      && doc.title == StringOr(doc.metadata, "title")
      && doc.keywords == Get(cat, "keywords")
      && doc.keywords.Some? && doc.keywords.value.JArray?
      && doc.category == Get(cat, "category")
      && doc in ExtractRows(rows, text, filename, force, services)
      && (forall d: Document :: d.filename != filename ==> (d in ExtractRows(rows, text, filename, force, services) <==> d in rows))
  {
    var doc := Extract(rows, text, filename, force, services).1.value;
    var cat := Cleaned(services.categoryAnswer(text).value.fields);
    ListKeysAreLists(services.categoryAnswer(text).value.fields);
    assert "keywords" in ListKeys;
    UpsertSpec(rows, doc, DocFilename);
    forall d: Document | d.filename != filename
      ensures d in ExtractRows(rows, text, filename, force, services) <==> d in rows
    {
      UpsertKeepsOthers(rows, doc, DocFilename, d);
    }
  }

  /** The first row with an id, after a merge of a record with that id into a table without it. */
  lemma {:induction false} FirstTitleAfterUpsert(rows: seq<Document>, doc: Document)
    requires forall i :: 0 <= i < |rows| ==> rows[i].docId != doc.docId
    ensures FirstTitle(Upsert(rows, doc, DocFilename), doc.docId) == Some(doc.title)
  {
    var r := Upsert(rows, doc, DocFilename);
    UpsertSpec(rows, doc, DocFilename);
    FirstTitleOf(r, doc);
  }

  lemma {:induction false} FirstTitleOf(r: seq<Document>, doc: Document)
    requires doc in r
    requires forall d :: d in r && d.docId == doc.docId ==> d == doc
    ensures FirstTitle(r, doc.docId) == Some(doc.title)
  {
    if r[0] != doc {
      assert doc in r[1..];
      FirstTitleOf(r[1..], doc);
    }
  }

  /**
   * Once a file of a new id got a titled record, extracting again without
   * force is skipped; so is any other file with the same id, even in
   * another directory, because the check is by id while the merge is by
   * filename.
   */
  lemma SecondRunSkipped(rows: seq<Document>, text: string, filename: string, force: bool, services: Services,
                         text2: string, filename2: string, services2: Services)
    requires forall i :: 0 <= i < |rows| ==> rows[i].docId != IdFromFilename(filename)
    requires Extract(rows, text, filename, force, services).0 == Merged
    requires Extract(rows, text, filename, force, services).1.value.title != ""
    requires IdFromFilename(filename2) == IdFromFilename(filename)
    ensures var after := ExtractRows(rows, text, filename, force, services);
      Extract(after, text2, filename2, false, services2).0 == Skipped &&
      ExtractRows(after, text2, filename2, false, services2) == after
  {
    var doc := Extract(rows, text, filename, force, services).1.value;
    MergedRecord(rows, text, filename, force, services);
    FirstTitleAfterUpsert(rows, doc);
    var after := ExtractRows(rows, text, filename, force, services);
    assert after == Upsert(rows, doc, DocFilename);
    TitledDocumentSkipped(after, text2, filename2, services2);
  }

  /**
   * Files with the same stem in two directories (`a/x.txt`, `b/x.txt`) share
   * one id, so the skip check of one of them finds the other's record.
   */
  lemma SameStemSameId(dir1: string, dir2: string, stem: string, ext: string)
    requires '/' !in stem && '/' !in ext && '.' !in stem
    ensures IdFromFilename(dir1 + "/" + stem + "." + ext) == IdFromFilename(dir2 + "/" + stem + "." + ext) == stem
  {
    IdOfPath(dir1, stem, ext);
    IdOfPath(dir2, stem, ext);
  }
}
