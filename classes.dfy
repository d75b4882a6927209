/**
 * The records of src/classes.py: `MetaInfo`, the document record `GovDoc`
 * that extends it with an id, a filename and an embedding, and their
 * constructors.
 */
module Classes {
  import opened Util
  import opened Text
  import opened JsonValue

  /** The fourteen metadata fields, in declaration order. */
  datatype MetaInfo = MetaInfo(
    title: string,
    levelOfGovernment: string,
    responsibleProvince: string,
    responsibleCity: string,
    authors: seq<string>,
    editors: seq<string>,
    publisher: string,
    publishDate: string,
    publisherLocation: string,
    copyrightYear: string,
    issn: string,
    isbn: string,
    language: seq<string>,
    summary: string)

  /** A row of the documents table: the metadata plus id, filename and embedding. */
  datatype GovDoc = GovDoc(meta: MetaInfo, id: string, filename: string, embedding: seq<real>)

  /** The eleven `str` fields, in declaration order. */
  function StringFields(m: MetaInfo): seq<string>
  {
    [m.title, m.levelOfGovernment, m.responsibleProvince, m.responsibleCity, m.publisher,
     m.publishDate, m.publisherLocation, m.copyrightYear, m.issn, m.isbn, m.summary]
  }

  /** The three `list[str]` fields. */
  function ListFields(m: MetaInfo): seq<seq<string>>
  {
    [m.authors, m.editors, m.language]
  }

  /** The JSON keys of the `str` fields. */
  const StringKeys: set<string> :=
    {"title", "level_of_government", "responsible_province", "responsible_city", "publisher",
     "publish_date", "publisher_location", "copyright_year", "ISSN", "ISBN", "summary"}

  /** The JSON keys of the `list[str]` fields. */
  const ListKeys: set<string> := {"authors", "editors", "language"}

  /**
   * The id of a file: the last `/`-separated segment of its name, cut
   * before the first `.` (src/classes.py:47).
   */
  function IdFromFilename(filename: string): (id: string)
    ensures '/' !in id && '.' !in id
  {
    BeforeFirst(AfterLast(filename, '/'), '.')
  }

  /** An id has no `/` and no `.`, so deriving the id of an id changes nothing. */
  lemma IdFromFilenameIdempotent(filename: string)
    ensures IdFromFilename(IdFromFilename(filename)) == IdFromFilename(filename)
  {
    var id := IdFromFilename(filename);
    AfterLastAbsent(id, '/');
    BeforeFirstAbsent(id, '.');
  }

  /**
   * The id of `dir/stem.ext` is `stem` whatever the directory, and even when
   * the extension has further dots (`a/report.v2.txt` has id `report`).
   */
  lemma IdOfPath(dir: string, stem: string, ext: string)
    requires '/' !in stem && '/' !in ext && '.' !in stem
    ensures IdFromFilename(dir + "/" + stem + "." + ext) == stem
  {
    assert dir + "/" + stem + "." + ext == dir + ['/'] + (stem + ['.'] + ext);
    AfterLastAt(dir, '/', stem + ['.'] + ext);
    BeforeFirstAt(stem, '.', ext);
  }

  /** A name without a directory part keeps the text before its first dot. */
  lemma IdOfName(stem: string, ext: string)
    requires '/' !in stem && '/' !in ext && '.' !in stem
    ensures IdFromFilename(stem + "." + ext) == stem
  {
    assert '/' !in stem + "." + ext;
    AfterLastAbsent(stem + "." + ext, '/');
    BeforeFirstAt(stem, '.', ext);
  }

  /** `create_GovDoc` (src/classes.py:45-48). */
  function CreateGovDoc(meta: MetaInfo, filename: string, embedding: seq<real>): (g: GovDoc)
    ensures g.meta == meta && g.filename == filename && g.embedding == embedding
    ensures g.id == IdFromFilename(filename) && '/' !in g.id && '.' !in g.id
  {
    GovDoc(meta, IdFromFilename(filename), filename, embedding)
  }

  /** `new_MetaInfo` (src/classes.py:22-38): blank strings, and `[""]` for each list. */
  function NewMetaInfo(): (m: MetaInfo)
    ensures forall s :: s in StringFields(m) ==> s == ""
    ensures forall l :: l in ListFields(m) ==> l == [""]
  {
    MetaInfo("", "", "", "", [""], [""], "", "", "", "", "", "", [""], "")
  }

  /** `new_GovDoc` (src/classes.py:50-51), the sample row a new table is created with. */
  function NewGovDoc(): (g: GovDoc)
    ensures g.meta == NewMetaInfo()
    ensures g.filename == "sample.txt" && g.id == "sample"
    ensures g.embedding == [0.0, 0.0, 0.0]
  {
    IdOfName("sample", "txt");
    assert "sample" + "." + "txt" == "sample.txt";
    CreateGovDoc(NewMetaInfo(), "sample.txt", [0.0, 0.0, 0.0])
  }

  /** `model_dump`: every field under its JSON key. */
  function Dump(m: MetaInfo): Object
  {
    map["title" := JString(m.title),
        "level_of_government" := JString(m.levelOfGovernment),
        "responsible_province" := JString(m.responsibleProvince),
        "responsible_city" := JString(m.responsibleCity),
        "authors" := StringArray(m.authors),
        "editors" := StringArray(m.editors),
        "publisher" := JString(m.publisher),
        "publish_date" := JString(m.publishDate),
        "publisher_location" := JString(m.publisherLocation),
        "copyright_year" := JString(m.copyrightYear),
        "ISSN" := JString(m.issn),
        "ISBN" := JString(m.isbn),
        "language" := StringArray(m.language),
        "summary" := JString(m.summary)]
  }

  /** `key` holds a value a `str` field accepts. */
  predicate HasString(obj: Object, key: string)
  {
    key in obj && AsString(obj[key]).Some?
  }

  /** `key` holds a value a `list[str]` field accepts. */
  predicate HasStrings(obj: Object, key: string)
  {
    key in obj && AsStrings(obj[key]).Some?
  }

  /** Every field is present with a value of its declared type. */
  predicate Conforms(obj: Object)
  {
    HasString(obj, "title") && HasString(obj, "level_of_government") &&
    HasString(obj, "responsible_province") && HasString(obj, "responsible_city") &&
    HasStrings(obj, "authors") && HasStrings(obj, "editors") &&
    HasString(obj, "publisher") && HasString(obj, "publish_date") &&
    HasString(obj, "publisher_location") && HasString(obj, "copyright_year") &&
    HasString(obj, "ISSN") && HasString(obj, "ISBN") &&
    HasStrings(obj, "language") && HasString(obj, "summary")
  }

  /**
   * `create_MetaInfo(json)`, that is `MetaInfo(**json)` (src/classes.py:19-20):
   * a missing field or a value of the wrong type is a validation error
   * (`None` here); keys that are not fields are ignored.
   */
  function CreateMetaInfo(obj: Object): Option<MetaInfo>
  {
    if Conforms(obj) then
      Some(MetaInfo(obj["title"].s, obj["level_of_government"].s, obj["responsible_province"].s,
                    obj["responsible_city"].s, AsStrings(obj["authors"]).value,
                    AsStrings(obj["editors"]).value, obj["publisher"].s, obj["publish_date"].s,
                    obj["publisher_location"].s, obj["copyright_year"].s, obj["ISSN"].s,
                    obj["ISBN"].s, AsStrings(obj["language"]).value, obj["summary"].s))
    else None
  }

  /** The field keys of equal length differ (keys of different lengths differ anyway). */
  lemma SameLengthKeysDiffer()
    ensures "authors" != "editors" && "authors" != "summary" && "editors" != "summary"
    ensures "ISSN" != "ISBN"
  {
    assert "authors"[0] != "editors"[0] && "authors"[0] != "summary"[0] && "editors"[0] != "summary"[0];
    assert "ISSN"[2] != "ISBN"[2];
  }

  /** The string fields of a dump that describe the issuing government. */
  lemma DumpGovernment(m: MetaInfo)
    ensures var d := Dump(m);
      && d["title"] == JString(m.title) && d["level_of_government"] == JString(m.levelOfGovernment)
      && d["responsible_province"] == JString(m.responsibleProvince)
      && d["responsible_city"] == JString(m.responsibleCity)
  {
    SameLengthKeysDiffer();
  }

  /** The string fields of a dump that describe the publication. */
  lemma DumpPublication(m: MetaInfo)
    ensures var d := Dump(m);
      && d["publisher"] == JString(m.publisher) && d["publish_date"] == JString(m.publishDate)
      && d["publisher_location"] == JString(m.publisherLocation)
      && d["copyright_year"] == JString(m.copyrightYear)
  {
    SameLengthKeysDiffer();
  }

  /** The identifier and summary fields of a dump. */
  lemma DumpIdentifiers(m: MetaInfo)
    ensures var d := Dump(m);
      && d["ISSN"] == JString(m.issn) && d["ISBN"] == JString(m.isbn) && d["summary"] == JString(m.summary)
  {
    SameLengthKeysDiffer();
  }

  /** The string fields of a dump, each under its key. */
  lemma DumpStrings(m: MetaInfo)
    ensures var d := Dump(m);
      && d["title"] == JString(m.title) && d["level_of_government"] == JString(m.levelOfGovernment)
      && d["responsible_province"] == JString(m.responsibleProvince)
      && d["responsible_city"] == JString(m.responsibleCity)
      && d["publisher"] == JString(m.publisher) && d["publish_date"] == JString(m.publishDate)
      && d["publisher_location"] == JString(m.publisherLocation)
      && d["copyright_year"] == JString(m.copyrightYear)
      && d["ISSN"] == JString(m.issn) && d["ISBN"] == JString(m.isbn) && d["summary"] == JString(m.summary)
  {
    DumpGovernment(m);
    DumpPublication(m);
    DumpIdentifiers(m);
  }

  /** The list fields of a dump, each under its key. */
  lemma DumpLists(m: MetaInfo)
    ensures var d := Dump(m);
      && d["authors"] == StringArray(m.authors) && d["editors"] == StringArray(m.editors)
      && d["language"] == StringArray(m.language)
  {
    SameLengthKeysDiffer();
  }

  /** A dump has exactly the field keys. */
  lemma DumpKeys(m: MetaInfo)
    ensures forall k :: k in Dump(m) <==> k in StringKeys || k in ListKeys
  {
    SameLengthKeysDiffer();
  }

  /**
   * A record is made exactly when every field is there with its type, and it
   * holds what the object says: its dump is a part of the object.
   */
  lemma CreateMetaInfoFaithful(obj: Object)
    ensures CreateMetaInfo(obj).Some? <==> Conforms(obj)
    ensures CreateMetaInfo(obj).Some? ==>
      var d := Dump(CreateMetaInfo(obj).value);
      forall k :: k in d ==> k in obj && obj[k] == d[k]
  {
    if Conforms(obj) {
      var m := CreateMetaInfo(obj).value;
      var d := Dump(m);
      DumpStrings(m);
      DumpLists(m);
      DumpKeys(m);
      assert obj["authors"] == StringArray(m.authors);
      assert obj["editors"] == StringArray(m.editors);
      assert obj["language"] == StringArray(m.language);
      forall k | k in d ensures k in obj && obj[k] == d[k] {
        if k !in ListKeys {
          assert obj[k].JString?;
        }
      }
    }
  }

  /** A dump has every field with its declared type. */
  lemma DumpConforms(m: MetaInfo)
    ensures Conforms(Dump(m))
  {
    DumpStrings(m);
    DumpLists(m);
    DumpKeys(m);
    AsStringsRoundTrip(m.authors);
    AsStringsRoundTrip(m.editors);
    AsStringsRoundTrip(m.language);
  }

  /** Validating the dump of a record gives the record back. */
  lemma CreateMetaInfoRoundTrip(m: MetaInfo)
    ensures CreateMetaInfo(Dump(m)) == Some(m)
  {
    var d := Dump(m);
    DumpConforms(m);
    DumpStrings(m);
    DumpLists(m);
    AsStringsRoundTrip(m.authors);
    AsStringsRoundTrip(m.editors);
    AsStringsRoundTrip(m.language);
    var r := CreateMetaInfo(d).value;
    assert r.authors == m.authors && r.editors == m.editors && r.language == m.language;
  }

  /** A key that is not a field name does not affect validation. */
  lemma CreateMetaInfoIgnoresExtraKeys(obj: Object, key: string, value: Json)
    requires key !in StringKeys && key !in ListKeys
    ensures CreateMetaInfo(obj[key := value]) == CreateMetaInfo(obj)
  {
    var o := obj[key := value];
    assert forall k :: k in StringKeys || k in ListKeys ==> (k in o <==> k in obj) && (k in obj ==> o[k] == obj[k]);
  }

  /** A number where a string is declared is rejected, not converted. */
  lemma NumberForStringRejected(obj: Object, n: int)
    ensures CreateMetaInfo(obj["copyright_year" := JInt(n)]) == None
  {
  }
}
