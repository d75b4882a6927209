# gov-docs ingestion pipeline, modelled in Dafny

gov-docs turns scanned government publications into a searchable store. The
stages are:

- `get_ia_files.py` downloads the PDFs listed in a CSV of Internet Archive links.
- `ocr_pdf.py` renders each PDF page and runs OCR on it. It writes one
  `Page n:` block per page into a `text/` directory beside the PDF's folder.
- `src/embed.py` normalises the OCR text, cuts it into word-counted chunks,
  embeds each chunk and stores one passage per chunk.
- `src/metadata.py` and `process.py` ask a language model for the
  document's metadata. They clean the answer, map it onto the
  `MetaInfo`/`GovDoc` records of `src/classes.py` and merge it into the
  documents table, keyed by file name.

This project restates those steps as Dafny functions, methods and classes
and proves the properties the code relies on. It covers:

- which rows each run adds, replaces or keeps;
- that filename keys stay unique;
- what the cleaners do to each JSON value;
- how the page ranges cover the document in order;
- where every output file lands;
- how the download loop counts rows against its limit.

Some outside services are parameters of the model:

- The language model (`embed`, `metadataAnswer`, `categoryAnswer`) is a
  function that returns `None` when the call fails.
- The `MetaInfo` and record schemas give the acceptance predicates
  (`validate`, `mergeAccepts`).
- The PDF renderer and the OCR engine are functions (`Engine`).
- The file system is a map from paths to contents.
- A LanceDB table is a `seq` of rows held in a class field.

Modules, one per source file, plus shared helpers:

| module | models |
|---|---|
| `Util`, `Text`, `JsonValue`, `Store` | `Option`, flattening, whitespace/word counting, splitting, `str.replace`, decimal `str(int)`, JSON values, LanceDB `merge_insert` on a key |
| `Normalizer` | `clean_and_normalize_text` |
| `Chunker` | `chunk_text` |
| `Passages` | `embed_document` and the passages table |
| `Cleaning` | what the two metadata cleaners share (map over values, list-field repair) |
| `Metadata` | `clean_metadata_json`, `extract_metadata` |
| `Classes` | `MetaInfo`, `GovDoc` and their constructors |
| `Process` | `clean_metadata`, `get_title`, `embed_documents`, `generate_metadata`, the `documents` table |
| `InternetArchive` | the `get_ia_files.py` main loop |
| `Ocr` | page chunking, image order, output text, output path and skip rule of `ocr_pdf.py` |

Where the code does something other than what its comments or its design
suggest, the model follows the code:

- `chunk_text` returns no chunk at all when the whole text has fewer than
  `min_chunk_size` words. It does not return one short chunk. `clean_and_normalize_text` turns every newline
  into nothing, so each document is one paragraph
  (`Chunker.ChunkText`, `Normalizer.NormalizedIsOneParagraph`). As a result, words on
  adjacent lines are fused (`Normalizer.LinesFusedAround`, with the example `Normalizer.LinesFused`).
- A paragraph that would overflow a chunk that has already reached the
  minimum is dropped, not carried into the next chunk. For example, a
  fitting first paragraph followed by an overflowing second one yields
  the first paragraph alone (`Chunker.DroppedParagraphNotCarried`).
- `clean_metadata_json` turns a Python `bool` into `"True"`/`"False"`,
  because the `isinstance(value, int)` test accepts booleans.
- The two cleaners disagree on some values (`Process.UnknownAndNumbersDiffer`, `Process.EmptyListsDiffer`):
  - `process.py`'s `clean_metadata` keeps `"unknown"` and integers, and fills empty lists with `[""]`.
  - `src/metadata.py` blanks `"unknown"`, stringifies integers and uses `[]`.
  - As a result, an integer `copyright_year` makes `generate_metadata` abort (`Process.NumericYearAborts`).
- `get_title` removes the first and the last character whenever the title
  starts with `"`, even when the last one is not a quote
  (`Process.HalfQuotedTitle`).
- On a fresh table the sample row owns the file name `sample.txt`. A real
  `sample.txt` is therefore not embedded without `force` (`Process.SampleFileShadowed`).
- `extract_metadata` decides whether to skip by document id, but merges by file name.
- Two PDFs with the same stem in sibling directories get the same output
  file. Without `force`, the first one wins (`Ocr.SameStemCollision`,
  `Ocr.SiblingDirectoriesCollide`).
- A negative download limit stops the loop before the first row
  (`InternetArchive.CountedRows`).

## Model

| member | source | states |
|---|---|---|
| Normalizer.RemoveArtifacts | src/embed.py:18 | every remaining character was in the input and is not one of the OCR artifact symbols |
| Normalizer.PageHeaderRemoved | src/embed.py:18 | a `Page <n>:` marker is deleted completely, whatever follows it |
| Normalizer.CollapseNewlines | src/embed.py:19 | the output has no two adjacent newlines, uses only input characters and keeps a non-space first character |
| Normalizer.CollapseNewlinesNoNewline | src/embed.py:19 | text without a newline is left unchanged, spaces included |
| Normalizer.CollapseNewlinesConcat | src/embed.py:19 | text ending in a non-space and what follows it are collapsed independently |
| Normalizer.CollapseNewlinesSplits | src/embed.py:19 | a whitespace run holding a newline, between non-space text, becomes exactly one newline, and both sides are collapsed on their own |
| Normalizer.RemoveArtifactsNothingToDo | src/embed.py:18 | text with no artifact symbol and no `Page <digit>` is left unchanged |
| Normalizer.BlankLinesAlreadyCollapsed | src/embed.py:20 | the blank-line substitution changes nothing once newlines are collapsed |
| Normalizer.KeepPrintableOutput | src/embed.py:21 | only printable input characters survive |
| Normalizer.KeepPrintableKeeps | src/embed.py:21 | printable text is unchanged: every printable character is kept |
| Normalizer.KeepPrintableConcat | src/embed.py:21 | the filter works character by character, so it keeps order and distributes over concatenation |
| Normalizer.LinesFusedAround | src/embed.py:19-21 | a whitespace run holding a newline between non-space text disappears entirely, so the text on either side is joined with no separator |
| Normalizer.NormalizeKeepsCleanText | src/embed.py:13-22 | already clean text (printable, no newline, no artifact, no `Page <digit>`, no surrounding space) is returned unchanged |
| Normalizer.NormalizeOutput | src/embed.py:13-22 | normalised text is printable, has no newline and no artifact symbol, and has no leading or trailing space |
| Normalizer.NormalizedIsOneParagraph | src/embed.py:13-22 | splitting normalised text on blank lines always yields exactly one paragraph |
| Normalizer.LinesFused | src/embed.py:19-21 | `"ab\ncd"` normalises to `"abcd"`: words on adjacent lines merge |
| Normalizer.SpacedLinesFused | src/embed.py:19-21 | spaces around a newline are removed with it |
| Text.StripWordCount | src/embed.py:22 | stripping keeps the word count |
| Text.JoinSpaceWordCount | src/embed.py:45-52 | joining paragraphs with spaces gives a text whose word count is the sum of theirs |
| Text.NatToStringRoundTrip | src/metadata.py:74 | the decimal rendering of a natural number parses back to it |
| Text.AfterLastAt | get_ia_files.py:38 | the text after the last separator is the final segment |
| Chunker.ChunkParagraphs | src/embed.py:25-71 | the loop computes the chunk specification over the paragraph list |
| Chunker.ChunkText | src/embed.py:25-71 | on real input, the chunks are `[]` below the minimum, the whole normalised text at or above it, and `[""]` when the text exceeds the maximum and the minimum is not positive |
| Chunker.RunSize | src/embed.py:39-59 | the running count equals the words of the open chunk and stays within the maximum |
| Chunker.ClosedGroupsWithinBudget | src/embed.py:43-54 | every closed chunk has at least the minimum and at most the maximum words, or is a single forced paragraph |
| Chunker.RunKeepsParagraphsInOrder | src/embed.py:39-59 | the closed chunks followed by the open one are exactly the kept paragraphs, in input order |
| Chunker.DroppedParagraphNotCarried | src/embed.py:43-47 | when the first paragraph fits and reaches the minimum and the second overflows, the chunks are the first paragraph alone: the second is discarded |
| Chunker.RunWithinMax | src/embed.py:39-59 | input within the maximum stays in one open chunk |
| Chunker.ShortInputNoChunks | src/embed.py:61-69 | input shorter than the minimum yields no chunk |
| Chunker.ChunksReachMinimum | src/embed.py:25-71 | with a positive minimum every chunk has at least the minimum number of words |
| Chunker.ForcedChunkScenario | src/embed.py:48-54 | 80 then 90 words with limits 100/150 give one forced chunk of 170 words |
| Chunker.NormalizedChunks | src/embed.py:25-71 | characterises the chunks of a single normalised paragraph |
| Passages.RowsOfWithout | src/embed.py:114-116 | deleting a document's passages removes all of them and no others |
| Passages.EmbedEach | src/embed.py:118-125 | embeds chunk by chunk and gives one vector list per chunk, or fails as a whole |
| Passages.EmbeddingsTable.constructor | src/embed.py:108 | the table starts with the given rows |
| Passages.EmbeddingsTable.AppendPassages | src/embed.py:128-132 | appends one passage per chunk, numbered from 0, with the flattened embedding |
| Passages.EmbeddingsTable.EmbedDocument | src/embed.py:108-132 | the new table and the outcome follow the skip, delete, embed and add steps |
| Passages.OtherDocumentsUntouched | src/embed.py:108-132 | another document's passages are never changed |
| Passages.ReplacedPassages | src/embed.py:118-132 | replacing a document's passages leaves one row per chunk, numbered in chunk order with the chunk's flattened embedding, or no row if an embedding failed |
| Passages.DocumentPassages | src/embed.py:118-132 | after a run, passage `i` of the document is chunk `i` with its flattened embedding, or there are none if embedding failed |
| Passages.SkipKeepsTable | src/embed.py:110-113 | an already embedded document is skipped without `force` and the table is unchanged |
| Passages.ReembedShrinks | src/embed.py:113-116 | re-embedding with `force` removes stale passages beyond the new chunk count |
| Passages.ForcedRerunIdempotent | src/embed.py:108-132 | a second forced run of the same document leaves the table as the first left it |
| Passages.AtMostOnePassage | src/embed.py:108-132 | because the text is one paragraph, a document has at most one passage |
| JsonValue.AsStringsRoundTrip | src/classes.py:3-17 | a list of strings read back from its JSON form is unchanged |
| Cleaning.FixListsResult | src/metadata.py:77-83 | list repair adds exactly the list keys, sets each from its old value and keeps all other keys |
| Cleaning.FixListFields | src/metadata.py:77-83 | the loop computes the list repair |
| Metadata.CleanMetadataJson | src/metadata.py:66-84 | the two loops compute the cleaning function |
| Metadata.CleanedKeys | src/metadata.py:66-84 | the cleaned keys are the original keys plus the four list keys |
| Metadata.CleanedValues | src/metadata.py:66-84 | a scalar is coerced. A list key holds `[]` when missing or null-like, the list when it is a list, and `[x]` otherwise |
| Metadata.NullLikeBlanked | src/metadata.py:69-70 | JSON `null` (Python `None`), `""`, `"null"` and `"unknown"` become `""` (or `[]` under a list key) |
| Metadata.NumbersBecomeStrings | src/metadata.py:72-74 | ints become their decimal string and bools `"True"`/`"False"`, while floats stay |
| Metadata.ListKeysAreLists | src/metadata.py:77-83 | the four list keys are present and hold lists |
| Metadata.CoerceScalarResult | src/metadata.py:68-74 | a coerced value is never an int, a bool or null, and a null-like result is `""` |
| Metadata.CleanedIdempotent | src/metadata.py:66-84 | cleaning twice is cleaning once |
| Metadata.CleanedExample | src/metadata.py:66-84 | a worked example with a string author, an int year and a null language |
| Metadata.DocumentsTable.constructor | src/metadata.py:87 | the table starts with the given rows |
| Metadata.DocumentsTable.ExtractMetadata | src/metadata.py:87-116 | the outcome and the new table follow the skip, map, category and merge steps |
| Metadata.TitledDocumentSkipped | src/metadata.py:88-95 | a document whose stored title is non-empty is skipped without `force` and the table is unchanged |
| Metadata.MergedRecord | src/metadata.py:97-116 | a merged record has the file's id and name, the cleaned first answer as its metadata and that answer's title, the cleaned second answer's `keywords` (a list) and `category`, is in the table, and rows for other files are unchanged |
| Metadata.FirstTitleOf | src/metadata.py:88-92 | the title lookup finds the unique row with that id |
| Metadata.SecondRunSkipped | src/metadata.py:87-116 | after a merge with a title, a second run without `force` on a file with the same id is skipped |
| Metadata.SameStemSameId | src/classes.py:47 | files with one stem in different directories share an id |
| Classes.IdFromFilename | src/classes.py:47 | the id contains neither `/` nor `.` |
| Classes.IdFromFilenameIdempotent | src/classes.py:47 | taking the id of an id changes nothing |
| Classes.IdOfPath | src/classes.py:47 | the id of `dir/stem.ext` is `stem` |
| Classes.CreateGovDoc | src/classes.py:45-48 | keeps the metadata, filename and embedding, and sets the id derived from the filename |
| Classes.NewMetaInfo | src/classes.py:22-38 | every string field is `""` and every list field is `[""]` |
| Classes.NewGovDoc | src/classes.py:50-51 | the sample record is `sample.txt`, with id `sample`, blank metadata and a zero 3-vector |
| Classes.CreateMetaInfoFaithful | src/classes.py:19-20 | validation succeeds exactly on conforming objects, and the record's fields equal the input's values |
| Classes.CreateMetaInfoRoundTrip | src/classes.py:19-20 | validating a dumped record gives back the record |
| Classes.CreateMetaInfoIgnoresExtraKeys | src/classes.py:19-20 | keys outside the schema are ignored |
| Classes.NumberForStringRejected | src/classes.py:3-17 | an integer `copyright_year` fails validation |
| Store.UpsertSpec | process.py:178 | the merge replaces rows with the key in place, or appends the row |
| Store.UpsertKeepsOthers | src/metadata.py:111-114 | rows with other keys are neither lost nor changed |
| Store.UpsertKeepsKeysUnique | process.py:178 | merging never creates a duplicate key |
| Store.UpsertIdempotent | process.py:178 | merging the same row twice is merging it once |
| Process.CleanMetadata | process.py:136-148 | the loop computes the legacy cleaning function |
| Process.LegacyCleanedValues | process.py:136-148 | keys are the original keys plus `authors`/`editors`/`language`. Nullish scalars become `""`. List keys hold `[""]` when nullish, the list when a list, and `[x]` otherwise |
| Process.UnknownAndNumbersDiffer | process.py:136-148 | `"unknown"` and ints survive this cleaner but not the other |
| Process.EmptyListsDiffer | process.py:143-147 | missing authors/editors become `[""]` here and `[]` in the other cleaner |
| Process.StripTitleQuotes | process.py:98-104 | a title starting with `"` loses its first and last characters, and any other title is kept. An empty title has no result |
| Process.QuotedTitle | process.py:102-103 | a fully quoted title loses exactly its quotes |
| Process.HalfQuotedTitle | process.py:102-103 | a title quoted only at the start also loses its last character |
| Process.FirstByFilename | process.py:158-162 | the lookup finds a row with that filename exactly when one exists |
| Process.DocumentTable.constructor | process.py:44-49 | a fresh table holds only the sample record |
| Process.DocumentTable.EmbedDocuments | process.py:113-133 | the loop computes the embedding run, and reports whether it stopped on a failed embedding |
| Process.DocumentTable.GenerateMetadata | process.py:151-182 | the loop computes the metadata run against the table as it was at the start |
| Process.EmbedSkipsExisting | process.py:118-121 | a file already in the table is skipped without `force` |
| Process.EmbedStoresBlankRecord | process.py:124-133 | an embedded file is stored once, with blank metadata, its id and its flattened embedding. Other rows are unchanged |
| Process.EmbedRunKeepsFilenamesUnique | process.py:113-133 | filenames stay unique through an embedding run |
| Process.GenerateRunKeepsFilenamesUnique | process.py:151-182 | filenames stay unique through a metadata run |
| Process.GenerateSkips | process.py:158-165 | a file with no row, or with a title and no `force`, is skipped |
| Process.GenerateStoresRecord | process.py:172-180 | a changed table holds the validated, cleaned record with the old embedding, merged on the filename |
| Process.NumericYearAborts | process.py:172-176 | an integer `copyright_year` in the answer aborts the run |
| Process.SampleFileShadowed | process.py:44-49 | without `force`, a file named `sample.txt` is not embedded on a fresh table |
| InternetArchive.Barcode | get_ia_files.py:38 | the barcode contains no `/` |
| InternetArchive.JoinPath | get_ia_files.py:40 | an absolute name wins. Otherwise the directory and the name are joined with exactly one separator added when needed |
| InternetArchive.SavedFileName | get_ia_files.py:40 | the saved file is named `<barcode>.pdf` |
| InternetArchive.ItemPdfUrl | get_ia_files.py:38-39 | for `<host>details/<id>` the barcode is `id` and the PDF URL is `<host>download/<id>/<id>.pdf` |
| InternetArchive.ArchiveItemUrl | get_ia_files.py:38-39 | the same for `https://archive.org/details/<id>` |
| InternetArchive.FetchAll | get_ia_files.py:22-46 | the loop computes the downloads and the row counter of the walk |
| InternetArchive.CountedRows | get_ia_files.py:33-41 | the count is every non-header row without a limit, 0 for a negative limit, and otherwise the smaller of the row count and the limit |
| InternetArchive.StoppedAtLimit | get_ia_files.py:35-36 | the walk stops only under a limit that has been reached |
| InternetArchive.DownloadsAreNewAndDistinct | get_ia_files.py:40-46 | downloaded paths were not present before and are pairwise distinct. There are no more of them than counted rows. The files present afterwards are the earlier ones plus the downloaded ones |
| InternetArchive.PresentGrows | get_ia_files.py:42-46 | no file disappears as rows are read |
| InternetArchive.UnstoppedRowsSaved | get_ia_files.py:33-46 | if the loop did not break, every non-header row's file exists afterwards |
| InternetArchive.StoppedPastLimit | get_ia_files.py:35-36 | the loop breaks only when there are more non-header rows than the limit |
| InternetArchive.DownloadsComplete | get_ia_files.py:33-46 | every non-header row within the limit has its file either present before or downloaded; with no limit that is every row |
| InternetArchive.UnlimitedDownloadsComplete | get_ia_files.py:33-46 | without a limit every non-header row's file exists afterwards |
| InternetArchive.DownloadsComeFromRows | get_ia_files.py:33-46 | every download is the PDF URL and save path of a non-header row |
| Ocr.PageRanges | ocr_pdf.py:61-64 | there are no ranges exactly when there are no pages |
| Ocr.PageRangesShape | ocr_pdf.py:61-64 | the ranges are non-empty and contiguous, from page 1 to the last page, each at most `total/workers + 1` pages, and no more of them than workers |
| Ocr.PageRangesCover | ocr_pdf.py:61-64 | the ranges together list pages `1..total` in order |
| Ocr.ImagesInPageOrder | ocr_pdf.py:54-70 | the flattened images are the rendered pages `1..total`, in order |
| Ocr.OcrTexts | ocr_pdf.py:47 | page `i` of the list gets number `i+1` and the OCR text of image `i` |
| Ocr.WriteOutput | ocr_pdf.py:105-107 | the loop writes the `Page n:` blocks in order |
| Ocr.OcrOutputAppend | ocr_pdf.py:105-107 | the output of two page lists is their outputs concatenated |
| Ocr.OutputStartsWithFirstPage | ocr_pdf.py:47 | a non-empty document's output starts with `Page 1:` |
| Ocr.PageHeaderIsArtifact | ocr_pdf.py:107 | the page headers written here are removed by the normaliser |
| Ocr.OutputPath | ocr_pdf.py:89-91 | the output lies in a `text` directory under the PDF's grandparent |
| Ocr.StemOfPdf | ocr_pdf.py:90 | the stem of `s.pdf` is `s` |
| Ocr.OcrPdf | ocr_pdf.py:97-107 | computes the text of one PDF: 30 pages in debug mode, otherwise all pages |
| Ocr.OcrPdfs | ocr_pdf.py:73-108 | the loop computes the run over the PDFs |
| Ocr.OcrStepOutputs | ocr_pdf.py:89-107 | after a step, the output and its directory exist, nothing is removed, and an existing output is kept without `force` |
| Ocr.OcrRunOutputs | ocr_pdf.py:73-108 | after a run every PDF has an output. Without `force` no existing file changes |
| Ocr.SameStemCollision | ocr_pdf.py:89-95 | two PDFs with one output path leave only the first one's text without `force` |
| Ocr.SiblingDirectoriesCollide | ocr_pdf.py:89-91 | `x/s.pdf` and `y/s.pdf` under one root share the output `text/s.txt` |

## Left out

- The language model, the tokenizer and the embedding model are not modelled. Each call is an
  oracle parameter, and a failed call or an unparsable JSON answer is
  `None`. The prompts (`get_metadata`, `get_summary`, `run_prompt` and the prompt text) are left out.
- LanceDB is a sequence of rows. Its query strings, and the way a quote
  character in an id would break them, are left out.
- `src/config.py` is not part of this model. `FORCE`, `DEBUG`, `cpu_count()`
  and the chunk sizes are explicit parameters. `chunk_overlap` is never
  used by the code.
- Regular expressions `\s` and `\d` cover ASCII only. Unicode whitespace and digits are left out.
- `Metadata.MapRecord` models schema acceptance as a parameter `validate`,
  because the newer record schema is not part of this model. As written, `src/metadata.py:101`
  passes arguments to `create_GovDoc` in a different order than
  `src/classes.py:45` declares, and `govdoc.keywords` is not a `GovDoc`
  field. The predicate stands for whichever schema accepts the record.
- `Process.GenerateStoresRecord`: the validation by `GovDoc(**...)` at
  merge time is the parameter `mergeAccepts`.
- Reading the CSV, `total_files`, `download_pdf` and the HTTP transfer are left out. A download is recorded as a
  (URL, path) pair, and the file exists from then on.
- File discovery (`glob`, `rglob`, `is_file`, `FileNotFoundError`) and
  `mkdir(parents=True)` are left out. The model takes the list of files and records the output directory.
- Page rendering, image conversion and the process pool are left out. `render` and `ocr` are
  functions, and the parallel map is a map in order.
- `Ocr.TotalPages`: a negative `last_page` is not modelled, because the code only passes 30 or `None`.
- The order in which Python iterates over dictionaries is left out, so the cleaning loops visit keys in any order.
  The result does not depend on it.
- `Process.StripTitleQuotes`: an empty or `None` title raises in the
  source. The model returns `None` for the empty title and does not model `None`.
- `Metadata.Extract` takes the document id to be `Classes.IdFromFilename(filename)`,
  the rule of `src/classes.py:47`. The `get_id_from_filename` that
  `src/metadata.py:88` calls is not part of this model, so this is an assumption.
  `Metadata.TitledDocumentSkipped`, `Metadata.SecondRunSkipped` and
  `Metadata.SameStemSameId` rest on it.
- Embedding values are Python `float`s, modelled as `real` (`Util.Vectors`).
  The `float(val)` conversions of `src/embed.py:129` and `process.py:127` are
  the identity, and floating-point rounding is left out.
- `Store.Upsert` keeps a matched row at its position and appends an unmatched one.
  LanceDB does not promise the row order after `merge_insert`; the model fixes
  this order. It matters only to `Metadata.FirstTitle` when two files share an id.
- `export_metadata_to_csv`, logging, `print` and the progress counters are left out.
