/**
 * ocr_pdf.py: each PDF's pages are split into ranges of consecutive page
 * numbers for parallel rendering, the rendered images are put back in page
 * order, each image is read by OCR, and the texts are written, page by page
 * under a `Page n:` header, to `<grandparent>/text/<stem>.txt`.
 *
 * Rendering (`convert_from_path`), the image clean-up and Tesseract are
 * parameters; paths are lists of components of a resolved path.
 */
module Ocr {
  import opened Util
  import opened Text
  import Normalizer

  // ---------------------------------------------------------------------------
  // Page ranges (ocr_pdf.py:54-64)

  /** `range(first, end)`: the page numbers `first`, ..., `end - 1`. */
  datatype PageRange = PageRange(first: nat, end: nat)

  function Pages(r: PageRange): seq<nat>
    decreases r.end - r.first
  {
    if r.first < r.end then [r.first] + Pages(PageRange(r.first + 1, r.end)) else []
  }

  /** A range holds `end - first` consecutive page numbers from `first`. */
  lemma {:induction false} PagesElements(r: PageRange)
    ensures |Pages(r)| == if r.first <= r.end then r.end - r.first else 0
    ensures forall i :: 0 <= i < |Pages(r)| ==> Pages(r)[i] == r.first + i
    decreases r.end - r.first
  {
    if r.first < r.end {
      PagesElements(PageRange(r.first + 1, r.end));
    }
  }

  /** The pages of each range, in range order. */
  function RangePages(rs: seq<PageRange>): seq<seq<nat>>
  {
    seq(|rs|, i requires 0 <= i < |rs| => Pages(rs[i]))
  }

  /** The ranges starting at `start`, `start + step`, ... up to page `total`. */
  function RangesFrom(start: nat, total: nat, step: nat): seq<PageRange>
    requires step >= 1
    decreases total + 1 - start
  {
    if start > total then []
    else [PageRange(start, Min(start + step, total + 1))] + RangesFrom(start + step, total, step)
  }

  /** The step `total_pages // MAX_WORKERS + 1`. */
  function ChunkStep(total: nat, workers: nat): (step: nat)
    requires workers >= 1
    ensures step >= 1
  {
    total / workers + 1
  }

  /** `page_chunks` for `total` pages and `workers` workers. */
  function PageRanges(total: nat, workers: nat): (rs: seq<PageRange>)
    requires workers >= 1
    ensures rs == [] <==> total == 0
  {
    RangesFrom(1, total, ChunkStep(total, workers))
  }

  /** `last_page` replaces the page count of the file; `first_page` is not used. */
  function TotalPages(lastPage: Option<nat>, pdfPages: nat): nat
  {
    if lastPage.Some? then lastPage.value else pdfPages
  }

  /** Two adjacent spans of pages make one. */
  lemma {:induction false} PagesSplit(a: nat, b: nat, c: nat)
    requires a <= b <= c
    ensures Pages(PageRange(a, b)) + Pages(PageRange(b, c)) == Pages(PageRange(a, c))
    decreases b - a
  {
    if a < b {
      PagesSplit(a + 1, b, c);
      assert [a] + Pages(PageRange(a + 1, b)) + Pages(PageRange(b, c)) == [a] + (Pages(PageRange(a + 1, b)) + Pages(PageRange(b, c)));
    }
  }

  lemma RangePagesCons(r: PageRange, rest: seq<PageRange>)
    ensures RangePages([r] + rest) == [Pages(r)] + RangePages(rest)
  {
  }

  lemma FlattenCons<T>(x: seq<T>, xss: seq<seq<T>>)
    ensures Flatten([x] + xss) == x + Flatten(xss)
  {
    FlattenAppend([x], xss);
    assert [x][..0] == [];
  }

  /** From `start`, the ranges list each remaining page once, in increasing order. */
  lemma {:induction false} RangesFromCover(start: nat, total: nat, step: nat)
    requires step >= 1
    ensures Flatten(RangePages(RangesFrom(start, total, step))) == Pages(PageRange(start, total + 1))
    decreases total + 1 - start
  {
    if start <= total {
      var rest := RangesFrom(start + step, total, step);
      var end := Min(start + step, total + 1);
      var r := PageRange(start, end);
      assert RangesFrom(start, total, step) == [r] + rest;
      assert Pages(PageRange(start + step, total + 1)) == Pages(PageRange(end, total + 1)) by {
        if start + step > total + 1 {
          assert Pages(PageRange(start + step, total + 1)) == [];
          assert Pages(PageRange(end, total + 1)) == [];
        }
      }
      calc {
        Flatten(RangePages([r] + rest));
        { RangePagesCons(r, rest); }
        Flatten([Pages(r)] + RangePages(rest));
        { FlattenCons(Pages(r), RangePages(rest)); }
        Pages(r) + Flatten(RangePages(rest));
        { RangesFromCover(start + step, total, step); }
        Pages(r) + Pages(PageRange(end, total + 1));
        { PagesSplit(start, end, total + 1); }
        Pages(PageRange(start, total + 1));
      }
    }
  }

  /** The ranges cover pages 1 to `total`, each exactly once and in order. */
  lemma PageRangesCover(total: nat, workers: nat)
    requires workers >= 1
    ensures Flatten(RangePages(PageRanges(total, workers))) == seq(total, i requires 0 <= i < total => i + 1)
  {
    RangesFromCover(1, total, ChunkStep(total, workers));
    PagesElements(PageRange(1, total + 1));
  }

  /**
   * Each range is non-empty and at most `step` long, and each starts where
   * the previous one ended.
   */
  lemma {:induction false} RangesFromShape(start: nat, total: nat, step: nat)
    requires step >= 1
    ensures var rs := RangesFrom(start, total, step);
      && (forall i :: 0 <= i < |rs| ==> rs[i].first < rs[i].end <= rs[i].first + step)
      && (forall i :: 0 < i < |rs| ==> rs[i].first == rs[i - 1].end)
      && (rs != [] ==> rs[0].first == start && rs[|rs| - 1].end == total + 1)
    decreases total + 1 - start
  {
    if start <= total {
      RangesFromShape(start + step, total, step);
    }
  }

  /** Ranges that start at `start` fit in `k` when `k` steps reach past `total`. */
  lemma {:induction false} RangesFromCount(start: nat, total: nat, step: nat, k: nat)
    requires step >= 1 && start + k * step > total
    ensures |RangesFrom(start, total, step)| <= k
    decreases total + 1 - start
  {
    if start <= total {
      assert k >= 1;
      assert start + step + (k - 1) * step == start + k * step;
      RangesFromCount(start + step, total, step, k - 1);
    }
  }

  /** `workers` steps of `total // workers + 1` pages reach past the last page. */
  lemma ChunkStepCovers(total: nat, workers: nat)
    requires workers >= 1
    ensures 1 + workers * ChunkStep(total, workers) > total
  {
    var q := total / workers;
    assert workers * q + total % workers == total;
    assert workers * (q + 1) == workers * q + workers;
  }

  /**
   * The partition of `page_chunks`: consecutive non-empty ranges of at most
   * `total // workers + 1` pages from page 1 to page `total`, and never more
   * ranges than workers.
   */
  lemma PageRangesShape(total: nat, workers: nat)
    requires workers >= 1
    ensures var rs := PageRanges(total, workers);
      && (forall i :: 0 <= i < |rs| ==> rs[i].first < rs[i].end <= rs[i].first + total / workers + 1)
      && (forall i :: 0 < i < |rs| ==> rs[i].first == rs[i - 1].end)
      && (rs != [] ==> rs[0].first == 1 && rs[|rs| - 1].end == total + 1)
      && |rs| <= workers
  {
    var step := ChunkStep(total, workers);
    RangesFromShape(1, total, step);
    ChunkStepCovers(total, workers);
    RangesFromCount(1, total, step, workers);
  }

  // ---------------------------------------------------------------------------
  // Images (ocr_pdf.py:66-70)

  /** `[f(x) for x in s]`. */
  function MapSeq<A, B>(f: A -> B, s: seq<A>): (r: seq<B>)
    ensures |r| == |s| && forall i :: 0 <= i < |s| ==> r[i] == f(s[i])
  {
    seq(|s|, i requires 0 <= i < |s| => f(s[i]))
  }

  /**
   * `extract_images_from_pdf`: `render` turns one range of pages into its
   * images, and the results are flattened in range order.
   */
  function ExtractImages<Img>(lastPage: Option<nat>, pdfPages: nat, workers: nat, render: PageRange -> seq<Img>): seq<Img>
    requires workers >= 1
  {
    var rs := PageRanges(TotalPages(lastPage, pdfPages), workers);
    Flatten(MapSeq(render, rs))
  }

  /** Mapping each inner list and then flattening is flattening and then mapping. */
  lemma {:induction false} FlattenMapSeq<A, B>(f: A -> B, xss: seq<seq<A>>)
    ensures Flatten(MapSeq((xs: seq<A>) => MapSeq(f, xs), xss)) == MapSeq(f, Flatten(xss))
  {
    var g := (xs: seq<A>) => MapSeq(f, xs);
    if xss != [] {
      var n := |xss|;
      FlattenMapSeq(f, xss[..n - 1]);
      assert MapSeq(g, xss)[..n - 1] == MapSeq(g, xss[..n - 1]);
      assert MapSeq(f, Flatten(xss)) == MapSeq(f, Flatten(xss[..n - 1])) + MapSeq(f, xss[n - 1]);
    }
  }

  /**
   * When rendering a range gives one image per page in page order, the
   * images are those of pages 1, 2, ..., `total` in that order.
   */
  lemma ImagesInPageOrder<Img>(lastPage: Option<nat>, pdfPages: nat, workers: nat, render: PageRange -> seq<Img>, page: nat -> Img)
    requires workers >= 1
    requires forall r :: render(r) == MapSeq(page, Pages(r))
    ensures var total := TotalPages(lastPage, pdfPages);
      ExtractImages(lastPage, pdfPages, workers, render) == seq(total, i requires 0 <= i < total => page(i + 1))
  {
    var total := TotalPages(lastPage, pdfPages);
    var rs := PageRanges(total, workers);
    var g := (xs: seq<nat>) => MapSeq(page, xs);
    assert MapSeq(render, rs) == MapSeq(g, RangePages(rs));
    FlattenMapSeq(page, RangePages(rs));
    PageRangesCover(total, workers);
  }

  // ---------------------------------------------------------------------------
  // OCR and the text file (ocr_pdf.py:31-47, 102-107)

  /** `ocr_page((i, image))`: pages are numbered from 1. */
  function OcrPage<Img>(i: nat, image: Img, ocr: Img -> string): (nat, string)
  {
    (i + 1, ocr(image))
  }

  /** `executor.map(ocr_page, enumerate(images))`, in image order. */
  function OcrTexts<Img>(images: seq<Img>, ocr: Img -> string): (r: seq<(nat, string)>)
    ensures |r| == |images|
    ensures forall i :: 0 <= i < |r| ==> r[i] == OcrPage(i, images[i], ocr)
  {
    seq(|images|, i requires 0 <= i < |images| => OcrPage(i, images[i], ocr))
  }

  /** What the file holds for one page. */
  function PageText(n: nat, text: string): string
  {
    "Page " + NatToString(n) + ":" + ("\n" + text + "\n\n")
  }

  /** The whole text file: the pages one after the other. */
  function OcrOutput(pages: seq<(nat, string)>): string
  {
    if pages == [] then ""
    else OcrOutput(pages[..|pages| - 1]) + PageText(pages[|pages| - 1].0, pages[|pages| - 1].1)
  }

  /** The writing loop: one `f.write` per page. */
  method WriteOutput(pages: seq<(nat, string)>) returns (contents: string)
    ensures contents == OcrOutput(pages)
  {
    contents := "";
    for i := 0 to |pages|
      invariant contents == OcrOutput(pages[..i])
    {
      assert pages[..i + 1][..i] == pages[..i];
      var (pageNum, text) := pages[i];
      contents := contents + PageText(pageNum, text);
    }
    assert pages[..|pages|] == pages;
  }

  /** Writing one more page appends its text. */
  lemma OcrOutputSnoc(ps: seq<(nat, string)>, p: (nat, string))
    ensures OcrOutput(ps + [p]) == OcrOutput(ps) + PageText(p.0, p.1)
  {
    assert (ps + [p])[..|ps|] == ps;
  }

  /** The file is the pages' texts in order: adding a page appends its text. */
  lemma {:induction false} OcrOutputAppend(ps: seq<(nat, string)>, qs: seq<(nat, string)>)
    ensures OcrOutput(ps + qs) == OcrOutput(ps) + OcrOutput(qs)
  {
    if qs == [] {
      assert ps + qs == ps;
    } else {
      var n := |qs| - 1;
      var init := qs[..n];
      assert qs == init + [qs[n]];
      assert ps + qs == (ps + init) + [qs[n]];
      calc {
        OcrOutput(ps + qs);
        { OcrOutputSnoc(ps + init, qs[n]); }
        OcrOutput(ps + init) + PageText(qs[n].0, qs[n].1);
        { OcrOutputAppend(ps, init); }
        OcrOutput(ps) + OcrOutput(init) + PageText(qs[n].0, qs[n].1);
        { OcrOutputSnoc(init, qs[n]); }
        OcrOutput(ps) + OcrOutput(qs);
      }
    }
  }

  /** A file of OCR output starts with the header of page 1. */
  lemma OutputStartsWithFirstPage<Img>(images: seq<Img>, ocr: Img -> string)
    requires images != []
    ensures "Page 1:\n" <= OcrOutput(OcrTexts(images, ocr))
  {
    var pages := OcrTexts(images, ocr);
    assert pages == [pages[0]] + pages[1..];
    OcrOutputAppend([pages[0]], pages[1..]);
    assert OcrOutput([pages[0]]) == PageText(pages[0].0, pages[0].1) by {
      assert [pages[0]][..0] == pages[..0];
    }
    assert NatToString(1) == "1";
    var first := PageText(1, ocr(images[0]));
    assert first == "Page 1:\n" + (ocr(images[0]) + "\n\n");
  }

  /**
   * The page header written here is one of the artifacts the embedding
   * text cleaner deletes.
   */
  lemma PageHeaderIsArtifact(n: nat, text: string)
    ensures Normalizer.RemoveArtifacts(PageText(n, text)) == Normalizer.RemoveArtifacts("\n" + text + "\n\n")
  {
    Normalizer.PageHeaderRemoved(n, "\n" + text + "\n\n");
  }

  // ---------------------------------------------------------------------------
  // Output paths (ocr_pdf.py:88-95)

  /** A resolved path as its list of components below the root. */
  type Path = seq<string>

  /** `path.parent`; the root is its own parent. */
  function Parent(p: Path): Path
  {
    if p == [] then [] else p[..|p| - 1]
  }

  /** `path.name`. */
  function Name(p: Path): string
  {
    if p == [] then "" else p[|p| - 1]
  }

  /** The index of the last `.` of a name, if any. */
  function LastDot(name: string): (r: Option<nat>)
    ensures r.Some? ==> r.value < |name| && name[r.value] == '.' && '.' !in name[r.value + 1..]
    ensures r.None? ==> '.' !in name
  {
    if name == [] then None
    else if name[|name| - 1] == '.' then Some(|name| - 1)
    else
      var r := LastDot(name[..|name| - 1]);
      assert name == name[..|name| - 1] + [name[|name| - 1]];
      r
  }

  /**
   * `path.stem`: the name without its last suffix, where a suffix needs a
   * character before the dot and one after it.
   */
  function Stem(name: string): string
  {
    match LastDot(name)
    case Some(i) => if 0 < i < |name| - 1 then name[..i] else name
    case None => name
  }

  /** `filepath.parent.parent / "text" / (filepath.stem + ".txt")`. */
  function OutputPath(pdf: Path): (out: Path)
    ensures |out| >= 2 && out[|out| - 2] == "text"
    ensures Parent(Parent(out)) == Parent(Parent(pdf))
  {
    Parent(Parent(pdf)) + ["text", Stem(Name(pdf)) + ".txt"]
  }

  /** The text of `report.pdf` is `report.txt`, also when the stem has dots of its own. */
  lemma StemOfPdf(s: string)
    requires s != []
    ensures Stem(s + ".pdf") == s
  {
    var a := s + ".";
    var b := a + "p";
    var c := b + "d";
    var name := c + "f";
    assert name == s + ".pdf";
    assert LastDot(a) == Some(|s|) by {
      assert a[..|a| - 1] == s;
    }
    assert b[..|b| - 1] == a;
    assert c[..|c| - 1] == b;
    assert name[..|name| - 1] == c;
    assert name[..|s|] == s;
  }

  // ---------------------------------------------------------------------------
  // The loop over the files (ocr_pdf.py:73-108)

  /** The directories and the text files that exist. */
  datatype FileSystem = FileSystem(dirs: set<Path>, files: map<Path, string>)

  /** What the OCR of one PDF needs from the outside. */
  datatype Engine<!Img> = Engine(pdfPages: Path -> nat, render: Path -> PageRange -> seq<Img>, ocr: Img -> string)

  /** The text written for one PDF: in debug mode only pages 1 to 30. */
  function PdfText<Img>(pdf: Path, debug: bool, workers: nat, engine: Engine<Img>): string
    requires workers >= 1
  {
    var lastPage := if debug then Some(30) else None;
    var images := ExtractImages(lastPage, engine.pdfPages(pdf), workers, engine.render(pdf));
    OcrOutput(OcrTexts(images, engine.ocr))
  }

  /**
   * One PDF: its output directory is created, and its text is written
   * unless the text file exists and force is off.
   */
  function OcrStep<Img>(fs: FileSystem, pdf: Path, force: bool, debug: bool, workers: nat, engine: Engine<Img>): FileSystem
    requires workers >= 1
  {
    var out := OutputPath(pdf);
    var fs' := fs.(dirs := fs.dirs + {Parent(out)});
    if out in fs.files && !force then fs'
    else fs'.(files := fs.files[out := PdfText(pdf, debug, workers, engine)])
  }

  function OcrRun<Img>(fs: FileSystem, pdfs: seq<Path>, force: bool, debug: bool, workers: nat, engine: Engine<Img>): FileSystem
    requires workers >= 1
  {
    if pdfs == [] then fs
    else OcrStep(OcrRun(fs, pdfs[..|pdfs| - 1], force, debug, workers, engine), pdfs[|pdfs| - 1], force, debug, workers, engine)
  }

  lemma OcrRunAppend<Img>(fs: FileSystem, pdfs: seq<Path>, k: nat, force: bool, debug: bool, workers: nat, engine: Engine<Img>)
    requires workers >= 1 && k < |pdfs|
    ensures OcrRun(fs, pdfs[..k + 1], force, debug, workers, engine) ==
      OcrStep(OcrRun(fs, pdfs[..k], force, debug, workers, engine), pdfs[k], force, debug, workers, engine)
  {
    assert pdfs[..k + 1][..k] == pdfs[..k];
  }

  /** Rendering, OCR and writing of one PDF (ocr_pdf.py:97-107). */
  method OcrPdf<Img>(filepath: Path, debug: bool, workers: nat, engine: Engine<Img>) returns (contents: string)
    requires workers >= 1
    ensures contents == PdfText(filepath, debug, workers, engine)
  {
    var lastPage := if debug then Some(30) else None;
    var images := ExtractImages(lastPage, engine.pdfPages(filepath), workers, engine.render(filepath));
    var ocrTexts := OcrTexts(images, engine.ocr);
    contents := WriteOutput(ocrTexts);
  }

  /** The output path is built from the directory `<grandparent>/text`. */
  lemma OutputPathParts(pdf: Path)
    ensures var dir := Parent(Parent(pdf)) + ["text"];
      OutputPath(pdf) == dir + [Stem(Name(pdf)) + ".txt"] && Parent(OutputPath(pdf)) == dir
  {
    var dir := Parent(Parent(pdf)) + ["text"];
    assert (dir + [Stem(Name(pdf)) + ".txt"])[..|dir|] == dir;
  }

  /** `ocr_pdf(input_path)` over the PDFs found, in order. */
  method OcrPdfs<Img>(fs0: FileSystem, pdfs: seq<Path>, force: bool, debug: bool, workers: nat, engine: Engine<Img>)
    returns (fs: FileSystem)
    requires workers >= 1
    ensures fs == OcrRun(fs0, pdfs, force, debug, workers, engine)
  {
    fs := fs0;
    for k := 0 to |pdfs|
      invariant fs == OcrRun(fs0, pdfs[..k], force, debug, workers, engine)
    {
      OcrRunAppend(fs0, pdfs, k, force, debug, workers, engine);
      ghost var before := fs;
      var filepath := pdfs[k];
      var outputDir := Parent(Parent(filepath)) + ["text"];
      var outputTxtPath := outputDir + [Stem(Name(filepath)) + ".txt"];
      OutputPathParts(filepath);
      fs := fs.(dirs := fs.dirs + {outputDir});
      if outputTxtPath in fs.files && !force {
        assert fs == OcrStep(before, filepath, force, debug, workers, engine);
        continue;
      }
      var contents := OcrPdf(filepath, debug, workers, engine);
      fs := fs.(files := fs.files[outputTxtPath := contents]);
      assert fs == OcrStep(before, filepath, force, debug, workers, engine);
    }
    assert pdfs[..|pdfs|] == pdfs;
  }

  /**
   * One PDF: its text file and its directory exist afterwards, nothing is
   * removed, and without force an existing text file keeps its contents.
   */
  lemma OcrStepOutputs<Img>(fs: FileSystem, pdf: Path, force: bool, debug: bool, workers: nat, engine: Engine<Img>)
    requires workers >= 1
    ensures var after := OcrStep(fs, pdf, force, debug, workers, engine);
      && OutputPath(pdf) in after.files && Parent(OutputPath(pdf)) in after.dirs
      && fs.files.Keys <= after.files.Keys && fs.dirs <= after.dirs
      && (forall p :: p in fs.files && (p != OutputPath(pdf) || !force) ==> after.files[p] == fs.files[p])
  {
  }

  /**
   * After the run every PDF has its text file and its output directory,
   * files that were there before stay, and without force their contents
   * are not overwritten.
   */
  lemma {:induction false} OcrRunOutputs<Img>(fs: FileSystem, pdfs: seq<Path>, force: bool, debug: bool, workers: nat, engine: Engine<Img>)
    requires workers >= 1
    ensures var after := OcrRun(fs, pdfs, force, debug, workers, engine);
      && (forall i :: 0 <= i < |pdfs| ==> OutputPath(pdfs[i]) in after.files && Parent(OutputPath(pdfs[i])) in after.dirs)
      && fs.files.Keys <= after.files.Keys && fs.dirs <= after.dirs
      && (!force ==> forall p :: p in fs.files ==> after.files[p] == fs.files[p])
  {
    if pdfs != [] {
      var init := pdfs[..|pdfs| - 1];
      var pdf := pdfs[|pdfs| - 1];
      var mid := OcrRun(fs, init, force, debug, workers, engine);
      var after := OcrStep(mid, pdf, force, debug, workers, engine);
      assert after == OcrRun(fs, pdfs, force, debug, workers, engine);
      OcrRunOutputs(fs, init, force, debug, workers, engine);
      OcrStepOutputs(mid, pdf, force, debug, workers, engine);
      forall i | 0 <= i < |pdfs|
        ensures OutputPath(pdfs[i]) in after.files && Parent(OutputPath(pdfs[i])) in after.dirs
      {
        if i < |pdfs| - 1 {
          assert pdfs[i] == init[i];
        }
      }
    }
  }

  /**
   * Two PDFs with the same stem under the same grandparent directory (for
   * instance `a/x/report.pdf` and `a/y/report.pdf`) share one text file:
   * without force the second is not read, and the file holds the first one's text.
   */
  lemma SameStemCollision<Img>(fs: FileSystem, p1: Path, p2: Path, debug: bool, workers: nat, engine: Engine<Img>)
    requires workers >= 1
    requires OutputPath(p1) == OutputPath(p2) && OutputPath(p1) !in fs.files
    ensures OcrRun(fs, [p1, p2], false, debug, workers, engine).files ==
      fs.files[OutputPath(p1) := PdfText(p1, debug, workers, engine)]
  {
    var pdfs := [p1, p2];
    var out := OutputPath(p1);
    OcrRunAppend(fs, pdfs, 0, false, debug, workers, engine);
    OcrRunAppend(fs, pdfs, 1, false, debug, workers, engine);
    assert pdfs[..0] == [] && pdfs[..2] == pdfs;
    var first := OcrStep(fs, p1, false, debug, workers, engine);
    assert first.files == fs.files[out := PdfText(p1, debug, workers, engine)];
    assert OcrStep(first, p2, false, debug, workers, engine).files == first.files;
  }

  /** The paths of a sibling-directory collision. */
  lemma SiblingDirectoriesCollide(root: Path, x: string, y: string, s: string)
    requires s != []
    ensures OutputPath(root + [x, s + ".pdf"]) == OutputPath(root + [y, s + ".pdf"]) == root + ["text", s + ".txt"]
  {
    StemOfPdf(s);
    assert Parent(Parent(root + [x, s + ".pdf"])) == root;
    assert Parent(Parent(root + [y, s + ".pdf"])) == root;
  }
}
