/**
 * get_ia_files.py: for each Internet Archive link of a CSV file, derive the
 * item's barcode, its PDF download URL and the local file it is saved to,
 * and download the files that are not there yet, up to an optional limit.
 *
 * The CSV reader is replaced by the column of links, the file system by the
 * set of paths that exist, and each `download_pdf` call by a `Download`
 * record in the result.
 */
module InternetArchive {
  import opened Util
  import opened Text

  /** The column holding the links; a row whose link is this text is skipped. */
  const Header: string := "Internet Archive Link"

  /** The item's barcode: the text after the last `/` of the link. */
  function Barcode(link: string): (barcode: string)
    ensures '/' !in barcode
  {
    AfterLast(link, '/')
  }

  /** The download URL: every `details` becomes `download`, then `/<barcode>.pdf`. */
  function PdfUrl(link: string): string
  {
    ReplaceAll(link, "details", "download") + "/" + Barcode(link) + ".pdf"
  }

  /** `os.path.join(dir, name)` on POSIX paths. */
  function JoinPath(dir: string, name: string): (path: string)
    ensures name != [] && name[0] == '/' ==> path == name
    ensures (name == [] || name[0] != '/') && (dir == [] || dir[|dir| - 1] == '/') ==> path == dir + name
    ensures (name == [] || name[0] != '/') && dir != [] && dir[|dir| - 1] != '/' ==> path == dir + "/" + name
  {
    if name != [] && name[0] == '/' then name
    else if dir == [] || dir[|dir| - 1] == '/' then dir + name
    else dir + "/" + name
  }

  /** Where the PDF of a link is saved: next to the CSV file, as `<barcode>.pdf`. */
  function SavePath(csvDir: string, link: string): string
  {
    JoinPath(csvDir, Barcode(link) + ".pdf")
  }

  /** A call `download_pdf(url, path)`. */
  datatype Download = Download(url: string, path: string)

  /** `number_of_files` is truthy: neither `None` nor `0`. */
  predicate Limited(limit: Option<int>)
  {
    limit.Some? && limit.value != 0
  }

  /**
   * The loop's state after some rows: the counter `current_file`, the paths
   * that exist, the downloads made, and whether the loop broke out.
   */
  datatype Walk = Walk(counted: nat, present: set<string>, downloads: seq<Download>, stopped: bool)

  /**
   * One row: the header text is skipped without counting; with a limit the
   * loop breaks once `counted` reaches it; otherwise the row is counted and
   * its PDF is downloaded unless the file exists.
   */
  function WalkStep(w: Walk, link: string, limit: Option<int>, csvDir: string): Walk
  {
    if w.stopped || link == Header then w
    else if Limited(limit) && w.counted >= limit.value then w.(stopped := true)
    else
      var path := SavePath(csvDir, link);
      if path in w.present then w.(counted := w.counted + 1)
      else Walk(w.counted + 1, w.present + {path}, w.downloads + [Download(PdfUrl(link), path)], false)
  }

  /** The state after all of `links`, from the files in `present`. */
  function FetchRun(links: seq<string>, limit: Option<int>, csvDir: string, present: set<string>): Walk
  {
    if links == [] then Walk(0, present, [], false)
    else WalkStep(FetchRun(links[..|links| - 1], limit, csvDir, present), links[|links| - 1], limit, csvDir)
  }

  lemma FetchRunAppend(links: seq<string>, i: nat, limit: Option<int>, csvDir: string, present: set<string>)
    requires i < |links|
    ensures FetchRun(links[..i + 1], limit, csvDir, present) ==
      WalkStep(FetchRun(links[..i], limit, csvDir, present), links[i], limit, csvDir)
  {
    assert links[..i + 1][..i] == links[..i];
  }

  /** After a break the remaining rows are not read. */
  lemma {:induction false} FetchRunStoppedStays(links: seq<string>, k: nat, limit: Option<int>, csvDir: string, present: set<string>)
    requires k <= |links| && FetchRun(links[..k], limit, csvDir, present).stopped
    ensures FetchRun(links, limit, csvDir, present) == FetchRun(links[..k], limit, csvDir, present)
    decreases |links| - k
  {
    if k < |links| {
      FetchRunAppend(links, k, limit, csvDir, present);
      FetchRunStoppedStays(links, k + 1, limit, csvDir, present);
    } else {
      assert links[..k] == links;
    }
  }

  /** `main(csv_file_path, number_of_files)` (get_ia_files.py:22-46). */
  method FetchAll(links: seq<string>, limit: Option<int>, csvDir: string, present: set<string>)
    returns (downloads: seq<Download>, counted: nat)
    ensures var w := FetchRun(links, limit, csvDir, present);
      downloads == w.downloads && counted == w.counted
  {
    var onDisk := present;
    downloads := [];
    counted := 0;
    for i := 0 to |links|
      invariant FetchRun(links[..i], limit, csvDir, present) == Walk(counted, onDisk, downloads, false)
    {
      FetchRunAppend(links, i, limit, csvDir, present);
      var baseUrl := links[i];
      if baseUrl == Header {
        continue;
      }
      if Limited(limit) && counted >= limit.value {
        FetchRunStoppedStays(links, i + 1, limit, csvDir, present);
        return;
      }
      var barcode := Barcode(baseUrl);
      var pdfUrl := ReplaceAll(baseUrl, "details", "download") + "/" + barcode + ".pdf";
      var savePath := JoinPath(csvDir, barcode + ".pdf");
      counted := counted + 1;
      if savePath !in onDisk {
        downloads := downloads + [Download(pdfUrl, savePath)];
        onDisk := onDisk + {savePath};
      }
    }
    assert links[..|links|] == links;
  }

  // ---------------------------------------------------------------------------
  // Properties

  /** The number of rows that are not the header text. */
  function Rows(links: seq<string>): nat
  {
    if links == [] then 0
    else Rows(links[..|links| - 1]) + (if links[|links| - 1] == Header then 0 else 1)
  }

  /**
   * The counter is the number of non-header rows, capped by a positive
   * limit; a negative limit stops the loop before the first row.
   */
  lemma {:induction false} CountedRows(links: seq<string>, limit: Option<int>, csvDir: string, present: set<string>)
    ensures var w := FetchRun(links, limit, csvDir, present);
      w.counted == if !Limited(limit) then Rows(links)
                   else if limit.value < 0 then 0
                   else Min(Rows(links), limit.value)
    ensures !Limited(limit) ==> !FetchRun(links, limit, csvDir, present).stopped
  {
    if links != [] {
      var init := links[..|links| - 1];
      CountedRows(init, limit, csvDir, present);
      StoppedAtLimit(init, limit, csvDir, present);
    }
  }

  /** The loop breaks only when the counter has reached a limit. */
  lemma {:induction false} StoppedAtLimit(links: seq<string>, limit: Option<int>, csvDir: string, present: set<string>)
    ensures var w := FetchRun(links, limit, csvDir, present);
      w.stopped ==> Limited(limit) && w.counted >= limit.value
  {
    if links != [] {
      StoppedAtLimit(links[..|links| - 1], limit, csvDir, present);
    }
  }

  /** The paths of the downloads made. */
  function Paths(ds: seq<Download>): set<string>
  {
    set d | d in ds :: d.path
  }

  /**
   * Only missing files are downloaded, each at most once: the download paths
   * are distinct and none existed before; afterwards the files that exist
   * are the ones before plus the downloaded ones; and a row is downloaded
   * only after it is counted.
   */
  lemma {:induction false} DownloadsAreNewAndDistinct(links: seq<string>, limit: Option<int>, csvDir: string, present: set<string>)
    ensures var w := FetchRun(links, limit, csvDir, present);
      && w.present == present + Paths(w.downloads)
      && (forall i :: 0 <= i < |w.downloads| ==> w.downloads[i].path !in present)
      && (forall i, j :: 0 <= i < j < |w.downloads| ==> w.downloads[i].path != w.downloads[j].path)
      && |w.downloads| <= w.counted
  {
    if links != [] {
      var init := links[..|links| - 1];
      DownloadsAreNewAndDistinct(init, limit, csvDir, present);
      var w := FetchRun(init, limit, csvDir, present);
      var link := links[|links| - 1];
      var path := SavePath(csvDir, link);
      if !w.stopped && link != Header && !(Limited(limit) && w.counted >= limit.value) && path !in w.present {
        var ds := w.downloads + [Download(PdfUrl(link), path)];
        assert Paths(ds) == Paths(w.downloads) + {path} by {
          forall p | p in Paths(ds) ensures p in Paths(w.downloads) + {path} {
            var d :| d in ds && d.path == p;
            if d != ds[|ds| - 1] {
              assert d in w.downloads;
            }
          }
          assert ds[|ds| - 1].path == path;
          forall p | p in Paths(w.downloads) ensures p in Paths(ds) {
            var d :| d in w.downloads && d.path == p;
            assert d in ds;
          }
        }
        forall i | 0 <= i < |w.downloads| ensures w.downloads[i].path != path {
          assert w.downloads[i] in w.downloads;
        }
      }
    }
  }

  /** Files only ever appear: each row leaves the earlier ones in place. */
  lemma {:induction false} PresentGrows(links: seq<string>, k: nat, limit: Option<int>, csvDir: string, present: set<string>)
    requires k <= |links|
    ensures FetchRun(links[..k], limit, csvDir, present).present <= FetchRun(links, limit, csvDir, present).present
    decreases |links| - k
  {
    if k < |links| {
      FetchRunAppend(links, k, limit, csvDir, present);
      PresentGrows(links, k + 1, limit, csvDir, present);
    } else {
      assert links[..k] == links;
    }
  }

  /** A loop that did not break has the file of every row it read. */
  lemma {:induction false} UnstoppedRowsSaved(links: seq<string>, limit: Option<int>, csvDir: string, present: set<string>)
    requires !FetchRun(links, limit, csvDir, present).stopped
    ensures forall link :: link in links && link != Header ==>
      SavePath(csvDir, link) in FetchRun(links, limit, csvDir, present).present
  {
    if links != [] {
      var init := links[..|links| - 1];
      var w := FetchRun(init, limit, csvDir, present);
      UnstoppedRowsSaved(init, limit, csvDir, present);
      assert w.present <= FetchRun(links, limit, csvDir, present).present;
      forall link | link in links && link != Header
        ensures SavePath(csvDir, link) in FetchRun(links, limit, csvDir, present).present
      {
        if link != links[|links| - 1] {
          assert link in init by {
            var i :| 0 <= i < |links| && links[i] == link;
            assert init[i] == link;
          }
        }
      }
    }
  }

  /** A limited loop breaks only after more non-header rows than the limit. */
  lemma {:induction false} StoppedPastLimit(links: seq<string>, limit: Option<int>, csvDir: string, present: set<string>)
    ensures FetchRun(links, limit, csvDir, present).stopped ==> Limited(limit) && Rows(links) > limit.value
  {
    if links != [] {
      var init := links[..|links| - 1];
      StoppedPastLimit(init, limit, csvDir, present);
      CountedRows(init, limit, csvDir, present);
    }
  }

  /**
   * Every non-header row within the limit ends up on disk: its file either
   * existed or was downloaded. With no limit (`None` or `0`) that is every
   * row of the CSV file.
   */
  lemma DownloadsComplete(links: seq<string>, limit: Option<int>, csvDir: string, present: set<string>)
    ensures var w := FetchRun(links, limit, csvDir, present);
      forall i :: 0 <= i < |links| && links[i] != Header && (!Limited(limit) || Rows(links[..i + 1]) <= limit.value) ==>
        SavePath(csvDir, links[i]) in present + Paths(w.downloads)
  {
    var w := FetchRun(links, limit, csvDir, present);
    DownloadsAreNewAndDistinct(links, limit, csvDir, present);
    forall i | 0 <= i < |links| && links[i] != Header && (!Limited(limit) || Rows(links[..i + 1]) <= limit.value)
      ensures SavePath(csvDir, links[i]) in present + Paths(w.downloads)
    {
      var prefix := links[..i + 1];
      StoppedPastLimit(prefix, limit, csvDir, present);
      UnstoppedRowsSaved(prefix, limit, csvDir, present);
      assert links[i] in prefix by { assert prefix[i] == links[i]; }
      PresentGrows(links, i + 1, limit, csvDir, present);
    }
  }

  /** Without a limit every row's file is on disk afterwards. */
  lemma UnlimitedDownloadsComplete(links: seq<string>, csvDir: string, present: set<string>)
    ensures forall link :: link in links && link != Header ==>
      SavePath(csvDir, link) in FetchRun(links, None, csvDir, present).present
  {
    CountedRows(links, None, csvDir, present);
    UnstoppedRowsSaved(links, None, csvDir, present);
  }

  /** Every download is the URL and the save path of one of the rows. */
  lemma {:induction false} DownloadsComeFromRows(links: seq<string>, limit: Option<int>, csvDir: string, present: set<string>)
    ensures forall d :: d in FetchRun(links, limit, csvDir, present).downloads ==>
      exists link :: link in links && link != Header && d == Download(PdfUrl(link), SavePath(csvDir, link))
  {
    if links != [] {
      var init := links[..|links| - 1];
      DownloadsComeFromRows(init, limit, csvDir, present);
      forall d | d in FetchRun(links, limit, csvDir, present).downloads
        ensures exists link :: link in links && link != Header && d == Download(PdfUrl(link), SavePath(csvDir, link))
      {
        if d in FetchRun(init, limit, csvDir, present).downloads {
          var link :| link in init && link != Header && d == Download(PdfUrl(link), SavePath(csvDir, link));
          assert link in links;
        } else {
          assert links[|links| - 1] in links;
        }
      }
    }
  }

  /** The saved file is named after the barcode, whatever the CSV directory. */
  lemma SavedFileName(csvDir: string, link: string)
    ensures AfterLast(SavePath(csvDir, link), '/') == Barcode(link) + ".pdf"
  {
    var name := Barcode(link) + ".pdf";
    assert '/' !in name;
    if csvDir == [] {
      AfterLastAbsent(name, '/');
    } else if csvDir[|csvDir| - 1] == '/' {
      var d := csvDir[..|csvDir| - 1];
      assert csvDir + name == d + ['/'] + name;
      AfterLastAt(d, '/', name);
    } else {
      assert csvDir + "/" + name == csvDir + ['/'] + name;
      AfterLastAt(csvDir, '/', name);
    }
  }

  /** Text that cannot hold the pattern (its first character is missing) is copied as it is. */
  lemma {:induction false} ReplaceAllKeepsPrefix(a: string, b: string, pattern: string, replacement: string)
    requires pattern != [] && pattern[0] !in a
    ensures ReplaceAll(a + b, pattern, replacement) == a + ReplaceAll(b, pattern, replacement)
    decreases |a|
  {
    var s := a + b;
    if a == [] {
      assert s == b;
    } else {
      assert s[0] == a[0] && s[0] != pattern[0];
      if |pattern| <= |s| {
        assert s[..|pattern|][0] == s[0];
      }
      assert s[1..] == a[1..] + b;
      ReplaceAllKeepsPrefix(a[1..], b, pattern, replacement);
      assert a == [a[0]] + a[1..];
    }
  }

  /** A leading occurrence of the pattern is replaced. */
  lemma ReplaceAllLeading(pattern: string, b: string, replacement: string)
    requires pattern != []
    ensures ReplaceAll(pattern + b, pattern, replacement) == replacement + ReplaceAll(b, pattern, replacement)
  {
    var s := pattern + b;
    assert s[..|pattern|] == pattern;
    assert s[|pattern|..] == b;
  }

  /** `<host>details/<id>` becomes `<host>download/<id>` when only the one `details` occurs. */
  lemma DetailsToDownload(host: string, id: string)
    requires 'd' !in host
    requires forall i :: 0 <= i ==> !OccursAt(id, "details", i)
    ensures ReplaceAll(host + "details/" + id, "details", "download") == host + "download/" + id
  {
    assert host + "details/" + id == host + ("details" + ("/" + id));
    ReplaceAllKeepsPrefix(host, "details" + ("/" + id), "details", "download");
    ReplaceAllLeading("details", "/" + id, "download");
    ReplaceAllKeepsPrefix("/", id, "details", "download");
    ReplaceAllAbsent(id, "details", "download");
    assert host + ("download" + ("/" + id)) == host + "download/" + id;
  }

  /**
   * An item page `<host>details/<id>` is downloaded from
   * `<host>download/<id>/<id>.pdf`, as for `https://archive.org/details/<id>`.
   */
  lemma ItemPdfUrl(host: string, id: string)
    requires 'd' !in host
    requires '/' !in id
    requires forall i :: 0 <= i ==> !OccursAt(id, "details", i)
    ensures Barcode(host + "details/" + id) == id
    ensures PdfUrl(host + "details/" + id) == host + "download/" + id + "/" + id + ".pdf"
  {
    assert host + "details/" + id == (host + "details") + ['/'] + id;
    AfterLastAt(host + "details", '/', id);
    DetailsToDownload(host, id);
  }

  /** The links of the Internet Archive's item pages. */
  lemma ArchiveItemUrl(id: string)
    requires '/' !in id
    requires forall i :: 0 <= i ==> !OccursAt(id, "details", i)
    ensures var link := "https://archive.org/" + "details/" + id;
      Barcode(link) == id &&
      PdfUrl(link) == "https://archive.org/" + "download/" + id + "/" + id + ".pdf"
  {
    ItemPdfUrl("https://archive.org/", id);
  }
}
