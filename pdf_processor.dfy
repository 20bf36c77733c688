/**
 * `PDFProcessor`: reading `pdfinfo`'s `key: value` report, fixing the page
 * range, the `pdftoppm` command, and collecting the page images it wrote.
 * The two programs and `tempfile.mkdtemp` are not run here: their outcomes
 * are parameters.
 */
module PdfProcessor {
  import opened Wrappers
  import opened Text
  import opened Paths

  // ---------------------------------------------------------------------
  // get_pdf_info

  function Key(line: string): string
    requires ':' in line
  {
    Strip(Partition(line, ':').0)
  }

  function Value(line: string): string
    requires ':' in line
  {
    Strip(Partition(line, ':').1)
  }

  /** The key and value a line contributes, if it has a colon. */
  function Entry(line: string): Option<(string, string)> {
    if ':' in line then Some((Key(line), Value(line))) else None
  }

  /** A line is cut at its first colon only: later colons stay in the value,
      and both halves lose their surrounding whitespace. */
  lemma EntryOfLine(k: string, v: string)
    requires ':' !in k
    ensures Entry(k + (":" + v)) == Some((Strip(k), Strip(v)))
  {
    PartitionOf(k, ':', v);
    assert [':'] == ":";
  }

  /** The dictionary a loop fills by storing every item's entry in turn, a
      later entry replacing an earlier one with the same key. */
  function Fill<T>(items: seq<T>, entry: T -> Option<(string, string)>): map<string, string> {
    if items == [] then map[]
    else
      var m := Fill(items[..|items| - 1], entry);
      match entry(items[|items| - 1])
      case None => m
      case Some(kv) => m[kv.0 := kv.1]
  }

  /** The dictionary the loop over the report's lines fills. */
  function InfoOf(lines: seq<string>): map<string, string> {
    Fill(lines, Entry)
  }

  /** `get_pdf_info`; `stdout` is `None` where `pdfinfo` fails, which the
      method turns into an exception. */
  method GetPdfInfo(stdout: Option<string>) returns (r: Result<map<string, string>, string>)
    ensures stdout.None? ==> r.Err?
    ensures stdout.Some? ==> r == Ok(InfoOf(Split(stdout.value, "\n")))
  {
    if stdout.None? {
      return Err("无法获取PDF信息");
    }
    var lines := Split(stdout.value, "\n");
    var info: map<string, string> := map[];
    for i := 0 to |lines|
      invariant info == Fill(lines[..i], Entry)
    {
      assert lines[..i + 1][..i] == lines[..i];
      var line := lines[i];
      if ':' in line {
        var halves := Partition(line, ':');
        info := info[Strip(halves.0) := Strip(halves.1)];
      }
    }
    assert lines[..|lines|] == lines;
    return Ok(info);
  }

  /** A key is in the filled dictionary exactly when some item's entry has it. */
  lemma {:induction false} FillKeys<T>(items: seq<T>, entry: T -> Option<(string, string)>, key: string)
    ensures key in Fill(items, entry) <==>
      exists j :: 0 <= j < |items| && entry(items[j]).Some? && entry(items[j]).value.0 == key
  {
    if items != [] {
      var n := |items| - 1;
      var init := items[..n];
      FillKeys(init, entry, key);
      if exists j :: 0 <= j < |init| && entry(init[j]).Some? && entry(init[j]).value.0 == key {
        var j :| 0 <= j < |init| && entry(init[j]).Some? && entry(init[j]).value.0 == key;
        assert items[j] == init[j];
      }
      if exists j :: 0 <= j < |items| && entry(items[j]).Some? && entry(items[j]).value.0 == key {
        var j :| 0 <= j < |items| && entry(items[j]).Some? && entry(items[j]).value.0 == key;
        if j < n {
          assert init[j] == items[j];
        }
      }
    }
  }

  /** The value of a key is that of the last entry with that key. */
  lemma {:induction false} FillLastWins<T>(items: seq<T>, entry: T -> Option<(string, string)>, j: nat)
    requires j < |items| && entry(items[j]).Some?
    requires forall k :: j < k < |items| && entry(items[k]).Some? ==> entry(items[k]).value.0 != entry(items[j]).value.0
    ensures var kv := entry(items[j]).value;
      kv.0 in Fill(items, entry) && Fill(items, entry)[kv.0] == kv.1
  {
    var n := |items| - 1;
    var init := items[..n];
    if j < n {
      assert init[j] == items[j];
      forall k | j < k < |init| && entry(init[k]).Some?
        ensures entry(init[k]).value.0 != entry(init[j]).value.0
      {
        assert init[k] == items[k];
      }
      FillLastWins(init, entry, j);
    }
  }

  /** A key is in the report exactly when some line with a colon has it. */
  lemma InfoKeys(lines: seq<string>, key: string)
    ensures key in InfoOf(lines) <==> exists j :: 0 <= j < |lines| && ':' in lines[j] && Key(lines[j]) == key
  {
    FillKeys(lines, Entry, key);
    assert forall j :: 0 <= j < |lines| ==>
      (Entry(lines[j]).Some? && Entry(lines[j]).value.0 == key <==> ':' in lines[j] && Key(lines[j]) == key);
  }

  /** The value of a key comes from the last line that has that key. */
  lemma InfoLastWins(lines: seq<string>, j: nat)
    requires j < |lines| && ':' in lines[j]
    requires forall k :: j < k < |lines| && ':' in lines[k] ==> Key(lines[k]) != Key(lines[j])
    ensures Key(lines[j]) in InfoOf(lines) && InfoOf(lines)[Key(lines[j])] == Value(lines[j])
  {
    forall k | j < k < |lines| && Entry(lines[k]).Some?
      ensures Entry(lines[k]).value.0 != Entry(lines[j]).value.0
    {
    }
    FillLastWins(lines, Entry, j);
  }

  // ---------------------------------------------------------------------
  // pdf_to_images

  /** `int(pdf_info.get('Pages', 1))`: an `Err` is the `ValueError` of a
      value that is not an integer. */
  function TotalPages(info: map<string, string>): (r: Result<int, string>)
    ensures "Pages" !in info ==> r == Ok(1)
    ensures "Pages" in info ==> (r.Ok? <==> ParseInt(info["Pages"]).Some?)
    ensures "Pages" in info && r.Ok? ==> r.value == ParseInt(info["Pages"]).value
  {
    if "Pages" !in info then Ok(1)
    else match ParseInt(info["Pages"])
      case Some(n) => Ok(n)
      case None => Err("ValueError")
  }

  /** A report line `Pages: n` gives `n` pages. */
  lemma TotalPagesReported(info: map<string, string>, n: int)
    ensures TotalPages(info["Pages" := IntToString(n)]) == Ok(n)
  {
    ParseIntToString(n);
  }

  /** `start = max(1, min(s, total)); end = max(start, min(e, total))`. */
  function Clamp(s: int, e: int, total: int): (range: (int, int))
    ensures 1 <= range.0 <= range.1
    ensures total >= 1 ==> range.1 <= total
    ensures 1 <= s <= e <= total ==> range == (s, e)
  {
    var start := Max(1, Min(s, total));
    (start, Max(start, Min(e, total)))
  }

  function Min(a: int, b: int): int { if a <= b then a else b }
  function Max(a: int, b: int): int { if a >= b then a else b }

  /** Clamping an already clamped range changes nothing. */
  lemma ClampIdempotent(s: int, e: int, total: int)
    ensures Clamp(Clamp(s, e, total).0, Clamp(s, e, total).1, total) == Clamp(s, e, total)
  {
  }

  /** The pages processed: the clamped range, or `1..total` when none was asked for. */
  function PageRange(pageRange: Option<(int, int)>, total: int): (range: (int, int))
    ensures range.0 >= 1
    ensures pageRange.None? ==> range == (1, total)
    ensures pageRange.Some? ==> range == Clamp(pageRange.value.0, pageRange.value.1, total)
  {
    match pageRange
    case None => (1, total)
    case Some((s, e)) => Clamp(s, e, total)
  }

  /** The `pdftoppm` argument list. */
  function Command(pdfPath: string, dpi: int, ranged: bool, start: int, end: int, tempDir: string): (cmd: seq<string>)
    ensures |cmd| == if ranged then 11 else 7
    ensures cmd[..5] == ["pdftoppm", "-png", "-r", IntToString(dpi), "-progress"]
    ensures ranged ==> cmd[5..9] == ["-f", IntToString(start), "-l", IntToString(end)]
    ensures cmd[|cmd| - 2] == pdfPath && cmd[|cmd| - 1] == OsJoin(tempDir, "page")
  {
    ["pdftoppm", "-png", "-r", IntToString(dpi), "-progress"]
      + (if ranged then ["-f", IntToString(start), "-l", IntToString(end)] else [])
      + [pdfPath, OsJoin(tempDir, "page")]
  }

  /** `f"page-{i:03d}.png"`. */
  function PageFileName(i: nat): string {
    "page-" + Pad3(i) + ".png"
  }

  function ImagePath(tempDir: string, i: nat): string {
    OsJoin(tempDir, PageFileName(i))
  }

  /** A page file name carries the padded page number between `page-` and
      `.png`. */
  lemma PageFileNameNumber(i: nat)
    ensures var name := PageFileName(i);
      |name| >= 9 && name[5..|name| - 4] == Pad3(i) && name[0] == 'p'
  {
  }

  /** Different pages have different image paths. */
  lemma ImagePathInjective(tempDir: string, i: nat, j: nat)
    requires i != j
    ensures ImagePath(tempDir, i) != ImagePath(tempDir, j)
  {
    PageFileNameNumber(i);
    PageFileNameNumber(j);
    Pad3Injective(i, j);
    assert PageFileName(i) != PageFileName(j);
    OsJoinInjective(tempDir, PageFileName(i), PageFileName(j));
  }

  /** The pages from `start` to `end` that satisfy `keep`, in order. */
  function PagesWhere(start: nat, end: int, keep: nat -> bool): seq<nat>
    decreases end - start
  {
    if end < start then []
    else PagesWhere(start, end - 1, keep) + (if keep(end as nat) then [end as nat] else [])
  }

  /** The kept pages are exactly the pages of the range that satisfy `keep`,
      in strictly ascending order, at most one per page. */
  lemma {:induction false} PagesWhereSpec(start: nat, end: int, keep: nat -> bool)
    ensures var pages := PagesWhere(start, end, keep);
      && (forall i: nat :: i in pages <==> start <= i <= end && keep(i))
      && (forall a, b :: 0 <= a < b < |pages| ==> pages[a] < pages[b])
      && |pages| <= if end < start then 0 else end - start + 1
    decreases end - start
  {
    if end >= start {
      var init := PagesWhere(start, end - 1, keep);
      PagesWhereSpec(start, end - 1, keep);
      var pages := PagesWhere(start, end, keep);
      assert pages == init + (if keep(end as nat) then [end as nat] else []);
      forall a, b | 0 <= a < b < |pages|
        ensures pages[a] < pages[b]
      {
        assert pages[a] == init[a] && init[a] in init;
        if b < |init| {
          assert pages[b] == init[b];
        }
      }
    }
  }

  /** Whether the image file of a page exists. */
  function Present(tempDir: string, existing: set<string>): nat -> bool {
    (i: nat) => ImagePath(tempDir, i) in existing
  }

  /** The pages from `start` to `end` whose image file exists, in order. */
  function ExistingPages(tempDir: string, start: nat, end: int, existing: set<string>): seq<nat> {
    PagesWhere(start, end, Present(tempDir, existing))
  }

  /** The existing pages are exactly the pages of the range whose file
      exists, in strictly ascending order, at most one per page. */
  lemma ExistingPagesSpec(tempDir: string, start: nat, end: int, existing: set<string>)
    ensures var pages := ExistingPages(tempDir, start, end, existing);
      && (forall i: nat :: i in pages <==> start <= i <= end && ImagePath(tempDir, i) in existing)
      && (forall a, b :: 0 <= a < b < |pages| ==> pages[a] < pages[b])
      && |pages| <= if end < start then 0 else end - start + 1
  {
    PagesWhereSpec(start, end, Present(tempDir, existing));
  }

  /** The image paths of a list of pages. */
  function Images(tempDir: string, pages: seq<nat>): (images: seq<string>)
    ensures |images| == |pages|
    ensures forall k :: 0 <= k < |pages| ==> images[k] == ImagePath(tempDir, pages[k])
  {
    seq(|pages|, k requires 0 <= k < |pages| => ImagePath(tempDir, pages[k]))
  }

  /** The image list `pdf_to_images` returns: one path per existing page file. */
  function ExpectedImages(tempDir: string, start: nat, end: int, existing: set<string>): seq<string> {
    Images(tempDir, ExistingPages(tempDir, start, end, existing))
  }

  /** The returned list holds exactly the existing image paths of the range:
      each element is the path of a page from `start` to `end` whose file
      exists, every such path is there, the pages come in ascending order,
      and no path appears twice. */
  lemma ExpectedImagesSpec(tempDir: string, start: nat, end: int, existing: set<string>)
    ensures var images := ExpectedImages(tempDir, start, end, existing);
      && (forall p :: p in images ==> p in existing)
      && (forall k :: 0 <= k < |images| ==> exists i: nat :: start <= i <= end && images[k] == ImagePath(tempDir, i))
      && (forall i: nat :: start <= i <= end && ImagePath(tempDir, i) in existing ==> ImagePath(tempDir, i) in images)
      && (forall a, b, i: nat, j: nat ::
            0 <= a < b < |images| && images[a] == ImagePath(tempDir, i) && images[b] == ImagePath(tempDir, j) ==> i < j)
      && (forall a, b :: 0 <= a < b < |images| ==> images[a] != images[b])
      && |images| <= if end < start then 0 else end - start + 1
  {
    var pages := ExistingPages(tempDir, start, end, existing);
    var images := Images(tempDir, pages);
    ExistingPagesSpec(tempDir, start, end, existing);
    forall p | p in images
      ensures p in existing
    {
      var k :| 0 <= k < |images| && images[k] == p;
      assert pages[k] in pages;
    }
    forall i: nat | start <= i <= end && ImagePath(tempDir, i) in existing
      ensures ImagePath(tempDir, i) in images
    {
      assert i in pages;
      var k :| 0 <= k < |pages| && pages[k] == i;
      assert images[k] == ImagePath(tempDir, i);
    }
    forall k | 0 <= k < |images|
      ensures exists i: nat :: start <= i <= end && images[k] == ImagePath(tempDir, i)
    {
      assert pages[k] in pages;
    }
    forall a, b, i: nat, j: nat | 0 <= a < b < |images| && images[a] == ImagePath(tempDir, i)
        && images[b] == ImagePath(tempDir, j)
      ensures i < j
    {
      if i != pages[a] { ImagePathInjective(tempDir, i, pages[a]); }
      if j != pages[b] { ImagePathInjective(tempDir, j, pages[b]); }
    }
    forall a, b | 0 <= a < b < |images|
      ensures images[a] != images[b]
    {
      ImagePathInjective(tempDir, pages[a], pages[b]);
    }
  }

  /** The image paths of one more page. */
  lemma ImagesSnoc(tempDir: string, pages: seq<nat>, i: nat)
    ensures Images(tempDir, pages + [i]) == Images(tempDir, pages) + [ImagePath(tempDir, i)]
  {
    assert |Images(tempDir, pages + [i])| == |Images(tempDir, pages) + [ImagePath(tempDir, i)]|;
  }

  /** One more page of the range adds its image path when the file exists. */
  lemma CollectStep(tempDir: string, start: nat, i: nat, existing: set<string>)
    requires start <= i
    ensures var path := ImagePath(tempDir, i);
      Images(tempDir, ExistingPages(tempDir, start, i, existing))
        == Images(tempDir, ExistingPages(tempDir, start, i - 1, existing)) + (if path in existing then [path] else [])
  {
    var init := ExistingPages(tempDir, start, i - 1, existing);
    ImagesSnoc(tempDir, init, i);
    assert ExistingPages(tempDir, start, i, existing)
      == init + (if ImagePath(tempDir, i) in existing then [i] else []);
  }

  /** The loop at the end of `pdf_to_images`: the image path of every page
      from `start` to `end` whose file exists, in page order. */
  method CollectImages(tempDir: string, start: nat, end: int, existing: set<string>) returns (imageFiles: seq<string>)
    ensures imageFiles == ExpectedImages(tempDir, start, end, existing)
  {
    imageFiles := [];
    var i := start;
    while i <= end
      invariant start <= i && (i <= end + 1 || i == start)
      invariant imageFiles == Images(tempDir, ExistingPages(tempDir, start, i - 1, existing))
      decreases end - i
    {
      var filename := PageFileName(i);
      var filepath := OsJoin(tempDir, filename);
      CollectStep(tempDir, start, i, existing);
      if filepath in existing {
        imageFiles := imageFiles + [filepath];
      }
      i := i + 1;
    }
  }

  /** The outcome of `pdf_to_images`, step by step. */
  function PdfImages(pdfPath: string, dpi: int, pageRange: Option<(int, int)>, pdfinfo: Option<string>,
                     tempDir: string, converts: seq<string> -> bool, existing: set<string>): Result<seq<string>, string>
  {
    if pdfinfo.None? then Err("无法获取PDF信息")
    else
      match TotalPages(InfoOf(Split(pdfinfo.value, "\n")))
      case Err(e) => Err(e)
      case Ok(total) =>
        var range := PageRange(pageRange, total);
        if !converts(Command(pdfPath, dpi, pageRange.Some?, range.0, range.1, tempDir)) then Err("PDF转换失败")
        else Ok(ExpectedImages(tempDir, range.0 as nat, range.1, existing))
  }

  /** `pdf_to_images`. `pdfinfo` is the report of `pdfinfo` (`None` where it
      fails), `tempDir` the directory `mkdtemp` made, `converts` says whether
      `pdftoppm` succeeds with a given argument list, and `existing` the files
      present afterwards. */
  method PdfToImages(pdfPath: string, dpi: int, pageRange: Option<(int, int)>, pdfinfo: Option<string>,
                     tempDir: string, converts: seq<string> -> bool, existing: set<string>)
    returns (r: Result<seq<string>, string>)
    ensures r == PdfImages(pdfPath, dpi, pageRange, pdfinfo, tempDir, converts, existing)
    ensures pdfinfo.None? ==> r.Err?
    ensures pdfinfo.Some? ==>
      var total := TotalPages(InfoOf(Split(pdfinfo.value, "\n")));
      && (total.Err? ==> r.Err?)
      && (total.Ok? ==>
            var range := PageRange(pageRange, total.value);
            && (r.Ok? <==> converts(Command(pdfPath, dpi, pageRange.Some?, range.0, range.1, tempDir)))
            && (r.Ok? ==> range.0 >= 1 && r.value == ExpectedImages(tempDir, range.0 as nat, range.1, existing)))
  {
    var info := GetPdfInfo(pdfinfo);
    if info.Err? {
      return Err("无法获取PDF信息");
    }
    var totalPages := TotalPages(info.value);
    if totalPages.Err? {
      return Err(totalPages.error);
    }
    var total := totalPages.value;
    var startPage: int, endPage: int;
    if pageRange.Some? {
      var (s, e) := pageRange.value;
      startPage := Max(1, Min(s, total));
      endPage := Max(startPage, Min(e, total));
    } else {
      startPage, endPage := 1, total;
    }
    var cmd := ["pdftoppm", "-png", "-r", IntToString(dpi), "-progress"];
    if pageRange.Some? {
      cmd := cmd + ["-f", IntToString(startPage), "-l", IntToString(endPage)];
    }
    cmd := cmd + [pdfPath, OsJoin(tempDir, "page")];
    if !converts(cmd) {
      return Err("PDF转换失败");
    }
    var imageFiles := CollectImages(tempDir, startPage, endPage, existing);
    return Ok(imageFiles);
  }
}
