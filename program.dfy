/**
 * `main`: check the input, turn the PDF into page images, extract each
 * page's text in order, delete each image after its text is taken, and
 * build the EPUB; any exception ends the program with status 1.
 */
module Program {
  import opened Wrappers
  import opened Text
  import opened EpubGenerator
  import opened PdfProcessor

  /** The parsed command line. */
  datatype Args = Args(input: string, output: string, dpi: int, pageRange: Option<(int, int)>)

  /** What the world outside the program does: whether the input exists,
      whether the Gemini client can be made, what `pdfinfo` reports, the
      directory `mkdtemp` makes, whether `pdftoppm` succeeds, which files
      exist afterwards, what the model returns for each image (an `Err` is
      an exception of `extract_text`), and whether the EPUB can be written. */
  datatype World = World(
    inputExists: bool,
    clientOk: bool,
    pdfinfo: Option<string>,
    tempDir: string,
    converts: seq<string> -> bool,
    existing: set<string>,
    extract: string -> Result<string, string>,
    writeOk: bool)

  /** The effects of a run, in the order they happen. */
  datatype Event =
    | Extract(image: string)            // `gemini_client.extract_text(image_path)`
    | Remove(image: string)             // `os.remove(image_path)`
    | WriteEpub(path: string, book: Book)  // `create_epub(chapters, args.output)`

  /** The position of the first image whose extraction raises, or the
      number of images when none does. */
  function FirstFailure(images: seq<string>, extract: string -> Result<string, string>): (j: nat)
    ensures j <= |images|
    ensures forall k :: 0 <= k < j ==> extract(images[k]).Ok?
    ensures j < |images| ==> extract(images[j]).Err?
  {
    if images == [] then 0
    else if extract(images[0]).Err? then 0
    else 1 + FirstFailure(images[1..], extract)
  }

  /** `{'title': f'Page {i+1}', 'content': text}` for image `i`. */
  function PageChapter(i: nat, text: string): Chapter {
    Chapter("Page " + Decimal(i + 1), text)
  }

  /** The `chapters` list once every image has been read. */
  function PageChapters(images: seq<string>, extract: string -> Result<string, string>): (chapters: seq<Chapter>)
    requires forall k :: 0 <= k < |images| ==> extract(images[k]).Ok?
    ensures |chapters| == |images|
    ensures forall k :: 0 <= k < |images| ==> chapters[k] == PageChapter(k, extract(images[k]).value)
  {
    seq(|images|, k requires 0 <= k < |images| => PageChapter(k, extract(images[k]).value))
  }

  /** The events of the loop for `images`: each image is extracted and then removed. */
  function Steps(images: seq<string>): seq<Event> {
    if images == [] then []
    else Steps(images[..|images| - 1]) + [Extract(images[|images| - 1]), Remove(images[|images| - 1])]
  }

  /** Every page contributes an extraction followed by the removal of its
      image, in page order. */
  lemma {:induction false} StepsAt(images: seq<string>)
    ensures |Steps(images)| == 2 * |images|
    ensures forall k :: 0 <= k < |images| ==>
      Steps(images)[2 * k] == Extract(images[k]) && Steps(images)[2 * k + 1] == Remove(images[k])
  {
    if images != [] {
      var n := |images| - 1;
      var init := images[..n];
      StepsAt(init);
      forall k | 0 <= k < |images|
        ensures Steps(images)[2 * k] == Extract(images[k]) && Steps(images)[2 * k + 1] == Remove(images[k])
      {
        if k < n {
          assert init[k] == images[k];
        }
      }
    }
  }

  /** The book `create_epub` makes of the chapters. */
  function BookOf(chapters: seq<Chapter>): Book {
    Assemble(IndexedItems(chapters, ChapterTitle, SimpleBody))
  }

  /** `main`. */
  method Run(args: Args, world: World) returns (status: int, trace: seq<Event>)
    ensures !world.inputExists ==> status == 1 && trace == []
    ensures world.inputExists && !world.clientOk ==> status == 1 && trace == []
    ensures var images := PdfImages(args.input, args.dpi, args.pageRange, world.pdfinfo,
                                    world.tempDir, world.converts, world.existing);
      world.inputExists && world.clientOk && images.Err? ==> status == 1 && trace == []
    ensures var images := PdfImages(args.input, args.dpi, args.pageRange, world.pdfinfo,
                                    world.tempDir, world.converts, world.existing);
      world.inputExists && world.clientOk && images.Ok? ==>
        var imgs := images.value;
        var j := FirstFailure(imgs, world.extract);
        && (j < |imgs| ==> status == 1 && trace == Steps(imgs[..j]) + [Extract(imgs[j])])
        && (j == |imgs| ==>
              && status == (if world.writeOk then 0 else 1)
              && trace == Steps(imgs) + (if world.writeOk then [WriteEpub(args.output, BookOf(PageChapters(imgs, world.extract)))] else []))
  {
    if !world.inputExists {
      return 1, [];
    }
    if !world.clientOk {
      return 1, [];
    }
    var images := PdfToImages(args.input, args.dpi, args.pageRange, world.pdfinfo,
                              world.tempDir, world.converts, world.existing);
    if images.Err? {
      return 1, [];
    }
    var imgs := images.value;
    var chapters, read;
    chapters, trace, read := ReadPages(imgs, world.extract);
    if !read {
      return 1, trace;
    }
    var book := CreateEpub(chapters);
    if !world.writeOk {
      return 1, trace;
    }
    trace := trace + [WriteEpub(args.output, book)];
    return 0, trace;
  }

  /** The loop of `main` over the page images: `read` is false when an
      extraction raised, and the loop stops right there. */
  method ReadPages(images: seq<string>, extract: string -> Result<string, string>)
    returns (chapters: seq<Chapter>, trace: seq<Event>, read: bool)
    ensures var j := FirstFailure(images, extract);
      && (read <==> j == |images|)
      && (read ==> chapters == PageChapters(images, extract) && trace == Steps(images))
      && (!read ==> trace == Steps(images[..j]) + [Extract(images[j])])
  {
    chapters := [];
    trace := [];
    for i := 0 to |images|
      invariant i <= FirstFailure(images, extract)
      invariant chapters == PageChapters(images[..i], extract)
      invariant trace == Steps(images[..i])
    {
      var imagePath := images[i];
      trace := trace + [Extract(imagePath)];
      var text := extract(imagePath);
      if text.Err? {
        return chapters, trace, false;
      }
      assert images[..i + 1][..i] == images[..i];
      chapters := chapters + [PageChapter(i, text.value)];
      trace := trace + [Remove(imagePath)];
    }
    assert images[..|images|] == images;
    return chapters, trace, true;
  }

  /** On success chapter `k` of the book is titled `Page k+1`, is stored as
      `chap_{k+1:03d}.xhtml` and holds the text of image `k`. */
  lemma BookPages(images: seq<string>, extract: string -> Result<string, string>)
    requires forall k :: 0 <= k < |images| ==> extract(images[k]).Ok?
    ensures var book := BookOf(PageChapters(images, extract));
      && |book.chapters| == |images|
      && forall k :: 0 <= k < |images| ==>
           book.chapters[k] == EpubChapter("Page " + Decimal(k + 1), ChapterFileName(k),
                                           SimpleBody(PageChapter(k, extract(images[k]).value), k))
  {
    IndexedItemsAt(PageChapters(images, extract), ChapterTitle, SimpleBody);
  }

  /** Event `i` of the loop belongs to image `i / 2`: an extraction at even
      positions, a removal at odd ones. */
  lemma StepsIndex(images: seq<string>, i: nat)
    requires i < 2 * |images|
    ensures |Steps(images)| == 2 * |images|
    ensures Steps(images)[i] == if i % 2 == 0 then Extract(images[i / 2]) else Remove(images[i / 2])
  {
    StepsAt(images);
    var k := i / 2;
    assert i == 2 * k || i == 2 * k + 1;
  }

  /** When the images are all different, each is extracted exactly once in
      a run that gets through the loop, and its removal comes right after. */
  lemma ExtractedOnce(images: seq<string>, a: nat, b: nat)
    requires forall x, y :: 0 <= x < y < |images| ==> images[x] != images[y]
    requires a < |Steps(images)| && b < |Steps(images)|
    requires Steps(images)[a] == Steps(images)[b] && Steps(images)[a].Extract?
    ensures a == b
    ensures a + 1 < |Steps(images)| && Steps(images)[a + 1] == Remove(Steps(images)[a].image)
  {
    StepsAt(images);
    StepsIndex(images, a);
    StepsIndex(images, b);
    StepsIndex(images, a + 1);
    assert images[a / 2] == images[b / 2];
  }

  /** A failed extraction stops the run: no EPUB is written and no later
      image is extracted or removed. */
  lemma FailureStops(images: seq<string>, j: nat)
    requires j < |images|
    requires forall x, y :: 0 <= x < y < |images| ==> images[x] != images[y]
    ensures var trace := Steps(images[..j]) + [Extract(images[j])];
      && (forall e :: e in trace ==> !e.WriteEpub?)
      && (forall k :: j < k < |images| ==> Extract(images[k]) !in trace)
      && (forall k :: j <= k < |images| ==> Remove(images[k]) !in trace)
  {
    var init := images[..j];
    var trace := Steps(init) + [Extract(images[j])];
    StepsAt(init);
    forall i | 0 <= i < |trace|
      ensures !trace[i].WriteEpub?
      ensures forall k :: j < k < |images| ==> trace[i] != Extract(images[k])
      ensures forall k :: j <= k < |images| ==> trace[i] != Remove(images[k])
    {
      if i < |Steps(init)| {
        StepsIndex(init, i);
        assert init[i / 2] == images[i / 2];
      }
    }
  }
}
