/**
 * The chapter-to-HTML converters of `EpubGenerator` and the way each of its
 * three `create_epub*` methods lays out the book: one XHTML item per chapter,
 * named by its position, listed in that order in the table of contents and,
 * after the navigation document, in the spine. The ebooklib objects, the CSS
 * and the serialisation are not part of this model; the book is the datatype
 * `Book` below.
 */
module EpubGenerator {
  import opened Wrappers
  import opened Text

  // ---------------------------------------------------------------------
  // The book

  /** One `EpubHtml` item: its title, its file name and its XHTML body. */
  datatype EpubChapter = EpubChapter(title: string, fileName: string, content: string)

  datatype SpineItem = Nav | Item(chapter: EpubChapter)

  /** The chapter items in the order they are added, `book.toc` and `book.spine`. */
  datatype Book = Book(chapters: seq<EpubChapter>, toc: seq<EpubChapter>, spine: seq<SpineItem>)

  /** `f'chap_{i+1:03d}.xhtml'` for the chapter at 0-based position `i`. */
  function ChapterFileName(i: nat): string {
    "chap_" + Pad3(i + 1) + ".xhtml"
  }

  /** Two chapters never share a file name, however many chapters there are. */
  lemma ChapterFileNamesDistinct(i: nat, j: nat)
    requires i != j
    ensures ChapterFileName(i) != ChapterFileName(j)
  {
    ChapterFileNameNumber(i);
    ChapterFileNameNumber(j);
    Pad3Injective(i + 1, j + 1);
  }

  /** The padded number sits between the `chap_` prefix and the `.xhtml` suffix. */
  lemma ChapterFileNameNumber(i: nat)
    ensures var name := ChapterFileName(i);
      |name| >= 11 && name[5..|name| - 6] == Pad3(i + 1)
  {
  }

  /** `['nav'] + epub_chapters`. */
  function Spine(chapters: seq<EpubChapter>): (spine: seq<SpineItem>)
    ensures |spine| == |chapters| + 1 && spine[0] == Nav
    ensures forall k :: 0 <= k < |chapters| ==> spine[k + 1] == Item(chapters[k])
  {
    [Nav] + seq(|chapters|, k requires 0 <= k < |chapters| => Item(chapters[k]))
  }

  /** The layout every `create_epub*` method produces for its items: item `i`
      is named after position `i`, the table of contents is the items in
      order and the spine is the navigation document followed by the items. */
  ghost predicate WellLaidOut(book: Book) {
    && book.toc == book.chapters
    && book.spine == Spine(book.chapters)
    && (forall i :: 0 <= i < |book.chapters| ==> book.chapters[i].fileName == ChapterFileName(i))
  }

  /** `book.toc = epub_chapters; book.spine = ['nav'] + epub_chapters`. */
  function Assemble(items: seq<EpubChapter>): Book {
    Book(items, items, Spine(items))
  }

  /** The items the loop of a `create_epub*` method collects in
      `epub_chapters`: position `k` becomes an item with the title and body
      that mode gives the `k`-th chapter, named after `k`. */
  function IndexedItems<C>(chapters: seq<C>, title: (C, nat) -> string, body: (C, nat) -> string): seq<EpubChapter> {
    if chapters == [] then []
    else
      var k := |chapters| - 1;
      IndexedItems(chapters[..k], title, body) + [EpubChapter(title(chapters[k], k), ChapterFileName(k), body(chapters[k], k))]
  }

  /** One more chapter appends one more item, named after its position. */
  lemma IndexedItemsSnoc<C>(chapters: seq<C>, i: nat, title: (C, nat) -> string, body: (C, nat) -> string)
    requires i < |chapters|
    ensures IndexedItems(chapters[..i + 1], title, body)
      == IndexedItems(chapters[..i], title, body) + [EpubChapter(title(chapters[i], i), ChapterFileName(i), body(chapters[i], i))]
  {
    assert chapters[..i + 1][..i] == chapters[..i];
  }

  /** The `k`-th chapter item is built from the `k`-th input and its index:
      one item per chapter, in input order. */
  lemma {:induction false} IndexedItemsAt<C>(chapters: seq<C>, title: (C, nat) -> string, body: (C, nat) -> string)
    ensures |IndexedItems(chapters, title, body)| == |chapters|
    ensures forall k :: 0 <= k < |chapters| ==>
      IndexedItems(chapters, title, body)[k] == EpubChapter(title(chapters[k], k), ChapterFileName(k), body(chapters[k], k))
  {
    if chapters != [] {
      var n := |chapters| - 1;
      var init := chapters[..n];
      IndexedItemsAt(init, title, body);
      var items := IndexedItems(chapters, title, body);
      var last := EpubChapter(title(chapters[n], n), ChapterFileName(n), body(chapters[n], n));
      assert items == IndexedItems(init, title, body) + [last];
      forall k | 0 <= k < |chapters|
        ensures items[k] == EpubChapter(title(chapters[k], k), ChapterFileName(k), body(chapters[k], k))
      {
        if k < n {
          assert items[k] == IndexedItems(init, title, body)[k];
          assert init[k] == chapters[k];
        } else {
          assert items[k] == last;
        }
      }
    }
  }

  /** Collecting one item per position and assembling them lays the book out
      as every `create_epub*` method does. */
  lemma IndexedBookLaidOut<C>(chapters: seq<C>, title: (C, nat) -> string, body: (C, nat) -> string)
    ensures WellLaidOut(Assemble(IndexedItems(chapters, title, body)))
  {
    IndexedItemsAt(chapters, title, body);
  }

  /** In a book laid out that way no two items share a file name. */
  lemma WellLaidOutNamesDistinct(book: Book, i: nat, j: nat)
    requires WellLaidOut(book)
    requires i < j < |book.chapters|
    ensures book.chapters[i].fileName != book.chapters[j].fileName
  {
    ChapterFileNamesDistinct(i, j);
  }

  function H1(text: string): string { "<h1>" + text + "</h1>" }
  function H2(text: string): string { "<h2>" + text + "</h2>" }
  function Para(text: string): string { "<p>" + text + "</p>" }

  /** Each text wrapped as a `<p>` element, in order. */
  function WrapParagraphs(texts: seq<string>): (parts: seq<string>)
    ensures |parts| == |texts|
    ensures forall k :: 0 <= k < |texts| ==> parts[k] == Para(texts[k])
  {
    seq(|texts|, k requires 0 <= k < |texts| => Para(texts[k]))
  }

  // ---------------------------------------------------------------------
  // create_epub: plain chapters, blank-line paragraphs

  /** An entry of the `chapters` list: its `'title'` and `'content'` keys. */
  datatype Chapter = Chapter(title: string, content: string)

  /** `.replace('\r\n', '\n').replace('\r', '\n')`. */
  function NormalizeNewlines(s: string): string {
    Replace(Replace(s, "\r\n", "\n"), "\r", "\n")
  }

  /** After normalisation no CR is left. */
  lemma NormalizeRemovesCr(s: string)
    ensures '\r' !in NormalizeNewlines(s)
  {
    ReplaceCharRemoves(Replace(s, "\r\n", "\n"), '\r', "\n");
  }

  /** `p.replace('\n', '').strip()`. */
  function CleanParagraph(p: string): string {
    Strip(Replace(p, "\n", ""))
  }

  /** The cleaned pieces that are not empty, in order: the paragraphs the
      loop over `paragraphs` keeps. */
  function KeptParagraphs(pieces: seq<string>): seq<string> {
    if pieces == [] then []
    else
      var kept := KeptParagraphs(pieces[..|pieces| - 1]);
      var text := CleanParagraph(pieces[|pieces| - 1]);
      if text != "" then kept + [text] else kept
  }

  /** The paragraph texts `create_epub` emits for a chapter content. */
  function SimpleParagraphs(content: string): seq<string> {
    KeptParagraphs(Split(NormalizeNewlines(content), "\n\n"))
  }

  /** The HTML parts of a chapter in `create_epub`, before they are joined. */
  function SimpleChapterHtml(chapter: Chapter): seq<string> {
    [H1(chapter.title)] + WrapParagraphs(SimpleParagraphs(chapter.content))
  }

  /** Wrapping one more text appends one more `<p>` element. */
  lemma WrapParagraphsSnoc(texts: seq<string>, t: string)
    ensures WrapParagraphs(texts + [t]) == WrapParagraphs(texts) + [Para(t)]
  {
    var l := WrapParagraphs(texts + [t]);
    var r := WrapParagraphs(texts) + [Para(t)];
    assert |l| == |r|;
    forall k | 0 <= k < |l|
      ensures l[k] == r[k]
    {
      if k < |texts| {
        assert (texts + [t])[k] == texts[k];
      }
    }
  }

  /** One more piece is kept exactly when it cleans to something non-empty. */
  lemma KeptParagraphsStep(pieces: seq<string>, i: nat, text: string)
    requires i < |pieces| && text == CleanParagraph(pieces[i])
    ensures text != "" ==> KeptParagraphs(pieces[..i + 1]) == KeptParagraphs(pieces[..i]) + [text]
    ensures text == "" ==> KeptParagraphs(pieces[..i + 1]) == KeptParagraphs(pieces[..i])
  {
    assert pieces[..i + 1][..i] == pieces[..i];
  }

  /** Keeping one more paragraph appends one more `<p>` part after the title. */
  lemma SimplePartsSnoc(title: string, kept: seq<string>, text: string)
    ensures ([H1(title)] + WrapParagraphs(kept)) + [Para(text)] == [H1(title)] + WrapParagraphs(kept + [text])
  {
    WrapParagraphsSnoc(kept, text);
  }

  /** The loop over the pieces of a chapter: after the title, one `<p>` part
      per piece that cleans to a non-empty text, in order. */
  method ParagraphParts(title: string, paragraphs: seq<string>) returns (parts: seq<string>)
    ensures parts == [H1(title)] + WrapParagraphs(KeptParagraphs(paragraphs))
  {
    parts := [H1(title)];
    ghost var kept: seq<string> := [];
    var i := 0;
    while i < |paragraphs|
      invariant 0 <= i <= |paragraphs|
      invariant kept == KeptParagraphs(paragraphs[..i])
      invariant parts == [H1(title)] + WrapParagraphs(kept)
    {
      var text := CleanParagraph(paragraphs[i]);
      KeptParagraphsStep(paragraphs, i, text);
      if text != "" {
        SimplePartsSnoc(title, kept, text);
        parts := parts + [Para(text)];
        kept := kept + [text];
      }
      i := i + 1;
    }
    assert paragraphs[..i] == paragraphs;
  }

  /** The body of one chapter in `create_epub`: the `<h1>` title, then one
      `<p>` per kept paragraph, in source order. */
  method SimpleChapterParts(chapter: Chapter) returns (parts: seq<string>)
    ensures parts == SimpleChapterHtml(chapter)
  {
    var normalized := NormalizeNewlines(chapter.content);
    var paragraphs := Split(normalized, "\n\n");
    parts := ParagraphParts(chapter.title, paragraphs);
  }

  /** Every kept paragraph is non-empty, and it holds neither LF nor, when the
      pieces held none, CR. */
  lemma {:induction false} KeptParagraphsClean(pieces: seq<string>)
    requires forall k :: 0 <= k < |pieces| ==> '\r' !in pieces[k]
    ensures forall t :: t in KeptParagraphs(pieces) ==> t != "" && '\n' !in t && '\r' !in t
  {
    if pieces != [] {
      var last := pieces[|pieces| - 1];
      KeptParagraphsClean(pieces[..|pieces| - 1]);
      ReplaceCharRemoves(last, '\n', "");
      StripChars(Replace(last, "\n", ""), '\n');
      ReplaceKeepsAbsent(last, "\n", "", '\r');
      StripChars(Replace(last, "\n", ""), '\r');
    }
  }

  /** No paragraph `create_epub` emits is empty or holds a line break. */
  lemma SimpleParagraphsClean(content: string)
    ensures forall t :: t in SimpleParagraphs(content) ==> t != "" && '\n' !in t && '\r' !in t
  {
    NormalizeRemovesCr(content);
    SplitKeepsAbsent(NormalizeNewlines(content), "\n\n", '\r');
    KeptParagraphsClean(Split(NormalizeNewlines(content), "\n\n"));
  }

  /** Text without CR is left alone by the normalisation. */
  lemma NormalizeWithoutCr(s: string)
    requires '\r' !in s
    ensures NormalizeNewlines(s) == s
  {
    ReplaceNoOccurrence(s, "\r\n", "\n", 0);
    ReplaceNoOccurrence(s, "\r", "\n", 0);
  }

  /** The same text written with CRLF line endings gives the same paragraphs. */
  lemma SimpleParagraphsCrlf(lf: string)
    requires '\r' !in lf
    ensures SimpleParagraphs(Replace(lf, "\n", "\r\n")) == SimpleParagraphs(lf)
  {
    var crlf := Replace(lf, "\n", "\r\n");
    ReplaceCrlfBack(lf);
    NormalizeWithoutCr(lf);
    ReplaceNoOccurrence(lf, "\r", "\n", 0);
    assert NormalizeNewlines(crlf) == Replace(lf, "\r", "\n");
  }

  /** The same text written with CR line endings gives the same paragraphs. */
  lemma SimpleParagraphsCr(lf: string)
    requires '\r' !in lf
    ensures SimpleParagraphs(Replace(lf, "\n", "\r")) == SimpleParagraphs(lf)
  {
    var cr := Replace(lf, "\n", "\r");
    ReplaceCharRemoves(lf, '\n', "\r");
    ReplaceNoOccurrence(cr, "\r\n", "\n", 1);
    ReplaceCharBack(lf, '\n', '\r');
    NormalizeWithoutCr(lf);
  }

  /** Empty content and content made of blank lines only give no paragraph. */
  lemma SimpleParagraphsBlank()
    ensures SimpleParagraphs("") == []
    ensures SimpleParagraphs("\n\n\n") == []
  {
    NormalizeWithoutCr("");
    NormalizeWithoutCr("\n\n\n");
    var pieces := Split("\n\n\n", "\n\n");
    assert Split("\n", "\n\n") == ["\n"];
    assert pieces == ["", "\n"];
    assert CleanParagraph("\n") == "" by {
      assert Replace("\n", "\n", "") == "";
    }
    assert pieces[..1] == [""];
  }

  /** Two one-line texts separated by three blank lines give two paragraphs. */
  lemma SimpleParagraphsPair(a: string, b: string)
    requires '\n' !in a && '\r' !in a && '\n' !in b && '\r' !in b
    requires a != "" && Strip(a) == a && b != "" && Strip(b) == b
    ensures SimpleParagraphs(a + "\n\n\n\n" + b) == [a, b]
  {
    var content := a + "\n\n\n\n" + b;
    assert '\r' !in content;
    NormalizeWithoutCr(content);
    PairPieces(a, b);
    ReplaceNoOccurrence(a, "\n", "", 0);
    ReplaceNoOccurrence(b, "\n", "", 0);
    assert CleanParagraph("") == "" by {
      assert Replace("", "\n", "") == "";
    }
    KeptPair(a, "", b);
  }

  /** The two sample paragraphs are single clean lines. */
  lemma SampleLine(s: string)
    requires s == "第一段" || s == "第二段"
    ensures '\n' !in s && '\r' !in s && s != "" && Strip(s) == s
  {
    assert !IsSpace(s[0]) && !IsSpace(s[2]);
    assert TrimLeft(s) == s;
  }

  /** `第一段`, three blank lines and `第二段` give the two paragraphs `第一段`
      and `第二段`. */
  lemma SimpleParagraphsTwo(a: string, b: string)
    requires a == "第一段" && b == "第二段"
    ensures SimpleParagraphs(a + "\n\n\n\n" + b) == [a, b]
  {
    SampleLine(a);
    SampleLine(b);
    SimpleParagraphsPair(a, b);
  }

  /** The cut at a double line break leaves one empty piece between the texts. */
  lemma PairPieces(a: string, b: string)
    requires '\n' !in a && '\n' !in b
    ensures Split(a + "\n\n\n\n" + b, "\n\n") == [a, "", b]
  {
    var sep := "\n\n";
    var t2 := sep + b;
    var t1 := sep + t2;
    assert a + "\n\n\n\n" + b == a + t1;
    assert Split([], sep) == [[]];
    SplitPrefix(b, [], sep);
    assert b + [] == b;
    assert Split(b, sep) == [b];
    SplitSep(sep, b);
    assert Split(t2, sep) == ["", b];
    SplitSep(sep, t2);
    assert Split(t1, sep) == ["", "", b];
    SplitPrefix(a, t1, sep);
    assert a + "" == a;
  }

  /** Of three pieces, the one that cleans to nothing is dropped and the two
      that are already clean are kept, in order. */
  lemma KeptPair(a: string, e: string, b: string)
    requires a != "" && Replace(a, "\n", "") == a && Strip(a) == a
    requires b != "" && Replace(b, "\n", "") == b && Strip(b) == b
    requires CleanParagraph(e) == ""
    ensures KeptParagraphs([a, e, b]) == [a, b]
  {
    KeptFirst(a);
    KeptSecondBlank(a, e);
    KeptThird(a, e, b);
  }

  /** The first clean piece is kept. */
  lemma KeptFirst(a: string)
    requires a != "" && Replace(a, "\n", "") == a && Strip(a) == a
    ensures KeptParagraphs([a]) == [a]
  {
    KeptClean([], a);
    assert [] + [a] == [a];
  }

  /** A second piece that cleans to nothing adds nothing. */
  lemma KeptSecondBlank(a: string, e: string)
    requires KeptParagraphs([a]) == [a] && CleanParagraph(e) == ""
    ensures KeptParagraphs([a, e]) == [a]
  {
    KeptBlank([a], e);
    assert [a] + [e] == [a, e];
  }

  /** A third clean piece is appended. */
  lemma KeptThird(a: string, e: string, b: string)
    requires KeptParagraphs([a, e]) == [a]
    requires b != "" && Replace(b, "\n", "") == b && Strip(b) == b
    ensures KeptParagraphs([a, e, b]) == [a, b]
  {
    KeptClean([a, e], b);
    KeptRegroup(a, e, b);
  }

  /** The third piece appended to the first two gives the three pieces. */
  lemma KeptRegroup(a: string, e: string, b: string)
    requires KeptParagraphs([a, e]) == [a]
    requires KeptParagraphs([a, e] + [b]) == KeptParagraphs([a, e]) + [b]
    ensures KeptParagraphs([a, e, b]) == [a, b]
  {
    assert [a, e] + [b] == [a, e, b];
  }

  /** A piece that is already clean is kept as it is. */
  lemma KeptClean(pieces: seq<string>, x: string)
    requires x != "" && Replace(x, "\n", "") == x && Strip(x) == x
    ensures KeptParagraphs(pieces + [x]) == KeptParagraphs(pieces) + [x]
  {
    KeptSnoc(pieces, x);
  }

  /** A piece that cleans to nothing is dropped. */
  lemma KeptBlank(pieces: seq<string>, x: string)
    requires CleanParagraph(x) == ""
    ensures KeptParagraphs(pieces + [x]) == KeptParagraphs(pieces)
  {
    KeptSnoc(pieces, x);
  }

  /** `KeptParagraphs` on one more piece. */
  lemma KeptSnoc(pieces: seq<string>, x: string)
    ensures KeptParagraphs(pieces + [x])
      == if CleanParagraph(x) != "" then KeptParagraphs(pieces) + [CleanParagraph(x)] else KeptParagraphs(pieces)
  {
    assert (pieces + [x])[..|pieces|] == pieces;
  }

  function ChapterTitle(chapter: Chapter, i: nat): string {
    chapter.title
  }

  /** The XHTML body `create_epub` gives a chapter: its parts joined with newlines. */
  function SimpleBody(chapter: Chapter, i: nat): string {
    Join(SimpleChapterHtml(chapter), "\n")
  }

  /** One pass of the loop in `create_epub`: the item of the chapter at position `i`. */
  method SimpleItem(chapter: Chapter, i: nat) returns (item: EpubChapter)
    ensures item == EpubChapter(chapter.title, ChapterFileName(i), SimpleBody(chapter, i))
  {
    var parts := SimpleChapterParts(chapter);
    item := EpubChapter(chapter.title, ChapterFileName(i), Join(parts, "\n"));
  }

  /** `create_epub`: one item per chapter, in order, laid out as `WellLaidOut` says. */
  method CreateEpub(chapters: seq<Chapter>) returns (book: Book)
    ensures book == Assemble(IndexedItems(chapters, ChapterTitle, SimpleBody))
    ensures WellLaidOut(book) && |book.chapters| == |chapters|
    ensures forall i :: 0 <= i < |chapters| ==>
      book.chapters[i] == EpubChapter(chapters[i].title, ChapterFileName(i), SimpleBody(chapters[i], i))
  {
    var epubChapters: seq<EpubChapter> := [];
    for i := 0 to |chapters|
      invariant epubChapters == IndexedItems(chapters[..i], ChapterTitle, SimpleBody)
    {
      var item := SimpleItem(chapters[i], i);
      IndexedItemsSnoc(chapters, i, ChapterTitle, SimpleBody);
      epubChapters := epubChapters + [item];
    }
    assert chapters[..|chapters|] == chapters;
    IndexedItemsAt(chapters, ChapterTitle, SimpleBody);
    IndexedBookLaidOut(chapters, ChapterTitle, SimpleBody);
    book := Assemble(epubChapters);
  }

  // ---------------------------------------------------------------------
  // create_epub_with_toc: `#` and `##` paragraphs become headings

  /** `(line.strip() for line in lines if line.strip())`. */
  function NonBlankLines(lines: seq<string>): (texts: seq<string>)
    ensures |texts| <= |lines|
    ensures forall t :: t in texts ==> t != ""
  {
    if lines == [] then []
    else
      var texts := NonBlankLines(lines[..|lines| - 1]);
      var text := Strip(lines[|lines| - 1]);
      if text != "" then texts + [text] else texts
  }

  /** `[Para(text)]` when `text` is not empty, nothing otherwise. */
  function ParaIfAny(text: string): seq<string> {
    if text == "" then [] else [Para(text)]
  }

  /** The first line of a paragraph, stripped, as the heading test sees it. */
  function FirstLine(paragraph: string): string {
    Strip(Split(Strip(paragraph), "\n")[0])
  }

  /** `paragraph.strip().split('\n')`: never empty, so `if lines:` always holds. */
  function ParagraphLines(paragraph: string): (lines: seq<string>)
    ensures |lines| >= 1
  {
    Split(Strip(paragraph), "\n")
  }

  /** How the first line of a paragraph classifies it; `##` is tested first. */
  datatype HeadingKind = Level2 | Level1 | NotHeading

  function KindOf(first: string): HeadingKind {
    if StartsWith(first, "##") then Level2
    else if StartsWith(first, "#") then Level1
    else NotHeading
  }

  /** The parts one blank-line-separated paragraph contributes in
      `create_epub_with_toc`. */
  function TocParagraphParts(paragraph: string): seq<string> {
    LinesParts(ParagraphLines(paragraph))
  }

  /** The parts made of a paragraph's lines; the first line decides. */
  function LinesParts(lines: seq<string>): seq<string>
    requires |lines| >= 1
  {
    var first := Strip(lines[0]);
    match KindOf(first)
    case Level2 => [H2(Strip(first[2..]))] + ParaIfAny(Join(NonBlankLines(lines[1..]), "<br/>"))
    case Level1 => [H1(Strip(first[1..]))] + ParaIfAny(Join(NonBlankLines(lines[1..]), "<br/>"))
    case NotHeading => ParaIfAny(Join(NonBlankLines(lines), ""))
  }

  /** The parts of all paragraphs, in order. */
  function TocBody(paragraphs: seq<string>): seq<string> {
    if paragraphs == [] then []
    else TocBody(paragraphs[..|paragraphs| - 1]) + TocParagraphParts(paragraphs[|paragraphs| - 1])
  }

  /** Regrouping concatenated parts. */
  lemma AppendAssoc<T>(a: seq<T>, b: seq<T>, c: seq<T>)
    ensures (a + b) + c == a + (b + c)
  {
  }

  /** The toc-mode body over one more paragraph. */
  lemma TocBodySnoc(paragraphs: seq<string>, i: nat)
    requires i < |paragraphs|
    ensures TocBody(paragraphs[..i + 1]) == TocBody(paragraphs[..i]) + TocParagraphParts(paragraphs[i])
  {
    assert paragraphs[..i + 1][..i] == paragraphs[..i];
  }

  /** The HTML parts of a chapter in `create_epub_with_toc`, before they are joined. */
  function TocChapterHtml(chapter: Chapter): seq<string> {
    [H1(chapter.title)] + TocBody(Split(chapter.content, "\n\n"))
  }

  /** The body of one chapter in `create_epub_with_toc`. Unlike `create_epub`
      it splits the raw content, without normalising CR or CRLF. */
  method TocChapterParts(chapter: Chapter) returns (parts: seq<string>)
    ensures parts == TocChapterHtml(chapter)
  {
    parts := [H1(chapter.title)];
    var paragraphs := Split(chapter.content, "\n\n");
    var i := 0;
    while i < |paragraphs|
      invariant 0 <= i <= |paragraphs|
      invariant parts == [H1(chapter.title)] + TocBody(paragraphs[..i])
    {
      var more := TocParagraphParts(paragraphs[i]);
      TocBodySnoc(paragraphs, i);
      AppendAssoc([H1(chapter.title)], TocBody(paragraphs[..i]), more);
      parts := parts + more;
      i := i + 1;
    }
    assert paragraphs[..i] == paragraphs;
  }

  /** A paragraph that is not a heading yields one `<p>` with its non-blank
      lines, stripped, run together, or nothing when all its lines are blank. */
  lemma TocPlainParagraph(paragraph: string)
    requires !StartsWith(FirstLine(paragraph), "#")
    ensures var texts := NonBlankLines(ParagraphLines(paragraph));
      && (TocParagraphParts(paragraph) == [] <==> texts == [])
      && (texts != [] ==> TocParagraphParts(paragraph) == [Para(Join(texts, ""))])
  {
    var texts := NonBlankLines(ParagraphLines(paragraph));
    assert KindOf(FirstLine(paragraph)) == NotHeading;
    assert TocParagraphParts(paragraph) == ParaIfAny(Join(texts, ""));
    if texts != [] {
      JoinNonEmpty(texts, "");
    }
  }

  /** Joining at least one non-empty text gives a non-empty text. */
  lemma {:induction false} JoinNonEmpty(texts: seq<string>, sep: string)
    requires texts != [] && forall t :: t in texts ==> t != ""
    ensures Join(texts, sep) != ""
  {
    assert texts[0] in texts;
  }

  /** `create_epub_with_toc` never emits an empty `<p></p>`. */
  lemma {:induction false} TocBodyNoEmptyParagraph(paragraphs: seq<string>)
    ensures Para("") !in TocBody(paragraphs)
  {
    if paragraphs != [] {
      TocBodyNoEmptyParagraph(paragraphs[..|paragraphs| - 1]);
      TocParagraphNoEmptyParagraph(paragraphs[|paragraphs| - 1]);
    }
  }

  /** A toc-mode paragraph never yields an empty `<p></p>` part. */
  lemma TocParagraphNoEmptyParagraph(paragraph: string)
    ensures Para("") !in TocParagraphParts(paragraph)
  {
    LinesNoEmptyParagraph(ParagraphLines(paragraph));
  }

  /** The parts of a paragraph's non-blank lines hold no empty `<p></p>`. */
  lemma LinesNoEmptyParagraph(lines: seq<string>)
    requires |lines| >= 1
    ensures Para("") !in LinesParts(lines)
  {
    var first := Strip(lines[0]);
    match KindOf(first)
    case Level2 =>
      var h := H2(Strip(first[2..]));
      assert h[1] != Para("")[1];
      ParaIfAnyNotEmpty(Join(NonBlankLines(lines[1..]), "<br/>"));
    case Level1 =>
      var h := H1(Strip(first[1..]));
      assert h[1] != Para("")[1];
      ParaIfAnyNotEmpty(Join(NonBlankLines(lines[1..]), "<br/>"));
    case NotHeading =>
      ParaIfAnyNotEmpty(Join(NonBlankLines(lines), ""));
  }

  /** An optional `<p>` part is never an empty one. */
  lemma ParaIfAnyNotEmpty(text: string)
    ensures Para("") !in ParaIfAny(text)
  {
    if text != "" {
      assert |Para(text)| > |Para("")|;
    }
  }

  /** The XHTML body `create_epub_with_toc` gives a chapter. */
  function TocBodyText(chapter: Chapter, i: nat): string {
    Join(TocChapterHtml(chapter), "\n")
  }

  /** One pass of the loop in `create_epub_with_toc`. */
  method TocItem(chapter: Chapter, i: nat) returns (item: EpubChapter)
    ensures item == EpubChapter(chapter.title, ChapterFileName(i), TocBodyText(chapter, i))
  {
    var parts := TocChapterParts(chapter);
    item := EpubChapter(chapter.title, ChapterFileName(i), Join(parts, "\n"));
  }

  /** `create_epub_with_toc`: one item per chapter, in order. */
  method CreateEpubWithToc(chapters: seq<Chapter>) returns (book: Book)
    ensures book == Assemble(IndexedItems(chapters, ChapterTitle, TocBodyText))
    ensures WellLaidOut(book) && |book.chapters| == |chapters|
    ensures forall i :: 0 <= i < |chapters| ==>
      book.chapters[i] == EpubChapter(chapters[i].title, ChapterFileName(i), TocBodyText(chapters[i], i))
  {
    var epubChapters: seq<EpubChapter> := [];
    for i := 0 to |chapters|
      invariant epubChapters == IndexedItems(chapters[..i], ChapterTitle, TocBodyText)
    {
      var item := TocItem(chapters[i], i);
      IndexedItemsSnoc(chapters, i, ChapterTitle, TocBodyText);
      epubChapters := epubChapters + [item];
    }
    assert chapters[..|chapters|] == chapters;
    IndexedItemsAt(chapters, ChapterTitle, TocBodyText);
    IndexedBookLaidOut(chapters, ChapterTitle, TocBodyText);
    book := Assemble(epubChapters);
  }

  // ---------------------------------------------------------------------
  // create_epub_from_structure: typed blocks

  /** A block's `'style'` dictionary; only its `'align'` key is read. */
  datatype Style = Style(align: Option<string>)

  /** A content block; `None` stands for a missing key. */
  datatype Block = Block(content: Option<string>, blockType: Option<string>, style: Option<Style>, level: Option<int>)

  /** A chapter of `structured_data`; `None` stands for a missing key. */
  datatype StructuredChapter = StructuredChapter(title: Option<string>, blocks: Option<seq<Block>>)

  /** `d.get(key, default)` on a key that holds `o`. */
  function Get<T>(o: Option<T>, default: T): T {
    match o
    case Some(v) => v
    case None => default
  }

  /** The chapter title, `章节 {i+1}` when the key is missing. */
  function StructuredTitle(chapter: StructuredChapter, i: nat): string {
    Get(chapter.title, "章节 " + Decimal(i + 1))
  }

  function StructuredBlocks(chapter: StructuredChapter): seq<Block> {
    Get(chapter.blocks, [])
  }

  function BlockContent(b: Block): string { Get(b.content, "") }
  predicate IsHeading(b: Block) { Get(b.blockType, "paragraph") == "heading" }
  function BlockAlign(b: Block): string { Get(Get(b.style, Style(None)).align, "left") }
  function BlockLevel(b: Block): int { Get(b.level, 2) }

  const StylePrefix := "style=\"text-align: "

  /** `style_str`: `style="text-align: {align};"`. */
  function StyleAttr(align: string): string {
    StylePrefix + (align + ";\"")
  }

  /** `<{tag} {style_str}>{content}</{tag}>`, the shape of every styled element. */
  function Styled(tag: string, align: string, content: string): string {
    "<" + (tag + (" " + (StyleAttr(align) + (">" + (content + ("</" + (tag + ">")))))))
  }

  /** The HTML part of one block: a heading is always styled, a paragraph
      only when it is not aligned left. */
  function BlockHtml(b: Block): string {
    var content := BlockContent(b);
    var align := BlockAlign(b);
    if IsHeading(b) then Styled("h" + IntToString(BlockLevel(b)), align, content)
    else if align != "left" then Styled("p", align, content)
    else "<p>" + content + "</p>"
  }

  /** What a rendered block says, with every default applied. */
  datatype Rendered =
    | RenderedHeading(level: int, align: string, text: string)
    | RenderedParagraph(align: string, text: string)

  function Effective(b: Block): Rendered {
    if IsHeading(b) then RenderedHeading(BlockLevel(b), BlockAlign(b), BlockContent(b))
    else RenderedParagraph(BlockAlign(b), BlockContent(b))
  }

  /** Reads the alignment back from `style_str`. */
  function ParseStyleAttr(attr: string): Option<string> {
    if |attr| >= |StylePrefix| + 2 && StartsWith(attr, StylePrefix) && EndsWith(attr, ";\"") then
      Some(attr[|StylePrefix|..|attr| - 2])
    else None
  }

  /** Reads the tag, the alignment and the content back from a styled
      element: the tag ends at the first space, the style attribute at the
      first `>`, and the content runs up to the closing tag at the end. */
  function ParseStyled(s: string): Option<(string, string, string)> {
    if |s| == 0 || s[0] != '<' || ' ' !in s[1..] then None
    else
      var (tag, afterTag) := Partition(s[1..], ' ');
      if '>' !in afterTag then None
      else
        var (attr, body) := Partition(afterTag, '>');
        var close := "</" + (tag + ">");
        match ParseStyleAttr(attr)
        case None => None
        case Some(align) =>
          if EndsWith(body, close) then Some((tag, align, body[..|body| - |close|])) else None
  }

  /** Reads a block back from its HTML part. */
  function ParseBlockHtml(s: string): Option<Rendered> {
    if StartsWith(s, "<p>") then
      if |s| >= 7 && EndsWith(s, "</p>") then Some(RenderedParagraph("left", s[3..|s| - 4])) else None
    else
      match ParseStyled(s)
      case None => None
      case Some((tag, align, text)) =>
        if tag == "p" then Some(RenderedParagraph(align, text))
        else if |tag| >= 2 && tag[0] == 'h' && ParseInt(tag[1..]).Some? then
          Some(RenderedHeading(ParseInt(tag[1..]).value, align, text))
        else None
  }

  /** The style attribute reads back as its alignment. */
  lemma StyleAttrRoundTrip(align: string)
    ensures ParseStyleAttr(StyleAttr(align)) == Some(align)
  {
    var attr := StyleAttr(align);
    assert attr[..|StylePrefix|] == StylePrefix;
    assert attr[|attr| - 2..] == ";\"";
    assert attr[|StylePrefix|..|attr| - 2] == align;
  }

  /** The style attribute closes at the first `>` after it. */
  lemma StyleAttrNoClose(align: string)
    requires '>' !in align
    ensures '>' !in StyleAttr(align)
  {
    var tail := ";\"";
    assert forall i | 0 <= i < |StylePrefix| :: StylePrefix[i] != '>';
    assert forall i | 0 <= i < |tail| :: tail[i] != '>';
    var attr := StyleAttr(align);
    forall i | 0 <= i < |attr|
      ensures attr[i] != '>'
    {
      if i < |StylePrefix| {
        assert attr[i] == StylePrefix[i];
      } else if i < |StylePrefix| + |align| {
        assert attr[i] == align[i - |StylePrefix|];
      } else {
        assert attr[i] == tail[i - |StylePrefix| - |align|];
      }
    }
  }

  /** A styled element reads back as the tag, alignment and content it was
      made of, whatever the content holds. */
  lemma StyledRoundTrip(tag: string, align: string, content: string)
    requires ' ' !in tag && '>' !in align
    ensures ParseStyled(Styled(tag, align, content)) == Some((tag, align, content))
  {
    var attr := StyleAttr(align);
    var close := "</" + (tag + ">");
    var body := content + close;
    var afterTag := attr + (">" + body);
    var s := Styled(tag, align, content);
    assert s[1..] == tag + (" " + afterTag);
    PartitionOf(tag, ' ', afterTag);
    StyleAttrNoClose(align);
    PartitionOf(attr, '>', body);
    StyleAttrRoundTrip(align);
    assert body[|body| - |close|..] == close;
    assert body[..|body| - |close|] == content;
  }

  /** A styled element starts with `<`, then the tag, then a space. */
  lemma StyledStart(tag: string, align: string, content: string)
    ensures var s := Styled(tag, align, content);
      |s| > |tag| + 1 && s[0] == '<' && s[1..|tag| + 1] == tag && s[|tag| + 1] == ' '
  {
  }

  /** The numeral of a level has no spaces in it. */
  lemma LevelNoSpace(level: int)
    ensures ' ' !in IntToString(level)
  {
    var l := IntToString(level);
    var d := Decimal(if level < 0 then -level else level);
    assert AllDigits(d);
    assert l == if level < 0 then "-" + d else d;
    forall k | 0 <= k < |l|
      ensures l[k] != ' '
    {
      if level < 0 && k > 0 {
        assert l[k] == d[k - 1];
      }
    }
  }

  /** The tag of a heading names its level and holds no space. */
  lemma HeadingTag(level: int)
    ensures var tag := "h" + IntToString(level);
      ' ' !in tag && tag != "p" && |tag| >= 2 && tag[0] == 'h' && ParseInt(tag[1..]) == Some(level)
  {
    var tag := "h" + IntToString(level);
    LevelNoSpace(level);
    assert tag[1..] == IntToString(level);
    ParseIntToString(level);
  }

  /** A heading reads back as its level, alignment and content. */
  lemma HeadingRoundTrip(level: int, align: string, content: string)
    requires '>' !in align
    ensures ParseBlockHtml(Styled("h" + IntToString(level), align, content))
      == Some(RenderedHeading(level, align, content))
  {
    var tag := "h" + IntToString(level);
    HeadingTag(level);
    StyledRoundTrip(tag, align, content);
    StyledStart(tag, align, content);
    var s := Styled(tag, align, content);
    NotStartsWith(s, "<p>", 1);
  }

  /** A styled paragraph reads back as its alignment and content. */
  lemma StyledParagraphRoundTrip(align: string, content: string)
    requires '>' !in align
    ensures ParseBlockHtml(Styled("p", align, content)) == Some(RenderedParagraph(align, content))
  {
    StyledRoundTrip("p", align, content);
    StyledStart("p", align, content);
    var s := Styled("p", align, content);
    assert s[2] == ' ';
    NotStartsWith(s, "<p>", 2);
  }

  /** Every block reads back from its HTML part as its content, type, level
      and alignment with the defaults applied, provided the alignment holds
      no `>`. */
  lemma BlockHtmlRoundTrip(b: Block)
    requires '>' !in BlockAlign(b)
    ensures ParseBlockHtml(BlockHtml(b)) == Some(Effective(b))
  {
    var content := BlockContent(b);
    var align := BlockAlign(b);
    if IsHeading(b) {
      HeadingRoundTrip(BlockLevel(b), align, content);
    } else if align != "left" {
      StyledParagraphRoundTrip(align, content);
    } else {
      var s := "<p>" + content + "</p>";
      assert s[3..|s| - 4] == content;
    }
  }

  /** The HTML parts of a structured chapter, before they are joined. */
  function StructuredChapterHtml(chapter: StructuredChapter, i: nat): seq<string> {
    [H1(StructuredTitle(chapter, i))]
      + seq(|StructuredBlocks(chapter)|, k requires 0 <= k < |StructuredBlocks(chapter)| =>
              BlockHtml(StructuredBlocks(chapter)[k]))
  }

  /** The body of the chapter at position `i`: its `<h1>` title and then
      exactly one part per block, in block order. */
  method StructuredChapterParts(chapter: StructuredChapter, i: nat) returns (parts: seq<string>)
    ensures |parts| == 1 + |StructuredBlocks(chapter)|
    ensures parts[0] == H1(StructuredTitle(chapter, i))
    ensures forall k :: 0 <= k < |StructuredBlocks(chapter)| ==>
      parts[k + 1] == BlockHtml(StructuredBlocks(chapter)[k])
  {
    var title := Get(chapter.title, "章节 " + Decimal(i + 1));
    var blocks := Get(chapter.blocks, []);
    parts := [H1(title)];
    for j := 0 to |blocks|
      invariant |parts| == 1 + j
      invariant parts[0] == H1(title)
      invariant forall k :: 0 <= k < j ==> parts[k + 1] == BlockHtml(blocks[k])
    {
      var html := BlockPart(blocks[j]);
      ghost var before := parts;
      parts := parts + [html];
      forall k | 0 <= k < j + 1
        ensures parts[k + 1] == BlockHtml(blocks[k])
      {
        if k < j {
          assert parts[k + 1] == before[k + 1];
        }
      }
    }
  }

  /** One pass of the loop over the blocks: the defaults of the missing keys,
      the style attribute, and the element for the block type. */
  method BlockPart(block: Block) returns (html: string)
    ensures html == BlockHtml(block)
  {
    var content := Get(block.content, "");
    var blockType := Get(block.blockType, "paragraph");
    var style := Get(block.style, Style(None));
    var align := Get(style.align, "left");
    if blockType == "heading" {
      var level := IntToString(Get(block.level, 2));
      html := Styled("h" + level, align, content);
    } else if align != "left" {
      html := Styled("p", align, content);
    } else {
      html := "<p>" + content + "</p>";
    }
  }

  /** The XHTML body `create_epub_from_structure` gives the chapter at position `i`. */
  function StructuredBody(chapter: StructuredChapter, i: nat): string {
    Join(StructuredChapterHtml(chapter, i), "\n")
  }

  /** One pass of the loop in `create_epub_from_structure`. */
  method StructuredItem(chapter: StructuredChapter, i: nat) returns (item: EpubChapter)
    ensures item == EpubChapter(StructuredTitle(chapter, i), ChapterFileName(i), StructuredBody(chapter, i))
  {
    var parts := StructuredChapterParts(chapter, i);
    assert parts == StructuredChapterHtml(chapter, i);
    item := EpubChapter(Get(chapter.title, "章节 " + Decimal(i + 1)), ChapterFileName(i), Join(parts, "\n"));
  }

  /** `create_epub_from_structure`: one item per structured chapter, in order. */
  method CreateEpubFromStructure(data: seq<StructuredChapter>) returns (book: Book)
    ensures book == Assemble(IndexedItems(data, StructuredTitle, StructuredBody))
    ensures WellLaidOut(book) && |book.chapters| == |data|
    ensures forall i :: 0 <= i < |data| ==>
      book.chapters[i] == EpubChapter(StructuredTitle(data[i], i), ChapterFileName(i), StructuredBody(data[i], i))
  {
    var epubChapters: seq<EpubChapter> := [];
    for i := 0 to |data|
      invariant epubChapters == IndexedItems(data[..i], StructuredTitle, StructuredBody)
    {
      var item := StructuredItem(data[i], i);
      IndexedItemsSnoc(data, i, StructuredTitle, StructuredBody);
      epubChapters := epubChapters + [item];
    }
    assert data[..|data|] == data;
    IndexedItemsAt(data, StructuredTitle, StructuredBody);
    IndexedBookLaidOut(data, StructuredTitle, StructuredBody);
    book := Assemble(epubChapters);
  }
}
