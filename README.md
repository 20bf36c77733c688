# pdf2epub in Dafny

This is a Dafny model of the converter that turns a PDF into an EPUB book. It covers the logic that sits between the external tools:

- **EpubGenerator** (`epub_generator.dfy`): the three `create_epub*` methods turn chapters into XHTML bodies.
  - `create_epub` takes plain text with blank-line paragraphs.
  - `create_epub_with_toc` treats `#` and `##` paragraphs as headings.
  - `create_epub_from_structure` takes typed blocks with defaults.
  - Every mode names chapter `i` `chap_{i+1:03d}.xhtml`. The table of contents lists the chapters in order, and the spine is the navigation document followed by the chapters.
  - A reader, `ParseBlockHtml`, recovers each structured block from its HTML, which gives the block renderer a round trip.
- **ProgressManager** (`progress_manager.dfy`, over `files.dfy` and `paths.dfy`): a class over a mutable file system, a map from paths to contents.
  - It derives the progress-file and temporary-EPUB paths from the PDF's stem and the output directory.
  - It saves the progress record and loads it back only for the same conversion.
  - It cleans up the temporary files and promotes the temporary EPUB to the output.
- **PdfProcessor** (`pdf_processor.dfy`):
  - the parse of the `pdfinfo` report: first colon, last key wins;
  - the `Pages` default and the page-range clamp;
  - the `pdftoppm` argument list;
  - the ordered enumeration of the `page-NNN.png` files that exist.
- **Program** (`program.dfy`): `main`.
  - It checks that the input exists.
  - It extracts the text of each page image in order, deleting each image after its text is taken.
  - It then builds the EPUB.
  - Any exception gives exit status 1. A run is described by its exit status and its trace of effects.
- **Text** (`text.dfy`) and **Paths** (`paths.dfy`): the parts of Python's `str`, `pathlib` and `os.path.join` that these rely on, with their own round-trip lemmas.
  - `strip`, `split`, `join`, `replace`, `int`, `str(int)` and `{:03d}`;
  - `Path(...)`, `.name`, `.stem`, `.parent`, `/` and `str(path)`.

Inputs from the outside world are parameters of the model:

- the `pdfinfo` report;
- the directory `mkdtemp` creates;
- whether `pdftoppm` succeeds;
- the files present after it ran;
- the text the model returns for each image, or its failure;
- whether the EPUB can be written.

The code has no retry with backoff, no resume from a checkpoint, no folding of pages into chapters by heading level and no distinct exit codes. `main` never uses the progress manager, and every failure exits with status 1.

## Model

| member | source | states |
|---|---|---|
| EpubGenerator.ChapterFileNameNumber | src/generator/epub_generator.py:40 | a chapter file name is `chap_`, the 3-digit padded position plus one, then `.xhtml` |
| EpubGenerator.ChapterFileNamesDistinct | src/generator/epub_generator.py:40 | chapters at different positions never share a file name, however many chapters there are |
| EpubGenerator.Spine | src/generator/epub_generator.py:90 | the spine is the navigation document, then chapter `k` at position `k+1`, one entry per chapter |
| EpubGenerator.IndexedItemsAt | src/generator/epub_generator.py:36-65 | the loop yields one item per chapter; item `k` is built from chapter `k` and named after position `k` |
| EpubGenerator.IndexedBookLaidOut | src/generator/epub_generator.py:83-90 | the toc is the items in order, the spine is nav followed by them, and each item is named after its position |
| EpubGenerator.WellLaidOutNamesDistinct | src/generator/epub_generator.py:36-42 | in such a book no two items share a file name |
| EpubGenerator.WrapParagraphs | src/generator/epub_generator.py:59 | each text becomes one `<p>` element, in order |
| EpubGenerator.NormalizeRemovesCr | src/generator/epub_generator.py:49 | after line-ending normalisation no CR is left |
| EpubGenerator.NormalizeWithoutCr | src/generator/epub_generator.py:49 | text without CR is unchanged by the normalisation |
| EpubGenerator.ParagraphParts | src/generator/epub_generator.py:46-59 | the loop's parts are the `<h1>` title, then one `<p>` for each piece that is non-empty after removing LF and stripping, in order |
| EpubGenerator.SimpleChapterParts | src/generator/epub_generator.py:46-59 | a chapter's parts are its title and the kept paragraphs of its normalised content split at blank lines |
| EpubGenerator.KeptParagraphs | src/generator/epub_generator.py:54-59 | the loop's paragraph texts: each piece with LF removed and stripped, kept when not empty, in piece order |
| EpubGenerator.SimpleParagraphs | src/generator/epub_generator.py:49-59 | the paragraphs of `create_epub`: the content with CRLF and CR made LF, split at `\n\n`, then kept as above |
| EpubGenerator.KeptParagraphsStep | src/generator/epub_generator.py:54-59 | one more piece adds its cleaned text exactly when that text is not empty |
| EpubGenerator.KeptParagraphsClean | src/generator/epub_generator.py:57-58 | every kept paragraph is non-empty and holds no LF, and no CR when the pieces held none |
| EpubGenerator.SimpleParagraphsClean | src/generator/epub_generator.py:49-59 | no paragraph `create_epub` emits is empty or contains LF or CR, for any content |
| EpubGenerator.SimpleParagraphsCrlf | src/generator/epub_generator.py:49-57 | content with CRLF line endings gives the same paragraphs as the LF text |
| EpubGenerator.SimpleParagraphsCr | src/generator/epub_generator.py:49-57 | content with CR line endings gives the same paragraphs as the LF text |
| EpubGenerator.SimpleParagraphsBlank | src/generator/epub_generator.py:52-59 | content `""` and content `"\n\n\n"` give no paragraph at all |
| EpubGenerator.PairPieces | src/generator/epub_generator.py:52 | two one-line texts separated by four LFs split into the first text, an empty piece and the second text |
| EpubGenerator.KeptPair | src/generator/epub_generator.py:54-59 | of those pieces the empty one is dropped and the two clean texts are kept, in order |
| EpubGenerator.SimpleParagraphsPair | src/generator/epub_generator.py:49-59 | any two clean one-line texts separated by three blank lines give exactly those two paragraphs |
| EpubGenerator.SampleLine | src/generator/epub_generator.py:57 | `第一段` and `第二段` are single lines that stripping leaves alone |
| EpubGenerator.SimpleParagraphsTwo | src/generator/epub_generator.py:52-59 | `"第一段\n\n\n\n第二段"` gives the two paragraphs `第一段` and `第二段` |
| EpubGenerator.SimpleItem | src/generator/epub_generator.py:38-61 | chapter `i` becomes an item with its title, the name of position `i` and its parts joined by LF |
| EpubGenerator.CreateEpub | src/generator/epub_generator.py:35-90 | the book has one item per chapter in input order, laid out with positional names, toc and spine |
| EpubGenerator.NonBlankLines | src/generator/epub_generator.py:139 | the kept lines are no more than the lines and none of them is empty |
| EpubGenerator.ParagraphLines | src/generator/epub_generator.py:132-133 | a stripped paragraph always has at least one line, so the `if lines:` test always holds |
| EpubGenerator.TocParagraphParts | src/generator/epub_generator.py:132-153 | one toc-mode paragraph is stripped, split at LF, and its lines give its parts |
| EpubGenerator.LinesParts | src/generator/epub_generator.py:135-153 | the stripped first line decides: `##` is tested first and gives `<h2>` of the rest stripped, a single `#` gives `<h1>`, and either is followed by one `<p>` of the remaining non-blank lines joined by `<br/>` when that is not empty; any other paragraph gives one `<p>` of all its non-blank lines run together, or nothing |
| EpubGenerator.TocBody | src/generator/epub_generator.py:129-153 | the parts of all paragraphs, in paragraph order |
| EpubGenerator.TocChapterParts | src/generator/epub_generator.py:126-153 | the parts are the `<h1>` title, then each paragraph's parts in order; unlike `create_epub`, the content is split at blank lines without normalising CR or CRLF |
| EpubGenerator.TocBodySnoc | src/generator/epub_generator.py:130-153 | one more paragraph appends exactly that paragraph's parts |
| EpubGenerator.TocPlainParagraph | src/generator/epub_generator.py:148-153 | other paragraphs give one `<p>` of their stripped non-blank lines run together, and nothing exactly when all lines are blank |
| EpubGenerator.TocBodyNoEmptyParagraph | src/generator/epub_generator.py:139-153 | toc mode never emits an empty `<p></p>` |
| EpubGenerator.TocItem | src/generator/epub_generator.py:118-155 | chapter `i` becomes an item with its title, the name of position `i` and the toc-mode body |
| EpubGenerator.CreateEpubWithToc | src/generator/epub_generator.py:115-185 | one item per chapter in input order, laid out with positional names, toc and spine |
| EpubGenerator.StyleAttrRoundTrip | src/generator/epub_generator.py:232 | the alignment reads back from the style attribute |
| EpubGenerator.StyledRoundTrip | src/generator/epub_generator.py:236-241 | a styled element reads back as its tag, alignment and content, whatever the content |
| EpubGenerator.HeadingTag | src/generator/epub_generator.py:236 | a heading tag is `h` followed by the level's numeral, which parses back to the level |
| EpubGenerator.HeadingRoundTrip | src/generator/epub_generator.py:234-236 | a heading reads back as its level, alignment and content |
| EpubGenerator.StyledParagraphRoundTrip | src/generator/epub_generator.py:240-241 | a paragraph not aligned left reads back as its alignment and content |
| EpubGenerator.BlockHtml | src/generator/epub_generator.py:226-243 | a block's HTML with its defaults applied: a heading is `<h{level} style=…>` always, a paragraph is styled only when its alignment is not `left` |
| EpubGenerator.ParseBlockHtml | src/generator/epub_generator.py:232-243 | the reader of that HTML, recovering the level, alignment and content, which is the partner of `BlockHtml` in the round trip |
| EpubGenerator.BlockHtmlRoundTrip | src/generator/epub_generator.py:225-243 | every block reads back from its HTML as its type, level, alignment and content with the defaults applied: headings always styled, paragraphs styled only when not left |
| EpubGenerator.BlockPart | src/generator/epub_generator.py:226-243 | one block's part, computed with the defaults of its missing keys |
| EpubGenerator.StructuredChapterParts | src/generator/epub_generator.py:211-243 | exactly `1 + len(blocks)` parts: the `<h1>` title (`章节 {i+1}` by default), then one part per block in block order, blocks defaulting to none |
| EpubGenerator.StructuredItem | src/generator/epub_generator.py:211-245 | structured chapter `i` becomes an item with its title or the default title, the name of position `i` and its parts joined by LF |
| EpubGenerator.CreateEpubFromStructure | src/generator/epub_generator.py:209-263 | one item per structured chapter in input order, laid out with positional names, toc and spine |
| Paths.ParsePath | src/utils/progress_manager.py:24-25 | a parsed path keeps only real parts: no empty part, no `.`, no slash |
| Paths.ParsePathString | src/utils/progress_manager.py:104 | `str` of a path parses back to the same path |
| Paths.ParsePathIdempotent | src/utils/progress_manager.py:104 | normalising a path string twice is normalising it once |
| Paths.PathString | src/utils/progress_manager.py:104 | `str(path)`: the parts joined by `/`, after `/` for an absolute path, and `.` for the empty relative path |
| Paths.Stem | src/utils/progress_manager.py:24 | `.stem`: the name up to its last dot, unless that dot is the first or the last character |
| Paths.Parent | src/utils/progress_manager.py:25 | `.parent`: the path without its last part, the path itself when it has none |
| Paths.Div | src/utils/progress_manager.py:26 | `path / name`: the name's parts appended, or the name alone when it is absolute |
| Paths.StemSuffix | src/utils/progress_manager.py:24 | a name is its stem followed by its suffix, the suffix is empty or a dot with at least one character and no further dot, and a non-empty name has a non-empty stem |
| Paths.DivPart | src/utils/progress_manager.py:26 | `dir / name` adds exactly that name: its parent is `dir` and its name is the name |
| Paths.DivInjective | src/utils/progress_manager.py:26-29 | different names under one directory are different paths |
| Paths.OsJoin | src/processors/pdf_processor.py:96 | an absolute second part wins; otherwise the result starts with the first part and ends with the second |
| Paths.OsJoinInjective | src/processors/pdf_processor.py:96 | different relative names joined to one directory give different paths |
| Files.Removed | src/utils/progress_manager.py:90 | after removal the path is gone and every other file is as before |
| Files.Renamed | src/utils/progress_manager.py:125 | after a rename the target holds the source's content, the source is gone unless it is the target, and everything else is as before |
| Files.FileSystem.Write | src/utils/progress_manager.py:53-54 | writing sets exactly that path's content |
| Files.FileSystem.Remove | src/utils/progress_manager.py:90 | `os.remove` succeeds exactly on an existing path and removes only it |
| Files.FileSystem.Rename | src/utils/progress_manager.py:125 | `os.rename` succeeds exactly on an existing source and then moves it; otherwise nothing changes |
| ProgressManager.DerivedPaths | src/utils/progress_manager.py:24-29 | both files sit directly in the output directory, are named `{stem}_progress.json` and `{stem}_temp.epub`, and are different paths |
| ProgressManager.Derived | src/utils/progress_manager.py:24-29 | a derived file is the output's parent joined with the PDF's stem followed by a suffix |
| ProgressManager.ProgressFileOf | src/utils/progress_manager.py:24-26 | the progress file is the derived file with suffix `_progress.json` |
| ProgressManager.TempEpubOf | src/utils/progress_manager.py:29 | the temporary EPUB is the derived file with suffix `_temp.epub` |
| ProgressManager.ProgressRecord | src/utils/progress_manager.py:42-51 | the record holds the seven fields and every keyword argument, and a keyword argument replaces the field of the same name |
| ProgressManager.LoadFrom | src/utils/progress_manager.py:65-83 | a record is returned only when the file holds a JSON object whose `pdf_path` and `output_path` match, and always then; an exception escapes exactly for a non-text file or JSON that is not an object; every other case gives `None` |
| ProgressManager.LoadAfterSave | src/utils/progress_manager.py:42-76 | loading right after saving returns exactly the saved record when the keyword arguments kept `pdf_path` and `output_path`, and `None` otherwise |
| ProgressManager.RecordMatches | src/utils/progress_manager.py:73-74 | a saved record belongs to its conversion exactly when the keyword arguments kept the identifying fields |
| ProgressManager.LoadSaved | src/utils/progress_manager.py:65-76 | a file just written with a JSON object loads as that object exactly when it matches |
| ProgressManager.LoadIgnoresMode | src/utils/progress_manager.py:73-74 | `mode` is not compared: a matching record loads whatever mode it names |
| ProgressManager.Cleaned | src/utils/progress_manager.py:89-95 | afterwards neither the progress file nor the temporary EPUB exists, and no other path changes |
| ProgressManager.CleanedIdempotent | src/utils/progress_manager.py:89-95 | cleaning up twice is cleaning up once |
| ProgressManager.Finalized | src/utils/progress_manager.py:119-130 | `finalize_epub` as written: with a temporary EPUB, an existing output is removed and the temporary file renamed onto it, raising when it has gone; the progress file is removed last |
| ProgressManager.FinalizedMoves | src/utils/progress_manager.py:119-130 | with a temporary EPUB and three distinct paths, the output holds its former content, replacing any earlier output; the temporary and progress files are gone and nothing else changes |
| ProgressManager.FinalizedWithoutTemp | src/utils/progress_manager.py:119-130 | without a temporary EPUB only the progress file is removed and the output is left as it was |
| ProgressManager.FinalizedSamePathLosesEpub | src/utils/progress_manager.py:119-125 | as written, an output path equal to the temporary path deletes the EPUB and the rename raises |
| ProgressManager.TempPathCanBeOutput | src/utils/progress_manager.py:24-29 | for `{stem}.pdf` converted to `{stem}_temp.epub`, the temporary path is the output path |
| ProgressManager.FinalizeLosesEpub | src/utils/progress_manager.py:119-125 | as written, that conversion loses its finished EPUB in `finalize_epub` and the rename raises |
| ProgressManager.FinalizedProgressPathLosesEpub | src/utils/progress_manager.py:119-130 | as written, an output path equal to the progress file loses the EPUB without raising: the rename moves it onto the progress file, which is then removed |
| ProgressManager.ProgressPathCanBeOutput | src/utils/progress_manager.py:24-26 | for `{stem}.pdf` converted to `{stem}_progress.json`, the progress file is the output path |
| ProgressManager.FinalizeLosesEpubSilently | src/utils/progress_manager.py:119-130 | as written, that conversion ends `finalize_epub` with neither the output nor the temporary EPUB, and no exception |
| ProgressManager.FinalizedFixed | src/utils/progress_manager.py:119-130 | the corrected `finalize_epub`: the output is removed first only when it is not the temporary file, and the progress file is removed unless the EPUB was just moved onto it |
| ProgressManager.FinalizedFixedKeepsEpub | src/utils/progress_manager.py:119-130 | with both fixes, an existing temporary EPUB always ends up at the output path, whatever the three paths are, without raising; the temporary name is gone unless it is the output, and the progress file is gone unless it is the output |
| ProgressManager.FinalizedFixedAgrees | src/utils/progress_manager.py:119-130 | the fix behaves as the code does whenever the output is neither the temporary path nor the progress file |
| ProgressManager.ProgressManager.constructor | src/utils/progress_manager.py:20-29 | the manager keeps both paths and derives the progress file and the temporary EPUB from them |
| ProgressManager.ProgressManager.SaveProgress | src/utils/progress_manager.py:42-54 | the progress file holds the record afterwards and every other file is as before |
| ProgressManager.ProgressManager.LoadProgress | src/utils/progress_manager.py:65-83 | reading the progress file is `LoadFrom` on the current files, so the save/load round trip of `LoadAfterSave` holds for the manager |
| ProgressManager.ProgressManager.CleanupTempFiles | src/utils/progress_manager.py:89-95 | the file system becomes the cleaned one |
| ProgressManager.ProgressManager.GetTempEpubPath | src/utils/progress_manager.py:104 | the text returned parses back to the derived temporary path |
| ProgressManager.ProgressManager.HasTempEpub | src/utils/progress_manager.py:113 | true exactly when the derived temporary path exists |
| ProgressManager.ProgressManager.FinalizeEpub | src/utils/progress_manager.py:119-130 | the corrected promotion: an existing temporary EPUB ends up at the output path, and the progress file is left exactly when the EPUB was just moved onto its path |
| PdfProcessor.GetPdfInfo | src/processors/pdf_processor.py:26-39 | a failing `pdfinfo` raises; otherwise the result is the dictionary filled line by line from the report |
| PdfProcessor.Fill | src/processors/pdf_processor.py:31-35 | a dictionary filled by storing each item's entry in turn, a later entry replacing an earlier one with the same key |
| PdfProcessor.InfoOf | src/processors/pdf_processor.py:31-37 | the report's dictionary: the entries of its lines with a colon, filled in line order |
| PdfProcessor.EntryOfLine | src/processors/pdf_processor.py:33-35 | a line is cut at its first colon only, both halves stripped, so later colons stay in the value |
| PdfProcessor.FillKeys | src/processors/pdf_processor.py:32-35 | a key is in the filled dictionary exactly when some item yields it |
| PdfProcessor.FillLastWins | src/processors/pdf_processor.py:35 | a key's value comes from the last item that yields that key |
| PdfProcessor.InfoKeys | src/processors/pdf_processor.py:32-35 | only lines with a colon contribute, and a key is present exactly when some such line's stripped key is it |
| PdfProcessor.InfoLastWins | src/processors/pdf_processor.py:35 | when several lines yield one key, the last line's value wins |
| PdfProcessor.TotalPages | src/processors/pdf_processor.py:55 | the page count is 1 when `Pages` is missing, otherwise its parsed value, and an error exactly when it does not parse |
| PdfProcessor.TotalPagesReported | src/processors/pdf_processor.py:55 | a report of `n` pages yields `n` |
| PdfProcessor.Clamp | src/processors/pdf_processor.py:58-62 | always `1 <= start <= end`; `end <= total` when `total >= 1`; a range already within `1..total` is unchanged |
| PdfProcessor.ClampIdempotent | src/processors/pdf_processor.py:61-62 | clamping twice is clamping once, for every page count including 0 |
| PdfProcessor.PageRange | src/processors/pdf_processor.py:58-65 | the clamped range when one is given, `1..total` otherwise |
| PdfProcessor.Command | src/processors/pdf_processor.py:74-85 | `pdftoppm -png -r dpi -progress`, then `-f start -l end` only for a given range, then the PDF and `temp_dir/page` |
| PdfProcessor.PageFileNameNumber | src/processors/pdf_processor.py:95 | the file name carries the 3-digit padded page number between `page-` and `.png` |
| PdfProcessor.ImagePathInjective | src/processors/pdf_processor.py:95-96 | different pages have different image paths |
| PdfProcessor.PagesWhereSpec | src/processors/pdf_processor.py:93-98 | the kept pages are exactly the pages of the range that pass the test, strictly ascending, at most one per page |
| PdfProcessor.ExistingPagesSpec | src/processors/pdf_processor.py:93-98 | the pages kept are exactly those of `start..end` whose file exists, strictly ascending |
| PdfProcessor.ExistingPages | src/processors/pdf_processor.py:93-97 | the pages from `start` to `end` whose image file exists, in page order |
| PdfProcessor.Images | src/processors/pdf_processor.py:96-98 | one image path per page, in page order |
| PdfProcessor.ExpectedImagesSpec | src/processors/pdf_processor.py:92-98 | every element is the path of a page of `start..end` whose file exists, and every such path is there; the pages come in strictly ascending order, no path appears twice, and there are at most `end-start+1` of them |
| PdfProcessor.ExpectedImages | src/processors/pdf_processor.py:92-100 | the returned list: the image path of each existing page |
| PdfProcessor.CollectStep | src/processors/pdf_processor.py:93-98 | one more page adds its path exactly when its file exists |
| PdfProcessor.CollectImages | src/processors/pdf_processor.py:92-100 | the loop returns the expected image list |
| PdfProcessor.PdfToImages | src/processors/pdf_processor.py:53-100 | a failing `pdfinfo`, a bad page count or a failing `pdftoppm` raise; otherwise the expected images of the processed range are returned |
| PdfProcessor.PdfImages | src/processors/pdf_processor.py:53-100 | the outcome of `pdf_to_images` step by step: the `pdfinfo` error, the page-count error, the `pdftoppm` error, or the expected images of the processed range |
| Program.FirstFailure | src/main.py:57-59 | the position of the first image whose extraction fails, or the number of images when none does |
| Program.PageChapters | src/main.py:56-63 | one chapter per image in image order; chapter `i` is titled `Page {i+1}` and holds the text of image `i` |
| Program.StepsAt | src/main.py:57-65 | each image is extracted and then removed, in image order |
| Program.StepsIndex | src/main.py:57-65 | even events are extractions and odd events removals, of image `i/2` |
| Program.Steps | src/main.py:57-65 | the effects of the loop: for each image in order, its extraction and then its removal |
| Program.ExtractedOnce | src/main.py:57-65 | with distinct images, each is extracted once and its removal follows right after |
| Program.FailureStops | src/main.py:59-75 | after a failed extraction, no EPUB is written and no later image is extracted or removed |
| Program.ReadPages | src/main.py:56-65 | the loop reads every image exactly when no extraction fails, and its chapters and trace are as above; otherwise it stops at the first failure |
| Program.BookPages | src/main.py:56-69 | on success, chapter `k` of the book is titled `Page {k+1}`, is stored as `chap_{k+1:03d}.xhtml` and holds the text of image `k` |
| Program.BookOf | src/main.py:69 | the book `create_epub` makes of the chapters: laid out with their titles, positional names and simple-mode bodies |
| Program.Run | src/main.py:33-75 | a missing input gives status 1 before anything happens; any failure gives status 1; otherwise the EPUB is written once, after the loop, from all chapters, with status 0 |
| Text.StripSpec | src/generator/epub_generator.py:57 | a stripped text has no white space at either end, and it is empty exactly when the text is all white space |
| Text.StripIdempotent | src/generator/epub_generator.py:57 | stripping twice is stripping once |
| Text.Strip | src/generator/epub_generator.py:57 | `str.strip()`: white space removed at both ends |
| Text.Split | src/generator/epub_generator.py:52 | `str.split(sep)`: the pieces between the separators, at least one |
| Text.Join | src/generator/epub_generator.py:61 | `sep.join(parts)`: the parts with the separator between each two |
| Text.Replace | src/generator/epub_generator.py:49 | `str.replace`: every occurrence, left to right and not overlapping, replaced |
| Text.PartitionSpec | src/processors/pdf_processor.py:34 | `split(':', 1)` cuts at the first colon: the key holds none and the halves rebuild the line |
| Text.JoinSplit | src/generator/epub_generator.py:52 | joining the pieces of a split with its separator gives back the text |
| Text.SplitJoin | src/utils/progress_manager.py:104 | splitting a join of pieces without the separator character gives back the pieces |
| Text.ReplaceCharRemoves | src/generator/epub_generator.py:49 | replacing a character removes it from the text |
| Text.ReplaceCrlfBack | src/generator/epub_generator.py:49 | writing LF as CRLF and normalising CRLF back gives the original text |
| Text.Pad3Value | src/generator/epub_generator.py:40 | the `{:03d}` numeral denotes the number it formats |
| Text.Pad3Injective | src/generator/epub_generator.py:40 | different numbers have different `{:03d}` numerals |
| Text.DecimalValue | src/generator/epub_generator.py:211 | the decimal numeral of a number denotes it |
| Text.Decimal | src/generator/epub_generator.py:211 | the decimal numeral of a natural number, digits only and without leading zero |
| Text.Pad3 | src/generator/epub_generator.py:40 | `{:03d}`: the numeral padded with zeros to at least three digits |
| Text.ParseIntToString | src/processors/pdf_processor.py:55 | `int(str(n)) == n` for every integer |
| Text.ParseInt | src/processors/pdf_processor.py:55 | `int(s)`: an optional sign and decimal digits give their value, anything else nothing |

## Left out

- The ebooklib objects and their serialisation: the CSS, the NCX and navigation documents, `write_epub` and the language and author metadata. The book is the chapters, the toc and the spine.
- The book identifier `hash(output_path) % 1000000`: Python's string hash is randomised per process.
- Running `pdfinfo` and `pdftoppm`, and `tempfile.mkdtemp`: their outcomes are parameters.
- The Gemini client and the HTTP helper, including construction, prompts and encoding: the client's construction is a yes/no parameter and extraction a function that may fail.
- Retry with backoff, resume from a checkpoint, folding pages into chapters by heading, and timing statistics: the code has none of them.
- `main`'s argument parsing, `os.makedirs` and all printing.
- JSON encoding details: a file is JSON text with its decoded value, other text, or non-text bytes. Floats are not modelled.
- Text.IsSpace: stripping uses an explicit list of the characters for which Python's `str.isspace()` holds; Unicode data is not consulted.
- Text.ParseInt: accepts an optional sign followed by ASCII digits only; Python's `int()` also accepts underscores between digits, non-ASCII decimal digits and surrounding white space. The value passed in is already stripped.
- Paths.ParsePath: models POSIX paths without `..` resolution, symbolic links or directories; pathlib's special meaning of a leading `//` is not modelled.
- A block's `level` is an integer; other values that the f-string would print are not modelled.
- EpubGenerator.BlockHtmlRoundTrip: an alignment holding `>` cannot be read back, so the round trip is stated for alignments without it.
- A chapter of `create_epub` and `create_epub_with_toc` always has `title` and `content`, so the `KeyError` of a missing key is not modelled.
- ProgressManager.LoadFrom: undecodable bytes raise `UnicodeDecodeError` and JSON that is not an object raises `AttributeError`, neither of which the code catches; both are an `Err`.
- ProgressManager.ProgressManager.FinalizeEpub: follows the corrected definition `ProgressManager.FinalizedFixed` of both Findings rows instead of the code, so it does not promise the code's behaviour when the output is the temporary EPUB or the progress file; the code as written is `ProgressManager.Finalized`.
- A sample chapter preview shipped with the tests shows a styled left-aligned `<p>`; the code emits a plain `<p>` for left alignment, and the model follows the code.

## Findings

| source | as written | input that shows it | evidently intended | confidence | as-written member | corrected member |
|---|---|---|---|---|---|---|
| src/utils/progress_manager.py:121-125 | when the output file exists it is removed before the temporary EPUB is renamed, even when the output path is the temporary path itself | PDF `book.pdf` with output `book_temp.epub`: the temporary EPUB is deleted, `os.rename` raises and the book is lost | skip the removal when the output is the temporary file, so the finished EPUB stays at the output path | not executed | ProgressManager.FinalizeLosesEpub | ProgressManager.FinalizedFixedKeepsEpub |
| src/utils/progress_manager.py:127-130 | the progress file is removed after the temporary EPUB has been renamed onto the output, even when the output path is the progress file itself | PDF `book.pdf` with output `book_progress.json`: the EPUB is renamed onto the progress file's path and then deleted, with no exception | leave the progress file when the EPUB has just been moved onto its path, so the finished EPUB stays at the output path | not executed | ProgressManager.FinalizeLosesEpubSilently | ProgressManager.FinalizedFixedKeepsEpub |
