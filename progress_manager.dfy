/**
 * `ProgressManager`: where the progress record and the temporary EPUB live,
 * how the record is saved and read back, and how the temporary files are
 * cleaned up or promoted to the final EPUB.
 */
module ProgressManager {
  import opened Wrappers
  import opened Text
  import opened Paths
  import opened Files

  /** A progress record: a JSON object. */
  type Record = map<string, Json>

  /** `Path(output_path).parent / f"{Path(pdf_path).stem}{suffix}"`. */
  function Derived(pdfPath: string, outputPath: string, suffix: string): PurePath {
    Div(Parent(ParsePath(outputPath)), Stem(Name(ParsePath(pdfPath))) + suffix)
  }

  function ProgressFileOf(pdfPath: string, outputPath: string): PurePath {
    Derived(pdfPath, outputPath, "_progress.json")
  }

  function TempEpubOf(pdfPath: string, outputPath: string): PurePath {
    Derived(pdfPath, outputPath, "_temp.epub")
  }

  /** A parent keeps the leading parts, so it stays well formed. */
  lemma ParentWellFormed(p: PurePath)
    requires WellFormed(p)
    ensures WellFormed(Parent(p))
  {
  }

  /** Both derived files sit directly in the output directory, are named
      after the PDF's stem, and are two different paths. */
  lemma DerivedPaths(pdfPath: string, outputPath: string)
    ensures var dir := Parent(ParsePath(outputPath));
      var stem := Stem(Name(ParsePath(pdfPath)));
      && Parent(ProgressFileOf(pdfPath, outputPath)) == dir
      && Name(ProgressFileOf(pdfPath, outputPath)) == stem + "_progress.json"
      && Parent(TempEpubOf(pdfPath, outputPath)) == dir
      && Name(TempEpubOf(pdfPath, outputPath)) == stem + "_temp.epub"
      && WellFormed(ProgressFileOf(pdfPath, outputPath))
      && WellFormed(TempEpubOf(pdfPath, outputPath))
      && ProgressFileOf(pdfPath, outputPath) != TempEpubOf(pdfPath, outputPath)
  {
    var pdf := ParsePath(pdfPath);
    var dir := Parent(ParsePath(outputPath));
    var stem := Stem(Name(pdf));
    StemNoSlash(Name(pdf));
    ParentWellFormed(ParsePath(outputPath));
    var progress := stem + "_progress.json";
    var temp := stem + "_temp.epub";
    assert progress[|progress| - 1] == 'n' && temp[|temp| - 1] == 'b';
    assert '/' !in progress by {
      forall k | 0 <= k < |progress| ensures progress[k] != '/' {
        if k < |stem| { assert progress[k] == stem[k]; }
      }
    }
    assert '/' !in temp by {
      forall k | 0 <= k < |temp| ensures temp[k] != '/' {
        if k < |stem| { assert temp[k] == stem[k]; }
      }
    }
    DivPart(dir, progress);
    DivPart(dir, temp);
    DivInjective(dir, progress, temp);
  }

  /** The parameter names of `save_progress`: Python binds a keyword with one
      of these names to the parameter, so `**kwargs` never holds them. */
  predicate KwargsAllowed(kwargs: Record) {
    && "self" !in kwargs && "processed_pages" !in kwargs && "total_pages" !in kwargs
    && "processed_chapters" !in kwargs && "mode" !in kwargs
  }

  /** The fields `save_progress` always writes, before `**kwargs`. */
  function BaseRecord(pdfPath: string, outputPath: string, tempEpub: PurePath,
                      processedPages: int, totalPages: int, processedChapters: seq<Json>, mode: string): Record
  {
    map[
      "pdf_path" := JString(pdfPath),
      "output_path" := JString(outputPath),
      "processed_pages" := JInt(processedPages),
      "total_pages" := JInt(totalPages),
      "mode" := JString(mode),
      "processed_chapters" := JArray(processedChapters),
      "temp_epub_path" := JString(PathString(tempEpub))]
  }

  /** `{..., **kwargs}`: the seven fields and every keyword argument; a
      keyword argument replaces the field of the same name. */
  function ProgressRecord(pdfPath: string, outputPath: string, tempEpub: PurePath,
                          processedPages: int, totalPages: int, processedChapters: seq<Json>, mode: string,
                          kwargs: Record): (r: Record)
    requires KwargsAllowed(kwargs)
    ensures var base := BaseRecord(pdfPath, outputPath, tempEpub, processedPages, totalPages, processedChapters, mode);
      && (forall k :: k in r <==> k in base || k in kwargs)
      && (forall k :: k in kwargs ==> r[k] == kwargs[k])
      && (forall k :: k in base && k !in kwargs ==> r[k] == base[k])
    ensures r["processed_pages"] == JInt(processedPages) && r["total_pages"] == JInt(totalPages)
    ensures r["mode"] == JString(mode) && r["processed_chapters"] == JArray(processedChapters)
  {
    BaseRecord(pdfPath, outputPath, tempEpub, processedPages, totalPages, processedChapters, mode) + kwargs
  }

  /** `d.get(key)` for a JSON object. */
  function Lookup(m: Record, key: string): Option<Json> {
    if key in m then Some(m[key]) else None
  }

  /** The record belongs to this conversion: its `pdf_path` and
      `output_path` are the manager's; nothing else is compared. */
  predicate Matches(m: Record, pdfPath: string, outputPath: string) {
    Lookup(m, "pdf_path") == Some(JString(pdfPath)) && Lookup(m, "output_path") == Some(JString(outputPath))
  }

  /** `load_progress` on the files `files`: `Ok(None)` for a missing file,
      text that is not JSON, or a record of another conversion; the record
      itself when it matches; an escaping exception when the file is not
      text or holds JSON that is not an object, which has no `.get`. */
  function LoadFrom(files: Tree, progressFile: PurePath, pdfPath: string, outputPath: string): (r: Result<Option<Record>, string>)
    ensures r.Ok? && r.value.Some? ==>
      && progressFile in files && files[progressFile] == JsonText(JObject(r.value.value))
      && Matches(r.value.value, pdfPath, outputPath)
    ensures forall m ::
      (progressFile in files && files[progressFile] == JsonText(JObject(m)) && Matches(m, pdfPath, outputPath)
       ==> r == Ok(Some(m)))
    ensures r.Err? <==>
      && progressFile in files
      && (files[progressFile] == NotText || (files[progressFile].JsonText? && !files[progressFile].value.JObject?))
  {
    if progressFile !in files then Ok(None)
    else
      match files[progressFile]
      case NotText => Err("UnicodeDecodeError")
      case OtherText => Ok(None)
      case JsonText(v) =>
        if !v.JObject? then Err("AttributeError")
        else if Matches(v.fields, pdfPath, outputPath) then Ok(Some(v.fields))
        else Ok(None)
  }

  /** The keyword arguments leave the identifying fields as they were. */
  predicate KeepsIdentity(kwargs: Record, pdfPath: string, outputPath: string) {
    && ("pdf_path" in kwargs ==> kwargs["pdf_path"] == JString(pdfPath))
    && ("output_path" in kwargs ==> kwargs["output_path"] == JString(outputPath))
  }

  /** Loading right after saving gives back exactly the saved record, and
      it does so exactly when the keyword arguments did not replace
      `pdf_path` or `output_path` by other values. */
  lemma LoadAfterSave(files: Tree, pdfPath: string, outputPath: string,
                      processedPages: int, totalPages: int, processedChapters: seq<Json>, mode: string,
                      kwargs: Record)
    requires KwargsAllowed(kwargs)
    ensures var pf := ProgressFileOf(pdfPath, outputPath);
      var rec := ProgressRecord(pdfPath, outputPath, TempEpubOf(pdfPath, outputPath),
                                processedPages, totalPages, processedChapters, mode, kwargs);
      LoadFrom(files[pf := JsonText(JObject(rec))], pf, pdfPath, outputPath)
        == if KeepsIdentity(kwargs, pdfPath, outputPath) then Ok(Some(rec)) else Ok(None)
  {
    var pf := ProgressFileOf(pdfPath, outputPath);
    var temp := TempEpubOf(pdfPath, outputPath);
    RecordMatches(pdfPath, outputPath, temp, processedPages, totalPages, processedChapters, mode, kwargs);
    LoadSaved(files, pf, pdfPath, outputPath,
              ProgressRecord(pdfPath, outputPath, temp, processedPages, totalPages, processedChapters, mode, kwargs));
  }

  /** A saved record belongs to the conversion exactly when the keyword
      arguments kept its identifying fields. */
  lemma RecordMatches(pdfPath: string, outputPath: string, tempEpub: PurePath,
                      processedPages: int, totalPages: int, processedChapters: seq<Json>, mode: string,
                      kwargs: Record)
    requires KwargsAllowed(kwargs)
    ensures Matches(ProgressRecord(pdfPath, outputPath, tempEpub, processedPages, totalPages, processedChapters, mode, kwargs),
                    pdfPath, outputPath)
      <==> KeepsIdentity(kwargs, pdfPath, outputPath)
  {
    var rec := ProgressRecord(pdfPath, outputPath, tempEpub, processedPages, totalPages, processedChapters, mode, kwargs);
    assert "pdf_path" in rec && "output_path" in rec;
  }

  /** The file just written as a JSON object loads as that object exactly
      when it matches. */
  lemma LoadSaved(files: Tree, progressFile: PurePath, pdfPath: string, outputPath: string, rec: Record)
    ensures LoadFrom(files[progressFile := JsonText(JObject(rec))], progressFile, pdfPath, outputPath)
      == if Matches(rec, pdfPath, outputPath) then Ok(Some(rec)) else Ok(None)
  {
    var written := files[progressFile := JsonText(JObject(rec))];
    assert progressFile in written && written[progressFile] == JsonText(JObject(rec));
  }

  /** `mode` takes no part in the check: a matching record still loads
      whatever mode it names. */
  lemma LoadIgnoresMode(files: Tree, progressFile: PurePath, pdfPath: string, outputPath: string, m: Record, mode: Json)
    requires LoadFrom(files[progressFile := JsonText(JObject(m))], progressFile, pdfPath, outputPath) == Ok(Some(m))
    ensures LoadFrom(files[progressFile := JsonText(JObject(m["mode" := mode]))], progressFile, pdfPath, outputPath)
      == Ok(Some(m["mode" := mode]))
  {
    var m2 := m["mode" := mode];
    assert Lookup(m2, "pdf_path") == Lookup(m, "pdf_path");
    assert Lookup(m2, "output_path") == Lookup(m, "output_path");
  }

  /** `cleanup_temp_files`: the progress file and the temporary EPUB are
      removed wherever they exist. */
  function Cleaned(files: Tree, progressFile: PurePath, tempEpub: PurePath): (r: Tree)
    ensures progressFile !in r && tempEpub !in r
    ensures forall q :: q != progressFile && q != tempEpub ==> (q in r <==> q in files) && (q in r ==> r[q] == files[q])
  {
    Removed(Removed(files, progressFile), tempEpub)
  }

  /** Cleaning up twice is cleaning up once. */
  lemma CleanedIdempotent(files: Tree, progressFile: PurePath, tempEpub: PurePath)
    ensures Cleaned(Cleaned(files, progressFile, tempEpub), progressFile, tempEpub) == Cleaned(files, progressFile, tempEpub)
  {
    var once := Cleaned(files, progressFile, tempEpub);
    assert Cleaned(once, progressFile, tempEpub) == once;
  }

  /** What `finalize_epub` leaves behind, and whether it raised. */
  datatype Effect = Effect(files: Tree, raised: bool)

  /** `finalize_epub` as written: when the temporary EPUB exists, any file
      at the output path is removed first and the temporary file is then
      renamed onto it; the progress file is removed last. When the output
      path is the temporary path, the removal deletes the temporary file,
      the rename raises and the progress file is left. */
  function Finalized(files: Tree, tempEpub: PurePath, output: PurePath, progressFile: PurePath): Effect {
    if tempEpub in files then
      var cleared := if output in files then Removed(files, output) else files;
      if tempEpub in cleared then Effect(Removed(Renamed(cleared, tempEpub, output), progressFile), false)
      else Effect(cleared, true)
    else Effect(Removed(files, progressFile), false)
  }

  /** When the temporary EPUB exists and the three paths differ, the output
      holds its former content, the temporary and progress files are gone
      and every other file is untouched. */
  lemma FinalizedMoves(files: Tree, tempEpub: PurePath, output: PurePath, progressFile: PurePath)
    requires tempEpub in files
    requires tempEpub != output && output != progressFile
    ensures var e := Finalized(files, tempEpub, output, progressFile);
      && !e.raised
      && output in e.files && e.files[output] == files[tempEpub]
      && tempEpub !in e.files && progressFile !in e.files
      && forall q :: q != tempEpub && q != output && q != progressFile ==>
           (q in e.files <==> q in files) && (q in e.files ==> e.files[q] == files[q])
  {
  }

  /** Without a temporary EPUB only the progress file goes; the output is
      left as it was. */
  lemma FinalizedWithoutTemp(files: Tree, tempEpub: PurePath, output: PurePath, progressFile: PurePath)
    requires tempEpub !in files
    ensures var e := Finalized(files, tempEpub, output, progressFile);
      && !e.raised && e.files == Removed(files, progressFile)
      && (output != progressFile ==> (output in e.files <==> output in files))
  {
  }

  /** An output path equal to the temporary path loses the EPUB: the file is
      deleted before the rename, which then raises. */
  lemma FinalizedSamePathLosesEpub(files: Tree, tempEpub: PurePath, progressFile: PurePath)
    requires tempEpub in files
    ensures var e := Finalized(files, tempEpub, tempEpub, progressFile);
      e.raised && tempEpub !in e.files
  {
  }

  /** A PDF `{stem}.pdf` converted to `{stem}_temp.epub` in the current
      directory has its temporary EPUB at the output path itself. */
  lemma TempPathCanBeOutput(stem: string)
    requires IsPart(stem)
    ensures TempEpubOf(stem + ".pdf", stem + "_temp.epub") == ParsePath(stem + "_temp.epub")
  {
    var pdf := stem + ".pdf";
    var out := stem + "_temp.epub";
    assert '/' !in out by {
      forall k | 0 <= k < |out| ensures out[k] != '/' {
        if k < |stem| { assert out[k] == stem[k]; }
      }
    }
    assert '/' !in pdf by {
      forall k | 0 <= k < |pdf| ensures pdf[k] != '/' {
        if k < |stem| { assert pdf[k] == stem[k]; }
      }
    }
    assert out[|out| - 1] == 'b' && pdf[|pdf| - 1] == 'f';
    SingleName(out);
    SingleName(pdf);
    assert pdf == stem + ['.'] + "pdf";
    LastIndexOfBefore(stem, '.', "pdf");
    assert Stem(pdf) == stem;
    DivPart(PurePath(false, []), out);
  }

  /** `finalize_epub` as written, for `book.pdf` converted to
      `book_temp.epub` (any stem will do): the finished EPUB is deleted and
      the rename raises. */
  lemma FinalizeLosesEpub(stem: string, files: Tree)
    requires IsPart(stem) && TempEpubOf(stem + ".pdf", stem + "_temp.epub") in files
    ensures var temp := TempEpubOf(stem + ".pdf", stem + "_temp.epub");
      var e := Finalized(files, temp, ParsePath(stem + "_temp.epub"), ProgressFileOf(stem + ".pdf", stem + "_temp.epub"));
      e.raised && temp !in e.files
  {
    TempPathCanBeOutput(stem);
    FinalizedSamePathLosesEpub(files, TempEpubOf(stem + ".pdf", stem + "_temp.epub"),
                               ProgressFileOf(stem + ".pdf", stem + "_temp.epub"));
  }

  /** An output path equal to the progress file also loses the EPUB, with
      no exception: the rename puts it at the progress file's path, which
      the last step then removes along with the temporary file's old name. */
  lemma FinalizedProgressPathLosesEpub(files: Tree, tempEpub: PurePath, progressFile: PurePath)
    requires tempEpub in files && tempEpub != progressFile
    ensures var e := Finalized(files, tempEpub, progressFile, progressFile);
      && !e.raised && progressFile !in e.files && tempEpub !in e.files
  {
  }

  /** A PDF `{stem}.pdf` converted to `{stem}_progress.json` in the current
      directory has its progress file at the output path itself. */
  lemma ProgressPathCanBeOutput(stem: string)
    requires IsPart(stem)
    ensures ProgressFileOf(stem + ".pdf", stem + "_progress.json") == ParsePath(stem + "_progress.json")
  {
    var pdf := stem + ".pdf";
    var out := stem + "_progress.json";
    assert '/' !in out by {
      forall k | 0 <= k < |out| ensures out[k] != '/' {
        if k < |stem| { assert out[k] == stem[k]; }
      }
    }
    assert '/' !in pdf by {
      forall k | 0 <= k < |pdf| ensures pdf[k] != '/' {
        if k < |stem| { assert pdf[k] == stem[k]; }
      }
    }
    assert out[|out| - 1] == 'n' && pdf[|pdf| - 1] == 'f';
    SingleName(out);
    SingleName(pdf);
    assert pdf == stem + ['.'] + "pdf";
    LastIndexOfBefore(stem, '.', "pdf");
    assert Stem(pdf) == stem;
    DivPart(PurePath(false, []), out);
  }

  /** `finalize_epub` as written, for `book.pdf` converted to
      `book_progress.json` (any stem will do): the finished EPUB is renamed
      onto the progress file and then deleted, and nothing is raised. */
  lemma FinalizeLosesEpubSilently(stem: string, files: Tree)
    requires IsPart(stem) && TempEpubOf(stem + ".pdf", stem + "_progress.json") in files
    ensures var temp := TempEpubOf(stem + ".pdf", stem + "_progress.json");
      var output := ParsePath(stem + "_progress.json");
      var e := Finalized(files, temp, output, ProgressFileOf(stem + ".pdf", stem + "_progress.json"));
      && !e.raised && output !in e.files && temp !in e.files
  {
    ProgressPathCanBeOutput(stem);
    DerivedPaths(stem + ".pdf", stem + "_progress.json");
    FinalizedProgressPathLosesEpub(files, TempEpubOf(stem + ".pdf", stem + "_progress.json"),
                                   ProgressFileOf(stem + ".pdf", stem + "_progress.json"));
  }

  /** `finalize_epub` with both losses fixed: the output is removed only when
      it is not the temporary file itself, and the progress file is left
      when the EPUB has just been moved onto its path. */
  function FinalizedFixed(files: Tree, tempEpub: PurePath, output: PurePath, progressFile: PurePath): Effect {
    if tempEpub in files then
      var cleared := if output in files && output != tempEpub then Removed(files, output) else files;
      var moved := Renamed(cleared, tempEpub, output);
      Effect(if output == progressFile then moved else Removed(moved, progressFile), false)
    else Effect(Removed(files, progressFile), false)
  }

  /** With the fix an existing temporary EPUB always ends up at the output
      path, whichever the three paths are; the temporary name is gone unless
      it is the output, and the progress file is gone unless it is the
      output. */
  lemma FinalizedFixedKeepsEpub(files: Tree, tempEpub: PurePath, output: PurePath, progressFile: PurePath)
    requires tempEpub in files
    ensures var e := FinalizedFixed(files, tempEpub, output, progressFile);
      && !e.raised && output in e.files && e.files[output] == files[tempEpub]
      && (tempEpub != output ==> tempEpub !in e.files)
      && (progressFile != output ==> progressFile !in e.files)
  {
  }

  /** The fix changes nothing unless the output is the temporary EPUB or the
      progress file. */
  lemma FinalizedFixedAgrees(files: Tree, tempEpub: PurePath, output: PurePath, progressFile: PurePath)
    requires output != tempEpub && output != progressFile
    ensures FinalizedFixed(files, tempEpub, output, progressFile) == Finalized(files, tempEpub, output, progressFile)
  {
  }

  /** A progress manager for one conversion: the paths it derives once, and
      the operations that read and change the file system under them. */
  class ProgressManager {
    const pdfPath: string
    const outputPath: string
    /** `Path(output_path)`, the file `finalize_epub` writes. */
    const outputFile: PurePath
    const progressFile: PurePath
    const tempEpubPath: PurePath

    /** `__init__`: both paths derived once, from the PDF stem and the output directory. */
    constructor(pdfPath: string, outputPath: string)
      ensures this.pdfPath == pdfPath && this.outputPath == outputPath
      ensures outputFile == ParsePath(outputPath)
      ensures progressFile == ProgressFileOf(pdfPath, outputPath)
      ensures tempEpubPath == TempEpubOf(pdfPath, outputPath)
      ensures Valid()
    {
      this.pdfPath := pdfPath;
      this.outputPath := outputPath;
      outputFile := ParsePath(outputPath);
      var pdfName := Stem(Name(ParsePath(pdfPath)));
      var outputDir := Parent(ParsePath(outputPath));
      progressFile := Div(outputDir, pdfName + "_progress.json");
      tempEpubPath := Div(outputDir, pdfName + "_temp.epub");
      DerivedPaths(pdfPath, outputPath);
    }

    /** The derived paths are the ones `__init__` computes. */
    ghost predicate Valid() {
      && outputFile == ParsePath(outputPath)
      && progressFile == ProgressFileOf(pdfPath, outputPath)
      && tempEpubPath == TempEpubOf(pdfPath, outputPath)
      && WellFormed(tempEpubPath)
      && progressFile != tempEpubPath
    }

    /** `save_progress`: the progress file now holds the record, every other
        file is as it was. */
    method SaveProgress(fs: FileSystem, processedPages: int, totalPages: int, processedChapters: seq<Json>,
                        mode: string, kwargs: Record)
      requires KwargsAllowed(kwargs)
      modifies fs
      ensures fs.files == old(fs.files)[progressFile := JsonText(JObject(
        ProgressRecord(pdfPath, outputPath, tempEpubPath, processedPages, totalPages, processedChapters, mode, kwargs)))]
    {
      var progressData := BaseRecord(pdfPath, outputPath, tempEpubPath, processedPages, totalPages, processedChapters, mode) + kwargs;
      fs.Write(progressFile, JsonText(JObject(progressData)));
    }

    /** `load_progress`. */
    function LoadProgress(fs: FileSystem): (r: Result<Option<Record>, string>)
      reads fs
      ensures r == LoadFrom(fs.files, progressFile, pdfPath, outputPath)
    {
      LoadFrom(fs.files, progressFile, pdfPath, outputPath)
    }

    /** `cleanup_temp_files`. */
    method CleanupTempFiles(fs: FileSystem)
      modifies fs
      ensures fs.files == Cleaned(old(fs.files), progressFile, tempEpubPath)
    {
      if fs.Exists(progressFile) {
        var removed := fs.Remove(progressFile);
      }
      if fs.Exists(tempEpubPath) {
        var removed := fs.Remove(tempEpubPath);
      }
    }

    /** `get_temp_epub_path`: the derived path as text, which parses back to it. */
    function GetTempEpubPath(): (s: string)
      requires Valid()
      ensures ParsePath(s) == tempEpubPath
    {
      ParsePathString(tempEpubPath);
      PathString(tempEpubPath)
    }

    /** `has_temp_epub`. */
    function HasTempEpub(fs: FileSystem): (b: bool)
      reads fs
      ensures b <==> tempEpubPath in fs.files
    {
      fs.Exists(tempEpubPath)
    }

    /** `finalize_epub`, with the removal of an existing output skipped when
        the output is the temporary EPUB itself, and the removal of the
        progress file skipped when the EPUB has just been moved onto it (see
        `FinalizeLosesEpub` and `FinalizeLosesEpubSilently` for the code as
        written). An existing temporary EPUB then always ends up at the
        output path. */
    method FinalizeEpub(fs: FileSystem)
      modifies fs
      ensures fs.files == FinalizedFixed(old(fs.files), tempEpubPath, outputFile, progressFile).files
      ensures tempEpubPath in old(fs.files) ==>
        outputFile in fs.files && fs.files[outputFile] == old(fs.files)[tempEpubPath]
      ensures progressFile in fs.files <==> tempEpubPath in old(fs.files) && progressFile == outputFile
    {
      ghost var before := fs.files;
      var moved := false;
      if fs.Exists(tempEpubPath) {
        if fs.Exists(outputFile) && outputFile != tempEpubPath {
          var removed := fs.Remove(outputFile);
        }
        var renamed := fs.Rename(tempEpubPath, outputFile);
        moved := true;
      }
      if fs.Exists(progressFile) && !(moved && progressFile == outputFile) {
        var removed := fs.Remove(progressFile);
      }
      if tempEpubPath in before {
        FinalizedFixedKeepsEpub(before, tempEpubPath, outputFile, progressFile);
      }
    }
  }
}
