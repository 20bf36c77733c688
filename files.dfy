/**
 * The file system as the progress manager sees it: a map from parsed paths
 * to what the files hold, changed in place by writing, `os.remove` and
 * `os.rename`.
 */
module Files {
  import opened Paths

  /** A JSON value as `json.load` gives it back. */
  datatype Json =
    | JNull
    | JBool(b: bool)
    | JInt(i: int)
    | JString(s: string)
    | JArray(items: seq<Json>)
    | JObject(fields: map<string, Json>)

  /** What a file holds, told apart only as far as reading it back needs. */
  datatype Content =
    | JsonText(value: Json)  // UTF-8 text that `json.load` decodes to `value`
    | OtherText              // UTF-8 text that is not a JSON document
    | NotText                // bytes that are not UTF-8 text, such as an EPUB archive

  type Tree = map<PurePath, Content>

  /** The files after `os.remove(p)` on an existing `p`. */
  function Removed(files: Tree, p: PurePath): (r: Tree)
    ensures p !in r
    ensures forall q :: q != p ==> (q in r <==> q in files)
    ensures forall q :: q in r ==> r[q] == files[q]
  {
    files - {p}
  }

  /** The files after `os.rename(src, dst)` on an existing `src`: `dst`
      holds what `src` held, replacing any earlier `dst`, and `src` is gone
      unless it is `dst` itself. */
  function Renamed(files: Tree, src: PurePath, dst: PurePath): (r: Tree)
    requires src in files
    ensures dst in r && r[dst] == files[src]
    ensures src != dst ==> src !in r
    ensures forall q :: q != src && q != dst ==> (q in r <==> q in files)
    ensures forall q :: q in r && q != dst ==> r[q] == files[q]
  {
    (files - {src})[dst := files[src]]
  }

  /** The mutable file system a program sees: `files` is replaced by each
      write, removal or rename. */
  class FileSystem {
    var files: Tree

    constructor(files: Tree)
      ensures this.files == files
    {
      this.files := files;
    }

    /** `p.exists()`. */
    function Exists(p: PurePath): bool
      reads this
    {
      p in files
    }

    /** `open(p, 'w')` and a complete write of `content`. */
    method Write(p: PurePath, content: Content)
      modifies this
      ensures files == old(files)[p := content]
    {
      files := files[p := content];
    }

    /** `os.remove(p)`; `ok` is false where it raises `FileNotFoundError`. */
    method Remove(p: PurePath) returns (ok: bool)
      modifies this
      ensures ok == (p in old(files))
      ensures files == Removed(old(files), p)
    {
      ok := p in files;
      files := files - {p};
    }

    /** `os.rename(src, dst)`; `ok` is false where it raises
        `FileNotFoundError`, and then nothing changes. */
    method Rename(src: PurePath, dst: PurePath) returns (ok: bool)
      modifies this
      ensures ok == (src in old(files))
      ensures files == if ok then Renamed(old(files), src, dst) else old(files)
    {
      ok := src in files;
      if ok {
        files := (files - {src})[dst := files[src]];
      }
    }
  }
}
