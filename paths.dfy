/**
 * The part of `pathlib.PurePosixPath` and `os.path.join` the converter uses:
 * parsing a path string, `.name`, `.stem`, `.parent`, the `/` operator and
 * `str(path)`.
 */
module Paths {
  import opened Text

  /** A parsed POSIX path: whether it starts at the root, and its parts. */
  datatype PurePath = PurePath(rooted: bool, parts: seq<string>)

  /** What pathlib keeps as a part: not empty, not `.`, and without `/`. */
  predicate IsPart(s: string) {
    s != "" && s != "." && '/' !in s
  }

  predicate WellFormed(p: PurePath) {
    forall k :: 0 <= k < |p.parts| ==> IsPart(p.parts[k])
  }

  /** The pieces of a path string between slashes, with the empty and `.`
      pieces dropped, in order. */
  function Parts(pieces: seq<string>): (parts: seq<string>)
    ensures forall k :: 0 <= k < |parts| ==> IsPart(parts[k])
  {
    if pieces == [] then []
    else (if IsPart(pieces[0]) then [pieces[0]] else []) + Parts(pieces[1..])
  }

  /** Pieces that are all parts are kept as they are. */
  lemma {:induction false} PartsKeep(pieces: seq<string>)
    requires forall k :: 0 <= k < |pieces| ==> IsPart(pieces[k])
    ensures Parts(pieces) == pieces
  {
    if pieces != [] {
      PartsKeep(pieces[1..]);
      assert [pieces[0]] + pieces[1..] == pieces;
    }
  }

  /** `PurePosixPath(s)`: repeated slashes and `.` parts collapse. */
  function ParsePath(s: string): (p: PurePath)
    ensures WellFormed(p)
  {
    PurePath(|s| > 0 && s[0] == '/', Parts(Split(s, "/")))
  }

  /** `str(p)`: `.` for the empty relative path. */
  function PathString(p: PurePath): string {
    if p.rooted then "/" + Join(p.parts, "/")
    else if p.parts == [] then "."
    else Join(p.parts, "/")
  }

  /** Splitting the joined parts again gives back the parts. */
  lemma PartsOfJoin(parts: seq<string>)
    requires |parts| > 0 && forall k :: 0 <= k < |parts| ==> IsPart(parts[k])
    ensures Parts(Split(Join(parts, "/"), "/")) == parts
  {
    SplitJoin(parts, '/');
    PartsKeep(parts);
  }

  /** Parsing what `str` printed gives the same path back. */
  lemma ParsePathString(p: PurePath)
    requires WellFormed(p)
    ensures ParsePath(PathString(p)) == p
  {
    var s := PathString(p);
    if p.rooted {
      var joined := Join(p.parts, "/");
      SplitAtFirst("", '/', joined);
      assert s == "" + ['/'] + joined;
      assert Parts(Split(s, "/")) == Parts(Split(joined, "/"));
      if p.parts != [] {
        PartsOfJoin(p.parts);
      }
    } else if p.parts == [] {
      SplitWithoutSep(".", '/');
    } else {
      PartsOfJoin(p.parts);
      assert p.parts[0] != "" && '/' !in p.parts[0];
      assert s[0] == p.parts[0][0];
    }
  }

  /** Normalising twice is normalising once. */
  lemma ParsePathIdempotent(s: string)
    ensures ParsePath(PathString(ParsePath(s))) == ParsePath(s)
  {
    ParsePathString(ParsePath(s));
  }

  /** `p.name`: the last part, or the empty text when there is none. */
  function Name(p: PurePath): string {
    if p.parts == [] then "" else p.parts[|p.parts| - 1]
  }

  /** `s.rfind(c)`: the last position of `c` in `s`, or -1. */
  function LastIndexOf(s: string, c: char): (i: int)
    ensures -1 <= i < |s|
    ensures i >= 0 ==> s[i] == c
    ensures forall k :: i < k < |s| ==> s[k] != c
  {
    if s == [] then -1
    else if s[|s| - 1] == c then |s| - 1
    else LastIndexOf(s[..|s| - 1], c)
  }

  /** The last `c` of `s + [c] + t` is the one placed there when `t` has none. */
  lemma {:induction false} LastIndexOfBefore(s: string, c: char, t: string)
    requires c !in t
    ensures LastIndexOf(s + [c] + t, c) == |s|
    decreases |t|
  {
    var u := s + [c] + t;
    if t == [] {
      assert u[|u| - 1] == c;
    } else {
      assert u[|u| - 1] == t[|t| - 1];
      assert u[..|u| - 1] == s + [c] + t[..|t| - 1];
      LastIndexOfBefore(s, c, t[..|t| - 1]);
    }
  }

  /** `p.stem` of a name: the name without its final suffix, where a suffix
      is a last dot that is neither the first nor the last character and
      what follows it. */
  function Stem(name: string): string {
    var i := LastIndexOf(name, '.');
    if 0 < i < |name| - 1 then name[..i] else name
  }

  /** `p.suffix` of a name: what `Stem` removes. */
  function Suffix(name: string): string {
    var i := LastIndexOf(name, '.');
    if 0 < i < |name| - 1 then name[i..] else ""
  }

  /** A name is its stem followed by its suffix; the suffix is empty or a
      dot followed by at least one character and no further dot, and the
      stem is never empty when the name is not. */
  lemma StemSuffix(name: string)
    ensures name == Stem(name) + Suffix(name)
    ensures Suffix(name) == "" || (|Suffix(name)| >= 2 && Suffix(name)[0] == '.' && '.' !in Suffix(name)[1..])
    ensures name != "" ==> Stem(name) != ""
  {
    var i := LastIndexOf(name, '.');
    if 0 < i < |name| - 1 {
      var suffix := name[i..];
      forall k | 0 <= k < |suffix| - 1
        ensures suffix[1..][k] != '.'
      {
        assert suffix[1..][k] == name[i + 1 + k];
      }
    }
  }

  /** The stem of a name is a prefix of it, so it holds no slash when the
      name holds none. */
  lemma StemNoSlash(name: string)
    requires '/' !in name
    ensures '/' !in Stem(name)
  {
    StemSuffix(name);
  }

  /** A single part parses as the relative path made of that part alone. */
  lemma SingleName(n: string)
    requires IsPart(n)
    ensures ParsePath(n) == PurePath(false, [n])
  {
    SplitWithoutSep(n, '/');
    assert Split(n, "/") == [n];
    assert Parts([n]) == [n];
  }

  /** `p.parent`: the path without its last part; a path with no parts is
      its own parent. */
  function Parent(p: PurePath): PurePath {
    if p.parts == [] then p else PurePath(p.rooted, p.parts[..|p.parts| - 1])
  }

  /** `p / s`: a rooted `s` replaces `p`, otherwise its parts are appended. */
  function Div(p: PurePath, s: string): PurePath {
    var q := ParsePath(s);
    if q.rooted then q else PurePath(p.rooted, p.parts + q.parts)
  }

  /** Appending a single part adds exactly that part. */
  lemma DivPart(p: PurePath, n: string)
    requires IsPart(n)
    ensures Div(p, n) == PurePath(p.rooted, p.parts + [n])
    ensures Parent(Div(p, n)) == p && Name(Div(p, n)) == n
    ensures WellFormed(p) ==> WellFormed(Div(p, n))
  {
    SplitWithoutSep(n, '/');
    assert Split(n, "/") == [n];
    assert Parts([n]) == [n];
    assert (p.parts + [n])[..|p.parts|] == p.parts;
  }

  /** Different parts under one directory are different paths. */
  lemma DivInjective(p: PurePath, a: string, b: string)
    requires IsPart(a) && IsPart(b) && a != b
    ensures Div(p, a) != Div(p, b)
  {
    DivPart(p, a);
    DivPart(p, b);
  }

  /** `os.path.join(a, b)` for two components: an absolute `b` wins, and a
      slash is added only when `a` is non-empty and does not end in one. */
  function OsJoin(a: string, b: string): (r: string)
    ensures StartsWith(b, "/") ==> r == b
    ensures !StartsWith(b, "/") ==> EndsWith(r, b) && StartsWith(r, a)
  {
    if StartsWith(b, "/") then b
    else if a == "" || EndsWith(a, "/") then a + b
    else a + "/" + b
  }

  /** Joining two different non-absolute names below the same directory
      gives two different paths. */
  lemma OsJoinInjective(a: string, b1: string, b2: string)
    requires !StartsWith(b1, "/") && !StartsWith(b2, "/") && b1 != b2
    ensures OsJoin(a, b1) != OsJoin(a, b2)
  {
    var pre := if a == "" || EndsWith(a, "/") then a else a + "/";
    assert OsJoin(a, b1) == pre + b1 && (pre + b1)[|pre|..] == b1;
    assert OsJoin(a, b2) == pre + b2 && (pre + b2)[|pre|..] == b2;
  }
}
