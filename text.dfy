/**
 * The pieces of Python's `str` that the converters rely on: `isspace`/`strip`,
 * `split` with an explicit separator, `join`, `replace`, `startswith`, and the
 * decimal formatting of `str(int)` and of the `{:03d}` format specification.
 */
module Text {
  import opened Wrappers

  /** The characters for which Python's `str.isspace()` holds; `str.strip()`
      with no argument removes exactly these. */
  predicate IsSpace(c: char) {
    || c == ' ' || c == '\t' || c == '\n' || c == '\r'
    || c == '\U{000B}' || c == '\U{000C}'
    || ('\U{001C}' <= c <= '\U{001F}')
    || c == '\U{0085}' || c == '\U{00A0}' || c == '\U{1680}'
    || ('\U{2000}' <= c <= '\U{200A}')
    || c == '\U{2028}' || c == '\U{2029}' || c == '\U{202F}' || c == '\U{205F}'
    || c == '\U{3000}'
  }

  /** `s.lstrip()`: the result is the suffix of `s` left after its leading white space. */
  function TrimLeft(s: string): (r: string)
    ensures |r| <= |s| && r == s[|s| - |r|..]
    ensures |r| > 0 ==> !IsSpace(r[0])
  {
    if |s| > 0 && IsSpace(s[0]) then TrimLeft(s[1..]) else s
  }

  /** `s.rstrip()`: the result is the prefix of `s` left after its trailing white space. */
  function TrimRight(s: string): (r: string)
    ensures |r| <= |s| && r == s[..|r|]
    ensures |r| > 0 ==> !IsSpace(r[|r| - 1])
  {
    if |s| > 0 && IsSpace(s[|s| - 1]) then TrimRight(s[..|s| - 1]) else s
  }

  /** `s.strip()`. */
  function Strip(s: string): string {
    TrimRight(TrimLeft(s))
  }

  /** Everything `lstrip` cuts away is white space. */
  lemma {:induction false} TrimLeftCut(s: string)
    ensures forall k :: 0 <= k < |s| - |TrimLeft(s)| ==> IsSpace(s[k])
    decreases |s|
  {
    if |s| > 0 && IsSpace(s[0]) {
      TrimLeftCut(s[1..]);
    }
  }

  /** The stripped text has no white space at either end, and it is empty
      exactly when the original is all white space. */
  lemma StripSpec(s: string)
    ensures var r := Strip(s);
      && (|r| > 0 ==> !IsSpace(r[0]) && !IsSpace(r[|r| - 1]))
      && (r == [] <==> forall k :: 0 <= k < |s| ==> IsSpace(s[k]))
  {
    TrimLeftCut(s);
    if |TrimLeft(s)| > 0 {
      TrimRightKeeps(TrimLeft(s));
    }
  }

  /** `rstrip` keeps a text that starts with a non-space character non-empty. */
  lemma {:induction false} TrimRightKeeps(s: string)
    requires |s| > 0 && !IsSpace(s[0])
    ensures |TrimRight(s)| > 0
    decreases |s|
  {
    if |s| > 1 && IsSpace(s[|s| - 1]) {
      TrimRightKeeps(s[..|s| - 1]);
    }
  }

  /** Every character of `s.strip()` is a character of `s`. */
  lemma StripChars(s: string, c: char)
    requires c !in s
    ensures c !in Strip(s)
  {
    var l := TrimLeft(s);
    assert l == s[|s| - |l|..];
    assert c !in l;
    var r := TrimRight(l);
    assert r == l[..|r|];
  }

  /** Stripping twice is stripping once. */
  lemma StripIdempotent(s: string)
    ensures Strip(Strip(s)) == Strip(s)
  {
    var r := Strip(s);
    if |r| > 0 {
      assert !IsSpace(r[0]);
      assert TrimLeft(r) == r;
      assert !IsSpace(r[|r| - 1]);
    }
  }

  predicate StartsWith(s: string, prefix: string) {
    |prefix| <= |s| && s[..|prefix|] == prefix
  }

  /** One differing character rules out a prefix. */
  lemma NotStartsWith(s: string, prefix: string, k: nat)
    requires k < |s| && k < |prefix| && s[k] != prefix[k]
    ensures !StartsWith(s, prefix)
  {
  }

  predicate EndsWith(s: string, suffix: string) {
    |suffix| <= |s| && s[|s| - |suffix|..] == suffix
  }

  /** `s.find(c)`, with `|s|` standing for "not found". */
  function IndexOf(s: string, c: char): (i: nat)
    ensures i <= |s|
    ensures i < |s| ==> s[i] == c
    ensures forall k :: 0 <= k < i ==> s[k] != c
    ensures i == |s| <==> c !in s
  {
    if |s| == 0 then 0 else if s[0] == c then 0 else 1 + IndexOf(s[1..], c)
  }

  /** A character sits at position `|q|` after a text `q` without it: that is where `find` stops. */
  lemma IndexOfAfter(q: string, rest: string, c: char)
    requires c !in q && |rest| > 0 && rest[0] == c
    ensures IndexOf(q + rest, c) == |q|
  {
    var s := q + rest;
    assert s[|q|] == c;
    assert forall m :: 0 <= m < |q| ==> s[m] == q[m] && q[m] in q;
  }

  /** `s.split(c, 1)` on a text holding `c`: what comes before the first
      `c` and everything after it. */
  function Partition(s: string, c: char): (string, string)
    requires c in s
  {
    var i := IndexOf(s, c);
    (s[..i], s[i + 1..])
  }

  /** The two halves put back together around `c` give the text, and the
      first half holds no `c`: later occurrences stay in the second half. */
  lemma PartitionSpec(s: string, c: char)
    requires c in s
    ensures var halves := Partition(s, c);
      s == halves.0 + [c] + halves.1 && c !in halves.0
  {
    var i := IndexOf(s, c);
    assert s == s[..i] + [c] + s[i + 1..];
    assert forall k :: 0 <= k < i ==> s[..i][k] == s[k];
  }

  /** Partitioning a text made of a part without `c`, then `c`, then
      anything, gives those two parts back. */
  lemma PartitionOf(a: string, c: char, b: string)
    requires c !in a
    ensures c in a + ([c] + b) && Partition(a + ([c] + b), c) == (a, b)
  {
    var s := a + ([c] + b);
    IndexOfAfter(a, [c] + b, c);
    assert s[..|a|] == a && s[|a| + 1..] == b;
  }

  /** `s.split(sep)` for a non-empty separator: occurrences are found from the
      left and do not overlap; there is always at least one piece. */
  function Split(s: string, sep: string): (parts: seq<string>)
    requires |sep| > 0
    ensures |parts| >= 1
    decreases |s|
  {
    if |s| < |sep| then [s]
    else if s[..|sep|] == sep then [""] + Split(s[|sep|..], sep)
    else
      var rest := Split(s[1..], sep);
      [[s[0]] + rest[0]] + rest[1..]
  }

  /** A text that starts with the separator splits into an empty piece and
      the pieces of the rest. */
  lemma SplitSep(sep: string, t: string)
    requires |sep| > 0
    ensures Split(sep + t, sep) == [""] + Split(t, sep)
  {
    assert (sep + t)[..|sep|] == sep;
    assert (sep + t)[|sep|..] == t;
  }

  /** Text without the separator's first character joins the first piece. */
  lemma {:induction false} SplitPrefix(a: string, t: string, sep: string)
    requires |sep| > 0 && sep[0] !in a
    ensures var rest := Split(t, sep);
      Split(a + t, sep) == [a + rest[0]] + rest[1..]
    decreases |a|
  {
    var rest := Split(t, sep);
    if a == [] {
      assert a + t == t && a + rest[0] == rest[0];
      assert [rest[0]] + rest[1..] == rest;
    } else if |a + t| >= |sep| {
      assert (a + t)[0] == a[0] != sep[0];
      assert (a + t)[1..] == a[1..] + t;
      SplitPrefix(a[1..], t, sep);
      assert [a[0]] + (a[1..] + rest[0]) == a + rest[0];
    }
  }

  /** `sep.join(parts)`. */
  function Join(parts: seq<string>, sep: string): string {
    if |parts| == 0 then ""
    else if |parts| == 1 then parts[0]
    else parts[0] + sep + Join(parts[1..], sep)
  }

  /** A character absent from the text is absent from every piece of its split. */
  lemma {:induction false} SplitKeepsAbsent(s: string, sep: string, c: char)
    requires |sep| > 0 && c !in s
    ensures forall k :: 0 <= k < |Split(s, sep)| ==> c !in Split(s, sep)[k]
    decreases |s|
  {
    if |s| < |sep| {
    } else if s[..|sep|] == sep {
      SplitKeepsAbsent(s[|sep|..], sep, c);
    } else {
      SplitKeepsAbsent(s[1..], sep, c);
    }
  }

  /** Joining the pieces of a split with the same separator gives the text back. */
  lemma {:induction false} JoinSplit(s: string, sep: string)
    requires |sep| > 0
    ensures Join(Split(s, sep), sep) == s
    decreases |s|
  {
    if |s| < |sep| {
    } else if s[..|sep|] == sep {
      var rest := Split(s[|sep|..], sep);
      JoinSplit(s[|sep|..], sep);
      assert Split(s, sep) == [""] + rest;
      assert s == sep + s[|sep|..];
    } else {
      var rest := Split(s[1..], sep);
      JoinSplit(s[1..], sep);
      assert Split(s, sep) == [[s[0]] + rest[0]] + rest[1..];
      JoinConsFirst(s[0], rest, sep);
      assert s == [s[0]] + s[1..];
    }
  }

  /** Putting a character in front of the first part puts it in front of the join. */
  lemma JoinConsFirst(c: char, rest: seq<string>, sep: string)
    requires |rest| >= 1
    ensures Join([[c] + rest[0]] + rest[1..], sep) == [c] + Join(rest, sep)
  {
    var parts := [[c] + rest[0]] + rest[1..];
    if |rest| > 1 {
      assert parts[1..] == rest[1..];
    }
  }

  /** A text without the separator character splits into itself alone. */
  lemma {:induction false} SplitWithoutSep(s: string, c: char)
    requires c !in s
    ensures Split(s, [c]) == [s]
    decreases |s|
  {
    if |s| >= 1 {
      assert s[..1] != [c] by { assert s[0] != c; }
      SplitWithoutSep(s[1..], c);
      assert [s[0]] + s[1..] == s;
    }
  }

  /** Splitting at the first separator peels off the text before it. */
  lemma {:induction false} SplitAtFirst(a: string, c: char, t: string)
    requires c !in a
    ensures Split(a + [c] + t, [c]) == [a] + Split(t, [c])
    decreases |a|
  {
    var s := a + [c] + t;
    if a == [] {
      assert s[..1] == [c] && s[1..] == t;
    } else {
      assert s[..1] != [c] by { assert s[0] == a[0] != c; }
      assert s[1..] == a[1..] + [c] + t;
      SplitAtFirst(a[1..], c, t);
      assert [s[0]] + a[1..] == a;
    }
  }

  /** Splitting what was joined with a separator character that no part
      holds gives the parts back. */
  lemma {:induction false} SplitJoin(parts: seq<string>, c: char)
    requires |parts| >= 1
    requires forall k :: 0 <= k < |parts| ==> c !in parts[k]
    ensures Split(Join(parts, [c]), [c]) == parts
  {
    if |parts| == 1 {
      SplitWithoutSep(parts[0], c);
    } else {
      SplitJoin(parts[1..], c);
      SplitAtFirst(parts[0], c, Join(parts[1..], [c]));
      assert [parts[0]] + parts[1..] == parts;
    }
  }

  /** `s.replace(pat, rep)` for a non-empty `pat`: occurrences are replaced
      from the left and do not overlap. */
  function Replace(s: string, pat: string, rep: string): string
    requires |pat| > 0
    decreases |s|
  {
    if |s| < |pat| then s
    else if s[..|pat|] == pat then rep + Replace(s[|pat|..], pat, rep)
    else [s[0]] + Replace(s[1..], pat, rep)
  }

  /** Replacing a single character by a text without it leaves no occurrence. */
  lemma {:induction false} ReplaceCharRemoves(s: string, c: char, rep: string)
    requires c !in rep
    ensures c !in Replace(s, [c], rep)
    decreases |s|
  {
    if |s| >= 1 {
      ReplaceCharRemoves(s[1..], c, rep);
    }
  }

  /** Replacing never introduces a character that is in neither text. */
  lemma {:induction false} ReplaceKeepsAbsent(s: string, pat: string, rep: string, c: char)
    requires |pat| > 0 && c !in s && c !in rep
    ensures c !in Replace(s, pat, rep)
    decreases |s|
  {
    if |s| < |pat| {
    } else if s[..|pat|] == pat {
      ReplaceKeepsAbsent(s[|pat|..], pat, rep, c);
    } else {
      ReplaceKeepsAbsent(s[1..], pat, rep, c);
    }
  }

  /** Replacing a text that cannot occur, because one of its characters is
      absent, changes nothing. */
  lemma {:induction false} ReplaceNoOccurrence(s: string, pat: string, rep: string, j: nat)
    requires j < |pat| && pat[j] !in s
    ensures Replace(s, pat, rep) == s
    decreases |s|
  {
    if |s| >= |pat| {
      assert s[..|pat|] != pat by { assert s[j] != pat[j]; }
      ReplaceNoOccurrence(s[1..], pat, rep, j);
    }
  }

  /** Replacing `a` by `b` and then `b` by `a` restores a text without `b`. */
  lemma {:induction false} ReplaceCharBack(s: string, a: char, b: char)
    requires b !in s
    ensures Replace(Replace(s, [a], [b]), [b], [a]) == s
    decreases |s|
  {
    if |s| >= 1 {
      var once := Replace(s, [a], [b]);
      ReplaceCharBack(s[1..], a, b);
      if s[0] == a {
        assert s[..1] == [a];
        assert once == [b] + Replace(s[1..], [a], [b]);
        assert once[..1] == [b];
      } else {
        assert s[..1] != [a];
        assert once == [s[0]] + Replace(s[1..], [a], [b]);
        assert once[..1] != [b];
      }
      assert s == [s[0]] + s[1..];
    }
  }

  /** Turning every LF into CRLF and then every CRLF back into LF restores a
      text without CR. */
  lemma {:induction false} ReplaceCrlfBack(s: string)
    requires '\r' !in s
    ensures Replace(Replace(s, "\n", "\r\n"), "\r\n", "\n") == s
    decreases |s|
  {
    if |s| >= 1 {
      var tail := Replace(s[1..], "\n", "\r\n");
      ReplaceCrlfBack(s[1..]);
      if s[0] == '\n' {
        assert s[..1] == "\n";
        var once := "\r\n" + tail;
        assert Replace(s, "\n", "\r\n") == once;
        assert once[..2] == "\r\n" && once[2..] == tail;
      } else {
        assert s[..1] != "\n";
        var once := [s[0]] + tail;
        assert Replace(s, "\n", "\r\n") == once;
        if |once| >= 2 {
          assert once[..2] != "\r\n" by { assert once[0] == s[0] != '\r'; }
          assert once[1..] == tail;
        } else {
          assert tail == [] && s[1..] == [];
        }
      }
      assert s == [s[0]] + s[1..];
    }
  }

  // ---------------------------------------------------------------------
  // Decimal numerals

  function DigitChar(d: nat): (c: char)
    requires d < 10
    ensures '0' <= c <= '9'
  {
    (48 + d) as char
  }

  predicate IsDigit(c: char) {
    '0' <= c <= '9'
  }

  predicate AllDigits(s: string) {
    forall k :: 0 <= k < |s| ==> IsDigit(s[k])
  }

  /** The value of a string of decimal digits, most significant first. */
  function DigitsValue(s: string): nat
    requires AllDigits(s)
  {
    if |s| == 0 then 0
    else DigitsValue(s[..|s| - 1]) * 10 + (s[|s| - 1] as int - 48)
  }

  /** `str(n)` for a natural number: its shortest decimal numeral. */
  function Decimal(n: nat): (s: string)
    ensures |s| >= 1 && AllDigits(s)
    ensures |s| > 1 ==> s[0] != '0'
  {
    if n < 10 then [DigitChar(n)] else Decimal(n / 10) + [DigitChar(n % 10)]
  }

  /** Reading a numeral back gives the number it was made from. */
  lemma {:induction false} DecimalValue(n: nat)
    ensures DigitsValue(Decimal(n)) == n
  {
    if n >= 10 {
      DecimalValue(n / 10);
      var s := Decimal(n);
      assert s[..|s| - 1] == Decimal(n / 10);
    }
  }

  function Zeros(k: nat): (s: string)
    ensures |s| == k && forall j :: 0 <= j < k ==> s[j] == '0'
  {
    if k == 0 then "" else "0" + Zeros(k - 1)
  }

  /** Leading zeros do not change the value of a numeral. */
  lemma {:induction false} LeadingZerosValue(k: nat, s: string)
    requires AllDigits(s)
    ensures AllDigits(Zeros(k) + s) && DigitsValue(Zeros(k) + s) == DigitsValue(s)
    decreases |s|
  {
    var t := Zeros(k) + s;
    assert AllDigits(t) by {
      forall j | 0 <= j < |t| ensures IsDigit(t[j]) {
        if j >= k { assert t[j] == s[j - k]; }
      }
    }
    if |s| == 0 {
      assert t == Zeros(k);
      ZerosValue(k);
    } else {
      LeadingZerosValue(k, s[..|s| - 1]);
      assert t[..|t| - 1] == Zeros(k) + s[..|s| - 1];
    }
  }

  /** A numeral of zeros only has value zero. */
  lemma {:induction false} ZerosValue(k: nat)
    ensures DigitsValue(Zeros(k)) == 0
  {
    if k > 0 {
      var z := Zeros(k);
      assert z[..k - 1] == Zeros(k - 1) by {
        assert z == Zeros(k - 1) + "0" by { ZerosSnoc(k - 1); }
      }
      ZerosValue(k - 1);
    }
  }

  /** One more zero goes at the end. */
  lemma ZerosSnoc(k: nat)
    ensures Zeros(k + 1) == Zeros(k) + "0"
  {
  }

  /** The `{:03d}` format of a natural number: its numeral, left-padded with
      zeros to at least three characters. */
  function Pad3(n: nat): (s: string)
    ensures |s| >= 3 && AllDigits(s)
  {
    var d := Decimal(n);
    if |d| >= 3 then d else Zeros(3 - |d|) + d
  }

  /** The padded numeral still reads back as the number... */
  lemma Pad3Value(n: nat)
    ensures DigitsValue(Pad3(n)) == n
  {
    DecimalValue(n);
    var d := Decimal(n);
    if |d| < 3 {
      LeadingZerosValue(3 - |d|, d);
    }
  }

  /** ...so different numbers never share a padded numeral. */
  lemma Pad3Injective(m: nat, n: nat)
    requires m != n
    ensures Pad3(m) != Pad3(n)
  {
    Pad3Value(m);
    Pad3Value(n);
  }

  /** `str(i)` for any integer. */
  function IntToString(i: int): (s: string)
    ensures |s| >= 1
  {
    if i < 0 then "-" + Decimal(-i) else Decimal(i)
  }

  /** `int(s)` on an already stripped text: an optional sign followed by at
      least one ASCII digit; anything else raises `ValueError` (`None` here). */
  function ParseInt(s: string): (r: Option<int>)
  {
    if |s| > 0 && (s[0] == '-' || s[0] == '+') then
      var body := s[1..];
      if |body| > 0 && AllDigits(body) then
        Some(if s[0] == '-' then -(DigitsValue(body) as int) else DigitsValue(body) as int)
      else None
    else if |s| > 0 && AllDigits(s) then Some(DigitsValue(s) as int)
    else None
  }

  /** `int(str(i)) == i`. */
  lemma ParseIntToString(i: int)
    ensures ParseInt(IntToString(i)) == Some(i)
  {
    if i < 0 {
      DecimalValue(-i);
      assert IntToString(i)[1..] == Decimal(-i);
    } else {
      DecimalValue(i);
    }
  }
}
