/** The .NET string operations the controllers rely on, over `seq<char>`.
    Case mapping covers ASCII and the basic Cyrillic block (U+0400-U+045F),
    which is every letter the controllers compare against. */
module Text {
  import opened Seqs

  /** `char.IsWhiteSpace`: the characters of Unicode category Zs, Zl, Zp and
      the control characters U+0009-U+000D and U+0085. */
  predicate IsWhiteSpace(c: char) {
    || ('\t' <= c <= '\r')
    || c == ' '
    || c == '\U{85}'
    || c == '\U{A0}'
    || c == '\U{1680}'
    || ('\U{2000}' <= c <= '\U{200A}')
    || c == '\U{2028}'
    || c == '\U{2029}'
    || c == '\U{202F}'
    || c == '\U{205F}'
    || c == '\U{3000}'
  }

  /** Every character is white space (the empty string included). */
  predicate IsBlank(s: string) {
    forall i :: 0 <= i < |s| ==> IsWhiteSpace(s[i])
  }

  /** `string.IsNullOrWhiteSpace` */
  predicate IsNullOrWhiteSpace(s: Option<string>) {
    s.None? || IsBlank(s.value)
  }

  /** A white-space character in front of a blank string leaves it blank. */
  lemma BlankCons(c: char, b: string)
    requires IsWhiteSpace(c) && IsBlank(b)
    ensures IsBlank([c] + b)
  {
    forall i | 0 <= i < |[c] + b| ensures IsWhiteSpace(([c] + b)[i]) {
      if i > 0 {
        assert ([c] + b)[i] == b[i - 1];
      }
    }
  }

  /** `TrimStart()`: drop the leading white space. */
  function TrimStart(s: string): (r: string)
    ensures |r| <= |s| && r == s[|s| - |r|..]
    ensures IsBlank(s[..|s| - |r|])
    ensures |r| > 0 ==> !IsWhiteSpace(r[0])
  {
    if |s| > 0 && IsWhiteSpace(s[0]) then
      var t := s[1..];
      var r := TrimStart(t);
      assert r == s[|s| - |r|..] by {
        assert t[|t| - |r|..] == s[|s| - |r|..];
      }
      assert s[..|s| - |r|] == [s[0]] + t[..|t| - |r|];
      BlankCons(s[0], t[..|t| - |r|]);
      r
    else s
  }

  /** `TrimEnd()`: drop the trailing white space. */
  function TrimEnd(s: string): (r: string)
    ensures |r| <= |s| && r == s[..|r|]
    ensures IsBlank(s[|r|..])
    ensures |r| > 0 ==> !IsWhiteSpace(r[|r| - 1])
  {
    if |s| > 0 && IsWhiteSpace(s[|s| - 1]) then
      var r := TrimEnd(s[..|s| - 1]);
      assert s[|r|..] == s[..|s| - 1][|r|..] + [s[|s| - 1]];
      r
    else s
  }

  /** `Trim()`: the string without its leading and trailing white space. It is
      empty exactly for blank strings and otherwise starts and ends with a
      character that is not white space. */
  function Trim(s: string): (r: string)
    ensures |r| <= |s|
    ensures |r| == 0 <==> IsBlank(s)
    ensures |r| > 0 ==> !IsWhiteSpace(r[0]) && !IsWhiteSpace(r[|r| - 1])
  {
    var front := TrimStart(s);
    var r := TrimEnd(front);
    assert |r| == 0 ==> IsBlank(s) by {
      if |r| == 0 {
        assert s == s[..|s| - |front|] + front;
        assert front == front[|r|..];
      }
    }
    assert IsBlank(s) ==> |front| == 0;
    r
  }

  /** `r` is the slice of `s` from `i` with only white space around it. */
  predicate SliceBetweenBlanks(s: string, r: string, i: int) {
    0 <= i <= |s| - |r| && r == s[i..i + |r|] && IsBlank(s[..i]) && IsBlank(s[i + |r|..])
  }

  /** Cutting a blank prefix and then a blank suffix leaves a slice between blanks. */
  lemma BlankAround(s: string, front: string, r: string)
    requires |front| <= |s| && front == s[|s| - |front|..] && IsBlank(s[..|s| - |front|])
    requires |r| <= |front| && r == front[..|r|] && IsBlank(front[|r|..])
    ensures SliceBetweenBlanks(s, r, |s| - |front|)
  {
    var i := |s| - |front|;
    SliceOfSlice(s, i, |r|);
  }

  /** Trimming removes white space at the two ends and nothing else. */
  lemma TrimSlice(s: string)
    ensures exists i :: SliceBetweenBlanks(s, Trim(s), i)
  {
    var front := TrimStart(s);
    assert Trim(s) == TrimEnd(front);
    BlankAround(s, front, Trim(s));
  }

  /** Trimming twice is trimming once. */
  lemma TrimIdempotent(s: string)
    ensures Trim(Trim(s)) == Trim(s)
  {
    var t := Trim(s);
    if |t| > 0 {
      assert TrimStart(t) == t;
      assert TrimEnd(t) == t;
    }
  }

  /** A string that neither starts nor ends with white space is its own trim. */
  lemma TrimOfTrimmed(s: string)
    requires |s| > 0 && !IsWhiteSpace(s[0]) && !IsWhiteSpace(s[|s| - 1])
    ensures Trim(s) == s
  {
    assert TrimStart(s) == s;
  }

  /** Trimming removes one space of padding on each side. */
  lemma TrimOfPadded(s: string)
    requires |s| > 0 && !IsWhiteSpace(s[0]) && !IsWhiteSpace(s[|s| - 1])
    ensures Trim([' '] + s + [' ']) == s
  {
    var p := [' '] + s + [' '];
    assert p[1..] == s + [' '];
    assert TrimStart(p) == s + [' '];
    assert (s + [' '])[..|s|] == s;
    assert TrimEnd(s + [' ']) == s;
  }

  /** `char.ToUpperInvariant` on ASCII and basic Cyrillic letters. */
  function ToUpperChar(c: char): char {
    if 'a' <= c <= 'z' then (c as int - 32) as char
    else if '\U{430}' <= c <= '\U{44F}' then (c as int - 0x20) as char
    else if '\U{450}' <= c <= '\U{45F}' then (c as int - 0x50) as char
    else c
  }

  /** `char.ToLowerInvariant` on ASCII and basic Cyrillic letters. */
  function ToLowerChar(c: char): char {
    if 'A' <= c <= 'Z' then (c as int + 32) as char
    else if '\U{410}' <= c <= '\U{42F}' then (c as int + 0x20) as char
    else if '\U{400}' <= c <= '\U{40F}' then (c as int + 0x50) as char
    else c
  }

  /** `string.ToLowerInvariant()` */
  function ToLowerInvariant(s: string): (r: string)
    ensures |r| == |s|
  {
    seq(|s|, i requires 0 <= i < |s| => ToLowerChar(s[i]))
  }

  /** `a.Equals(b, StringComparison.OrdinalIgnoreCase)` */
  predicate EqualsIgnoreCase(a: string, b: string) {
    |a| == |b| && forall i :: 0 <= i < |a| ==> ToUpperChar(a[i]) == ToUpperChar(b[i])
  }

  lemma EqualsIgnoreCaseReflexive(a: string)
    ensures EqualsIgnoreCase(a, a)
  {
  }

  /** `s.Contains(sub)`: ordinal substring test. */
  predicate Contains(s: string, sub: string) {
    exists i :: 0 <= i <= |s| && sub <= s[i..]
  }

  /** A search box of an index page: a blank filter keeps every row; any other
      keeps the rows whose field is present and contains the filter text. */
  predicate FilterAccepts(filter: Option<string>, field: Option<string>) {
    IsNullOrWhiteSpace(filter) || (field.Some? && Contains(field.value, filter.value))
  }

  /** The separators `Path.GetExtension` stops at. */
  predicate IsDirectorySeparator(c: char) {
    c == '/' || c == '\\'
  }

  /** A proper extension: a dot followed by at least one character, none of
      which is a dot or a directory separator. */
  predicate IsExtension(e: string) {
    && |e| >= 2
    && e[0] == '.'
    && forall i :: 1 <= i < |e| ==> e[i] != '.' && !IsDirectorySeparator(e[i])
  }

  /** `Path.GetExtension(path)`: the text from the last dot of the last path
      segment, or empty when that segment has no dot or ends with one. */
  function GetExtension(path: string): (r: string)
    ensures r == [] || (IsExtension(r) && |r| <= |path| && r == path[|path| - |r|..])
  {
    ExtensionBefore(path, |path|)
  }

  /** Scan `path[..i]` backwards for the extension dot. */
  function ExtensionBefore(path: string, i: nat): (r: string)
    requires i <= |path|
    requires forall k :: i <= k < |path| ==> path[k] != '.' && !IsDirectorySeparator(path[k])
    ensures r == [] || (IsExtension(r) && |r| <= |path| && r == path[|path| - |r|..])
  {
    if i == 0 then []
    else if path[i - 1] == '.' then
      if i == |path| then [] else path[i - 1..]
    else if IsDirectorySeparator(path[i - 1]) then []
    else ExtensionBefore(path, i - 1)
  }

  /** Scanning back over characters that are neither dots nor separators
      changes nothing. */
  lemma {:induction false} ExtensionBeforeSkips(path: string, lo: nat, i: nat)
    requires lo <= i <= |path|
    requires forall k :: lo <= k < |path| ==> path[k] != '.' && !IsDirectorySeparator(path[k])
    ensures ExtensionBefore(path, i) == ExtensionBefore(path, lo)
    decreases i
  {
    if i > lo {
      ExtensionBeforeSkips(path, lo, i - 1);
    }
  }

  /** `GetExtension` recovers an extension appended to any file name. */
  lemma ExtensionOfAppended(stem: string, ext: string)
    requires IsExtension(ext)
    ensures GetExtension(stem + ext) == ext
  {
    var path := stem + ext;
    var dot := |stem|;
    assert forall k :: dot < k < |path| ==> path[k] == ext[k - dot];
    ExtensionBeforeSkips(path, dot + 1, |path|);
    assert path[dot] == '.' && dot + 1 < |path|;
    assert path[dot..] == ext;
  }

  /** The same, for a file name `name` placed in a folder. */
  lemma ExtensionAfterName(folder: string, name: string, ext: string)
    requires IsExtension(ext)
    ensures GetExtension(folder + (name + ext)) == ext
  {
    assert folder + (name + ext) == (folder + name) + ext;
    ExtensionOfAppended(folder + name, ext);
  }

  /** A name without a dot has no extension. */
  lemma {:induction false} NoDotNoExtension(path: string, i: nat)
    requires i <= |path|
    requires forall k :: 0 <= k < |path| ==> path[k] != '.'
    requires forall k :: i <= k < |path| ==> !IsDirectorySeparator(path[k])
    ensures ExtensionBefore(path, i) == []
    decreases i
  {
    if i > 0 && !IsDirectorySeparator(path[i - 1]) {
      NoDotNoExtension(path, i - 1);
    }
  }
}
