/** Filename checks and path helpers of src/libs/image_helper.py. The list of allowed
    formats (flask_uploads' `IMAGES`) comes from a library and is a parameter here;
    each format is taken as a literal piece of the pattern, as the letters-only
    entries of that list are. */
module ImageHelper {
  import opened Wrappers
  import opened Lookup

  /** The `file` argument: a werkzeug `FileStorage`, of which only the file name is
      used, or a plain string. */
  datatype FileArg = Storage(filename: string) | Plain(name: string)

  /** `_retrieve_filename` (src/libs/image_helper.py:37-44). */
  function RetrieveFilename(file: FileArg): (r: string)
    ensures file.Plain? ==> r == file.name
    ensures file.Storage? ==> r == file.filename
  {
    match file
    case Storage(filename) => filename
    case Plain(name) => name
  }

  predicate IsAlnum(c: char)
  {
    'a' <= c <= 'z' || 'A' <= c <= 'Z' || '0' <= c <= '9'
  }

  /** The bracket class `[a-zA-Z0-9_()-\.]` as the regex engine reads it: `)-\.`
      is the range from `)` to `.`, which also holds `*`, `+`, `,` and `-`. */
  predicate InPatternClass(c: char)
  {
    IsAlnum(c) || c == '_' || c == '(' || (')' <= c <= '.')
  }

  /** The characters the docstring allows: letters, digits and `_().-`. */
  predicate InDocumentedClass(c: char)
  {
    IsAlnum(c) || c in "_().-"
  }

  /** Which reading of the bracket class a match uses. */
  datatype CharClass = Pattern | Documented

  predicate InClass(cls: CharClass, c: char)
  {
    match cls
    case Pattern => InPatternClass(c)
    case Documented => InDocumentedClass(c)
  }

  /** `f` is `[a-zA-Z0-9]`, then class characters, then `.` and `fmt`, and nothing more. */
  predicate NameWithFormat(f: string, fmt: string, cls: CharClass)
  {
    && |f| >= |fmt| + 2
    && IsAlnum(f[0])
    && f[|f| - |fmt| - 1] == '.'
    && f[|f| - |fmt|..] == fmt
    && forall i :: 1 <= i < |f| - |fmt| - 1 ==> InClass(cls, f[i])
  }

  /** `f` matches `^[a-zA-Z0-9][cls]*\.(fmt1|fmt2|...)` up to its very end. */
  predicate FullMatch(f: string, formats: seq<string>, cls: CharClass)
  {
    exists k :: 0 <= k < |formats| && NameWithFormat(f, formats[k], cls)
  }

  /** `is_filename_safe` (src/libs/image_helper.py:47-59) as written. Python's `$`
      also matches just before a final newline, so a name followed by "\n" passes. */
  predicate IsFilenameSafe(file: FileArg, formats: seq<string>): (ok: bool)
    ensures ok ==> |RetrieveFilename(file)| >= 2 && IsAlnum(RetrieveFilename(file)[0])
    ensures ok ==> '.' in RetrieveFilename(file)
  {
    var f := RetrieveFilename(file);
    || FullMatch(f, formats, Pattern)
    || (|f| >= 1 && f[|f| - 1] == '\n' && FullMatch(f[..|f| - 1], formats, Pattern))
  }

  /** A full match splits into its first character, its middle and its format. */
  lemma NameWithFormatParts(g: string, fmt: string, cls: CharClass) returns (first: char, middle: string)
    requires NameWithFormat(g, fmt, cls)
    ensures g == [first] + middle + "." + fmt
    ensures IsAlnum(first) && forall i :: 0 <= i < |middle| ==> InClass(cls, middle[i])
  {
    var m := |g| - |fmt| - 1;
    first, middle := g[0], g[1..m];
    assert g == g[..1] + g[1..m] + g[m..m + 1] + g[m + 1..];
    assert g[..1] == [first] && g[m..m + 1] == "." && g[m + 1..] == fmt;
    forall i | 0 <= i < |middle| ensures InClass(cls, middle[i]) {
      assert middle[i] == g[i + 1];
    }
  }

  /** A name the pattern matches in full splits into its parts. */
  lemma FullMatchParts(g: string, formats: seq<string>) returns (first: char, middle: string, fmt: string)
    requires FullMatch(g, formats, Pattern)
    ensures g == [first] + middle + "." + fmt
    ensures IsAlnum(first) && fmt in formats
    ensures forall i :: 0 <= i < |middle| ==> InPatternClass(middle[i])
  {
    var k :| 0 <= k < |formats| && NameWithFormat(g, formats[k], Pattern);
    fmt := formats[k];
    first, middle := NameWithFormatParts(g, fmt, Pattern);
  }

  /** Every accepted name is a letter or digit, class characters, `.`, an allowed
      format and possibly one final newline. */
  lemma SafeFilenameShape(file: FileArg, formats: seq<string>)
    returns (first: char, middle: string, fmt: string, newline: bool)
    requires IsFilenameSafe(file, formats)
    ensures !newline ==> RetrieveFilename(file) == [first] + middle + "." + fmt
    ensures newline ==> RetrieveFilename(file) == [first] + middle + "." + fmt + "\n"
    ensures IsAlnum(first) && fmt in formats
    ensures forall i :: 0 <= i < |middle| ==> InPatternClass(middle[i])
  {
    var f := RetrieveFilename(file);
    newline := !FullMatch(f, formats, Pattern);
    if !newline {
      first, middle, fmt := FullMatchParts(f, formats);
    } else {
      var g := f[..|f| - 1];
      first, middle, fmt := FullMatchParts(g, formats);
      assert f == g + "\n";
    }
  }

  /** An accepted name cannot leave the upload folder: when no allowed format holds a
      `/`, neither does the name, and it does not start with `.`. */
  lemma SafeFilenameHasNoSlash(file: FileArg, formats: seq<string>)
    requires IsFilenameSafe(file, formats)
    requires forall k :: 0 <= k < |formats| ==> '/' !in formats[k]
    ensures '/' !in RetrieveFilename(file)
    ensures RetrieveFilename(file)[0] != '.'
  {
    var first, middle, fmt, newline := SafeFilenameShape(file, formats);
    assert forall i :: 0 <= i < |middle| ==> middle[i] != '/';
  }

  /** Conversely, every name of that shape is accepted. */
  lemma ShapeIsSafeFilename(first: char, middle: string, formats: seq<string>, k: nat, newline: bool)
    requires k < |formats| && IsAlnum(first)
    requires forall i :: 0 <= i < |middle| ==> InPatternClass(middle[i])
    ensures IsFilenameSafe(Plain([first] + middle + "." + formats[k] + (if newline then "\n" else "")), formats)
  {
    var g := [first] + middle + "." + formats[k];
    assert g[|g| - |formats[k]|..] == formats[k];
    assert NameWithFormat(g, formats[k], Pattern);
    if newline {
      var f := g + "\n";
      assert f[..|f| - 1] == g;
    }
  }

  /** The pattern lets `*` through although the docstring does not list it. */
  lemma StarNameAccepted()
    ensures IsFilenameSafe(Plain("a*.png"), ["png"])
    ensures !InDocumentedClass('*')
  {
    var f := "a*.png";
    assert f[3..] == "png" && f[2] == '.' && InPatternClass(f[1]);
    assert NameWithFormat(f, ["png"][0], Pattern);
  }

  /** A name that ends in a newline, after the format, is accepted. */
  lemma TrailingNewlineAccepted()
    ensures IsFilenameSafe(Plain("a.png\n"), ["png"])
  {
    var f := "a.png\n";
    var g := f[..|f| - 1];
    assert g == "a.png" && g[2..] == "png";
    assert NameWithFormat(g, ["png"][0], Pattern);
  }

  /** The check its docstring describes: documented characters only, and the format
      really at the end of the name. */
  predicate IsFilenameSafeIntended(file: FileArg, formats: seq<string>)
  {
    FullMatch(RetrieveFilename(file), formats, Documented)
  }

  /** Every name the intended check accepts ends in `.` and an allowed format, and
      consists of documented characters only: no newline, no `*`, `+` or `,`. */
  lemma IntendedShape(file: FileArg, formats: seq<string>) returns (fmt: string)
    requires IsFilenameSafeIntended(file, formats)
    requires forall k, c :: 0 <= k < |formats| && c in formats[k] ==> IsAlnum(c)
    ensures fmt in formats
    ensures var f := RetrieveFilename(file);
            && |f| > |fmt| + 1 && IsAlnum(f[0])
            && f[|f| - |fmt| - 1..] == "." + fmt
            && forall i :: 0 <= i < |f| ==> InDocumentedClass(f[i])
  {
    var f := RetrieveFilename(file);
    var k :| 0 <= k < |formats| && NameWithFormat(f, formats[k], Documented);
    fmt := formats[k];
    forall i | |f| - |fmt| <= i < |f| ensures InDocumentedClass(f[i]) {
      assert f[i] == fmt[i - (|f| - |fmt|)];
    }
  }

  /** The intended check accepts no name the written one refuses. */
  lemma IntendedIsStricter(file: FileArg, formats: seq<string>)
    requires IsFilenameSafeIntended(file, formats)
    ensures IsFilenameSafe(file, formats)
  {
    var f := RetrieveFilename(file);
    var k :| 0 <= k < |formats| && NameWithFormat(f, formats[k], Documented);
    assert NameWithFormat(f, formats[k], Pattern);
  }

  /** `get_basename` (src/libs/image_helper.py:62-67): the tail of `os.path.split`,
      the part after the last `/`. */
  function GetBasename(file: FileArg): (r: string)
    ensures '/' !in r
    ensures var f := RetrieveFilename(file);
            |r| <= |f| && r == f[|f| - |r|..] && (|r| == |f| || f[|f| - |r| - 1] == '/')
  {
    var f := RetrieveFilename(file);
    match LastIndex(f, '/')
    case None => f
    case Some(k) => f[k + 1..]
  }

  /** The extension `os.path.splitext` finds in a base name: from its last `.`,
      unless only dots precede that `.`. */
  function ExtensionOf(b: string): (r: string)
    ensures ExtensionShaped(r)
    ensures |r| <= |b| && r == b[|b| - |r|..]
  {
    match LastIndex(b, '.')
    case None => []
    case Some(d) =>
      if HasNonDotBefore(b, d) then b[d..]
      else []
  }

  /** Some character of `b` before position `d` is not a `.`. */
  predicate HasNonDotBefore(b: string, d: nat)
    requires d <= |b|
  {
    exists i :: 0 <= i < d && b[i] != '.'
  }

  /** `get_extension` (src/libs/image_helper.py:70-73). */
  function GetExtension(file: FileArg): (r: string)
    ensures ExtensionShaped(r)
    ensures '/' !in r
    ensures IsSuffix(r, GetBasename(file))
  {
    var b := GetBasename(file);
    var r := ExtensionOf(b);
    SuffixKeepsAbsent(r, b, '/');
    r
  }

  /** Empty, or a `.` followed by no other `.`. */
  predicate ExtensionShaped(r: string)
  {
    r == [] || (r[0] == '.' && '.' !in r[1..])
  }

  predicate IsSuffix(r: string, s: string)
  {
    |r| <= |s| && r == s[|s| - |r|..]
  }

  lemma SuffixKeepsAbsent(r: string, s: string, c: char)
    requires IsSuffix(r, s) && c !in s
    ensures c !in r
  {
  }

  /** The extension is empty exactly when the base name has no `.` that follows some
      other character than `.`. */
  lemma ExtensionPresent(b: string)
    ensures ExtensionOf(b) != [] <==> exists i, d :: 0 <= i < d < |b| && b[d] == '.' && b[i] != '.'
  {
    if i, d0 :| 0 <= i < d0 < |b| && b[d0] == '.' && b[i] != '.' {
      var d := LastIndex(b, '.').value;
      assert d0 <= d;
      assert HasNonDotBefore(b, d);
    }
  }
}
