/** File names: splitting a name at its last dot, gluing paths together,
    and telling camera stills and companion movies from everything else. */
module FileNames {
  import opened Options
  import DateFormat

  /** File.separator on the platform modelled. */
  const Separator: char := '/'

  /** The camera's naming convention, in lower case: "img_", digits, an extension. */
  const CameraPrefix := "img_"
  const ImageExtension := "jpeg"
  const MovieExtension := "mov"

  /** The parsed form of a path (the record FileName): the path itself, its
      parent directory, its last component, that component's stem, and the
      extension. */
  datatype FileName = FileName(
    file: string,
    path: string,
    name: string,
    nameWithoutExtension: Option<string>,
    extension: Option<string>)

  // ---------------------------------------------------------------------
  // Last occurrence of a character

  /** String.lastIndexOf, with None for Java's -1. */
  function LastIndexOf(s: string, c: char): (r: Option<nat>)
    ensures r.None? <==> c !in s
    ensures r.Some? ==> r.value < |s| && s[r.value] == c && c !in s[r.value + 1..]
  {
    if |s| == 0 then None
    else if s[|s| - 1] == c then Some(|s| - 1)
    else
      var r := LastIndexOf(s[..|s| - 1], c);
      assert s == s[..|s| - 1] + [s[|s| - 1]];
      r
  }

  /** The last occurrence in a + b lies in b when b has one, and is a's otherwise. */
  lemma {:induction false} LastIndexOfAppend(a: string, b: string, c: char)
    ensures c in b ==> LastIndexOf(a + b, c) == Some(|a| + LastIndexOf(b, c).value)
    ensures c !in b ==> LastIndexOf(a + b, c) == LastIndexOf(a, c)
    decreases |b|
  {
    if |b| == 0 {
      assert a + b == a;
    } else {
      var ab := a + b;
      var b' := b[..|b| - 1];
      var last := b[|b| - 1];
      assert ab[|ab| - 1] == last;
      if last == c {
        assert LastIndexOf(b, c) == Some(|b| - 1);
      } else {
        assert ab[..|ab| - 1] == a + b';
        assert LastIndexOf(ab, c) == LastIndexOf(a + b', c);
        assert LastIndexOf(b, c) == LastIndexOf(b', c);
        assert b == b' + [last];
        assert c in b <==> c in b';
        LastIndexOfAppend(a, b', c);
      }
    }
  }

  // ---------------------------------------------------------------------
  // Stem and extension

  /** getFileNameWithoutExtension: everything before the last dot, present
      exactly when the name holds a dot. */
  function StemOf(filename: string): (r: Option<string>)
    ensures r.Some? <==> '.' in filename
    ensures r.Some? ==>
      && |r.value| < |filename| && filename[..|r.value|] == r.value
      && filename[|r.value|] == '.' && '.' !in filename[|r.value| + 1..]
  {
    match LastIndexOf(filename, '.')
    case None => None
    case Some(i) => Some(filename[..i])
  }

  /** getFileNameExtension: everything after the last dot, in its original
      case, present exactly when the name holds a dot. */
  function ExtensionOf(filename: string): (r: Option<string>)
    ensures r.Some? <==> '.' in filename
    ensures r.Some? ==>
      && |r.value| < |filename| && filename[|filename| - |r.value|..] == r.value
      && filename[|filename| - |r.value| - 1] == '.' && '.' !in r.value
  {
    match LastIndexOf(filename, '.')
    case None => None
    case Some(i) => Some(filename[i + 1..])
  }

  /** Stem and extension are both present exactly when the name holds a dot;
      then they glue back to the name and the extension holds no dot. */
  lemma SplitName(filename: string)
    ensures '.' in filename <==> StemOf(filename).Some?
    ensures StemOf(filename).Some? <==> ExtensionOf(filename).Some?
    ensures '.' in filename ==>
      && StemOf(filename).value + "." + ExtensionOf(filename).value == filename
      && '.' !in ExtensionOf(filename).value
  {
    if '.' in filename {
      var i := LastIndexOf(filename, '.').value;
      assert filename == filename[..i] + "." + filename[i + 1..];
    }
  }

  // ---------------------------------------------------------------------
  // Paths

  /** glue: directory, separator, name, and ".extension" when there is one.
      When neither the name nor the extension holds a separator, the glued
      separator is the path's last, so the directory can be split off again;
      an extension without a dot reads back as the path's extension. */
  function Glue(directory: string, file: string, extension: Option<string>): (r: string)
    ensures Separator !in file && (extension.Some? ==> Separator !in extension.value) ==>
      LastIndexOf(r, Separator) == Some(|directory|) && r[..|directory|] == directory
    ensures |r| > |directory| + |file|
    ensures extension.None? ==> r[|directory| + 1..] == file
    ensures extension.Some? && '.' !in extension.value ==> ExtensionOf(r) == extension
  {
    var tail := file + (if extension.Some? then "." + extension.value else "");
    var r := directory + [Separator] + tail;
    assert r[..|directory|] == directory;
    LastSeparatorOfGlued(directory, tail);
    if extension.Some? then
      var prefix := directory + [Separator] + file + ".";
      assert r == prefix + extension.value;
      ExtensionAfterDot(prefix, extension.value);
      r
    else
      r
  }

  /** After a prefix ending in a dot, a dot-free suffix is the extension. */
  lemma ExtensionAfterDot(prefix: string, extension: string)
    requires |prefix| > 0 && prefix[|prefix| - 1] == '.'
    ensures '.' !in extension ==> ExtensionOf(prefix + extension) == Some(extension)
  {
    if '.' !in extension {
      LastIndexOfAppend(prefix, extension, '.');
      assert (prefix + extension)[|prefix|..] == extension;
    }
  }

  /** parseFileName: the parent and the name split at the last separator (the
      name of a path without one is the whole path); the stem is taken from
      the name and the extension from the whole path. */
  function ParseFileName(full: string): FileName {
    match LastIndexOf(full, Separator)
    case Some(i) => FileName(full, full[..i], full[i + 1..], StemOf(full[i + 1..]), ExtensionOf(full))
    case None => FileName(full, "", full, StemOf(full), ExtensionOf(full))
  }

  /** parseFileName keeps the path, and its name holds no separator; gluing
      the parent and the name together again gives the path back. */
  lemma GlueParsed(full: string)
    ensures ParseFileName(full).file == full && Separator !in ParseFileName(full).name
    ensures Separator in full ==> Glue(ParseFileName(full).path, ParseFileName(full).name, None) == full
    ensures Separator !in full ==> ParseFileName(full).name == full
    ensures ParseFileName(full).nameWithoutExtension == StemOf(ParseFileName(full).name)
  {
    if Separator in full {
      var i := LastIndexOf(full, Separator).value;
      assert full == full[..i] + [Separator] + full[i + 1..];
    }
  }

  /** In a glued directory entry the last separator is the glued one. */
  lemma {:induction false} LastSeparatorOfGlued(directory: string, name: string)
    ensures Separator !in name ==> LastIndexOf(directory + [Separator] + name, Separator) == Some(|directory|)
  {
    if Separator !in name {
      var tail := [Separator] + name;
      assert LastIndexOf([Separator], Separator) == Some(0);
      LastIndexOfAppend([Separator], name, Separator);
      LastIndexOfAppend(directory, tail, Separator);
      assert directory + [Separator] + name == directory + tail;
    }
  }

  /** In a glued directory entry whose name has a dot, the extension is the name's. */
  lemma {:induction false} ExtensionOfGlued(directory: string, name: string)
    requires '.' in name
    ensures ExtensionOf(directory + [Separator] + name) == ExtensionOf(name)
  {
    var prefix := directory + [Separator];
    LastIndexOfAppend(prefix, name, '.');
    var i := LastIndexOf(name, '.').value;
    assert (prefix + name)[|prefix| + i + 1..] == name[i + 1..];
  }

  /** Parsing a glued directory entry gives back the directory and the name,
      and when the name has a dot the extension is the name's own, whatever
      dots the directory holds. */
  lemma ParseGlued(directory: string, name: string)
    requires Separator !in name
    ensures ParseFileName(Glue(directory, name, None)) ==
      FileName(Glue(directory, name, None), directory, name, StemOf(name), ExtensionOf(Glue(directory, name, None)))
    ensures '.' in name ==> ParseFileName(Glue(directory, name, None)).extension == ExtensionOf(name)
  {
    var full := Glue(directory, name, None);
    assert full == directory + [Separator] + name;
    LastSeparatorOfGlued(directory, name);
    assert full[..|directory|] == directory;
    assert full[|directory| + 1..] == name;
    if '.' in name {
      ExtensionOfGlued(directory, name);
    }
  }

  // ---------------------------------------------------------------------
  // Classification

  function LowerChar(c: char): char {
    if 'A' <= c <= 'Z' then (c as int + 32) as char else c
  }

  /** String.toLowerCase on ASCII letters. */
  function ToLower(s: string): (r: string)
    ensures |r| == |s|
  {
    seq(|s|, i requires 0 <= i < |s| => LowerChar(s[i]))
  }

  /** The camera name with the given digits and extension. */
  function CameraName(digits: string, extension: string): string {
    CameraPrefix + digits + "." + extension
  }

  /** The whole of s matches ^img_\d+\.extension$. */
  predicate MatchesCameraPattern(s: string, extension: string) {
    var dot := |s| - |extension| - 1;
    && |CameraPrefix| < dot
    && s[..|CameraPrefix|] == CameraPrefix
    && DateFormat.AllDigits(s[|CameraPrefix|..dot])
    && s[dot] == '.'
    && s[dot + 1..] == extension
  }

  /** The pattern holds of exactly the camera names with one or more digits. */
  lemma CameraPatternExact(s: string, extension: string)
    ensures MatchesCameraPattern(s, extension) <==>
      exists digits :: |digits| >= 1 && DateFormat.AllDigits(digits) && s == CameraName(digits, extension)
  {
    if MatchesCameraPattern(s, extension) {
      var digits := s[|CameraPrefix|..|s| - |extension| - 1];
      assert s == CameraName(digits, extension);
    }
    if exists digits :: |digits| >= 1 && DateFormat.AllDigits(digits) && s == CameraName(digits, extension) {
      var digits :| |digits| >= 1 && DateFormat.AllDigits(digits) && s == CameraName(digits, extension);
      assert s[|CameraPrefix|..|s| - |extension| - 1] == digits;
    }
  }

  /** isSupportedFileName with supportedImageFileNamePattern. */
  predicate IsImageName(name: string) {
    MatchesCameraPattern(ToLower(name), ImageExtension)
  }

  /** isSupportedFileName with supportedMovieFileNamePattern. */
  predicate IsMovieName(name: string) {
    MatchesCameraPattern(ToLower(name), MovieExtension)
  }

  datatype Category = Image | Movie | Unsupported

  /** The branch run takes for a name: the image test first, then the movie
      test.  Each branch is taken exactly for the names its own test accepts. */
  function Classify(name: string): (c: Category)
    ensures c == Image <==> IsImageName(name)
    ensures c == Movie <==> IsMovieName(name)
    ensures c == Unsupported <==> !IsImageName(name) && !IsMovieName(name)
  {
    ImageMovieDisjoint(name);
    if IsImageName(name) then Image
    else if IsMovieName(name) then Movie
    else Unsupported
  }

  /** No name is both a still and a movie. */
  lemma ImageMovieDisjoint(name: string)
    ensures !(IsImageName(name) && IsMovieName(name))
  {
  }

  /** isSupportedFileName accepts a name exactly when its lower-case form is
      "img_", one or more digits, a dot and the pattern's extension. */
  lemma SupportedNameExact(name: string)
    ensures IsImageName(name) <==>
      exists digits :: |digits| >= 1 && DateFormat.AllDigits(digits) && ToLower(name) == CameraName(digits, ImageExtension)
    ensures IsMovieName(name) <==>
      exists digits :: |digits| >= 1 && DateFormat.AllDigits(digits) && ToLower(name) == CameraName(digits, MovieExtension)
  {
    CameraPatternExact(ToLower(name), ImageExtension);
    CameraPatternExact(ToLower(name), MovieExtension);
  }

  /** A camera name's extension is the pattern's extension in whatever case
      the name spells it: the last dot of the name is the pattern's dot. */
  lemma CameraExtension(name: string, extension: string)
    requires '.' !in extension
    requires MatchesCameraPattern(ToLower(name), extension)
    ensures '.' in name
    ensures ExtensionOf(name).Some? && ToLower(ExtensionOf(name).value) == extension
  {
    var lower := ToLower(name);
    var dot := |name| - |extension| - 1;
    assert name[dot] == '.' by {
      assert LowerChar(name[dot]) == lower[dot] == '.';
    }
    forall k | dot < k < |name|
      ensures name[k] != '.'
    {
      assert lower[k] == extension[k - dot - 1];
    }
    var i := LastIndexOf(name, '.').value;
    assert name[dot] in name[i + 1..] || i >= dot;
    assert i == dot;
    assert ToLower(name[dot + 1..]) == lower[dot + 1..];
  }

  /** A camera name holds a dot. */
  lemma CameraNameHasDot(name: string)
    requires IsImageName(name) || IsMovieName(name)
    ensures '.' in name
  {
    var extension := if IsImageName(name) then ImageExtension else MovieExtension;
    CameraExtension(name, extension);
  }

  /** A camera name never begins like a rendered date, so a camera file's
      path is never a path the renamer produces. */
  lemma CameraPathNotRendered(directory: string, name: string, second: int, extension: Option<string>)
    requires IsImageName(name) || IsMovieName(name)
    ensures Glue(directory, name, None) != Glue(directory, DateFormat.FormatSeconds(second), extension)
  {
    var text := DateFormat.FormatSeconds(second);
    var n := |directory| + 1;
    assert ToLower(name)[0] == 'i';
    assert Glue(directory, name, None)[n] == name[0];
    assert Glue(directory, text, extension)[n] == text[0];
  }

  /** A name the program produces (a rendered second and an extension) is not
      a camera name, so a second run leaves it alone. */
  lemma CanonicalNameUnsupported(second: int, extension: string)
    ensures Classify(DateFormat.FormatSeconds(second) + "." + extension) == Unsupported
  {
    var text := DateFormat.FormatSeconds(second);
    var name := text + "." + extension;
    assert name[0] == text[0];
    assert ToLower(name)[0] == text[0];
    assert ToLower(name)[..|CameraPrefix|][0] == ToLower(name)[0];
  }
}
