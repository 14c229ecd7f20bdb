/**
 * The file-name test of the scanner: the extension as POSIX `os.path.splitext`
 * computes it, lower-cased, must be one of the supported JPEG extensions.
 */
module Extension {

  const PathSep: char := '/'
  const ExtSep: char := '.'
  const SupportedExts: set<string> := {".jpg", ".jpeg"}

  /** `s.rfind(c)`: the last index holding `c`, or -1. */
  function LastIndexOf(s: string, c: char): (r: int)
    ensures -1 <= r < |s|
    ensures 0 <= r ==> s[r] == c
    ensures forall i :: r < i < |s| ==> s[i] != c
  {
    if |s| == 0 then -1
    else if s[|s| - 1] == c then |s| - 1
    else LastIndexOf(s[..|s| - 1], c)
  }

  /** The leading-dot scan of `splitext`: true when some character of
      `p[from..dot]` is not a dot. */
  function HasNonDot(p: string, from: int, dot: int): (r: bool)
    requires 0 <= from <= dot <= |p|
    ensures r <==> exists i :: from <= i < dot && p[i] != ExtSep
    decreases dot - from
  {
    if from == dot then false
    else if p[from] != ExtSep then true
    else HasNonDot(p, from + 1, dot)
  }

  /** `os.path.splitext(p)` on POSIX: the pair `(root, ext)`. */
  function SplitExt(p: string): (r: (string, string))
    ensures r.0 + r.1 == p
    ensures r.1 == [] || r.1[0] == ExtSep
    ensures forall i :: 0 < i < |r.1| ==> r.1[i] != ExtSep && r.1[i] != PathSep
    // leading dots of the last path component stay in the root
    ensures r.1 != [] ==> HasNamedStem(r.0)
    // a dot after a named stem with no later dot or separator starts the extension
    ensures r.1 == [] ==> NoExtension(p)
  {
    var sepIndex := LastIndexOf(p, PathSep);
    var dotIndex := LastIndexOf(p, ExtSep);
    if dotIndex > sepIndex && HasNonDot(p, sepIndex + 1, dotIndex) then
      assert p[..dotIndex] + p[dotIndex..] == p;
      var i :| sepIndex + 1 <= i < dotIndex && p[i] != ExtSep;
      assert p[..dotIndex][i] != ExtSep && NoSepFrom(p[..dotIndex], i);
      (p[..dotIndex], p[dotIndex..])
    else
      UnsplitHasNoExtension(p);
      (p, [])
  }

  /** No dot of `p` both follows a named stem and is the last dot of the final
      path component. */
  ghost predicate NoExtension(p: string) {
    forall k :: 0 <= k < |p| && p[k] == ExtSep && HasNamedStem(p[..k]) ==>
      exists j :: k < j < |p| && (p[j] == ExtSep || p[j] == PathSep)
  }

  /** When the split keeps the whole name as its root, no dot could have
      started an extension. */
  lemma UnsplitHasNoExtension(p: string)
    requires !(LastIndexOf(p, ExtSep) > LastIndexOf(p, PathSep)
               && HasNonDot(p, LastIndexOf(p, PathSep) + 1, LastIndexOf(p, ExtSep)))
    ensures NoExtension(p)
  {
    var sepIndex := LastIndexOf(p, PathSep);
    var dotIndex := LastIndexOf(p, ExtSep);
    forall k | 0 <= k < |p| && p[k] == ExtSep && HasNamedStem(p[..k])
      ensures exists j :: k < j < |p| && (p[j] == ExtSep || p[j] == PathSep)
    {
      if forall j :: k < j < |p| ==> p[j] != ExtSep && p[j] != PathSep {
        var stem := p[..k];
        var i :| 0 <= i < |stem| && stem[i] != ExtSep && NoSepFrom(stem, i);
        assert p[i] == stem[i];
        forall j | i <= j < |p|
          ensures p[j] != PathSep
        {
          if j < k { assert stem[j] == p[j]; }
        }
        assert dotIndex == k && sepIndex < i;
        assert HasNonDot(p, sepIndex + 1, dotIndex);
      }
    }
  }

  /** ASCII lower-casing of one character; every other character is kept. */
  function LowerChar(c: char): char {
    if 'A' <= c <= 'Z' then (c as int + 32) as char else c
  }

  function Lower(s: string): (r: string)
    ensures |r| == |s|
    ensures forall i :: 0 <= i < |s| ==> r[i] == LowerChar(s[i])
  {
    seq(|s|, i requires 0 <= i < |s| => LowerChar(s[i]))
  }

  /** `stem` has a character other than a dot in its final path component,
      so that a dot after it starts an extension. */
  ghost predicate HasNamedStem(stem: string) {
    exists i :: 0 <= i < |stem| && stem[i] != ExtSep && NoSepFrom(stem, i)
  }

  ghost predicate NoSepFrom(s: string, i: int)
    requires 0 <= i <= |s|
  {
    forall j :: i <= j < |s| ==> s[j] != PathSep
  }

  /** `name` is a stem with a final component that is not all dots, followed
      by a suffix that lower-cases to `ext`. */
  ghost predicate EndsWithExtension(name: string, ext: string) {
    && |ext| < |name|
    && Lower(name[|name| - |ext|..]) == ext
    && HasNamedStem(name[..|name| - |ext|])
  }

  /** A suffix that lower-cases to a supported extension starts with its only
      dot and holds no separator. */
  lemma SupportedSuffixShape(name: string, e: string)
    requires e in SupportedExts && |e| <= |name|
    requires Lower(name[|name| - |e|..]) == e
    ensures name[|name| - |e|] == ExtSep
    ensures forall j :: |name| - |e| < j < |name| ==> name[j] != ExtSep && name[j] != PathSep
  {
  }

  lemma SupportedOnlyIf(name: string)
    requires Lower(SplitExt(name).1) in SupportedExts
    ensures EndsWithExtension(name, Lower(SplitExt(name).1))
  {
  }

  lemma SupportedIf(name: string, e: string)
    requires e in SupportedExts && EndsWithExtension(name, e)
    ensures Lower(SplitExt(name).1) in SupportedExts
  {
    var k := |name| - |e|;
    var stem := name[..k];
    SupportedSuffixShape(name, e);
    var dotIndex := LastIndexOf(name, ExtSep);
    assert dotIndex == k;
    var i :| 0 <= i < |stem| && stem[i] != ExtSep && NoSepFrom(stem, i);
    assert name[i] == stem[i];
    forall j | i <= j < |name|
      ensures name[j] != PathSep
    {
      if j < k { assert stem[j] == name[j]; }
    }
    var sepIndex := LastIndexOf(name, PathSep);
    assert sepIndex < i;
    assert HasNonDot(name, sepIndex + 1, dotIndex);
    assert SplitExt(name).1 == name[k..];
  }

  /** The extension test agrees with its declarative reading. */
  lemma SupportedIff(name: string)
    ensures Lower(SplitExt(name).1) in SupportedExts
            <==> EndsWithExtension(name, ".jpg") || EndsWithExtension(name, ".jpeg")
  {
    if Lower(SplitExt(name).1) in SupportedExts {
      SupportedOnlyIf(name);
    } else if EndsWithExtension(name, ".jpg") {
      SupportedIf(name, ".jpg");
    } else if EndsWithExtension(name, ".jpeg") {
      SupportedIf(name, ".jpeg");
    }
  }

  /**
   * The scanner's file test. A name is accepted exactly when it ends, ignoring
   * ASCII case, in `.jpg` or `.jpeg` after a stem whose final component is not
   * all dots.
   */
  predicate IsSupported(name: string): (r: bool)
    ensures r <==> EndsWithExtension(name, ".jpg") || EndsWithExtension(name, ".jpeg")
  {
    SupportedIff(name);
    Lower(SplitExt(name).1) in SupportedExts
  }

  /** Case does not matter. */
  lemma UpperCaseAccepted()
    ensures IsSupported("IMG_0001.JPG")
  {
    var name := "IMG_0001.JPG";
    assert Lower(name[8..]) == ".jpg";
    assert name[..8][0] != ExtSep && NoSepFrom(name[..8], 0);
    SupportedIf(name, ".jpg");
  }

  /** A dot-file name still carries an extension after its first character. */
  lemma DotFileAccepted()
    ensures IsSupported(".hidden.jpeg")
  {
    var name := ".hidden.jpeg";
    assert Lower(name[7..]) == ".jpeg";
    assert name[..7][1] != ExtSep && NoSepFrom(name[..7], 1);
    SupportedIf(name, ".jpeg");
  }

  /** Leading dots do not start an extension. */
  lemma BareExtensionRejected()
    ensures !IsSupported(".jpg")
    ensures !IsSupported("..jpg")
  {
  }

  /** Only the last dot counts. */
  lemma InnerExtensionRejected()
    ensures !IsSupported("a.jpg.txt")
  {
  }
}
