/**
 * The pure string logic of lib/utils/file-utils.ts: `sanitizeForPath` (which
 * src-tauri/src/commands.rs repeats step for step as `sanitize_for_path`), and the
 * image directory and destination file name that `pickAndSaveImage` builds.
 */
module FileUtils {
  import opened Text
  import opened Validation

  /** No two adjacent occurrences of `c`. */
  predicate NoRepeat(s: string, c: char) {
    forall i :: 0 <= i < |s| - 1 ==> !(s[i] == c && s[i + 1] == c)
  }

  /** `replace(/[/\\?%*:|"<>.,;=]/g, "-")`: every unsafe character becomes a hyphen. */
  function ReplaceUnsafe(s: string): (r: string)
    ensures |r| == |s|
    ensures SafeText(r)
    ensures forall i :: 0 <= i < |s| ==> r[i] == (if IsUnsafe(s[i]) then '-' else s[i])
  {
    if s == [] then [] else [if IsUnsafe(s[0]) then '-' else s[0]] + ReplaceUnsafe(s[1..])
  }

  /** `replace(/\s+/g, "_")`: every maximal run of whitespace becomes one underscore. */
  function UnderscoreWhitespace(s: string): (r: string)
    ensures |r| <= |s| && (r == [] <==> s == [])
    ensures s != [] ==> r[0] == (if IsWhitespace(s[0]) then '_' else s[0])
    ensures NoWhitespace(r)
    ensures forall x :: x in r ==> x in s || x == '_'
    ensures SafeText(s) ==> SafeText(r)
  {
    if s == [] then []
    else if IsWhitespace(s[0]) && |s| > 1 && IsWhitespace(s[1]) then UnderscoreWhitespace(s[1..])
    else [if IsWhitespace(s[0]) then '_' else s[0]] + UnderscoreWhitespace(s[1..])
  }

  /** Text without whitespace is left as it is. */
  lemma {:induction false} UnderscoreIdentity(s: string)
    requires NoWhitespace(s)
    ensures UnderscoreWhitespace(s) == s
    decreases |s|
  {
    if s != [] {
      assert NoWhitespace(s[1..]) by {
        forall k | 0 <= k < |s| - 1 ensures !IsWhitespace(s[1..][k]) {
          assert s[1..][k] == s[k + 1];
        }
      }
      UnderscoreIdentity(s[1..]);
      assert s == [s[0]] + s[1..];
    }
  }

  /**
   * Underscoring works run by run: cutting the string where no whitespace run is split
   * gives the underscored pieces side by side. With `UnderscoreRun`, and a character that
   * is not whitespace left alone, this fixes the result: each whitespace run becomes one
   * `_`, and every other character stays where it was.
   */
  lemma {:induction false} UnderscoreAppend(a: string, b: string)
    requires !(a != [] && b != [] && IsWhitespace(a[|a| - 1]) && IsWhitespace(b[0]))
    ensures UnderscoreWhitespace(a + b) == UnderscoreWhitespace(a) + UnderscoreWhitespace(b)
    decreases |a|
  {
    if a == [] {
      assert a + b == b;
    } else if |a| == 1 {
      assert (a + b)[1..] == b;
    } else {
      var ab := a + b;
      var rest := UnderscoreWhitespace(a[1..]) + UnderscoreWhitespace(b);
      assert UnderscoreWhitespace(ab[1..]) == rest by {
        assert ab[1..] == a[1..] + b;
        UnderscoreAppend(a[1..], b);
      }
      assert ab[0] == a[0] && ab[1] == a[1];
    }
  }

  /** A non-empty run of whitespace becomes one underscore. */
  lemma {:induction false} UnderscoreRun(w: string)
    requires w != [] && AllWhitespace(w)
    ensures UnderscoreWhitespace(w) == "_"
    decreases |w|
  {
    if |w| > 1 {
      assert AllWhitespace(w[1..]) by {
        forall k | 0 <= k < |w| - 1 ensures IsWhitespace(w[1..][k]) {
          assert w[1..][k] == w[k + 1];
        }
      }
      UnderscoreRun(w[1..]);
    }
  }

  /** `replace(/c+/g, c)`: every run of `c` shrinks to a single `c`; nothing else changes. */
  function Squeeze(s: string, c: char): (r: string)
    ensures |r| <= |s| && (r == [] <==> s == [])
    ensures s != [] ==> r[0] == s[0]
    ensures forall x :: x in r ==> x in s
    ensures NoRepeat(r, c)
    ensures NoRepeat(s, c) ==> r == s
  {
    if |s| <= 1 then s
    else if s[0] == c && s[1] == c then Squeeze(s[1..], c)
    else [s[0]] + Squeeze(s[1..], c)
  }

  /**
   * Squeezing works run by run: cutting the string where no run of `c` is split gives
   * the squeezed pieces side by side. With `SqueezeRun`, and `Squeeze` leaving a single
   * character alone, this fixes the result: each run of `c` becomes one `c`, and every
   * other character stays where it was.
   */
  lemma {:induction false} SqueezeAppend(a: string, b: string, c: char)
    requires !(a != [] && b != [] && a[|a| - 1] == c && b[0] == c)
    ensures Squeeze(a + b, c) == Squeeze(a, c) + Squeeze(b, c)
    decreases |a|
  {
    if a == [] {
      assert a + b == b;
    } else if |a| == 1 {
      if b != [] {
        assert (a + b)[1..] == b;
      }
    } else {
      assert (a + b)[0] == a[0] && (a + b)[1] == a[1];
      assert (a + b)[1..] == a[1..] + b;
      SqueezeAppend(a[1..], b, c);
    }
  }

  /** A run of `c` of any length shrinks to a single `c`. */
  lemma {:induction false} SqueezeRun(n: nat, c: char)
    requires n >= 1
    ensures Squeeze(seq(n, _ => c), c) == [c]
  {
    if n > 1 {
      var run := seq(n, _ => c);
      assert run[1..] == seq(n - 1, _ => c);
      SqueezeRun(n - 1, c);
    }
  }

  /** Squeezing one character never creates a run of another: adjacent pairs only disappear. */
  lemma {:induction false} SqueezeKeepsNoRepeat(s: string, c: char, d: char)
    requires NoRepeat(s, d)
    ensures NoRepeat(Squeeze(s, c), d)
    decreases |s|
  {
    if |s| > 1 {
      var t := s[1..];
      forall i | 0 <= i < |t| - 1 ensures !(t[i] == d && t[i + 1] == d) {
        assert t[i] == s[i + 1] && t[i + 1] == s[i + 2];
      }
      SqueezeKeepsNoRepeat(t, c, d);
    }
  }

  /** Upper-casing keeps a string free of `c` runs when `c` is not a letter. */
  lemma UpperKeepsNoRepeat(s: string, c: char)
    requires NoRepeat(s, c) && !IsLower(c) && !('A' <= c <= 'Z')
    ensures NoRepeat(Upper(s), c)
  {
    var u := Upper(s);
    forall i | 0 <= i < |u| - 1 ensures !(u[i] == c && u[i + 1] == c) {
      assert u[i] == ToUpper(s[i]) && u[i + 1] == ToUpper(s[i + 1]);
    }
  }

  /** Upper-casing introduces neither unsafe characters nor whitespace. */
  lemma UpperKeepsClasses(s: string)
    requires SafeText(s) && NoWhitespace(s)
    ensures SafeText(Upper(s)) && NoWhitespace(Upper(s)) && NoLower(Upper(s))
  {
    var u := Upper(s);
    forall i | 0 <= i < |u| ensures !IsUnsafe(u[i]) && !IsWhitespace(u[i]) {
      assert u[i] == ToUpper(s[i]);
    }
  }

  /** A string with no unsafe character and no whitespace, kept by a step that only drops characters. */
  lemma SubsetKeepsClasses(s: string, r: string)
    requires SafeText(s) && NoWhitespace(s)
    requires forall x :: x in r ==> x in s
    ensures SafeText(r) && NoWhitespace(r)
  {
    forall i | 0 <= i < |r| ensures !IsUnsafe(r[i]) && !IsWhitespace(r[i]) {
      assert r[i] in s;
    }
  }

  /**
   * `sanitizeForPath` / `sanitize_for_path`: empty input gives ""; otherwise trim, unsafe
   * characters to `-`, whitespace runs to `_`, `-` runs and `_` runs squeezed, upper-cased.
   * The result is empty exactly for blank input, and holds no unsafe character, no
   * whitespace, no lower-case letter, no `--` and no `__`.
   */
  function SanitizeForPath(input: string): (r: string)
    ensures input == [] ==> r == []
    ensures r == [] <==> AllWhitespace(input)
    ensures SafeText(r) && NoWhitespace(r) && NoLower(r)
    ensures NoRepeat(r, '-') && NoRepeat(r, '_')
  {
    if input == [] then []
    else
      var trimmed := Trim(input);
      var hyphenated := ReplaceUnsafe(trimmed);
      var underscored := UnderscoreWhitespace(hyphenated);
      var fewerHyphens := Squeeze(underscored, '-');
      var fewerUnderscores := Squeeze(fewerHyphens, '_');
      SubsetKeepsClasses(underscored, fewerHyphens);
      SubsetKeepsClasses(fewerHyphens, fewerUnderscores);
      SqueezeKeepsNoRepeat(fewerHyphens, '_', '-');
      UpperKeepsClasses(fewerUnderscores);
      UpperKeepsNoRepeat(fewerUnderscores, '-');
      UpperKeepsNoRepeat(fewerUnderscores, '_');
      Upper(fewerUnderscores)
  }

  /** A sanitised segment never trips `containsUnsafePath`. */
  lemma SanitizedSegmentIsSafe(input: string)
    ensures !ContainsUnsafePath(SanitizeForPath(input))
  {
  }

  /** A name that passes validation yields a non-empty path segment. */
  lemma ValidNameGivesSegment(name: string)
    requires ValidateProductName(name) || ValidateVariantHandle(name)
    ensures SanitizeForPath(name) != []
  {
  }

  /** A segment that is already clean is its own sanitisation. */
  lemma SanitizeClean(s: string)
    requires SafeText(s) && NoWhitespace(s) && NoLower(s)
    requires NoRepeat(s, '-') && NoRepeat(s, '_')
    ensures SanitizeForPath(s) == s
  {
    if s != [] {
      assert Trim(s) == s;
      assert ReplaceUnsafe(s) == s by {
        var h := ReplaceUnsafe(s);
        assert forall i :: 0 <= i < |s| ==> h[i] == s[i];
      }
      UnderscoreIdentity(s);
      assert Squeeze(s, '-') == s;
      assert Squeeze(s, '_') == s;
      UpperIdentity(s);
    }
  }

  /** Sanitising twice gives what sanitising once gives. */
  lemma SanitizeIdempotent(input: string)
    ensures SanitizeForPath(SanitizeForPath(input)) == SanitizeForPath(input)
  {
    SanitizeClean(SanitizeForPath(input));
  }

  /** The application identifier that prefixes the image and barcode trees. */
  const AppIdentifier: string := "org.lichtlabs.inventorymgmt"

  /** `dataDir` without one trailing `/`. */
  function StripTrailingSlash(dataDir: string): (r: string)
    ensures dataDir != [] && dataDir[|dataDir| - 1] == '/' ==> dataDir == r + "/"
    ensures !(dataDir != [] && dataDir[|dataDir| - 1] == '/') ==> r == dataDir
  {
    if dataDir != [] && dataDir[|dataDir| - 1] == '/' then dataDir[..|dataDir| - 1] else dataDir
  }

  /** `/images/<product>/<variant>`, the tail of every image directory. */
  function ImageTail(productName: string, variantHandle: string): string {
    "/images/" + SanitizeForPath(productName) + "/" + SanitizeForPath(variantHandle)
  }

  /**
   * The image directory of `pickAndSaveImage`: the data directory without its trailing
   * slash, then the application identifier unless the directory already contains it,
   * then `images/<sanitised product>/<sanitised variant>`.
   */
  function ImageDir(dataDir: string, productName: string, variantHandle: string): (r: string)
    ensures Contains(r, AppIdentifier)
    ensures var base := StripTrailingSlash(dataDir);
      Contains(base, AppIdentifier) ==> r == base + ImageTail(productName, variantHandle)
    ensures var base := StripTrailingSlash(dataDir);
      !Contains(base, AppIdentifier) ==> r == base + "/" + AppIdentifier + ImageTail(productName, variantHandle)
  {
    var base := StripTrailingSlash(dataDir);
    var tail := ImageTail(productName, variantHandle);
    if Contains(base, AppIdentifier) then
      ContainsExtend(base, tail, AppIdentifier);
      base + tail
    else
      ContainsMiddle(base + "/", AppIdentifier, tail);
      base + "/" + AppIdentifier + tail
  }

  /** The extension of the picked file: the text after its last `.`, or "png" when that is empty. */
  function FileExtension(sourcePath: string): (ext: string)
    ensures ext != [] && '.' !in ext
    ensures LastPiece(sourcePath, '.') == [] ==> ext == "png"
    ensures LastPiece(sourcePath, '.') != [] ==> ext == LastPiece(sourcePath, '.')
  {
    var piece := LastPiece(sourcePath, '.');
    if piece == [] then
      assert "png" == ['p', 'n', 'g'];
      "png"
    else piece
  }

  /** A path with a `.` and text after its last `.` keeps that text as its extension. */
  lemma ExtensionAfterLastDot(stem: string, ext: string)
    requires ext != [] && '.' !in ext
    ensures FileExtension(stem + "." + ext) == ext
  {
    LastPieceOfJoin(stem, ext);
  }

  lemma {:induction false} LastPieceOfJoin(stem: string, ext: string)
    requires '.' !in ext
    ensures LastPiece(stem + "." + ext, '.') == ext
    decreases |ext|
  {
    var s := stem + "." + ext;
    if ext == [] {
    } else {
      assert s[..|s| - 1] == stem + "." + ext[..|ext| - 1];
      LastPieceOfJoin(stem, ext[..|ext| - 1]);
      assert ext == ext[..|ext| - 1] + [ext[|ext| - 1]];
    }
  }

  /**
   * A source path without any `.` is taken whole as the extension, directory separators
   * included.
   */
  lemma {:induction false} DotlessPathIsItsOwnExtension(sourcePath: string)
    requires sourcePath != [] && '.' !in sourcePath
    ensures FileExtension(sourcePath) == sourcePath
  {
  }

  /** The fixed start of every copied image's name. */
  const ImagePrefix: string := "product_image_"

  /**
   * The name of the copied image, `product_image_<fileId>.<ext>`: the prefix, then the
   * file id, then one `.`, then the extension.
   */
  function ImageFileName(fileId: string, ext: string): (name: string)
    ensures |name| == |ImagePrefix| + |fileId| + 1 + |ext|
    ensures name[..|ImagePrefix|] == ImagePrefix
    ensures name[|ImagePrefix|..|ImagePrefix| + |fileId|] == fileId
    ensures name[|ImagePrefix| + |fileId|] == '.'
    ensures name[|ImagePrefix| + |fileId| + 1..] == ext
  {
    var name := ImagePrefix + fileId + "." + ext;
    assert name == ImagePrefix + (fileId + "." + ext);
    SplitJoin(ImagePrefix, fileId + "." + ext);
    SplitAround(fileId, '.', ext);
    name
  }

  /**
   * Ids of one length name different files: two copies with different ids (as `nanoid(6)`
   * draws them) never share a name, whatever their extensions.
   */
  lemma ImageNamesDiffer(id1: string, ext1: string, id2: string, ext2: string)
    requires |id1| == |id2| && id1 != id2
    ensures ImageFileName(id1, ext1) != ImageFileName(id2, ext2)
  {
  }

  /**
   * The destination of the copied image, `<imgDir>/product_image_<fileId>.<ext>`: the image
   * name directly inside the image directory.
   */
  function ImageDestination(imgDir: string, sourcePath: string, fileId: string): (r: string)
    ensures |r| > |imgDir| + 1 && r[..|imgDir|] == imgDir && r[|imgDir|] == '/'
    ensures r[|imgDir| + 1..] == ImageFileName(fileId, FileExtension(sourcePath))
  {
    var name := ImageFileName(fileId, FileExtension(sourcePath));
    var tail := "/" + name;
    var r := imgDir + tail;
    SplitJoin(imgDir, tail);
    assert r[|imgDir|] == tail[0] == '/';
    assert r[|imgDir| + 1..] == tail[1..] == name;
    r
  }

  /** Whatever the image directory contains, the destination path contains too. */
  lemma DestinationExtendsDir(imgDir: string, sourcePath: string, fileId: string, sub: string)
    requires Contains(imgDir, sub)
    ensures Contains(ImageDestination(imgDir, sourcePath, fileId), sub)
  {
    var r := ImageDestination(imgDir, sourcePath, fileId);
    assert r == imgDir + r[|imgDir|..];
    ContainsExtend(imgDir, r[|imgDir|..], sub);
  }

  /** Everything `pickAndSaveImage` computes once a file was picked: the destination path. */
  function SavedImagePath(dataDir: string, productName: string, variantHandle: string,
                          sourcePath: string, fileId: string): (r: string)
    ensures Contains(r, AppIdentifier)
  {
    var dir := ImageDir(dataDir, productName, variantHandle);
    DestinationExtendsDir(dir, sourcePath, fileId, AppIdentifier);
    ImageDestination(dir, sourcePath, fileId)
  }
}
