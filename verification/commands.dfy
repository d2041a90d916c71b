/**
 * The pure logic of src-tauri/src/commands.rs: the barcode-safe name, the barcode code
 * `{product}-{variant}`, the `PathBuf` layout of the barcode file and the record that
 * `generate_barcode` returns. `sanitize_for_path` is `FileUtils.SanitizeForPath`: the
 * Rust function applies the same steps to the same character classes.
 */
module Commands {
  import opened Outcomes
  import opened Text
  import opened Validation
  import opened FileUtils

  /** `replace(' ', "")`: every space removed, every other character kept in order. */
  function RemoveSpaces(s: string): (r: string)
    ensures ' ' !in r
    ensures |r| <= |s|
    ensures forall c :: c in r ==> c in s
    ensures ' ' !in s ==> r == s
    ensures s != [] && s[0] != ' ' ==> r != [] && r[0] == s[0]
    ensures s != [] && s[|s| - 1] != ' ' ==> r != [] && r[|r| - 1] == s[|s| - 1]
  {
    if s == [] then []
    else if s[0] == ' ' then RemoveSpaces(s[1..])
    else [s[0]] + RemoveSpaces(s[1..])
  }

  /** Removing spaces works piece by piece, so the kept characters stay in their order. */
  lemma {:induction false} RemoveSpacesAppend(a: string, b: string)
    ensures RemoveSpaces(a + b) == RemoveSpaces(a) + RemoveSpaces(b)
    decreases |a|
  {
    if a == [] {
      assert a + b == b;
    } else {
      assert (a + b)[0] == a[0];
      assert (a + b)[1..] == a[1..] + b;
      RemoveSpacesAppend(a[1..], b);
    }
  }

  /** Every character other than a space is kept: `multiset` counts agree off the space. */
  lemma {:induction false} RemoveSpacesCounts(s: string, c: char)
    requires c != ' '
    ensures multiset(RemoveSpaces(s))[c] == multiset(s)[c]
    decreases |s|
  {
    if s != [] {
      assert s == [s[0]] + s[1..];
      RemoveSpacesCounts(s[1..], c);
    }
  }

  /**
   * `sanitize_for_barcode`: trimmed, spaces deleted, upper-cased. The result has no space
   * and no lower-case letter, and neither starts nor ends with whitespace.
   */
  function SanitizeForBarcode(input: string): (r: string)
    ensures ' ' !in r && NoLower(r)
    ensures |r| <= |input|
    ensures Trimmed(r)
    ensures r == [] <==> AllWhitespace(input)
  {
    var t := Trim(input);
    var k := RemoveSpaces(t);
    TrimmedWithoutSpaces(t);
    UpperOfWord(k);
    Upper(k)
  }

  /** Deleting the spaces of a trimmed string keeps it trimmed and keeps it non-empty. */
  lemma TrimmedWithoutSpaces(t: string)
    requires Trimmed(t)
    ensures var k := RemoveSpaces(t);
      (k == [] <==> t == []) && Trimmed(k)
  {
  }

  /** Upper-casing a string without spaces leaves no space and no lower-case letter, and keeps its ends. */
  lemma UpperOfWord(k: string)
    requires ' ' !in k
    ensures var r := Upper(k);
      ' ' !in r && NoLower(r) && |r| == |k|
    ensures var r := Upper(k);
      Trimmed(k) ==> Trimmed(r)
  {
    var r := Upper(k);
    forall i | 0 <= i < |r| ensures r[i] != ' ' && !IsLower(r[i]) {
      assert r[i] == ToUpper(k[i]);
      assert k[i] in k;
    }
  }

  /** Sanitising a barcode name twice gives what sanitising it once gives. */
  lemma SanitizeForBarcodeIdempotent(input: string)
    ensures SanitizeForBarcode(SanitizeForBarcode(input)) == SanitizeForBarcode(input)
  {
    var r := SanitizeForBarcode(input);
    TrimmedIsFixed(r);
    assert RemoveSpaces(r) == r;
    UpperIdentity(r);
  }

  /** A trimmed name without spaces is only upper-cased, whatever other whitespace it holds. */
  lemma SanitizeForBarcodeOfSpaceless(s: string)
    requires Trimmed(s) && ' ' !in s
    ensures SanitizeForBarcode(s) == Upper(s)
  {
    TrimmedIsFixed(s);
  }

  /** Whitespace other than a space survives inside a name: a tab between two letters is kept. */
  lemma TabKept()
    ensures SanitizeForBarcode("a\tb") == "A\tB"
  {
    var s := "a\tb";
    assert Trimmed(s) && ' ' !in s;
    SanitizeForBarcodeOfSpaceless(s);
    var u := Upper(s);
    assert u[0] == 'A' && u[1] == '\t' && u[2] == 'B';
  }

  /** A name without whitespace is only upper-cased. */
  lemma SanitizeForBarcodeOfWord(s: string)
    requires NoWhitespace(s)
    ensures SanitizeForBarcode(s) == Upper(s)
  {
    assert ' ' !in s by {
      forall i | 0 <= i < |s| ensures s[i] != ' ' {
        assert !IsWhitespace(s[i]);
      }
    }
    SanitizeForBarcodeOfSpaceless(s);
  }

  /** The scanned code: `{product}-{variant}` over the barcode-safe names, which it splits back into. */
  function BarcodeCode(productName: string, variantName: string): (code: string)
    ensures var p := SanitizeForBarcode(productName);
      |code| > |p| && code[..|p|] == p && code[|p|] == '-'
      && code[|p| + 1..] == SanitizeForBarcode(variantName)
  {
    var p := SanitizeForBarcode(productName);
    var v := SanitizeForBarcode(variantName);
    SplitAround(p, '-', v);
    p + "-" + v
  }

  /** The code has no space and no lower-case letter. */
  lemma BarcodeCodeIsOneWord(productName: string, variantName: string)
    ensures ' ' !in BarcodeCode(productName, variantName)
    ensures NoLower(BarcodeCode(productName, variantName))
  {
    var p := SanitizeForBarcode(productName);
    var v := SanitizeForBarcode(variantName);
    assert BarcodeCode(productName, variantName) == p + "-" + v;
    NoLowerAppend(p, "-");
    NoLowerAppend(p + "-", v);
  }

  /** Two codes joined by `-` split back uniquely when the first parts hold no `-`. */
  lemma SplitAtFirstHyphen(a: string, b: string, c: string, d: string)
    requires '-' !in a && '-' !in c
    requires a + "-" + b == c + "-" + d
    ensures a == c && b == d
  {
    var s := a + "-" + b;
    assert forall i :: 0 <= i < |a| ==> s[i] == a[i];
    assert forall i :: 0 <= i < |c| ==> s[i] == c[i];
    assert s[|a|] == '-' && s[|c|] == '-';
    assert |a| == |c|;
    assert a == s[..|a|] == c;
    assert b == s[|a| + 1..] == d;
  }

  /** Names without hyphens give distinct codes to distinct barcode-safe pairs. */
  lemma BarcodeCodeInjective(p1: string, v1: string, p2: string, v2: string)
    requires '-' !in SanitizeForBarcode(p1) && '-' !in SanitizeForBarcode(p2)
    requires BarcodeCode(p1, v1) == BarcodeCode(p2, v2)
    ensures SanitizeForBarcode(p1) == SanitizeForBarcode(p2)
    ensures SanitizeForBarcode(v1) == SanitizeForBarcode(v2)
  {
    var a, b := SanitizeForBarcode(p1), SanitizeForBarcode(v1);
    var c, d := SanitizeForBarcode(p2), SanitizeForBarcode(v2);
    assert BarcodeCode(p1, v1) == a + "-" + b;
    assert BarcodeCode(p2, v2) == c + "-" + d;
    SplitAtFirstHyphen(a, b, c, d);
  }

  /** Upper-casing two names joined by `-` upper-cases each. */
  lemma UpperHyphenJoin(a: string, b: string)
    ensures Upper(a + "-" + b) == Upper(a) + "-" + Upper(b)
  {
    UpperAppend(a + "-", b);
    UpperAppend(a, "-");
    UpperIdentity("-");
  }

  /** Names without whitespace are only upper-cased and joined. */
  lemma BarcodeCodeOfWords(productName: string, variantName: string)
    requires NoWhitespace(productName) && NoWhitespace(variantName)
    ensures BarcodeCode(productName, variantName) == Upper(productName) + "-" + Upper(variantName)
  {
    SanitizeForBarcodeOfWord(productName);
    SanitizeForBarcodeOfWord(variantName);
  }

  /** Joining two names without whitespace by `-` gives a name without whitespace. */
  lemma HyphenJoinNoWhitespace(x: string, y: string)
    requires NoWhitespace(x) && NoWhitespace(y)
    ensures NoWhitespace(x + "-" + y)
  {
    var xy := x + "-" + y;
    forall i | 0 <= i < |xy| ensures !IsWhitespace(xy[i]) {
      if i < |x| {
        assert xy[i] == x[i];
      } else if i > |x| {
        assert xy[i] == y[i - |x| - 1];
      }
    }
  }

  /**
   * A hyphen inside a name makes codes collide: moving the boundary between name and
   * variant across a `-` gives the same code, e.g. ("a-b", "c") and ("a", "b-c") both give "A-B-C".
   */
  lemma BarcodeCodeCollision(x: string, y: string, z: string)
    requires NoWhitespace(x) && NoWhitespace(y) && NoWhitespace(z)
    ensures BarcodeCode(x + "-" + y, z) == BarcodeCode(x, y + "-" + z)
    ensures x + "-" + y != x
  {
    var xy, yz := x + "-" + y, y + "-" + z;
    HyphenJoinNoWhitespace(x, y);
    HyphenJoinNoWhitespace(y, z);
    var ux, uy, uz := Upper(x), Upper(y), Upper(z);
    calc {
      BarcodeCode(xy, z);
      { BarcodeCodeOfWords(xy, z); }
      Upper(xy) + "-" + uz;
      { UpperHyphenJoin(x, y); }
      ux + "-" + uy + "-" + uz;
      ux + "-" + (uy + "-" + uz);
      { UpperHyphenJoin(y, z); }
      ux + "-" + Upper(yz);
      { BarcodeCodeOfWords(x, yz); }
      BarcodeCode(x, yz);
    }
  }

  /**
   * `PathBuf::join` on a `/`-separated path: an absolute part replaces the path; otherwise
   * a separator is added unless the path is empty or already ends in one.
   */
  function JoinPath(base: string, part: string): (r: string)
    ensures part != [] && part[0] == '/' ==> r == part
    ensures (part == [] || part[0] != '/') && base != [] && base[|base| - 1] != '/' ==> r == base + "/" + part
    ensures (part == [] || part[0] != '/') && (base == [] || base[|base| - 1] == '/') ==> r == base + part
  {
    if part != [] && part[0] == '/' then part
    else if base != [] && base[|base| - 1] != '/' then base + "/" + part
    else base + part
  }

  /** The path with one separator at its end, unless it is empty or ends in one already. */
  function WithSeparator(base: string): string {
    if base != [] && base[|base| - 1] != '/' then base + "/" else base
  }

  /** A part that is one directory level: `join` appends it and it holds no separator. */
  predicate Relative(part: string) {
    '/' !in part
  }

  /** A directory level of the save path: the part and a separator, or nothing for an empty part. */
  function Level(part: string): string {
    if part == [] then [] else part + "/"
  }

  /** The part of the save path below the application directory. */
  function BarcodeTail(name: string, handle: string): string {
    "/barcodes/" + Level(name) + Level(handle) + "barcode.png"
  }

  /**
   * `prepare_barcode_path`: `<data dir>/org.lichtlabs.inventorymgmt/barcodes/<name>/<handle>/barcode.png`,
   * where an empty name or handle adds no level.
   */
  function BarcodeSavePath(dataDir: string, name: string, handle: string): (path: string)
    ensures Relative(name) && Relative(handle) ==>
      path == WithSeparator(dataDir) + AppIdentifier + BarcodeTail(name, handle)
  {
    var baseDir := JoinPath(JoinPath(dataDir, AppIdentifier), "barcodes");
    var saveDir := JoinPath(JoinPath(baseDir, name), handle);
    var path := JoinPath(saveDir, "barcode.png");
    if Relative(name) && Relative(handle) then
      SavePathLayout(dataDir, name, handle);
      path
    else path
  }

  lemma SavePathLayout(dataDir: string, name: string, handle: string)
    requires Relative(name) && Relative(handle)
    ensures JoinPath(JoinPath(JoinPath(JoinPath(JoinPath(dataDir, AppIdentifier), "barcodes"), name), handle), "barcode.png")
      == WithSeparator(dataDir) + AppIdentifier + BarcodeTail(name, handle)
  {
    var head := WithSeparator(dataDir) + AppIdentifier;
    var d1 := JoinPath(dataDir, AppIdentifier);
    assert d1 == head;
    assert d1[|d1| - 1] == 't';
    var baseDir := JoinPath(d1, "barcodes");
    assert baseDir == head + "/barcodes";
    LevelsLayout(baseDir, name, handle, "barcode.png");
    assert baseDir + "/" == head + "/barcodes/";
    AppendAssociates(head, "/barcodes/", Level(name), Level(handle), "barcode.png");
  }

  lemma AppendAssociates(a: string, b: string, c: string, d: string, e: string)
    ensures a + b + c + d + e == a + (b + c + d + e)
  {
  }

  /**
   * Joining `next` to a directory `d + part`, where `d` ends in a separator: the part
   * becomes one level of the path and `next` follows it.
   */
  lemma JoinAfterLevel(d: string, part: string, next: string)
    requires d != [] && d[|d| - 1] == '/' && Relative(part)
    requires next == [] || next[0] != '/'
    ensures JoinPath(d + part, next) == d + Level(part) + next
    ensures var e := d + Level(part); e != [] && e[|e| - 1] == '/'
  {
    if part == [] {
      assert d + part == d;
    } else {
      assert part[|part| - 1] in part;
      assert (d + part)[|d + part| - 1] == part[|part| - 1];
      assert d + part + "/" + next == d + (part + "/") + next;
    }
  }

  /** Below a directory that does not end in a separator, the name, handle and file levels. */
  lemma LevelsLayout(baseDir: string, name: string, handle: string, file: string)
    requires baseDir != [] && baseDir[|baseDir| - 1] != '/'
    requires Relative(name) && Relative(handle) && file != [] && file[0] != '/'
    ensures JoinPath(JoinPath(JoinPath(baseDir, name), handle), file)
      == baseDir + "/" + Level(name) + Level(handle) + file
  {
    var d0 := baseDir + "/";
    if name != [] {
      assert name[0] in name;
    }
    if handle != [] {
      assert handle[0] in handle;
    }
    assert JoinPath(baseDir, name) == d0 + name;
    JoinAfterLevel(d0, name, handle);
    var d1 := d0 + Level(name);
    JoinAfterLevel(d1, handle, file);
  }

  /** Sanitised names are relative parts: they hold no `/`. */
  lemma SafeTextIsRelative(s: string)
    requires SafeText(s)
    ensures Relative(s)
  {
    forall i | 0 <= i < |s| ensures s[i] != '/' {
      assert !IsUnsafe(s[i]);
    }
  }

  /** Why `generate_barcode` fails; `anyhow`'s outer context is the message returned. */
  datatype BarcodeError =
    | NoDataDirectory      // "Failed to get data directory"
    | DirectoriesNotCreated // "Failed to create barcode directories"
    | Code39Rejected       // "Failed to create Code39 barcode"
    | JsonNotGenerated     // "Failed to generate JSON from barcode" or "Failed to parse JSON into Barcode struct"

  /** `GenerateBarcodeData` without the encoder's `barcode` bars. */
  datatype BarcodeData = BarcodeData(filePath: string, barcodeCode: string)

  /**
   * `generate_barcode`. The data directory, whether the directories could be created,
   * which strings the Code39 encoder accepts and whether its JSON output could be produced
   * are outside the model and given as parameters. On success the returned `file_path` is
   * the path the PNG is written to, and the code is `BarcodeCode` of the two names.
   */
  function GenerateBarcode(productName: string, variantName: string, dataDir: Option<string>,
                           directoriesCreated: bool, code39Accepts: string -> bool,
                           jsonGenerated: bool): (r: Result<BarcodeData, BarcodeError>)
    ensures dataDir.None? <==> r == Err(NoDataDirectory)
    ensures r.Ok? <==> dataDir.Some? && directoriesCreated
                       && code39Accepts(BarcodeCode(productName, variantName)) && jsonGenerated
    ensures r.Ok? ==> r.value.barcodeCode == BarcodeCode(productName, variantName)
    ensures r.Ok? ==>
      r.value.filePath == BarcodeSavePath(dataDir.value, SanitizeForPath(productName), SanitizeForPath(variantName))
    ensures r.Ok? ==> Contains(r.value.filePath, AppIdentifier)
  {
    match dataDir
    case None => Err(NoDataDirectory)
    case Some(dir) =>
      var savePath := BarcodeSavePath(dir, SanitizeForPath(productName), SanitizeForPath(variantName));
      if !directoriesCreated then Err(DirectoriesNotCreated)
      else
        var code := BarcodeCode(productName, variantName);
        if !code39Accepts(code) then Err(Code39Rejected)
        else if !jsonGenerated then Err(JsonNotGenerated)
        else
          SavePathHasIdentifier(dir, SanitizeForPath(productName), SanitizeForPath(variantName));
          Ok(BarcodeData(savePath, code))
  }

  /** Every barcode path of sanitised names lies under the application's directory. */
  lemma SavePathHasIdentifier(dataDir: string, name: string, handle: string)
    requires SafeText(name) && SafeText(handle)
    ensures Contains(BarcodeSavePath(dataDir, name, handle), AppIdentifier)
  {
    SafeTextIsRelative(name);
    SafeTextIsRelative(handle);
    ContainsMiddle(WithSeparator(dataDir), AppIdentifier, BarcodeTail(name, handle));
  }
}
