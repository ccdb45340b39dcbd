/** `parseFileName` of src/utils/sceneParser.ts: one image file name
    `order_scene_version.ext` becomes a parsed record, or nothing. */
module SceneParser {
  import opened Wrappers
  import opened Text
  import opened Numbers

  /** `ParsedScene`: the display names, the file name as given, the image URL (left
      empty by the parser) and the order number. */
  datatype ParsedScene = ParsedScene(
    sceneName: string,
    versionName: string,
    fileName: string,
    imageUrl: string,
    order: int)

  /** The suffixes `/\.(png|jpg|jpeg|webp)$/i` matches, in lower case. */
  const ImageExtensions: seq<string> := [".png", ".jpg", ".jpeg", ".webp"]

  /** `s` ends with `ext` when the case of ASCII letters is ignored. */
  predicate EndsWithIgnoringCase(s: string, ext: string) {
    |ext| <= |s| && ToLowerAscii(s[|s| - |ext|..]) == ext
  }

  predicate HasImageExtension(fileName: string) {
    exists e | e in ImageExtensions :: EndsWithIgnoringCase(fileName, e)
  }

  /** `fileName.replace(/\.(png|jpg|jpeg|webp)$/i, '')`: one recognised extension
      is removed from the very end, whatever its letter case. */
  function StripImageExtension(fileName: string): (r: string)
    ensures r <= fileName
    ensures r == fileName <==> !HasImageExtension(fileName)
    ensures r != fileName ==> ToLowerAscii(fileName[|r|..]) in ImageExtensions
  {
    if EndsWithIgnoringCase(fileName, ".png") then
      assert ImageExtensions[0] == ".png";
      fileName[..|fileName| - 4]
    else if EndsWithIgnoringCase(fileName, ".jpg") then
      assert ImageExtensions[1] == ".jpg";
      fileName[..|fileName| - 4]
    else if EndsWithIgnoringCase(fileName, ".jpeg") then
      assert ImageExtensions[2] == ".jpeg";
      fileName[..|fileName| - 5]
    else if EndsWithIgnoringCase(fileName, ".webp") then
      assert ImageExtensions[3] == ".webp";
      fileName[..|fileName| - 5]
    else
      assert forall e | e in ImageExtensions :: e == ".png" || e == ".jpg" || e == ".jpeg" || e == ".webp";
      fileName
  }

  /** `parseFileName`: strip the extension, split on `_` into exactly three parts,
      read the first with `parseInt(_, 10)`, and turn every `-` of the other two
      into a space. */
  function ParseFileName(fileName: string): (r: Option<ParsedScene>)
    ensures r.Some? ==> r.value.fileName == fileName && r.value.imageUrl == ""
    ensures r.Some? ==> Count(StripImageExtension(fileName), '_') == 2
    ensures r.Some? ==> '-' !in r.value.sceneName && '-' !in r.value.versionName
    ensures r.Some? ==> '_' !in r.value.sceneName && '_' !in r.value.versionName
  {
    var nameWithoutExt := StripImageExtension(fileName);
    var parts := Split(nameWithoutExt, '_');
    if |parts| != 3 then None
    else
      var order := ParseInt(parts[0]);
      if order.None? then None
      else
        var sceneName := ReplaceChar(parts[1], '-', ' ');
        var versionName := ReplaceChar(parts[2], '-', ' ');
        assert parts[1] in parts && parts[2] in parts;
        Some(ParsedScene(sceneName, versionName, fileName, "", order.value))
  }

  /** The file name `order_scene_version` followed by `ext`. */
  function ComposeFileName(order: int, scenePart: string, versionPart: string, ext: string): string {
    IntToDecimal(order) + "_" + scenePart + "_" + versionPart + ext
  }

  // ----- which names are rejected -----

  /** `null` exactly when the name without its extension does not hold exactly two
      underscores, or when its first part has no leading integer. */
  lemma ParseFileNameFails(fileName: string)
    ensures var stem := StripImageExtension(fileName);
      ParseFileName(fileName).None?
      <==> Count(stem, '_') != 2 || ParseInt(Split(stem, '_')[0]).None?
  {
  }

  /** On success the name without its extension is the three parts joined by `_`,
      and the display names are the second and third parts with each `-` made a
      space, of the same lengths. */
  lemma ParseFileNameParts(fileName: string)
    requires ParseFileName(fileName).Some?
    ensures var stem, r := StripImageExtension(fileName), ParseFileName(fileName).value;
      var parts := Split(stem, '_');
      && |parts| == 3
      && stem == parts[0] + "_" + parts[1] + "_" + parts[2]
      && ParseInt(parts[0]) == Some(r.order)
      && r.sceneName == ReplaceChar(parts[1], '-', ' ') && |r.sceneName| == |parts[1]|
      && r.versionName == ReplaceChar(parts[2], '-', ' ') && |r.versionName| == |parts[2]|
  {
    var stem := StripImageExtension(fileName);
    var parts := Split(stem, '_');
    assert |parts| == 3;
    assert stem == parts[0] + "_" + parts[1] + "_" + parts[2] by {
      SplitJoin(stem, '_');
      JoinThree(parts, '_');
    }
  }

  /** Any underscore-free parts joined as `a_b_c`, with a first part that has a
      leading integer, are accepted. */
  lemma ParseStem(fileName: string, a: string, b: string, c: string)
    requires StripImageExtension(fileName) == a + "_" + b + "_" + c
    requires '_' !in a && '_' !in b && '_' !in c
    requires ParseInt(a).Some?
    ensures ParseFileName(fileName)
         == Some(ParsedScene(ReplaceChar(b, '-', ' '), ReplaceChar(c, '-', ' '), fileName, "",
                             ParseInt(a).value))
  {
    var stem := StripImageExtension(fileName);
    var parts := Split(stem, '_');
    assert parts == [a, b, c] by {
      SplitThree(a, b, c, '_');
    }
    assert parts[0] == a && parts[1] == b && parts[2] == c;
  }

  /** Three underscore-free parts whose first has no leading integer are rejected. */
  lemma ParseStemRejects(fileName: string, a: string, b: string, c: string)
    requires StripImageExtension(fileName) == a + "_" + b + "_" + c
    requires '_' !in a && '_' !in b && '_' !in c
    requires ParseInt(a).None?
    ensures ParseFileName(fileName).None?
  {
    var parts := Split(StripImageExtension(fileName), '_');
    assert parts == [a, b, c] by {
      SplitThree(a, b, c, '_');
    }
    assert parts[0] == a;
  }

  lemma StripAddedExtension(stem: string, ext: string)
    requires ToLowerAscii(ext) in ImageExtensions
    ensures StripImageExtension(stem + ext) == stem
  {
    var s, lower := stem + ext, ToLowerAscii(ext);
    LowerSuffix(stem, ext, 4);
    if |ext| == 4 {
      assert lower == ".png" || lower == ".jpg";
      assert EndsWithIgnoringCase(s, lower);
    } else {
      assert lower == ".jpeg" || lower == ".webp";
      assert lower[1..] != ".png" && lower[1..] != ".jpg" by {
        assert lower[1..][0] != '.';
      }
      assert !EndsWithIgnoringCase(s, ".png") && !EndsWithIgnoringCase(s, ".jpg");
      LowerSuffix(stem, ext, 5);
      assert EndsWithIgnoringCase(s, lower);
    }
    assert s[..|s| - |ext|] == stem;
  }

  /** The lower-cased last `n` characters of `stem + ext` are those of `ext`. */
  lemma LowerSuffix(stem: string, ext: string, n: nat)
    requires n <= |ext|
    ensures var s := stem + ext; ToLowerAscii(s[|s| - n..]) == ToLowerAscii(ext)[|ext| - n..]
  {
    var s := stem + ext;
    var t := s[|s| - n..];
    assert forall i :: 0 <= i < n ==> t[i] == ext[|ext| - n + i];
  }

  /** Round trip: composing a name from an order, two underscore-free parts and any
      recognised extension, then parsing it, gives back the order and the parts
      with dashes made spaces. */
  lemma ParseComposed(order: int, scenePart: string, versionPart: string, ext: string)
    requires '_' !in scenePart && '_' !in versionPart
    requires ToLowerAscii(ext) in ImageExtensions
    ensures var fileName := ComposeFileName(order, scenePart, versionPart, ext);
      ParseFileName(fileName)
      == Some(ParsedScene(ReplaceChar(scenePart, '-', ' '), ReplaceChar(versionPart, '-', ' '),
                          fileName, "", order))
  {
    var digits := IntToDecimal(order);
    var stem := digits + "_" + scenePart + "_" + versionPart;
    var fileName := ComposeFileName(order, scenePart, versionPart, ext);
    assert fileName == stem + ext;
    StripAddedExtension(stem, ext);
    ParseIntOfDecimal(order, "");
    assert digits + "" == digits;
    assert '_' !in digits by {
      DecimalChars(order);
    }
    ParseStem(fileName, digits, scenePart, versionPart);
  }
}
