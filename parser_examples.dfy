/** Instances of `parseFileName` on the file names `1_living-room_opt-a.png`,
    `<order>_<scene>_<version>.PNG`, `<...>.png.png` and `<...>.gif`. */
module ParserExamples {
  import opened Wrappers
  import opened Text
  import opened Numbers
  import opened SceneParser

  lemma DashedNames(scene: string, version: string)
    requires scene == "living-room" && version == "opt-a"
    ensures ReplaceChar(scene, '-', ' ') == "living room"
    ensures ReplaceChar(version, '-', ' ') == "opt a"
  {
  }

  /** `1_living-room_opt-a.png` is scene `living room`, version `opt a`, order 1. The
      two parts are parameters fixed by the precondition rather than literals written
      into the file name, which keeps the verifier from unfolding the parser on a
      literal string; `ComposedExampleName` says which file name this is. */
  lemma ExampleDashes(scene: string, version: string)
    requires scene == "living-room" && version == "opt-a"
    ensures var f := ComposeFileName(1, scene, version, ".png");
      ParseFileName(f) == Some(ParsedScene("living room", "opt a", f, "", 1))
  {
    DashedNames(scene, version);
    assert '_' !in scene && '_' !in version by {
      assert forall i :: 0 <= i < |scene| ==> scene[i] != '_';
      assert forall i :: 0 <= i < |version| ==> version[i] != '_';
    }
    assert ToLowerAscii(".png") == ".png";
    ParseComposed(1, scene, version, ".png");
  }

  /** The name composed in `ExampleDashes` is `1_living-room_opt-a.png`. */
  lemma ComposedExampleName(scene: string, version: string)
    requires scene == "living-room" && version == "opt-a"
    ensures ComposeFileName(1, scene, version, ".png") == "1_living-room_opt-a.png"
  {
    assert IntToDecimal(1) == "1";
  }

  /** The extension is recognised whatever its letter case: `.PNG` is removed. */
  lemma ExampleUpperCaseExtension(order: int, scenePart: string, versionPart: string)
    requires '_' !in scenePart && '_' !in versionPart
    ensures StripImageExtension(ComposeFileName(order, scenePart, versionPart, ".PNG"))
      == IntToDecimal(order) + "_" + scenePart + "_" + versionPart
  {
    assert ToLowerAscii(".PNG") == ".png";
    StripAddedExtension(IntToDecimal(order) + "_" + scenePart + "_" + versionPart, ".PNG");
  }

  /** Of two image extensions only the last is removed: the version part keeps the
      first. */
  lemma ExampleDoubleExtension(order: int, scenePart: string, versionBase: string)
    requires '_' !in scenePart && '_' !in versionBase
    ensures var f := ComposeFileName(order, scenePart, versionBase + ".png", ".png");
      ParseFileName(f) == Some(ParsedScene(ReplaceChar(scenePart, '-', ' '),
                                           ReplaceChar(versionBase + ".png", '-', ' '), f, "", order))
  {
    assert '_' !in versionBase + ".png" by {
      assert forall i :: |versionBase| <= i < |versionBase| + 4 ==>
        (versionBase + ".png")[i] == ".png"[i - |versionBase|];
    }
    assert ToLowerAscii(".png") == ".png";
    ParseComposed(order, scenePart, versionBase + ".png", ".png");
  }

  /** A name ending in `.gif` keeps its suffix: the version part is `<base>.gif`. */
  lemma ExampleUnknownExtension(order: int, scenePart: string, versionBase: string)
    requires '_' !in scenePart && '_' !in versionBase
    ensures var f := IntToDecimal(order) + "_" + scenePart + "_" + versionBase + ".gif";
      ParseFileName(f) == Some(ParsedScene(ReplaceChar(scenePart, '-', ' '),
                                           ReplaceChar(versionBase + ".gif", '-', ' '), f, "", order))
  {
    var digits := IntToDecimal(order);
    var head := digits + "_" + scenePart + "_" + versionBase;
    var f := head + ".gif";
    GifKept(head);
    assert f == digits + "_" + scenePart + "_" + (versionBase + ".gif");
    ParseIntOfDecimal(order, "");
    assert digits + "" == digits;
    DecimalChars(order);
    GifNoUnderscore(versionBase);
    ParseStem(f, digits, scenePart, versionBase + ".gif");
  }

  lemma GifKept(head: string)
    ensures StripImageExtension(head + ".gif") == head + ".gif"
  {
    var f := head + ".gif";
    LowerSuffix(head, ".gif", 4);
    assert ToLowerAscii(".gif") == ".gif";
    assert !EndsWithIgnoringCase(f, ".png") && !EndsWithIgnoringCase(f, ".jpg");
    if |f| >= 5 {
      var t := f[|f| - 5..];
      assert t[1] == '.';
      assert ToLowerAscii(t)[1] == '.';
    }
    assert !EndsWithIgnoringCase(f, ".jpeg") && !EndsWithIgnoringCase(f, ".webp");
  }

  lemma GifNoUnderscore(versionBase: string)
    requires '_' !in versionBase
    ensures '_' !in versionBase + ".gif"
  {
    assert forall i :: |versionBase| <= i < |versionBase| + 4 ==>
      (versionBase + ".gif")[i] == ".gif"[i - |versionBase|];
  }
}
