/**
  Worked inputs for the asset-naming callback: the second dot-separated field
  is the extension, classification is unanchored and ignores ASCII case, images
  win over fonts, and any other extension is kept as written.
 */
module AssetNamingScenarios {
  import opened Wrappers
  import opened JsString
  import opened ViteConfig

  /** Absent, dot-free and trailing-dot names have no extension. */
  lemma EmptyExtensions()
    ensures Extension(None) == ""
    ensures Extension(Some("")) == ""
    ensures Extension(Some("logo")) == ""
    ensures Extension(Some("a.")) == ""
  {
    ExtensionIsSecondField("a", "", "");
  }

  /** A multi-dot name yields its second field, not its last one. */
  lemma MultiDotExtensions()
    ensures Extension(Some("a.b.c")) == "b"
    ensures Extension(Some("archive.tar.gz")) == "tar"
  {
    assert "a.b.c" == "a" + "." + "b" + ".c";
    ExtensionIsSecondField("a", "b", ".c");
    assert "archive.tar.gz" == "archive" + "." + "tar" + ".gz";
    ExtensionIsSecondField("archive", "tar", ".gz");
  }

  /** The plain image extension. */
  lemma LowerCaseImage()
    ensures Classify("png") == "img"
  {
    assert MatchesIgnoringCase(IMAGE_PATTERN, "png") by {
      assert Lower("png") == "png";
      assert OccursAt(IMAGE_PATTERN[0], "png", 0);
    }
  }

  /** An upper-case image extension is still an image. */
  lemma UpperCaseImage()
    ensures Classify("PNG") == "img"
  {
    assert MatchesIgnoringCase(IMAGE_PATTERN, "PNG") by {
      assert Lower("PNG") == "png";
      assert OccursAt(IMAGE_PATTERN[0], "png", 0);
    }
  }

  /** The image test is unanchored: `svg` inside `svgz` matches. */
  lemma UnanchoredImage()
    ensures Classify("svgz") == "img"
  {
    assert MatchesIgnoringCase(IMAGE_PATTERN, "svgz") by {
      assert Lower("svgz") == "svgz";
      assert OccursAt(IMAGE_PATTERN[4], "svgz", 0);
    }
  }

  /** An extension carrying both an image and a font literal goes to img. */
  lemma ImageBeforeFont()
    ensures Classify("pngwoff") == "img"
  {
    assert MatchesIgnoringCase(IMAGE_PATTERN, "pngwoff") by {
      assert Lower("pngwoff") == "pngwoff";
      assert OccursAt(IMAGE_PATTERN[0], "pngwoff", 0);
    }
  }

  /** `woff2` is a font and no image. */
  lemma Woff2IsFont()
    ensures Classify("woff2") == "fonts"
  {
    assert !MatchesIgnoringCase(IMAGE_PATTERN, "woff2") by {
      assert Lower("woff2") == "woff2";
      AbsentCharExcludes(IMAGE_PATTERN, "woff2", [0, 0, 0, 0, 0, 1]);
    }
    assert MatchesIgnoringCase(FONT_PATTERN, "woff2") by {
      assert Lower("woff2") == "woff2";
      assert OccursAt(FONT_PATTERN[1], "woff2", 0);
    }
  }

  /** The font test is unanchored too: `ttf` inside `xttfx` matches. */
  lemma UnanchoredFont()
    ensures Classify("xttfx") == "fonts"
  {
    assert !MatchesIgnoringCase(IMAGE_PATTERN, "xttfx") by {
      assert Lower("xttfx") == "xttfx";
      AbsentCharExcludes(IMAGE_PATTERN, "xttfx", [0, 0, 0, 0, 0, 0]);
    }
    assert MatchesIgnoringCase(FONT_PATTERN, "xttfx") by {
      assert Lower("xttfx") == "xttfx";
      assert OccursAt(FONT_PATTERN[3], "xttfx", 1);
    }
  }

  /** An extension in neither list is kept with its original case. */
  lemma OtherKeepsCase()
    ensures Classify("CSS") == "CSS"
  {
    assert !MatchesIgnoringCase(IMAGE_PATTERN, "CSS") by {
      assert Lower("CSS") == "css";
      AbsentCharExcludes(IMAGE_PATTERN, "css", [0, 0, 0, 0, 1, 0]);
    }
    assert !MatchesIgnoringCase(FONT_PATTERN, "CSS") by {
      assert Lower("CSS") == "css";
      AbsentCharExcludes(FONT_PATTERN, "css", [0, 0, 0, 0, 0]);
    }
  }

  /** A stylesheet extension is in neither list. */
  lemma CssIsOther()
    ensures Classify("css") == "css"
  {
    assert !MatchesIgnoringCase(IMAGE_PATTERN, "css") by {
      assert Lower("css") == "css";
      AbsentCharExcludes(IMAGE_PATTERN, "css", [0, 0, 0, 0, 1, 0]);
    }
    assert !MatchesIgnoringCase(FONT_PATTERN, "css") by {
      assert Lower("css") == "css";
      AbsentCharExcludes(FONT_PATTERN, "css", [0, 0, 0, 0, 0]);
    }
  }

  /** Nor is the first extension of an archive, although it shares letters with `ttf`. */
  lemma TarIsOther()
    ensures Classify("tar") == "tar"
  {
    assert !MatchesIgnoringCase(IMAGE_PATTERN, "tar") by {
      assert Lower("tar") == "tar";
      AbsentCharExcludes(IMAGE_PATTERN, "tar", [0, 0, 0, 0, 0, 0]);
    }
    assert !MatchesIgnoringCase(FONT_PATTERN, "tar") by {
      assert Lower("tar") == "tar";
      AbsentCharExcludes(FONT_PATTERN, "tar", [0, 0, 0, 2, 0]);
    }
  }

  /** The empty extension matches nothing and stays empty. */
  lemma EmptyIsOther()
    ensures Classify("") == ""
  {
    assert !MatchesIgnoringCase(IMAGE_PATTERN, "") by {
      AbsentCharExcludes(IMAGE_PATTERN, "", [0, 0, 0, 0, 0, 0]);
    }
    assert !MatchesIgnoringCase(FONT_PATTERN, "") by {
      AbsentCharExcludes(FONT_PATTERN, "", [0, 0, 0, 0, 0]);
    }
  }

  /** Any dot-free stem with a `.png` extension is filed under assets/img/. */
  lemma ImageAssetPath(stem: string)
    requires '.' !in stem
    ensures AssetFileNames(Some(stem + ".png")) == ASSETS_PREFIX + "img" + ASSET_SUFFIX
  {
    var name := Some(stem + ".png");
    assert Extension(name) == "png" by {
      assert stem + ".png" == stem + "." + "png" + "";
      ExtensionIsSecondField(stem, "png", "");
    }
    LowerCaseImage();
  }

  /** Any dot-free stem with a `.woff2` extension is filed under assets/fonts/. */
  lemma FontAssetPath(stem: string)
    requires '.' !in stem
    ensures AssetFileNames(Some(stem + ".woff2")) == ASSETS_PREFIX + "fonts" + ASSET_SUFFIX
  {
    var name := Some(stem + ".woff2");
    assert Extension(name) == "woff2" by {
      assert stem + ".woff2" == stem + "." + "woff2" + "";
      ExtensionIsSecondField(stem, "woff2", "");
    }
    Woff2IsFont();
  }

  /** Any dot-free stem with a `.css` extension is filed under a directory named after it. */
  lemma StylesheetAssetPath(stem: string)
    requires '.' !in stem
    ensures AssetFileNames(Some(stem + ".css")) == ASSETS_PREFIX + "css" + ASSET_SUFFIX
  {
    var name := Some(stem + ".css");
    assert Extension(name) == "css" by {
      assert stem + ".css" == stem + "." + "css" + "";
      ExtensionIsSecondField(stem, "css", "");
    }
    CssIsOther();
  }

  /** A double extension is filed under its first extension: `.tar.gz` goes to assets/tar/. */
  lemma ArchiveAssetPath(stem: string)
    requires '.' !in stem
    ensures AssetFileNames(Some(stem + ".tar.gz")) == ASSETS_PREFIX + "tar" + ASSET_SUFFIX
  {
    var name := Some(stem + ".tar.gz");
    assert Extension(name) == "tar" by {
      assert stem + ".tar.gz" == stem + "." + "tar" + ".gz";
      ExtensionIsSecondField(stem, "tar", ".gz");
    }
    TarIsOther();
  }

  /** An absent name leaves the directory segment empty: the prefix's slash is followed at once by the suffix's. */
  lemma AbsentNameAssetPath()
    ensures AssetFileNames(None) == ASSETS_PREFIX + ASSET_SUFFIX
  {
    EmptyIsOther();
    assert ASSETS_PREFIX + "" + ASSET_SUFFIX == ASSETS_PREFIX + ASSET_SUFFIX;
  }
}
