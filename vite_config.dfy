/**
  The output naming rules of the bundler configuration in vite.config.ts: the
  `assetFileNames` callback, which files every emitted asset under a directory
  chosen from its extension, and the fixed `chunkFileNames` and
  `entryFileNames` templates.

  `[name]`, `[hash]` and `[extname]` are kept as literal text: the bundler
  substitutes them after the callback has returned.
 */
module ViteConfig {
  import opened Wrappers
  import opened JsString

  /** `/png|jpe?g|gif|svg|webp/i`, with `jpe?g` written out as its two spellings. */
  const IMAGE_PATTERN: seq<string> := ["png", "jpg", "jpeg", "gif", "svg", "webp"]

  /** `/woff2?|eot|ttf|otf/i`, with `woff2?` written out as its two spellings. */
  const FONT_PATTERN: seq<string> := ["woff", "woff2", "eot", "ttf", "otf"]

  const ASSETS_PREFIX: string := "assets/"
  const ASSET_SUFFIX: string := "/[name]-[hash][extname]"

  /** `chunkFileNames`: every shared script chunk goes under assets/js/. */
  const CHUNK_FILE_NAMES: string := "assets/js/[name]-[hash].js"

  /** `entryFileNames`: every entry script goes directly under assets/. */
  const ENTRY_FILE_NAMES: string := "assets/[name]-[hash].js"

  /** A text without upper-case ASCII letters is its own folded form. */
  lemma FoldedWithoutUpper(t: string)
    requires forall j :: 0 <= j < |t| ==> !('A' <= t[j] <= 'Z')
    ensures Lower(t) == t
  {
  }

  /** Both patterns consist of lower-case ASCII literals, so folding the extension alone is the `i` flag's comparison. */
  lemma PatternsAreFolded()
    ensures FoldedLiterals(IMAGE_PATTERN) && FoldedLiterals(FONT_PATTERN)
  {
    forall k | 0 <= k < |IMAGE_PATTERN| ensures Lower(IMAGE_PATTERN[k]) == IMAGE_PATTERN[k] {
      FoldedWithoutUpper(IMAGE_PATTERN[k]);
    }
    forall k | 0 <= k < |FONT_PATTERN| ensures Lower(FONT_PATTERN[k]) == FONT_PATTERN[k] {
      FoldedWithoutUpper(FONT_PATTERN[k]);
    }
  }

  /** The second field of a dot-separated name: its text between the first and the second dot. */
  ghost predicate IsSecondField(n: string, e: string) {
    exists p: string, rest: string {:trigger p + "." + e + rest} ::
      && '.' !in p && '.' !in e && (rest == [] || rest[0] == '.')
      && n == p + "." + e + rest
  }

  /**
    `assetInfo.name?.split('.').at(1) || ''`: the piece after the first dot,
    up to the next dot. An absent name, a name without a dot and a name whose
    second piece is empty all give the empty string.
   */
  function Extension(name: Option<string>): (ext: string)
    ensures '.' !in ext
    ensures name.None? ==> ext == ""
    ensures name.Some? && '.' !in name.value ==> ext == ""
  {
    match name
    case None => OrEmpty(None)
    case Some(n) =>
      var parts := Split(n, '.');
      assert '.' !in n ==> parts == [n] by {
        if '.' !in n { SplitWithoutSeparator(n, '.'); }
      }
      OrEmpty(At(parts, 1))
  }

  /** A name made of a dot-free stem, a dot, a dot-free field and a rest that is empty or starts with a dot has that field as its extension. */
  lemma ExtensionIsSecondField(p: string, e: string, rest: string)
    requires '.' !in p && '.' !in e
    requires rest == [] || rest[0] == '.'
    ensures Extension(Some(p + "." + e + rest)) == e
  {
    var n := p + "." + e + rest;
    assert n == p + (['.'] + (e + rest));
    SplitAfterPlainPrefix(p, ['.'] + (e + rest), '.');
    SplitAfterSeparator(e + rest, '.');
    SplitAfterPlainPrefix(e, rest, '.');
    if rest == [] {
      assert Split(rest, '.') == [[]];
    } else {
      assert rest == ['.'] + rest[1..];
      SplitAfterSeparator(rest[1..], '.');
    }
    assert Split(rest, '.')[0] == [];
    assert e + [] == e;
    assert Split(n, '.')[1] == e;
  }

  /** Every name with a dot splits as stem, dot, extension and a rest that is empty or starts with a dot. */
  lemma ExtensionDecomposes(n: string) returns (p: string, rest: string)
    requires '.' in n
    ensures '.' !in p
    ensures rest == [] || rest[0] == '.'
    ensures n == p + "." + Extension(Some(n)) + rest
  {
    var parts := Split(n, '.');
    p := parts[0];
    var tail := parts[1..];
    assert n == p + "." + Join(tail, '.');
    if |tail| == 1 {
      rest := [];
      assert Join(tail, '.') == parts[1] + rest;
    } else {
      rest := "." + Join(tail[1..], '.');
      assert Join(tail, '.') == parts[1] + rest;
    }
  }

  /** The extension of a present name is exactly its second dot-separated field. */
  lemma ExtensionCharacterized(n: string, e: string)
    requires '.' in n
    ensures Extension(Some(n)) == e <==> IsSecondField(n, e)
  {
    var p, rest := ExtensionDecomposes(n);
    if Extension(Some(n)) == e {
      assert n == p + "." + e + rest;
    }
    if IsSecondField(n, e) {
      var p', rest' :| && '.' !in p' && '.' !in e && (rest' == [] || rest'[0] == '.')
                       && n == p' + "." + e + rest';
      ExtensionIsSecondField(p', e, rest');
    }
  }

  /**
    The directory token chosen by the `if` / `else if` on the extension: `img`
    for an image extension, `fonts` for a font extension that is not an image
    one, and the extension itself otherwise.
   */
  function Classify(ext: string): (token: string)
    ensures MatchesIgnoringCase(IMAGE_PATTERN, ext) ==> token == "img"
    ensures !MatchesIgnoringCase(IMAGE_PATTERN, ext) && MatchesIgnoringCase(FONT_PATTERN, ext) ==> token == "fonts"
    ensures !MatchesIgnoringCase(IMAGE_PATTERN, ext) && !MatchesIgnoringCase(FONT_PATTERN, ext) ==> token == ext
  {
    if RegexTest(IMAGE_PATTERN, ext) then "img"
    else if RegexTest(FONT_PATTERN, ext) then "fonts"
    else ext
  }

  /** Where the directory token sits in an asset path: between the fixed prefix and the fixed suffix. */
  lemma AssetPathLayout(token: string)
    ensures var path := ASSETS_PREFIX + token + ASSET_SUFFIX;
      && |path| == |ASSETS_PREFIX| + |token| + |ASSET_SUFFIX|
      && path[..|ASSETS_PREFIX|] == ASSETS_PREFIX
      && path[|path| - |ASSET_SUFFIX|..] == ASSET_SUFFIX
      && path[|ASSETS_PREFIX|..|path| - |ASSET_SUFFIX|] == token
  {
  }

  /** `assetFileNames`: the output path template for an asset with an optional name. */
  function AssetFileNames(name: Option<string>): (path: string)
    ensures |path| >= |ASSETS_PREFIX| + |ASSET_SUFFIX|
    ensures path[..|ASSETS_PREFIX|] == ASSETS_PREFIX
    ensures path[|path| - |ASSET_SUFFIX|..] == ASSET_SUFFIX
    ensures '.' !in path[|ASSETS_PREFIX|..|path| - |ASSET_SUFFIX|]
    ensures MatchesIgnoringCase(IMAGE_PATTERN, Extension(name))
      ==> path == ASSETS_PREFIX + "img" + ASSET_SUFFIX
    ensures !MatchesIgnoringCase(IMAGE_PATTERN, Extension(name)) && MatchesIgnoringCase(FONT_PATTERN, Extension(name))
      ==> path == ASSETS_PREFIX + "fonts" + ASSET_SUFFIX
    ensures !MatchesIgnoringCase(IMAGE_PATTERN, Extension(name)) && !MatchesIgnoringCase(FONT_PATTERN, Extension(name))
      ==> path == ASSETS_PREFIX + Extension(name) + ASSET_SUFFIX
  {
    var extType := Classify(Extension(name));
    AssetPathLayout(extType);
    ASSETS_PREFIX + extType + ASSET_SUFFIX
  }

  /** The two script templates sit under the same assets/ root as every asset path and name `.js` files. */
  lemma ScriptTemplates()
    ensures CHUNK_FILE_NAMES == ASSETS_PREFIX + "js/" + "[name]-[hash].js"
    ensures ENTRY_FILE_NAMES == ASSETS_PREFIX + "[name]-[hash].js"
  {
  }
}
