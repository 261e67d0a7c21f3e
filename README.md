# Asset output naming of the `nav` site build

The `nav` repository is a small Vue site: a directory of links grouped into
categories. Its only piece of behaviour is the bundler configuration in
`vite.config.ts`, which decides where the production build writes each file:

- `assetFileNames` is called once per emitted asset with the asset's optional
  `name`. It takes the second dot-separated field of the name as the
  extension, files images under `assets/img/`, fonts under `assets/fonts/` and
  anything else under a directory named after that extension, and returns the
  template `assets/<dir>/[name]-[hash][extname]`.
- `chunkFileNames` and `entryFileNames` are fixed templates for shared script
  chunks (`assets/js/[name]-[hash].js`) and entry scripts
  (`assets/[name]-[hash].js`).

The model is pure, as the callback is: one expression pipeline and an
`if` / `else if`. It has three modules.

- `JsString` (`js_string.dfy`) states the JavaScript built-ins the callback
  uses: `split` on one character, proved to round-trip with `join`; `at`;
  `x || ''` on a string that may be `undefined`; ASCII case folding; and
  `RegExp.prototype.test` for an unanchored, case-insensitive alternation of
  literals. The search is written the way a regex engine scans: try every
  alternative at a position, then move one position on. It is proved equal to
  "after folding, some literal occurs somewhere in the text".
- `ViteConfig` (`vite_config.dfy`) holds the callback and the two templates.
  `Extension` is characterised independently of `split`, as the text between
  the first and the second dot. `Classify` and `AssetFileNames` are specified
  by the case-insensitive containment predicate, not by the executable search.
- `AssetNamingScenarios` (`scenarios.dfy`) works through concrete names:
  upper case, substrings, images winning over fonts, double extensions, the
  absent name.

Decisions that follow the code exactly:

- The regex `/png|jpe?g|gif|svg|webp/i` becomes the literal list
  `png, jpg, jpeg, gif, svg, webp`, and `/woff2?|eot|ttf|otf/i` becomes
  `woff, woff2, eot, ttf, otf`. Neither regex is anchored, so the test is
  substring containment: `svgz`, `PNG` and `xttfx` all match.
- Without the `u` flag, JavaScript's case-insensitive matching never maps a
  non-ASCII character onto an ASCII one. All the literals are ASCII, so
  folding only `A`-`Z` onto `a`-`z` gives exactly the same answers.
- `split('.').at(1)` is the second field, not the last extension.
  `archive.tar.gz` is filed under `assets/tar/`, and `a.b.c` has extension
  `b`. The model reproduces this deliberately.
- An absent name, a name without a dot and a name such as `a.` all give the
  empty extension. The template then has an empty directory segment:
  `assets//[name]-[hash][extname]`, with two slashes.
- `[name]`, `[hash]` and `[extname]` are literal text. The bundler fills them
  in later.

## Model

| member | source | states |
|---|---|---|
| `JsString.Split` | vite.config.ts:12 | `name.split('.')` returns at least one part, no part contains the separator, and joining the parts with the separator gives back the input |
| `JsString.SplitJoin` | vite.config.ts:12 | the other half of the round trip: splitting a join of separator-free parts gives back exactly those parts |
| `JsString.SplitAfterPlainPrefix` | vite.config.ts:12 | a separator-free prefix is glued onto the first part of what follows it |
| `JsString.SplitAfterSeparator` | vite.config.ts:12 | a leading separator opens an empty first part |
| `JsString.SplitWithoutSeparator` | vite.config.ts:12 | a string without the separator splits into a single part, itself |
| `JsString.At` | vite.config.ts:12 | `.at(i)` is defined exactly for `-len <= i < len`: a non-negative index counts from the front, a negative one from the end, and anything else is `undefined` |
| `JsString.OrEmpty` | vite.config.ts:12 | the fallback to the empty string yields `''` for `undefined` and the string itself otherwise (an empty string is falsy, but falls back to the same `''`) |
| `JsString.Lower` | vite.config.ts:13-16 | the `i` flag: ASCII folding keeps the length, folds each character on its own, and leaves no upper-case ASCII letter |
| `JsString.LowerIdempotent` | vite.config.ts:13-16 | folding twice is folding once |
| `JsString.MatchIgnoresCase` | vite.config.ts:13-16 | the `i` flag cannot tell an extension from its folded form: both match the same patterns |
| `JsString.MatchesFoldingBothSpec` | vite.config.ts:13-16 | for literals that are their own folded form (`FoldedLiterals`), folding only the text decides exactly what the `i` flag decides by folding text and literal alike |
| `JsString.AlternativeAtSpec` | vite.config.ts:13-16 | the scan step `AlternativeAt`, which tries the literals in order at one position, succeeds iff one of its literals occurs there |
| `JsString.SearchFromSpec` | vite.config.ts:13-16 | the unanchored scan `SearchFrom`, which moves one position on after each failed step, succeeds from position `i` iff some literal occurs at some position `>= i` |
| `JsString.RegexTest` | vite.config.ts:13-16 | `/…/i.test(ext)`, computed by scanning the folded extension from position 0, holds iff some literal of the pattern occurs in the case-folded extension |
| `JsString.OccurrenceChars` | vite.config.ts:13-16 | every character of an occurring literal is a character of the text |
| `JsString.AbsentCharExcludes` | vite.config.ts:13-16 | a pattern none of whose literals can occur, because each has a character the text lacks, does not match |
| `ViteConfig.PatternsAreFolded` | vite.config.ts:13-15 | the literal lists `IMAGE_PATTERN` (the image regex, line 13) and `FONT_PATTERN` (the font regex, line 15) are their own folded forms, so the model's folding of the extension alone is the `i` flag's comparison |
| `ViteConfig.Extension` | vite.config.ts:12 | the extension never contains a dot; an absent name and a dot-free name give `''` |
| `ViteConfig.ExtensionIsSecondField` | vite.config.ts:12 | for a dot-free stem, a dot, a dot-free field and a rest that is empty or starts with a dot, the extension is that field |
| `ViteConfig.ExtensionDecomposes` | vite.config.ts:12 | every name containing a dot is stem + `.` + extension + rest, with a dot-free stem and a rest that is empty or starts with a dot |
| `ViteConfig.ExtensionCharacterized` | vite.config.ts:12 | for a name with a dot, `e` is its extension iff `e` is its second dot-separated field (both directions) |
| `ViteConfig.Classify` | vite.config.ts:13-17 | with the literal lists `IMAGE_PATTERN` and `FONT_PATTERN` standing for the two regexes, an image match gives `img`; otherwise a font match gives `fonts`, so images take precedence; otherwise the extension is kept unchanged, case included |
| `ViteConfig.AssetPathLayout` | vite.config.ts:18 | in `assets/<token>/[name]-[hash][extname]` the token sits exactly between the fixed prefix and the fixed suffix |
| `ViteConfig.AssetFileNames` | vite.config.ts:11-19 | defined for every name, absent included; the result starts with `assets/` and ends with `/[name]-[hash][extname]`; the directory between them has no dot; it is `img` for an image extension, `fonts` for a font extension that is no image one, and the extension itself otherwise |
| `ViteConfig.ScriptTemplates` | vite.config.ts:20-21 | the constants `CHUNK_FILE_NAMES` and `ENTRY_FILE_NAMES` take no asset, so chunk files always go to `assets/js/[name]-[hash].js` and entry files to `assets/[name]-[hash].js`; both sit under the same `assets/` prefix as every asset path |
| `AssetNamingScenarios.EmptyExtensions` | vite.config.ts:12 | an absent name, `''`, `logo` and `a.` all have the empty extension |
| `AssetNamingScenarios.MultiDotExtensions` | vite.config.ts:12 | `a.b.c` has extension `b` and `archive.tar.gz` has extension `tar` |
| `AssetNamingScenarios.LowerCaseImage` | vite.config.ts:13-14 | `png` is classified `img` |
| `AssetNamingScenarios.UpperCaseImage` | vite.config.ts:13-14 | `PNG` is classified `img` |
| `AssetNamingScenarios.UnanchoredImage` | vite.config.ts:13-14 | `svgz` is classified `img` |
| `AssetNamingScenarios.ImageBeforeFont` | vite.config.ts:13-17 | `pngwoff`, which matches both lists, is classified `img` |
| `AssetNamingScenarios.Woff2IsFont` | vite.config.ts:15-16 | `woff2` is classified `fonts` |
| `AssetNamingScenarios.UnanchoredFont` | vite.config.ts:15-16 | `xttfx` is classified `fonts` |
| `AssetNamingScenarios.OtherKeepsCase` | vite.config.ts:13-17 | `CSS` matches neither list and stays `CSS` |
| `AssetNamingScenarios.CssIsOther` | vite.config.ts:13-17 | `css` stays `css` |
| `AssetNamingScenarios.TarIsOther` | vite.config.ts:13-17 | `tar` stays `tar` |
| `AssetNamingScenarios.EmptyIsOther` | vite.config.ts:13-17 | the empty extension stays empty |
| `AssetNamingScenarios.ImageAssetPath` | vite.config.ts:11-19 | every dot-free stem + `.png` goes to `assets/img/[name]-[hash][extname]` |
| `AssetNamingScenarios.FontAssetPath` | vite.config.ts:11-19 | every dot-free stem + `.woff2` goes to `assets/fonts/[name]-[hash][extname]` |
| `AssetNamingScenarios.StylesheetAssetPath` | vite.config.ts:11-19 | every dot-free stem + `.css` goes to `assets/css/[name]-[hash][extname]` |
| `AssetNamingScenarios.ArchiveAssetPath` | vite.config.ts:11-19 | every dot-free stem + `.tar.gz` goes to `assets/tar/[name]-[hash][extname]`, not to `assets/gz/` |
| `AssetNamingScenarios.AbsentNameAssetPath` | vite.config.ts:11-19 | an absent name gives the prefix `assets/` followed at once by the suffix `/[name]-[hash][extname]`: `assets//[name]-[hash][extname]` |

## Left out

- `defineConfig`, the Vue plugin and `base: './'` (vite.config.ts:1-7) are bundler wiring with no logic of their own.
- The bundler's later substitution of `[name]`, `[hash]` and `[extname]`, and the content hashing behind `[hash]`, happen outside this code. The placeholders stay literal text.
- The asset descriptor's other fields are not modelled. The callback reads only `name`.
- General regular expressions are not modelled. Each pattern is its finite list of literals, with `jpe?g` and `woff2?` written out as both spellings.
- JavaScript strings are sequences of UTF-16 code units, while Dafny strings are sequences of Unicode scalar values. Splitting on `.` and ASCII folding treat both alike, but lone surrogates cannot be expressed.
- `JsString.Split`: covers a one-character separator without the `limit` argument. That is the only form the callback uses.
- `JsString.At`: takes an integer index. JavaScript's conversion of non-integer arguments is not modelled, because the callback passes the constant 1.
- `src/types/index.ts` is not part of this model. It only declares the `Site`, `Category` and `SitesConfig` shapes, with no behaviour, validation or invariants.
