# Google Docs Markdown Viewer — a Dafny model

This project models the logic of the `GDocsMarkdown` WordPress plugin class in
`g-markdown.php` and proves properties of it.

- **`clean_markdown`**: cuts the "Sources" trailer, deletes image markup in two
  regular-expression passes, normalises line breaks and trims the result.
  Each stage is a Dafny function over `string`. The two `preg_replace` calls
  that delete images are written as left-to-right scanners. Each scanner
  deletes leftmost, non-overlapping, complete matches and copies every other
  character.
- **`render_markdown`**: the `[gdocs_markdown id="..."]` shortcode. It is modelled
  as a pure function over abstract outcomes of its collaborators. Those are
  the escaping helper, the HTTP fetch, the presence of Parsedown, Parsedown's
  `text` and `wp_kses`. The model decides which fixed error message is
  returned, or which sanitizer output.

Modules, in pipeline order:

| module | file | models |
|---|---|---|
| `SourcesSplit` | `sources_split.dfy` | `explode("\n\nSources\n\n", $markdown)[0]` |
| `ImageStrip` | `image_strip.dfy` | the two image-deleting `preg_replace` calls, one scanner parameterised by the image form |
| `NewlineCollapse` | `newline_collapse.dfy` | `preg_replace("/[\r\n]+/", "\n\n", …)` |
| `PhpTrim` | `php_trim.dfy` | PHP `trim` with its default character list |
| `Cleaner` | `cleaner.dfy` | `clean_markdown` as the composition, with end-to-end lemmas |
| `ImageOnlyDocuments` | `image_only.dfy` | documents made only of images and blanks |
| `Renderer` | `renderer.dfy` | `render_markdown` |
| `SeqFacts`, `Wrappers` | `seq_facts.dfy`, `wrappers.dfy` | sequence identities used in proofs; `Option` |

Two behaviours of the code differ from what its own comments say. The model follows the code:

- **Image markup can survive.** The docblock of `clean_markdown` promises "Cleaned markdown
  without images" (g-markdown.php:36). Cleaning does not guarantee output free of image markup, and
  it does not turn every image-only document into `""`.
  - Deleting one token can join its neighbours into a new one (`ReferenceStripJoinsNeighbours`).
  - An inline image whose target holds `![` overlaps a following reference image, because the
    reference pass runs first. `OverlappingImagesLeaveMarkup` shows that `"![a](![x) ![b][c]"`
    cleans to `"![a]("`.
  - The empty-output guarantee is proved for images whose alt text and target are plain
    (`CleanImagesAndBlanks`).
- **Single line breaks.** The comment at g-markdown.php:49 says the replacement cleans up "multiple
  blank lines". In fact every run of line breaks becomes a blank line, including a single `\n`
  (`CollapseLoneLine`).

Other facts about the code that the model keeps:

- A fetch fails only when `is_wp_error` holds (lines 86-88). A non-2xx HTTP response with a body is
  cleaned and rendered like any other.
- "Empty" is PHP `empty()`, so the id `"0"` and the body `"0"` are rejected too (lines 72, 94).
- The id is escaped with `esc_attr`, an HTML-attribute escaper, before it goes into the URL
  (line 79). The escaper is a parameter of the model.
- Cleaning is not idempotent (`CleanNotIdempotent`).
- The cleaning call comes before the Parsedown presence check (line 99 before line 103). Because
  cleaning is pure, this shows only in the order of the guards.

## Model

| member | source | states |
|---|---|---|
| SourcesSplit.FindFrom | g-markdown.php:40 | the index found is an occurrence of the delimiter and no earlier index at or after the start is; `None` only when there is no occurrence at all |
| SourcesSplit.BeforeSources | g-markdown.php:40-41 | the kept text is a prefix of the input; it holds no occurrence of the delimiter starting inside it; if it is shorter than the input, the delimiter starts right where it ends |
| SourcesSplit.KeptWholeIffNoDelimiter | g-markdown.php:40-41 | the whole input is kept exactly when the delimiter occurs nowhere in it |
| SourcesSplit.KeptHasNoDelimiter | g-markdown.php:40-41 | the kept text itself contains no delimiter |
| SourcesSplit.SplitAtFirstDelimiter | g-markdown.php:40-41 | for `a + delimiter + b` with no delimiter starting inside `a`, exactly `a` is kept and everything after is discarded |
| SourcesSplit.SplitPrefixKeptWhole | g-markdown.php:40-41 | a prefix before the first delimiter holds no delimiter itself, so splitting it keeps all of it |
| ImageStrip.IndexOf | g-markdown.php:44 | a found index holds the character and lies in range (the search a negated class `[^\]]*` performs) |
| ImageStrip.IndexOfIsFirst | g-markdown.php:44 | no occurrence is skipped between the start and the index found, or the end |
| ImageStrip.MatchLength | g-markdown.php:44-47 | a match anchored at the start is at least 5 characters long and fits in the text |
| ImageStrip.MatchLengthSound | g-markdown.php:44-47 | what the scanner matches is a complete token `![alt]` + opener + label + closer, with no `]` in alt and no closer in label |
| ImageStrip.MatchLengthComplete | g-markdown.php:44-47 | any token at the start of the text is exactly what the scanner matches there (matches are unique) |
| ImageStrip.NoMatchMeansNoToken | g-markdown.php:44-47 | when the scanner finds nothing at the start, no prefix is a token |
| ImageStrip.Strip | g-markdown.php:44-47 | deletion never makes the text longer |
| ImageStrip.ScanIsLeftmostCut | g-markdown.php:44-47 | the scanner's cut reassembles the input, deletes only complete tokens, keeps only characters where no token starts, and its kept characters are `Strip`'s result |
| ImageStrip.StripIsLeftmostDeletion | g-markdown.php:44-47 | for every such leftmost cut of the input, the kept characters equal `Strip`'s result (the result is unique) |
| ImageStrip.StripWithoutTokens | g-markdown.php:44-47 | text in which no token starts anywhere is unchanged |
| ImageStrip.StripWithoutOpener | g-markdown.php:44-47 | text with no `![` is unchanged by either pass |
| ImageStrip.StripWithoutCloser | g-markdown.php:44-47 | text with no closing `]` or `)` of the form (unbalanced markup) is unchanged |
| ImageStrip.StripCopies | g-markdown.php:44-47 | unfolding step: where the pattern does not match at the start, the first character is copied and the scan resumes after it |
| ImageStrip.StripNoBangPrefix | g-markdown.php:44-47 | a prefix with no `!` is copied and the rest is scanned on its own |
| ImageStrip.StripTokenPrefix | g-markdown.php:44-47 | a token at the front is deleted and scanning resumes right after it |
| ImageStrip.ImageMarkup | g-markdown.php:44-47 | the markup of an image is 5 characters longer than its alt text and target |
| ImageStrip.TokenFromParts | g-markdown.php:44-47 | image markup whose alt has no `]` and whose target has no closer is a token |
| ImageStrip.StripLoneImage | g-markdown.php:44-47 | such an image on its own is deleted entirely |
| ImageStrip.BrokenHead | g-markdown.php:44-47 | `![x]` with no `]` in `x`, followed by the end of the text or by anything but the form's opener, is kept, and scanning resumes after it: no `![` inside the head can match either |
| ImageStrip.ClosedHeadNoMatch | g-markdown.php:44-47 | no match starts anywhere inside text whose only `]` is its last character when the opener does not follow |
| ImageStrip.ClosedHeadFrom | g-markdown.php:44-47 | every suffix of such text is copied character for character, and scanning resumes after it |
| ImageStrip.StripOtherImage | g-markdown.php:44-47 | an image of the other form whose target holds no `!` is copied whole by this pass (a token of this pass's form inside the target would be deleted) |
| ImageStrip.StripTokenBeforeLabel | g-markdown.php:44 | a reference image followed by `[y]` (no `]` in `y`) loses the image and keeps the label |
| ImageStrip.LabelKept | g-markdown.php:44-47 | a bracketed `[y]` with no `]` in `y` is copied by either pass, even when `y` holds `![` |
| ImageStrip.ReferenceStripJoinsNeighbours | g-markdown.php:44 | `![x]![a][b][y]` becomes `![x][y]`, which a second pass deletes: the pass is not idempotent and can leave image markup |
| NewlineCollapse.DropBreaks | g-markdown.php:50 | drops exactly the leading run of line breaks and leaves a suffix that does not start with one |
| NewlineCollapse.Collapse | g-markdown.php:50 | empty stays empty; a leading run becomes `\n\n`; a leading non-break is kept |
| NewlineCollapse.CollapseKeepsWords | g-markdown.php:50 | with line breaks ignored, the text is unchanged: every other character is kept in order |
| NewlineCollapse.CollapseNormalizes | g-markdown.php:50 | afterwards every line break is a `\n` standing in a pair `\n\n` that is followed by a non-break |
| NewlineCollapse.NormalizedMeans | g-markdown.php:50 | normalized text has no `\r`, never three `\n` in a row, and no lone `\n` |
| NewlineCollapse.CollapseIdempotent | g-markdown.php:50 | collapsing twice equals collapsing once |
| NewlineCollapse.CollapseWithoutBreaks | g-markdown.php:50 | text without line breaks is unchanged |
| NewlineCollapse.CollapseAppend | g-markdown.php:50 | text ending in a non-break collapses independently of what follows |
| NewlineCollapse.RunCollapses | g-markdown.php:50 | a whole run of breaks in front of text that starts with a non-break becomes exactly `\n\n` |
| NewlineCollapse.RunBecomesBlankLine | g-markdown.php:50 | a maximal run of `\r`/`\n` of any length between two texts becomes exactly `\n\n` |
| PhpTrim.TrimStart | g-markdown.php:52 | drops only trim characters from the front and stops at the first other character |
| PhpTrim.TrimEnd | g-markdown.php:52 | drops only trim characters from the back and stops at the last other character |
| PhpTrim.Trim | g-markdown.php:52 | the result is empty or starts and ends with a character outside `" \t\n\r\0\x0B"` |
| PhpTrim.TrimKeepsMiddle | g-markdown.php:52 | the result is a slice of the input with only trim characters before and after it |
| PhpTrim.TrimEmptyIff | g-markdown.php:52 | the result is empty exactly when the input is only trim characters |
| PhpTrim.TrimStartAt | g-markdown.php:52 | `ltrim` stops exactly at the first non-trim character |
| PhpTrim.TrimEndAt | g-markdown.php:52 | `rtrim` stops exactly at the last non-trim character |
| PhpTrim.TrimIsMaximal | g-markdown.php:52 | any cut of a trim-only prefix and suffix that leaves non-trim ends is exactly `trim`'s result |
| PhpTrim.TrimIdempotent | g-markdown.php:52 | trimming twice equals trimming once |
| Cleaner.Clean | g-markdown.php:38-53 | no contract of its own: the four stages in the source's order; see CleanHasNoOuterBlanks, CleanBlankLines, CleanDropsSources, CleanRemovesOnlyTheImage, CleanCollapsesRun and CleanImagesAndBlanks |
| Cleaner.CleanHasNoOuterBlanks | g-markdown.php:38-53 | the cleaned text is empty or starts and ends with a non-trim character |
| Cleaner.CleanEmpty | g-markdown.php:38-53 | empty input gives empty output |
| Cleaner.CleanWhitespaceOnly | g-markdown.php:38-53 | input made only of trim characters gives empty output |
| Cleaner.CleanBlankLines | g-markdown.php:38-53 | the output has no `\r`, and every run of line feeds in it is exactly one blank line |
| Cleaner.TrimKeepsBlankLines | g-markdown.php:50-52 | trimming keeps the blank-line shape the collapse produced |
| Cleaner.CollapseKeepsTrimChars | g-markdown.php:50 | collapsing whitespace-only text leaves whitespace only |
| Cleaner.PlainTextUnchanged | g-markdown.php:44-50 | text with no line break and none of `![]()` passes both image passes and the collapse unchanged |
| Cleaner.TrimmedUnchanged | g-markdown.php:52 | text already starting and ending with non-trim characters is left alone by `trim` |
| Cleaner.OneLineKeptWhole | g-markdown.php:40-41 | text on a single line holds no delimiter and is kept whole |
| Cleaner.NoDelimiterWithoutBlankLine | g-markdown.php:40 | text with no two line breaks in a row holds no delimiter |
| Cleaner.CleanDropsSources | g-markdown.php:38-53 | when no delimiter starts inside `a`, cleaning `a + "\n\nSources\n\n" + b` is cleaning `a` alone, whatever `b` holds |
| Cleaner.CleanOneLine | g-markdown.php:38-53 | a single line with no `!` is only trimmed |
| Cleaner.CleanDropsSourcesAfterLine | g-markdown.php:38-53 | for `a` on one line with no `!`, `a + delimiter + b` cleans to `trim(a)`: `"Hello\n\nSources\n\nImage credits here"` gives `"Hello"` |
| Cleaner.CleanRemovesOnlyTheImage | g-markdown.php:38-53 | `p + image + q` with plain parts cleans to `trim(p + q)` for either form: only the token goes (`"A ![alt][1] B"` gives `"A  B"`) |
| Cleaner.CleanCollapsesRun | g-markdown.php:38-53 | for non-empty `x` and `y`, each on one line with no `!` (links and parentheses allowed), whose outer ends (first of `x`, last of `y`) are not trim characters, `x + run + y` with a run of line breaks cleans to `x + "\n\n" + y` (`"Para1\n\n\n\n\nPara2"` gives `"Para1\n\nPara2"`) |
| Cleaner.RunSurvivesCut | g-markdown.php:40-47 | such text holds no delimiter and no image, so the cut and both image passes keep all of it |
| Cleaner.CollapseOneRun | g-markdown.php:50 | the run between two lines without line breaks becomes exactly one blank line |
| Cleaner.CollapseLoneLine | g-markdown.php:50 | any line between single line feeds, whatever characters it holds, becomes a paragraph of its own: each `\n` becomes `\n\n` |
| Cleaner.CollapseSourcesLine | g-markdown.php:50 | collapsing turns a line holding only `Sources` between single line feeds into the delimiter |
| Cleaner.SourcesLineSurvivesCut | g-markdown.php:40-47 | between lines that hold no `!`, that line is not yet a delimiter, so the cut and the image passes keep it |
| Cleaner.CleanNotIdempotent | g-markdown.php:38-53 | for non-empty `a` and `b`, each on one line with no `!`, where the first and last characters of `a` and the last of `b` are not trim characters: `a + "\nSources\n" + b` cleans to `a + delimiter + b`, and cleaning that again gives `a` |
| ImageOnlyDocuments.JoinHasNoDelimiter | g-markdown.php:40-41 | a document of simple images and blank characters holds no delimiter |
| ImageOnlyDocuments.StripSegments | g-markdown.php:44-47 | over such a document, each pass deletes exactly the images of its form and copies the rest |
| ImageOnlyDocuments.WithoutBothForms | g-markdown.php:44-47 | after both passes only blank characters remain |
| ImageOnlyDocuments.CleanImagesAndBlanks | g-markdown.php:38-53 | a document made only of simple images and trim characters cleans to `""` |
| ImageOnlyDocuments.StripOverlap | g-markdown.php:44 | in `![a](` (no `]` in `a`) + reference image, the reference pass keeps the broken head and deletes the token |
| ImageOnlyDocuments.OverlappingImagesLeaveMarkup | g-markdown.php:38-53 | the two images and a space `![a](![x) ![b][c]` clean to `![a](`, not to `""` |
| Renderer.IsEmptyPhp | g-markdown.php:72 | no contract of its own: PHP `empty()` on a string, true for `""` and `"0"`; used by the guards at lines 72 and 94; see IdRequiredIffEmpty, EmptyIdConsultsNothing |
| Renderer.IdAttribute | g-markdown.php:63-69 | no contract of its own: `shortcode_atts` with the default `id => ''`; see IdRequiredIffEmpty |
| Renderer.RenderBody | g-markdown.php:109-147 | no contract of its own: the `try` block, Parsedown's output wrapped in the div and passed to `wp_kses`; see RenderSucceedsWhenNoCheckFails, FetchUsesEscapedId |
| Renderer.RenderWith | g-markdown.php:61-147 | no contract of its own: the guard cascade with the cleaning stage as a parameter; see RenderCascade, RenderReportsFirstFailingCheck, RenderSucceedsWhenNoCheckFails |
| Renderer.Render | g-markdown.php:61-147 | no contract of its own: `RenderWith` with `Clean`; see EmptyIdConsultsNothing, IdRequiredIffEmpty, FetchUsesEscapedId |
| Renderer.ExportUrl | g-markdown.php:77-80 | the URL is the export template with the escaped id between its prefix and `/export?format=md` |
| Renderer.ExportUrlInjective | g-markdown.php:77-80 | different escaped ids give different URLs |
| Renderer.Wrap | g-markdown.php:141 | Parsedown's HTML sits unchanged between `<div class="gdocs-markdown-content">` and `</div>` |
| Renderer.WrapInjective | g-markdown.php:141 | different HTML gives different wrapped documents |
| Renderer.ErrorText | g-markdown.php:73-146 | no contract of its own: the literal error texts of lines 73, 87, 95, 104 and 146; see ErrorTextInjective |
| Renderer.Message | g-markdown.php:73-146 | no contract of its own: an error text wrapped in `<p>` … `</p>`, as each error `return` builds it; see FailureIsFixedMessage |
| Renderer.Output | g-markdown.php:61-147 | no contract of its own: the string `render_markdown` returns, the sanitized HTML or the error paragraph; see FailureIsFixedMessage |
| Renderer.ErrorTextInjective | g-markdown.php:73-146 | the five error texts are pairwise different |
| Renderer.FailureIsFixedMessage | g-markdown.php:73-146 | a failure returns `<p>` + its fixed error text + `</p>` and nothing else, and the paragraph identifies the error |
| Renderer.RenderCascade | g-markdown.php:61-147 | each guard, when all earlier ones pass, decides the result; when none fires the result is HTML |
| Renderer.RenderReportsFirstFailingCheck | g-markdown.php:72-147 | the result is the error of guard `k` exactly when guard `k` fires and none before it does (order: id, fetch, body, Parsedown, parse) |
| Renderer.RenderSucceedsWhenNoCheckFails | g-markdown.php:109-143 | HTML comes back exactly when no guard fires, and it is the sanitizer's output for the wrapped Parsedown output of the cleaned body |
| Renderer.EmptyIdConsultsNothing | g-markdown.php:72-74 | an empty id (missing, `""` or `"0"`) gives the id error whatever the fetch, Parsedown and sanitizer do |
| Renderer.IdRequiredIffEmpty | g-markdown.php:63-74 | the id error is returned exactly when the id is PHP-empty, including when the attribute is missing |
| Renderer.FetchUsesEscapedId | g-markdown.php:77-113 | with a non-empty id, a non-empty body and Parsedown present, the result comes from parsing `clean` of the body fetched from the URL with the escaped id |
| Renderer.AllowListKeepsWrapper | g-markdown.php:116-137 | the allow-list keeps `div[class]`, has no `img` or `script`, and only `div` and `a` keep attributes |

## Left out

- HTTP: `wp_remote_get`, `wp_remote_retrieve_body` and `is_wp_error` are network I/O. They are one
  function parameter (`Environment.fetch`) returning an error or a body.
- Parsedown (`Parsedown.php`) is not part of this model. Its safe mode and `text` are one parameter
  (`Environment.parse`) that returns HTML or throws.
- `wp_kses` is not part of this model. It is a parameter (`Environment.sanitize`) that is given the
  allow-list constant `AllowedHtml`. Its filtering, and the sanitizer's idempotence, are not modelled.
- `esc_attr` is a parameter (`Environment.escAttr`). Its escaping rules are not modelled.
- `esc_html__` translation is not modelled. The messages are the untranslated English literals.
- `file_exists` on the Parsedown path is the boolean `Environment.parsedownPresent`.
- PHP `catch (Exception $e)` does not catch `Error` throwables. The model has one "threw" outcome for
  the whole `try` block.
- `shortcode_atts`: only the `id` default is modelled (`IdAttribute`). Other attributes are ignored,
  as the code ignores them.
- Host plumbing is outside the model:
  - the shortcode registration in the constructor;
  - the `WPINC` guard;
  - the activation hook and its `file_exists`/`wp_die` check.
- General PCRE semantics: only the two image patterns and the line-break pattern are modelled, by
  hand-written scanners.
- Renderer.RenderWith: the guard lemmas are stated for any cleaning function passed as `clean`.
  `Render` is `RenderWith` with `Clean`. The lemmas about `Render` apply them to `Clean`.
- ImageOnlyDocuments.CleanImagesAndBlanks: the empty-output property is proved only for images whose
  alt text and target contain none of `![]()` and no line break. It does not hold in general. It
  fails for an inline image whose target holds `![` before a reference image
  (`OverlappingImagesLeaveMarkup`). It also fails when alt or target text holds
  `"\n\nSources\n\n"`, which cuts the document there. Some other images, such as `![a(b](u)`, are
  still removed entirely; the model does not characterise exactly which.
- Characters: PHP strings are bytes, while the model's `string` holds Unicode characters. The two
  agree here. Every character that the three patterns, the delimiter and the trim list name is
  ASCII. No byte inside a UTF-8 multi-byte sequence is ASCII. So matching, cutting and trimming
  never split or touch a multi-byte character.
- ImageStrip.StripOtherImage: asks that the target hold no `!`, a simple sufficient condition. The exact condition is that no token of this pass's form starts inside the target.
