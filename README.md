# Aside blocks and the article list of a Middleman blog

This project models, in Dafny, the two pieces of logic in the blog's
`config.rb`:

- The custom Markdown renderer's preprocessing step
  (`CustomMarkdownRenderer#preprocess` and `#aside_blocks`). Before
  Redcarpet renders a page, it rewrites every region between a line that
  is exactly `[[aside` and the nearest later line that is exactly
  `aside]]` into `<aside>` + render(inner) + `</aside>`, where `inner` is
  the lines in between. The rewrite is one global regular-expression
  substitution, with a lazy group for the inner lines.

- The `articles` site helper. It selects the sitemap resources whose path
  starts with `article`.

The model spells the regular expression out:

- `IsStart` and `IsEnd` say where the two marker lines can sit. They use
  Ruby's anchors: `^` holds at the start of the string or after a
  newline, and `$` holds at the end of the string or before a newline.
  Ruby makes one exception: `^` does not hold at the very end of a string
  that ends in a newline. The model's `LineStart` holds there. The
  difference never shows, because neither marker fits at that position.
- `FindEnd` is the lazy group: it finds the nearest end marker.
- `FindMatch` is the leftmost search. A start marker with no end marker
  after it is skipped, because the engine retries at the next position.
- `ParseFrom` follows `gsub`: after each match the search resumes right
  after its `aside]]`. It cuts the document into verbatim text and blocks.
- `AsideBlocks` assembles the output from those pieces.

Redcarpet is not modelled. It appears as an arbitrary function
`render: string -> string`, so every property holds for every renderer.
The renderer that `preprocess` builds wraps this same renderer class. So
rendering an inner text first runs `preprocess` on it again.
`NestedPassIsIdentity` shows that this nested pass changes nothing. Folding
it into `render` therefore loses nothing.

Modules:

- `Preprocessor` (aside_blocks.dfy): the substitution.
- `MarkerFacts` (marker_facts.dfy) and `SearchInWindow` (window_facts.dfy):
  where markers can sit, and how the search reads on a piece of a document.
- `AsideBlockProperties` (aside_block_properties.dfy) and
  `AsideBlockComposition` (composition.dfy): what the substitution promises.
- `AsideBlockExamples` (scenarios.dfy): worked documents.
- `SiteHelpers` (articles.dfy): the article list.

Ruby's `$` is always an end-of-line anchor. So an end marker only has to
end its own line; it does not have to be the last line of the document.
The model follows the code here.

## Model

| member | source | states |
|---|---|---|
| MarkerFacts.StartMarkerLine | config.rb:22 | `IsStart`, the pattern's `^\[\[aside\n`: it matches at a position exactly when that position starts a line and the text `[[aside` and a newline follows. |
| MarkerFacts.EndMarkerLine | config.rb:22 | `IsEnd`, the pattern's `^aside\]\]$`: it matches at a position exactly when that position starts a line, the text `aside]]` follows, and the line ends right after it. |
| Preprocessor.FindEndSpec | config.rb:22 | `FindEnd`, the lazy group `((.\|\n)*?)` followed by `^aside\]\]$` closes on an end-marker line at or after the position, and no end-marker line lies before the one it closes on. When none exists, there is no end-marker line at all from there on. |
| Preprocessor.FindMatchSpec | config.rb:22 | `FindMatch`, the leftmost search: it finds a start-marker line at or after the position that has an end marker after it, with the block lying inside the document. No complete block starts earlier. When nothing is found, no complete block starts anywhere from there on. |
| AsideBlockProperties.ParseFromRoundTrip | config.rb:22-24 | `ParseFrom`, the scan of `gsub` that resumes after each match: nothing is lost, duplicated or reordered: putting the markers back around each block and concatenating the pieces gives back the document from that position. |
| AsideBlockProperties.ParseRoundTrip | config.rb:22-24 | The same, for the whole document. |
| AsideBlockComposition.AsideBlocksUnfold | config.rb:14-25 | `AsideBlocks` is `gsub` with the pattern. When the search finds no match, the document comes back unchanged and the renderer is never called. Otherwise the text before the leftmost match is kept and the match becomes `<aside>`, the rendered inner text, and `</aside>`; the substitution then goes on with the text after `aside]]`. The renderer gets that inner text first, then the texts of the rest. |
| AsideBlockProperties.NoBlockIdentity | config.rb:21-25 | A document in which no start-marker line has an end-marker line after it comes back unchanged, and the renderer is never called. |
| AsideBlockProperties.InnerOfMatch | config.rb:22 | The capture `$1` of a match is empty or ends with a newline, and contains no end-marker line: the lazy group stops at the nearest one. |
| AsideBlockProperties.ParsedInnersWellFormed | config.rb:22-23 | Every text handed to the renderer has that shape. |
| AsideBlockProperties.NestedPassIsIdentity | config.rb:15-23 | Running the substitution again on any text handed to the renderer, as the nested `preprocess` of the renderer built from this class does, returns that text unchanged and calls the renderer on nothing. |
| AsideBlockProperties.RenderSeesOnlyInners | config.rb:23 | The output depends on the renderer only through its results on the captured inner texts. |
| SearchInWindow.ParseSuffix | config.rb:22-24 | After a match, the rest of the document is processed exactly as if it stood alone. |
| SearchInWindow.FindMatchPrefix | config.rb:22 | Before a start marker that is never closed, the search gives the same answer on the text before it as on the whole document. |
| AsideBlockComposition.FirstMatch | config.rb:22 | A start-marker line with no start marker before it, followed by an end-marker line with none in between, is the first match. |
| AsideBlockComposition.FirstBlockReplaced | config.rb:21-25 | That first block is replaced by `<aside>`, the rendered inner text and `</aside>`. The text before it is kept, and the rest is processed on its own. The renderer gets that inner text first, then only the texts of the rest. |
| AsideBlockComposition.BlockThenRest | config.rb:14-25 | Glue text with no start marker, a start-marker line, inner lines with no end-marker line, an end-marker line, and text that starts on a new line. The result is the first text, the rendered block in `<aside>` tags, and the substitution applied to the last text. The renderer is called with the inner lines once, then only with the texts of the last part. |
| AsideBlockComposition.UnclosedStartKeepsRest | config.rb:22 | A start marker with no end marker after it leaves the text from it onward unchanged. Only the blocks before it are rendered. |
| AsideBlockExamples.OneAside | config.rb:22-23 | `Hello`, an aside holding `**world**`, then `Bye`: only the aside is rewritten, around the rendered inner text, and the renderer is called exactly once, with `**world**` and its newline. |
| AsideBlockExamples.UnclosedAside | config.rb:22 | `[[aside` followed by `foo` and no end marker is left as it is, and nothing is rendered. |
| AsideBlockExamples.NestedStartIsText | config.rb:22 | A second start marker inside a block is plain inner text. The block closes at the first `aside]]`, and the second one stays in the output. The renderer gets one text, which holds the inner start marker. |
| AsideBlockExamples.TwoAsides | config.rb:22-24 | The substitution is global: two consecutive blocks are both replaced, and the renderer gets their inner texts in document order. |
| SiteHelpers.IsArticle | config.rb:36 | `start_with?("article")`: the path is at least as long as `article` and begins with exactly those characters. |
| SiteHelpers.Articles | config.rb:35-37 | The selection is no longer than the sitemap, and holds exactly the resources whose path starts with `article`. |
| SiteHelpers.ArticlesAppend | config.rb:36 | Selection distributes over concatenation, so the sitemap order is kept. |
| SiteHelpers.ArticlesCount | config.rb:36 | Each article is kept as many times as it occurs, and every other resource is dropped. |
| SiteHelpers.ArticlesIdempotent | config.rb:36 | Selecting twice gives the same list as selecting once. |
| SiteHelpers.ArticlesOfArticles | config.rb:36 | A sitemap made only of articles is returned whole. |
| SiteHelpers.ArticlesExample | config.rb:36 | `start_with?` is a plain prefix test: `articles-draft.html` is kept, while `about.html` and `blog/article.html` are dropped. |

## Left out

- The Markdown options (config.rb:1-7), the renderer's constructor (config.rb:10-12), and the renderer that `preprocess` builds from them (config.rb:15) are not modelled. Redcarpet's rendering is the `render` parameter, and every property holds for every `render`.
- An exception raised by the renderer in the middle of the substitution is not modelled. `render` is total.
- `format_date` (config.rb:31-33) is not modelled. It is a call into Ruby's date parser and formatter.
- The Middleman settings and build activations (config.rb:40-49) are not modelled. They are framework configuration, not logic.
- A sitemap resource is modelled by its path alone. The other attributes of a Middleman resource are not used by `articles`.
- Strings are sequences of characters. Ruby's string encodings are not modelled.
