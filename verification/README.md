# tidocs core in Dafny

A model of the conversion core of tidocs, which turns TiDB-style Markdown
documentation into a Word document. The model covers three parts:

- **Markdown preprocessing** (`src/tidocs/markdown_handler.py`):
  - `remove_front_matter` cuts `---\n`-delimited blocks out of the input bytes.
  - `process_internal_links` rewrites `(/path/name.md#frag)` links against a base URL.
  - `extract_and_mark_html_tables` replaces each HTML table that starts on a new line with a
    numbered marker and collects the tables into a side text.
- **Document merge** (`src/tidocs/docx_handler.py`):
  - The side document's hyperlink relationships are copied into the main part, using
    python-docx's `relate_to`.
  - Each side table is filed under the heading paragraph that precedes it. Its hyperlink ids
    are remapped and its list numbering is fixed.
  - Every main-body paragraph that carries the marker and whose text names a filed heading is
    replaced by that table.
- **The conversion driver** (`src/tidocs/markdown_to_word.py`):
  - `snake_to_dash`.
  - The Pandoc command line: `get_pandoc_base_options` and `generate_pandoc_options`.
  - `markdown_to_word` assembles the Markdown and decides whether a second conversion and a
    merge happen.

Python's regular expressions are modelled as explicit scanners that try alternatives in the
engine's priority order. Lazy quantifiers try the shortest extension first, and `.` does not
cross a newline unless DOTALL is set. `str.replace` is `Text.ReplaceAll`, which works left to
right without overlap. `str.strip`, `str.rstrip`, `str.find` and `in` on strings have their
own definitions in module `Text`.

A parsed Word document is a `Docx.Document`. It holds a body of top-level nodes (paragraph,
table or other), tables as their paragraphs with hyperlinks and numbering properties, and the
relationship table of the main part.

Several things the core calls are parameters of the model:
- Pandoc;
- the UTF-8 codec;
- python-docx's reading and saving of a document;
- the path `get_reference_doc()` returns.

Files:
- `wrappers.dfy`: Option and Result.
- `text.dfy`: string and sequence helpers.
- `front_matter.dfy`, `internal_links.dfy`, `table_extraction.dfy`, `table_examples.dfy`:
  the Markdown preprocessing.
- `docx.dfy`: the document model and `relate_to`.
- `docx_merge.dfy`: the merge.
- `pandoc_options.dfy`, `markdown_to_word.dfy`: the conversion driver.

Three behaviours of the code as written are modelled as they are:
- Without `remove_front_matter` the input Markdown is not added to the text sent to Pandoc.
  Only the metadata block is converted (`MarkdownToWord.DefaultConvertsMetadataOnly`).
- When two marker paragraphs have the same text, lxml's `replace` moves the single table
  element. The table ends at the last such paragraph, and the earlier ones disappear
  (`DocxMerge.ReplacedMoves`).
- When two extracted tables have the same whitespace and table text, both get the later marker,
  and the earlier marker is never placed (`TableExamples.IdenticalTablesShareMarker`).

## Model

| member | source | states |
|---|---|---|
| FrontMatter.RemoveFrontMatter | src/tidocs/markdown_handler.py:4-49 | Input without `---\n` is returned as is. The output is never longer, and when it changes it is shorter by at least two delimiters. The bytes before the first delimiter survive as a prefix. From the position where the loop breaks, the output is an untouched suffix of the input, and no opening delimiter with a closing partner starts there or later. |
| FrontMatter.FindDelimiterIsFind | src/tidocs/markdown_handler.py:32-40 | The four-byte delimiter scan is `bytes.find(b"---\n", start)`: the first occurrence at or after `start`, or none. |
| FrontMatter.LoopBodyCuts | src/tidocs/markdown_handler.py:32-47 | When `bytes.find` reports an opening delimiter and then a closing one after it, the block from the opening delimiter through the closing one is cut out. The loop then goes on from the opening index. |
| FrontMatter.RunLoopStopsAtUnmatched | src/tidocs/markdown_handler.py:32-40 | When the loop stops, no opening delimiter with a closing partner remains at or after its position. |
| FrontMatter.RunLoopKeepsTail | src/tidocs/markdown_handler.py:37-40 | Everything from the loop's final position on is an unmodified suffix of the bytes from its starting position on: an unmatched opening delimiter and what follows it are kept. |
| FrontMatterExamples.DoctestNoDelimiter | src/tidocs/markdown_handler.py:16-17 | `b"Test\n-\ntitle\nTest"` is returned unchanged. |
| FrontMatterExamples.DoctestLeadingBlock | src/tidocs/markdown_handler.py:18-19 | A leading front matter block is removed, leaving `b"Line"`. |
| FrontMatterExamples.DoctestBlockAfterText | src/tidocs/markdown_handler.py:20-21 | A block after text is removed, leaving `b"Test\nLine"`. |
| FrontMatterExamples.DoctestTwoBlocks | src/tidocs/markdown_handler.py:22-23 | Both blocks are removed, leaving `b"Test\nLine\nLine"`. |
| FrontMatterExamples.NotIdempotent | src/tidocs/markdown_handler.py:29-47 | Removal is not idempotent. A splice can form a new delimiter from the dashes around the cut; the first pass leaves it, because the search resumes past it, and a second pass removes it. |
| InternalLinks.ProcessInternalLinks | src/tidocs/markdown_handler.py:52-64 | Text with no `(/` anywhere comes back unchanged. |
| InternalLinks.MatchAtIsPreferredMatch | src/tidocs/markdown_handler.py:62 | The scanner's result at an index is a match of `\(/.*?([^/]*?)\.md(#(?:.*?))?\)`, and the regex engine prefers it to every other match there. When the scanner finds nothing, the pattern has no match at that index. |
| InternalLinks.RewritesOneLink | src/tidocs/markdown_handler.py:62-64 | In text holding one well-formed link and no other `(/`, the link becomes `(<base>/<name><frag>)`. The directory and the `.md` suffix are dropped, and the text around the link is kept. |
| InternalLinks.NoLinkUnchanged | src/tidocs/markdown_handler.py:64 | Substitution copies text in which no `(/` occurs. |
| InternalLinks.TrailingSlashesIgnored | src/tidocs/markdown_handler.py:61 | Any number of trailing slashes on the base URL gives the same result. |
| InternalLinksExamples.DoctestPlainBase | src/tidocs/markdown_handler.py:56-57 | The docstring link under `https://www.test.com/v1` becomes `[Test](https://www.test.com/v1/a#b)`. |
| InternalLinksExamples.DoctestSlashedBase | src/tidocs/markdown_handler.py:58-59 | The same link under `https://www.test.com/v1/` gives the same result. |
| InternalLinksExamples.NewlineInNameAccepted | src/tidocs/markdown_handler.py:62 | Group 1, `[^/]*?`, crosses a newline, so a link name containing one is rewritten. |
| InternalLinksExamples.NewlineInPathRejected | src/tidocs/markdown_handler.py:62 | The path `.*?` does not cross a newline, so a link whose directory part spans one is left alone. |
| TableExtraction.Marker | src/tidocs/markdown_handler.py:122 | Every marker starts with `TIDOCS_REPLACE_TABLE_` and has an index after it. |
| TableExtraction.MatchAtIsTheMatch | src/tidocs/markdown_handler.py:124 | The scanner's match at an index is a match of `\n(\s*?)(<table>.*?</table>)` there, with group 1 the whitespace up to `<table>` and group 2 the table. Every match at that index starts group 2 at the same place and none ends earlier, so the lazy `.*?` stops at the first `</table>`. When the scanner finds nothing, the pattern cannot match at that index. |
| TableExtraction.ExtractAndMarkHtmlTables | src/tidocs/markdown_handler.py:121-146 | When `finditer` reports no table, the content comes back unchanged with an empty side text. |
| TableLayout.FindIterLayout | src/tidocs/markdown_handler.py:127-131 | `finditer` reports its matches in increasing order and without overlap, each one starting at or after the search start. |
| TableRoundTrip.FindIterComplete | src/tidocs/markdown_handler.py:128 | `finditer` misses no match: every index where the pattern matches starts a reported match or lies inside one. |
| TableLayout.SideTextInOrder | src/tidocs/markdown_handler.py:134-146 | The side text holds, for each table in document order, its marker, a blank line, the table and a blank line, despite the reversed loop with front insertion. |
| TableRoundTrip.ExtractMarksInPlace | src/tidocs/markdown_handler.py:138-144 | Suppose each table's text occurs only at its own match and the content holds no marker text. Then the marked content is the content with each table replaced in place by its own marker, with the whitespace before it kept. |
| TableRoundTrip.PutBackRestores | src/tidocs/markdown_handler.py:138-144 | The in-place description cuts the content exactly at the reported tables: splicing each table back where it was found gives the content back. |
| TableRoundTrip.DistinctOccurOnce | src/tidocs/markdown_handler.py:142-144 | If the reported (whitespace, table) pairs are distinct and no match starts inside another, each table's text occurs only at its own match. `str.replace` therefore touches only that table. |
| TableRoundTrip.ExtractMarksInPlaceDistinct | src/tidocs/markdown_handler.py:121-146 | The in-place marking holds for any content whose matches are distinct and unnested and that holds no marker text. |
| TableExamples.WithoutNewlineUnchanged | src/tidocs/markdown_handler.py:124 | The pattern starts with a newline, so text without one comes back unchanged with an empty side text. |
| TableExamples.DocstringInline | src/tidocs/markdown_handler.py:95-100 | `"Content <table> </table>"` comes back unchanged with an empty side text. |
| TableExamples.IdenticalTablesShareMarker | src/tidocs/markdown_handler.py:138-144 | Two tables with the same whitespace and table text both get marker 1. The reversed loop's first `str.replace` replaces every occurrence of the shared text, so marker 0 appears nowhere in the marked content. The side text still holds the entries for both tables. |
| Docx.Lookup | src/tidocs/docx_handler.py:32 | A relationship id is missing exactly when no entry has it, and a found relationship is stored under that id. |
| Relationships.NextRId | src/tidocs/docx_handler.py:37-39 | A new relationship gets an unused id `rId<n>`, with the smallest such `n` of at least 1. |
| Relationships.RelateTo | src/tidocs/docx_handler.py:37-39 | The returned id resolves to the requested hyperlink relationship, and the table keeps unique keys. The table is either unchanged, because an equal relationship exists, or grows by that relationship under a fresh id. |
| Relationships.CopyHyperlinkRels | src/tidocs/docx_handler.py:31-40 | The main table keeps all its entries and unique keys, and gains only hyperlink relationships. |
| Relationships.RelMapSpec | src/tidocs/docx_handler.py:28-40 | `rel_map` is keyed by exactly the side document's hyperlink ids. Each maps to an id that resolves, in the grown main table, to the relationship the side id named. |
| DocxMerge.RewriteLinksResolve | src/tidocs/docx_handler.py:57-62 | In a copied table, a link naming a side hyperlink keeps resolving to the same relationship, now in the main part. Any other link, and one without `r:id`, is left as it was. Texts are kept. |
| DocxMerge.RewriteNumbering | src/tidocs/docx_handler.py:64-81 | Each numbering property of a copied table has its first `w:ilvl` set to `0` and its first `w:numId` set to `1`. Every other value and count is kept. |
| DocxMerge.RewriteAfterFix | src/tidocs/docx_handler.py:57-81 | The numbering fix is idempotent and independent of the link remap. |
| DocxMerge.HeadingOfText | src/tidocs/docx_handler.py:48-51 | A node is a heading exactly when it is a paragraph whose text is not all whitespace. The heading text has no leading or trailing whitespace. |
| DocxMerge.HeadingBeforeNone | src/tidocs/docx_handler.py:44-51 | No heading is current at a position exactly when no heading paragraph precedes it. |
| DocxMerge.HeadingBeforeIsLast | src/tidocs/docx_handler.py:44-51 | The current heading is the text of the last heading paragraph before the position. |
| DocxMerge.TablesUpToKeys | src/tidocs/docx_handler.py:52-83 | A heading is a key of `tables_to_insert` exactly when some table is met while it is current. Tables before the first heading are dropped. |
| DocxMerge.TablesUpToLast | src/tidocs/docx_handler.py:52-83 | The table filed under a heading is the rewritten copy of the last table met under it. |
| DocxMerge.ReplaceMarkers | src/tidocs/docx_handler.py:85-92 | The replacement loop gives the body `Replaced` describes, including lxml moving a table that is already in the tree. Each main paragraph is visited once, and a table placed earlier is taken from its old place. |
| DocxMerge.ReplacedInPlace | src/tidocs/docx_handler.py:86-92 | When the marker paragraphs have distinct texts, the body keeps its length. Each paragraph containing the marker whose full text is a filed heading becomes that table, and every other node stays where it was. |
| DocxMerge.ReplacedNothingKeyed | src/tidocs/docx_handler.py:86-92 | A body with no marker paragraph naming a filed heading is unchanged. |
| DocxMerge.ReplacedMoves | src/tidocs/docx_handler.py:89-92 | Of two marker paragraphs with the same text, the earlier one vanishes and the table ends at the last one. |
| DocxMerge.MergeKeeps | src/tidocs/docx_handler.py:7-97 | The merged document keeps every relationship of the main part and adds only hyperlinks. With no marker paragraph naming a filed heading, the main body is unchanged. |
| DocxMerge.MergeWordDocsWithTables | src/tidocs/docx_handler.py:24-97 | A read error of the main document is the result; otherwise a read error of the table document is. Without either error the result is the saved merge. |
| DocxMerge.MergeDocuments | src/tidocs/docx_handler.py:100-116 | The merge uses the marker `TIDOCS_REPLACE_TABLE` and fails exactly when one of the documents cannot be read, with that error re-raised. |
| PandocOptions.SnakeToDash | src/tidocs/markdown_to_word.py:28-41 | The length is kept, every `_` becomes `-`, and every other character is kept. |
| PandocOptions.SnakeToDashIdempotent | src/tidocs/markdown_to_word.py:28-41 | The result holds no `_`, and converting it again changes nothing. |
| PandocOptions.SnakeToDashExample | src/tidocs/markdown_to_word.py:37-39 | `snake_to_dash("hello_world_1") == "hello-world-1"`. |
| PandocOptions.BaseReads | src/tidocs/markdown_to_word.py:87-100 | The base options set `--from` to the converter's source format and `--to` to `docx`, and set no other option. |
| PandocOptions.GeneratePandocOptions | src/tidocs/markdown_to_word.py:103-141 | The command line always starts with the three base options. |
| PandocOptions.GenerateReadsBack | src/tidocs/markdown_to_word.py:103-141 | Reading the command line back gives the configuration. `--reference-doc` is the resolved reference document: `bundled` becomes the packaged path, and a missing one sets nothing. `--resource-path`, `--toc=True/False` and `--toc-depth` are each present exactly when set. No other key is set, `toc-title` included. |
| PandocOptions.GenerateLength | src/tidocs/markdown_to_word.py:121-139 | The command line has one word per base option and one per setting present. |
| PandocOptions.GenerateOrder | src/tidocs/markdown_to_word.py:121-141 | With every setting present, the words come in the order they are appended: the base options, then `--reference-doc`, `--resource-path`, `--toc=True/False` and `--toc-depth`. `toc_title` adds no word. |
| PandocOptions.DefaultOptions | src/tidocs/markdown_to_word.py:123-127 | With the default `PandocConfig` the command line is the base options plus the packaged reference document. |
| MarkdownToWord.MarkdownContents | src/tidocs/markdown_to_word.py:159-167 | The Markdown is the metadata block, followed by the decoded input without front matter and a newline only when front matter removal is on. A decoding error is the only failure. Without a base URL that text is passed on as is, so it starts with the metadata block. With a base URL, the internal-link rewrite is applied to the whole text, metadata block included. |
| MarkdownToWord.PandocInputs | src/tidocs/markdown_to_word.py:163-169 | Without table extraction the Markdown is passed on whole and the table text is empty. |
| MarkdownToWord.MarkdownToWordDoc | src/tidocs/markdown_to_word.py:144-186 | A decoding error is the result. Without table extraction the result is one Pandoc conversion with the Markdown options, and nothing is merged. With it, the marked Markdown and the extracted tables are converted with the Markdown and HTML options and merged. |
| MarkdownToWord.DefaultConvertsMetadataOnly | src/tidocs/markdown_to_word.py:159-161 | With the default configuration, only the metadata block is converted, whatever the input. |

## Left out

- `generate_pandoc_metadata` is not part of this model. Its YAML block is an input of `MarkdownToWord`.
- `pandoc_wrapper` and `util` are not part of this model.
  - Pandoc's conversion is a parameter returning its standard output. The error stream is ignored, as the code ignores it.
  - `get_reference_doc()` is a parameter.
- python-docx and lxml reading, deep copy (`parse_xml`) and saving are parameters or abstractions.
  - Reading may fail. Saving is total.
  - A document is reduced to what the merge reads and writes.
  - XPath `.//w:p` is modelled as the list of a table's paragraphs in document order, each with its hyperlinks and numbering properties.
- UTF-8 decoding and encoding are parameters.
- pydantic validation, field aliases and `WordMetadataConfig` are not modelled. `converter_map.get` returning `None` cannot happen with the two-valued `ConverterType`.
- The `print` in `merge_documents` is output only, and is left out.
- InternalLinks.ProcessInternalLinks: requires a base URL without a backslash. `re.sub` would read one as a template escape, which the model does not implement.
- MarkdownToWord.MarkdownContents: same backslash requirement on a configured base URL, for the same reason.
- MarkdownToWord.MarkdownToWordDoc: same backslash requirement on a configured base URL, for the same reason.
- `relate_to` and `_next_rId` are python-docx library code.
  - They are modelled as get-or-add over a relationship table with unique keys. The table is a dictionary in python-docx.
  - Relationship equality compares type, target and externality.
- Docstring examples 1 and 3 of `extract_and_mark_html_tables` (two tables each) are not proved as concrete instances. They are instances of `TableLayout.SideTextInOrder` and `TableRoundTrip.ExtractMarksInPlaceDistinct`.
