/**
 * `markdown_to_word`: assemble the Markdown text from the metadata block
 * and the plugins' processing of the input, convert it with Pandoc, and,
 * when HTML tables are extracted, convert them separately and merge the two
 * Word documents.
 *
 * Pandoc, the UTF-8 codec, python-docx's reading and saving of documents and
 * the path of the bundled reference document are parameters: the model says
 * what is passed to them and how their results are combined.
 */
module MarkdownToWord {
  import opened Wrappers
  import opened Text
  import opened FrontMatter
  import opened InternalLinks
  import opened TableExtraction
  import opened Docx
  import opened DocxMerge
  import opened PandocOptions

  /** `PluginConfig`; `replaceInternalLinks` is `None` for Python's `False`, else the base URL. */
  datatype PluginConfig = PluginConfig(removeFrontMatter: bool, replaceInternalLinks: Option<string>, extractHtmlTable: bool)

  /** The defaults of `PluginConfig`: every plugin off. */
  const DefaultPluginConfig: PluginConfig := PluginConfig(false, None, false)

  /**
   * `MarkdownToWordConfig` without its metadata, which reaches the
   * conversion only as the YAML block generated from it.
   */
  datatype Config = Config(plugin: PluginConfig, pandoc: PandocConfig)

  const DefaultConfig: Config := Config(DefaultPluginConfig, DefaultPandocConfig)

  /** A base URL the link rewrite can splice into its substitution template. */
  predicate LinksConfigured(plugin: PluginConfig) {
    plugin.replaceInternalLinks.Some? ==> '\\' !in plugin.replaceInternalLinks.value
  }

  /**
   * What the conversion calls into: `Pandoc().run(options, input)` (its
   * standard output; the error stream is ignored by `markdown_to_word`),
   * `bytes.decode("utf-8")`, `str.encode("utf-8")`, reading and saving a
   * Word document, and `get_reference_doc()`.
   */
  datatype Env<E> = Env(
    pandoc: (seq<string>, Bytes) -> Bytes,
    decode: Bytes -> Result<string, E>,
    encode: string -> Bytes,
    parse: Bytes -> Result<Document, E>,
    serialize: Document -> Bytes,
    bundledReferenceDoc: Option<string>)

  /**
   * `md_contents` before table extraction: the metadata block, then, only
   * when front matter removal is on, the decoded input without its front
   * matter and a newline; then the internal-link rewrite over all of it
   * when a base URL is configured. A decoding error is the result.
   */
  function MarkdownContents<E>(decode: Bytes -> Result<string, E>, metadataBlock: string, markdownData: Bytes,
                               plugin: PluginConfig): (r: Result<string, E>)
    requires LinksConfigured(plugin)
    ensures r.Failure? <==> plugin.removeFrontMatter && decode(RemoveFrontMatter(markdownData)).Failure?
    ensures r.Failure? ==> r.error == decode(RemoveFrontMatter(markdownData)).error
    ensures r.Success? && plugin.replaceInternalLinks.None? ==>
              metadataBlock <= r.value
              && (plugin.removeFrontMatter ==>
                    r.value == metadataBlock + decode(RemoveFrontMatter(markdownData)).value + "\n")
              && (!plugin.removeFrontMatter ==> r.value == metadataBlock)
    ensures r.Success? && plugin.replaceInternalLinks.Some? ==>
              r.value == ProcessInternalLinks(
                           metadataBlock + (if plugin.removeFrontMatter then decode(RemoveFrontMatter(markdownData)).value + "\n" else ""),
                           plugin.replaceInternalLinks.value)
  {
    var decoded := decode(RemoveFrontMatter(markdownData));
    if plugin.removeFrontMatter && decoded.Failure? then Failure(decoded.error)
    else
      var md := metadataBlock + (if plugin.removeFrontMatter then decoded.value + "\n" else "");
      Success(if plugin.replaceInternalLinks.Some? then ProcessInternalLinks(md, plugin.replaceInternalLinks.value) else md)
  }

  /** The two texts given to Pandoc: the Markdown, and the HTML tables taken out of it (empty without extraction). */
  function PandocInputs(contents: string, plugin: PluginConfig): (r: (string, string))
    ensures !plugin.extractHtmlTable ==> r == (contents, "")
  {
    if plugin.extractHtmlTable then ExtractAndMarkHtmlTables(contents) else (contents, "")
  }

  /**
   * `markdown_to_word(markdown_data, config)`: without table extraction the
   * result is Pandoc's conversion of the Markdown and nothing is merged;
   * with it, the marked Markdown and the extracted tables are converted with
   * the Markdown and HTML options and the two documents are merged.
   */
  function MarkdownToWordDoc<E>(env: Env<E>, metadataBlock: string, markdownData: Bytes, config: Config): (r: Result<Bytes, E>)
    requires LinksConfigured(config.plugin) && ParsesUniquely(env.parse)
    ensures var contents := MarkdownContents(env.decode, metadataBlock, markdownData, config.plugin);
            var mdOptions := GeneratePandocOptions(config.pandoc, MdDoc, env.bundledReferenceDoc);
            var htmlOptions := GeneratePandocOptions(config.pandoc, HtmlDoc, env.bundledReferenceDoc);
            && (contents.Failure? ==> r == Failure(contents.error))
            && (contents.Success? && !config.plugin.extractHtmlTable ==>
                  r == Success(env.pandoc(mdOptions, env.encode(contents.value))))
            && (contents.Success? && config.plugin.extractHtmlTable ==>
                  var (marked, tables) := ExtractAndMarkHtmlTables(contents.value);
                  r == MergeDocuments(env.parse, env.serialize,
                                      env.pandoc(mdOptions, env.encode(marked)),
                                      env.pandoc(htmlOptions, env.encode(tables))))
  {
    var contents :- MarkdownContents(env.decode, metadataBlock, markdownData, config.plugin);
    var (marked, tables) := PandocInputs(contents, config.plugin);
    var mdOptions := GeneratePandocOptions(config.pandoc, MdDoc, env.bundledReferenceDoc);
    var htmlOptions := GeneratePandocOptions(config.pandoc, HtmlDoc, env.bundledReferenceDoc);
    var mdDoc := env.pandoc(mdOptions, env.encode(marked));
    if config.plugin.extractHtmlTable then
      MergeDocuments(env.parse, env.serialize, mdDoc, env.pandoc(htmlOptions, env.encode(tables)))
    else Success(mdDoc)
  }

  /**
   * With the default configuration only the metadata block is converted,
   * with the base Markdown options and the bundled reference document: the
   * input itself reaches Pandoc only when front matter removal is on.
   */
  lemma DefaultConvertsMetadataOnly<E>(env: Env<E>, metadataBlock: string, markdownData: Bytes, path: string)
    requires ParsesUniquely(env.parse) && env.bundledReferenceDoc == Some(path)
    ensures MarkdownToWordDoc(env, metadataBlock, markdownData, DefaultConfig) ==
              Success(env.pandoc(BaseOptions(FromMarkdown) + ["--reference-doc=" + path], env.encode(metadataBlock)))
  {
    DefaultOptions(MdDoc, path);
  }
}
