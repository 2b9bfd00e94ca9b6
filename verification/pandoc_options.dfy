/**
 * The Pandoc command line of `markdown_to_word`: the conversion formats,
 * the base options, the options a `PandocConfig` adds, and `snake_to_dash`,
 * the alias generator of the configuration models.
 */
module PandocOptions {
  import opened Wrappers
  import opened Text

  // ------------------------------------------------------- snake_to_dash

  /** `snake_to_dash(text)`: `text.replace("_", "-")`. */
  function SnakeToDash(text: string): (r: string)
    ensures |r| == |text|
    ensures forall i :: 0 <= i < |text| ==> r[i] == if text[i] == '_' then '-' else text[i]
  {
    ReplaceOneChar(text, '_', "-");
    ReplaceAll(text, "_", "-")
  }

  /** Replacing a one-character needle by one character maps every position on its own. */
  lemma {:induction false} ReplaceOneChar(s: string, c: char, d: string)
    requires |d| == 1
    ensures var r := ReplaceAll(s, [c], d);
            |r| == |s| && forall i :: 0 <= i < |s| ==> r[i] == if s[i] == c then d[0] else s[i]
    decreases |s|
  {
    if |s| > 0 {
      ReplaceOneChar(s[1..], c, d);
      var rest := ReplaceAll(s[1..], [c], d);
      if s[..1] == [c] {
        assert ReplaceAll(s, [c], d) == d + rest;
      } else {
        assert ReplaceAll(s, [c], d) == [s[0]] + rest;
      }
    }
  }

  /** A dash-case name has no underscore left, and converting it again changes nothing. */
  lemma SnakeToDashIdempotent(text: string)
    ensures '_' !in SnakeToDash(text)
    ensures SnakeToDash(SnakeToDash(text)) == SnakeToDash(text)
  {
    var r := SnakeToDash(text);
    assert forall i :: 0 <= i < |r| ==> r[i] != '_';
  }

  /** The docstring example: `snake_to_dash("hello_world_1") == "hello-world-1"`. */
  lemma SnakeToDashExample()
    ensures SnakeToDash("hello_world_1") == "hello-world-1"
  {
    var r := SnakeToDash("hello_world_1");
    assert |r| == 13;
  }

  // ----------------------------------------------------------- converters

  /** `DocxConverter`: the two supported conversions, both to `docx`. */
  datatype Converter = FromMarkdown | FromHtml {
    function SourceFormat(): string {
      match this
      case FromMarkdown => "markdown"
      case FromHtml => "html"
    }

    function TargetFormat(): string {
      "docx"
    }
  }

  /** The `converter_type` argument of `generate_pandoc_options`. */
  datatype ConverterType = MdDoc | HtmlDoc

  function ConverterFor(t: ConverterType): Converter {
    match t
    case MdDoc => FromMarkdown
    case HtmlDoc => FromHtml
  }

  // --------------------------------------------------------------- config

  /** The `reference_doc` value that stands for the reference document shipped with the package. */
  const Bundled: string := "bundled"

  /** `PandocConfig`; `None` is Python's `None`. */
  datatype PandocConfig = PandocConfig(
    referenceDoc: Option<string>,
    resourcePath: Option<string>,
    toc: Option<bool>,
    tocDepth: Option<int>,
    tocTitle: Option<string>)

  /** The defaults of `PandocConfig`: the bundled reference document and nothing else. */
  const DefaultPandocConfig: PandocConfig := PandocConfig(Some(Bundled), None, None, None, None)

  /** Python's `str(b)` for a boolean. */
  function BoolText(b: bool): string {
    if b then "True" else "False"
  }

  // -------------------------------------------------------------- options

  /** `f"--{key}={value}"`. */
  function Opt(key: string, value: string): string {
    "--" + key + "=" + value
  }

  /** `get_pandoc_base_options(converter)`. */
  function BaseOptions(c: Converter): (r: seq<string>)
    ensures |r| == 3 && r[0] == "-o-"
  {
    ["-o-", "--from=" + c.SourceFormat(), "--to=" + c.TargetFormat()]
  }

  /** The option for `key` when the setting is present, nothing when it is `None`. */
  function OptIf(key: string, value: Option<string>): (r: seq<string>)
    ensures |r| == if value.Some? then 1 else 0
  {
    if value.Some? then [Opt(key, value.value)] else []
  }

  /** `reference_doc` after `"bundled"` is replaced by the packaged document's path (`get_reference_doc()`). */
  function ResolveReference(referenceDoc: Option<string>, bundledPath: Option<string>): Option<string> {
    if referenceDoc == Some(Bundled) then bundledPath else referenceDoc
  }

  function MapOpt<T>(o: Option<T>, f: T -> string): Option<string> {
    if o.Some? then Some(f(o.value)) else None
  }

  /**
   * `generate_pandoc_options(config, converter_type)`: the base options,
   * then reference document, resource path, table of contents and its
   * depth, each only when set. `toc_title` is not passed on.
   */
  function GeneratePandocOptions(config: PandocConfig, t: ConverterType, bundledPath: Option<string>): (r: seq<string>)
    ensures |r| >= 3 && r[..3] == BaseOptions(ConverterFor(t))
  {
    BaseOptions(ConverterFor(t))
      + OptIf("reference-doc", ResolveReference(config.referenceDoc, bundledPath))
      + OptIf("resource-path", config.resourcePath)
      + OptIf("toc", MapOpt(config.toc, BoolText))
      + OptIf("toc-depth", MapOpt(config.tocDepth, IntToString))
  }

  // ----------------------------------------------- reading the line back

  /** What a single command-line word sets `--key` to, if it is `--key=value`. */
  function ValueIn(word: string, key: string): (r: Option<string>)
    ensures r.Some? ==> word == Opt(key, r.value)
  {
    var p := "--" + key + "=";
    if |p| <= |word| && word[..|p|] == p then
      assert word == p + word[|p|..];
      Some(word[|p|..])
    else None
  }

  /** The value Pandoc reads for `--key`: that of the first word setting it. */
  function OptionValue(words: seq<string>, key: string): Option<string> {
    if |words| == 0 then None
    else if ValueIn(words[0], key).Some? then ValueIn(words[0], key)
    else OptionValue(words[1..], key)
  }

  /** The index of the first `=` in `s`, or its length. */
  function EqIndex(s: string): nat {
    if |s| == 0 || s[0] == '=' then 0 else 1 + EqIndex(s[1..])
  }

  lemma {:induction false} EqIndexAfter(k: string, rest: string)
    requires '=' !in k
    ensures EqIndex(k + "=" + rest) == |k|
  {
    if |k| > 0 {
      assert (k + "=" + rest)[1..] == k[1..] + "=" + rest;
      EqIndexAfter(k[1..], rest);
    }
  }

  /** A word `--key=v` starting with `--key'=` has `key' == key` when neither key holds `=`. */
  lemma SameKey(key: string, key': string, v: string)
    ensures var w := Opt(key, v);
            var p := "--" + key' + "=";
            '=' !in key && '=' !in key' && |p| <= |w| && w[..|p|] == p ==> key == key'
  {
    var w := Opt(key, v);
    var p := "--" + key' + "=";
    if '=' !in key && '=' !in key' && |p| <= |w| && w[..|p|] == p {
      assert w[2..] == key + "=" + v;
      assert w[2..] == key' + "=" + w[|p|..];
      EqIndexAfter(key, v);
      EqIndexAfter(key', w[|p|..]);
      assert key == w[2..][..|key|] == key';
    }
  }

  /** For keys without `=`, an option word sets exactly its own key. */
  lemma ValueOfOpt(key: string, key': string, v: string)
    requires '=' !in key && '=' !in key'
    ensures ValueIn(Opt(key, v), key') == if key == key' then Some(v) else None
  {
    var w := Opt(key, v);
    var p := "--" + key' + "=";
    SameKey(key, key', v);
    if key == key' {
      assert w[..|p|] == p;
      assert w[|p|..] == v;
    }
  }

  lemma {:induction false} OptionValueConcat(a: seq<string>, b: seq<string>, key: string)
    ensures OptionValue(a + b, key) == if OptionValue(a, key).Some? then OptionValue(a, key) else OptionValue(b, key)
  {
    if |a| > 0 {
      assert (a + b)[0] == a[0];
      assert (a + b)[1..] == a[1..] + b;
      OptionValueConcat(a[1..], b, key);
    } else {
      assert a + b == b;
    }
  }

  lemma OptionValueSingle(w: string, key: string)
    ensures OptionValue([w], key) == ValueIn(w, key)
  {
    assert [w][1..] == [];
  }

  /** A present setting reads back as its own value and sets no other key. */
  lemma OptIfReads(key: string, key': string, value: Option<string>)
    requires '=' !in key && '=' !in key'
    ensures OptionValue(OptIf(key, value), key') == if key == key' then value else None
  {
    if value.Some? {
      ValueOfOpt(key, key', value.value);
      assert OptIf(key, value)[1..] == [];
    }
  }

  /** The base options set the formats and nothing else. */
  lemma BaseReads(c: Converter, key: string)
    requires '=' !in key
    ensures OptionValue(BaseOptions(c), key) ==
              if key == "from" then Some(c.SourceFormat())
              else if key == "to" then Some(c.TargetFormat())
              else None
  {
    var b := BaseOptions(c);
    assert b[0][1] != ("--" + key + "=")[1];
    assert b[1] == Opt("from", c.SourceFormat());
    assert b[2] == Opt("to", c.TargetFormat());
    ValueOfOpt("from", key, c.SourceFormat());
    ValueOfOpt("to", key, c.TargetFormat());
    assert b == [b[0]] + [b[1]] + [b[2]];
    OptionValueSingle(b[0], key);
    OptionValueSingle(b[1], key);
    OptionValueSingle(b[2], key);
    OptionValueConcat([b[0]] + [b[1]], [b[2]], key);
    OptionValueConcat([b[0]], [b[1]], key);
  }

  /** What the generated command line sets each key to. */
  function Expected(config: PandocConfig, t: ConverterType, bundledPath: Option<string>, key: string): Option<string> {
    if key == "from" then Some(ConverterFor(t).SourceFormat())
    else if key == "to" then Some("docx")
    else if key == "reference-doc" then ResolveReference(config.referenceDoc, bundledPath)
    else if key == "resource-path" then config.resourcePath
    else if key == "toc" then MapOpt(config.toc, BoolText)
    else if key == "toc-depth" then MapOpt(config.tocDepth, IntToString)
    else None
  }

  /**
   * The command line reads back to the configuration: the formats of the
   * conversion, the resolved reference document, the resource path, the
   * table of contents flag (`True`/`False`) and depth, each exactly when
   * set, and nothing for any other key, `toc-title` included.
   */
  lemma GenerateReadsBack(config: PandocConfig, t: ConverterType, bundledPath: Option<string>, key: string)
    requires '=' !in key
    ensures OptionValue(GeneratePandocOptions(config, t, bundledPath), key) == Expected(config, t, bundledPath, key)
  {
    var b := BaseOptions(ConverterFor(t));
    var o1 := OptIf("reference-doc", ResolveReference(config.referenceDoc, bundledPath));
    var o2 := OptIf("resource-path", config.resourcePath);
    var o3 := OptIf("toc", MapOpt(config.toc, BoolText));
    var o4 := OptIf("toc-depth", MapOpt(config.tocDepth, IntToString));
    BaseReads(ConverterFor(t), key);
    OptIfReads("reference-doc", key, ResolveReference(config.referenceDoc, bundledPath));
    OptIfReads("resource-path", key, config.resourcePath);
    OptIfReads("toc", key, MapOpt(config.toc, BoolText));
    OptIfReads("toc-depth", key, MapOpt(config.tocDepth, IntToString));
    OptionValueConcat(b + o1 + o2 + o3, o4, key);
    OptionValueConcat(b + o1 + o2, o3, key);
    OptionValueConcat(b + o1, o2, key);
    OptionValueConcat(b, o1, key);
  }

  /** One word per base option and per setting present. */
  lemma GenerateLength(config: PandocConfig, t: ConverterType, bundledPath: Option<string>)
    ensures |GeneratePandocOptions(config, t, bundledPath)| ==
              3 + (if ResolveReference(config.referenceDoc, bundledPath).Some? then 1 else 0)
                + (if config.resourcePath.Some? then 1 else 0)
                + (if config.toc.Some? then 1 else 0)
                + (if config.tocDepth.Some? then 1 else 0)
  {
  }

  /**
   * With every setting present the words come in the order they are appended:
   * the base options, then `--reference-doc`, `--resource-path`, `--toc` and
   * `--toc-depth`; `toc_title` adds nothing.
   */
  lemma GenerateOrder(config: PandocConfig, t: ConverterType, bundledPath: Option<string>,
                      ref: string, path: string, toc: bool, depth: int)
    requires config.referenceDoc == Some(ref) && ref != Bundled
    requires config.resourcePath == Some(path) && config.toc == Some(toc) && config.tocDepth == Some(depth)
    ensures GeneratePandocOptions(config, t, bundledPath) ==
              BaseOptions(ConverterFor(t))
                + [Opt("reference-doc", ref), Opt("resource-path", path),
                   Opt("toc", BoolText(toc)), Opt("toc-depth", IntToString(depth))]
  {
    var b := BaseOptions(ConverterFor(t));
    var w0, w1, w2, w3 := Opt("reference-doc", ref), Opt("resource-path", path),
                          Opt("toc", BoolText(toc)), Opt("toc-depth", IntToString(depth));
    assert OptIf("reference-doc", ResolveReference(config.referenceDoc, bundledPath)) == [w0];
    assert OptIf("resource-path", config.resourcePath) == [w1];
    assert OptIf("toc", MapOpt(config.toc, BoolText)) == [w2];
    assert OptIf("toc-depth", MapOpt(config.tocDepth, IntToString)) == [w3];
    assert b + [w0] + [w1] + [w2] + [w3] == b + [w0, w1, w2, w3];
  }

  /** With the defaults the command line is the base options and the packaged reference document. */
  lemma DefaultOptions(t: ConverterType, path: string)
    ensures GeneratePandocOptions(DefaultPandocConfig, t, Some(path)) == BaseOptions(ConverterFor(t)) + ["--reference-doc=" + path]
  {
    assert Opt("reference-doc", path) == "--reference-doc=" + path;
  }
}
