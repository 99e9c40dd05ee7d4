/** The code block itself (class CodeBlock in wagtailcodeblock/blocks.py):
    its child blocks, its language choices and the media it declares. The
    three settings the block reads (configured languages, PrismJS theme and
    PrismJS version) are passed in as parameters. */
module CodeBlocks {
  import opened Languages
  import opened Assets

  /** A Wagtail block, kept opaque except for what the code block builds. */
  datatype Block =
    | ChoiceBlock(choices: seq<LanguageEntry>, defaultCode: Option<string>)
    | TextBlock
    | OtherBlock(kind: string)

  /** A child block of a struct block: its field name and the block. */
  datatype NamedBlock = NamedBlock(name: string, block: Block)

  /** The scripts and the stylesheets (keyed by media type) a block declares. */
  datatype MediaAssets = MediaAssets(js: seq<string>, css: map<string, seq<string>>)

  /** The two fields a code block adds after the caller's own blocks. */
  function CodeFields(choices: Choices): seq<NamedBlock>
  {
    [NamedBlock("language", ChoiceBlock(choices.entries, choices.defaultCode)), NamedBlock("code", TextBlock)]
  }

  class CodeBlock {
    const includedLanguages: seq<LanguageEntry> := IncludedLanguages
    /** The child blocks handed on to the struct block. */
    var childBlocks: seq<NamedBlock>

    /** Builds the child blocks: a copy of the caller's `localBlocks` (none
        when absent) followed by the language field and the code field. The
        caller's array is read, never written. */
    constructor (localBlocks: Option<array<NamedBlock>>, configured: seq<LanguageEntry>, language: Option<string>)
      ensures includedLanguages == IncludedLanguages
      ensures localBlocks.Some? ==> unchanged(localBlocks.value)
      ensures childBlocks
        == (if localBlocks.Some? then localBlocks.value[..] else [])
        + CodeFields(Resolve(configured, IncludedLanguages, language))
    {
      new;
      var blocks: seq<NamedBlock>;
      if localBlocks.None? {
        blocks := [];
      } else {
        blocks := localBlocks.value[..];
      }
      var choices, defaultCode := GetLanguageChoiceList(configured, language);
      blocks := blocks + [NamedBlock("language", ChoiceBlock(choices, defaultCode)), NamedBlock("code", TextBlock)];
      childBlocks := blocks;
    }

    /** Language-choice resolution by a scan of `configured + includedLanguages`
        that overwrites its result on every entry carrying the pre-selected code. */
    method GetLanguageChoiceList(configured: seq<LanguageEntry>, language: Option<string>)
      returns (choices: seq<LanguageEntry>, defaultCode: Option<string>)
      ensures Choices(choices, defaultCode) == Resolve(configured, includedLanguages, language)
    {
      var total := configured + includedLanguages;
      if language.Some? && language.value in Codes(total) {
        var code := language.value;
        choices, defaultCode := [], None;
        for i := 0 to |total|
          invariant LastIndexOf(total[..i], code).None? ==> choices == [] && defaultCode == None
          invariant LastIndexOf(total[..i], code).Some? ==>
            choices == [total[LastIndexOf(total[..i], code).value]] && defaultCode == Some(code)
        {
          assert total[..i + 1][..i] == total[..i];
          if total[i].code == code {
            choices := [total[i]];
            defaultCode := Some(total[i].code);
          }
        }
        assert total[..|total|] == total;
      } else {
        choices, defaultCode := configured, None;
      }
    }

    /** The media of a code block for the given PrismJS version, theme and configured languages. */
    method Media(version: string, theme: Option<string>, configured: seq<LanguageEntry>) returns (m: MediaAssets)
      ensures m.js == Scripts(version, configured, Codes(includedLanguages))
      ensures m.css == map["all" := Stylesheets(version, theme)]
    {
      var prismTheme;
      if theme.Some? && theme.value != "" {
        prismTheme := "-" + theme.value;
      } else {
        prismTheme := "";
      }
      var jsList := [PrismRoot + version + "/prism.min.js", DraftailScript];
      var includedCodes := Codes(includedLanguages);
      for i := 0 to |configured|
        invariant jsList == Scripts(version, configured[..i], includedCodes)
      {
        assert configured[..i + 1][..i] == configured[..i];
        var langCode := configured[i].code;
        if langCode !in includedCodes {
          jsList := jsList + [PrismRoot + version + "/components/prism-" + langCode + ".min.js"];
        }
      }
      assert configured[..|configured|] == configured;
      var cssList := [
        PrismRoot + version + "/themes/prism" + prismTheme + ".min.css",
        DraftailStylesheet,
        CodeBlockStylesheet
      ];
      m := MediaAssets(jsList, map["all" := cssList]);
    }
  }
}
