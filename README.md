# wagtailcodeblock: code block language choices and media, in Dafny

This project models `CodeBlock` from `wagtailcodeblock/blocks.py`. It is a Wagtail StreamField block that lets an editor pick a
programming language and type a snippet, which PrismJS then highlights in the browser. The block does three computations:

- **Language-choice resolution** (`get_language_choice_list`). The configured language table is joined with the table of
  languages bundled in the PrismJS core (html, mathml, svg, xml). A pre-selected `language` found among the codes narrows
  the choices to a single entry and makes its code the default. The lookup is a scan that overwrites its result on every
  match, so the **last** matching entry of `configured + included` wins. Otherwise the block offers the configured table
  unchanged, with no default.
- **Media** (`media`). The script list holds:
  - the PrismJS core script,
  - the Draftail editor script,
  - one PrismJS component script per configured language that the core does not bundle, in configured order and
    without de-duplication.

  The stylesheet list under `"all"` holds the PrismJS theme stylesheet, the Draftail stylesheet and the block's own
  stylesheet. The theme stylesheet is named `prism-<theme>.min.css` when the theme is truthy and `prism.min.css`
  otherwise. All URLs are the byte-exact templates on the cdnjs PrismJS path.
- **Child blocks** (`__init__`). The block copies the caller's `local_blocks`, or starts from an empty list. It then
  appends a `language` choice field, built from the resolved choices, and a `code` text field.

The settings getters `get_language_choices`, `get_theme` and `get_prism_version` come from a settings module that is not
part of this model. Their values are parameters: a configured table, an optional theme and a version string.

Files:
- `languages.dfy` (module `Languages`): language entries, the bundled table, last-match search, and the specification
  `Resolve` with its lemmas.
- `assets.dfy` (module `Assets`): URL templates, the theme suffix, the component-script filter, and the specification
  `Scripts` with its lemmas.
- `code_block.dfy` (module `CodeBlocks`): the class `CodeBlock`. `GetLanguageChoiceList` and `Media` follow the source's
  loops and are proved equal to `Resolve` and to `Scripts` and `Stylesheets`. The constructor copies and extends the
  caller's blocks, and its postcondition states the resulting child blocks through `CodeFields`.

The URLs are protocol-relative, `//cdnjs.cloudflare.com/ajax/libs/prism/...`, as written at
`wagtailcodeblock/blocks.py` lines 82, 92 and 101.

## Model

| member | source | states |
|---|---|---|
| `Languages.IncludedCodes` | wagtailcodeblock/blocks.py:25-30 | the codes bundled in the PrismJS core are exactly html, mathml, svg, xml, in that order |
| `Languages.LastIndexOf` | wagtailcodeblock/blocks.py:60-64 | the search finds nothing exactly when no entry carries the code; otherwise it gives an index whose entry carries the code, and no later entry carries it |
| `Languages.ResolveLastMatch` | wagtailcodeblock/blocks.py:58-64 | for a pre-selected code, the choices are the singleton of the last entry of `configured + included` with that code, and the default is that code |
| `Languages.ResolveUniqueMatch` | wagtailcodeblock/blocks.py:60-64 | a code carried by exactly one entry of the joined table selects that entry, with the code as default |
| `Languages.ResolveNotFound` | wagtailcodeblock/blocks.py:56-67 | with no pre-selected code, or one that no entry of the joined table carries, the choices are the configured table unchanged and there is no default |
| `Languages.ResolveNeverInvents` | wagtailcodeblock/blocks.py:58-69 | every offered entry comes from `configured + included`; a default is the pre-selected code and the code of the single offered entry |
| `Languages.ResolveBundledEntryWins` | wagtailcodeblock/blocks.py:58-64 | a configured `html` entry loses to the bundled `("html", "HTML")` entry, which comes later in the joined table |
| `Languages.ResolveExample` | wagtailcodeblock/blocks.py:52-69 | a pre-selected configured `python` narrows the choices to the `python` entry, with default `python` |
| `Assets.ThemeSuffix` | wagtailcodeblock/blocks.py:76-79 | the suffix is empty exactly when the theme is falsy (absent or empty), and `-<theme>` otherwise |
| `Assets.NeedsComponent` | wagtailcodeblock/blocks.py:89-96 | the entries that get a component script are configured entries whose code is not bundled |
| `Assets.NeedsComponentSnoc` | wagtailcodeblock/blocks.py:89-96 | filtering one more configured entry appends that entry at the end exactly when its code is not bundled |
| `Assets.NeedsComponentCount` | wagtailcodeblock/blocks.py:89-96 | one entry is kept per configured position whose code is not bundled, duplicates included |
| `Assets.ScriptsShape` | wagtailcodeblock/blocks.py:81-96 | the script list starts with the core script and then the Draftail script, and its length is 2 plus the number of configured entries whose code is not bundled |
| `Assets.NeedsComponentCodes` | wagtailcodeblock/blocks.py:89-90 | a code is kept exactly when it is configured and not bundled |
| `Assets.ComponentScriptInjective` | wagtailcodeblock/blocks.py:92-95 | two component script URLs of one version are equal only for equal codes |
| `Assets.ComponentScriptDeclared` | wagtailcodeblock/blocks.py:81-96 | the component script of a code is in the script list if and only if the code is configured and not bundled |
| `Assets.NoBundledComponentScript` | wagtailcodeblock/blocks.py:88-96 | no component script is declared for html, mathml, svg or xml, whatever is configured |
| `Assets.NeedsComponentAppend` | wagtailcodeblock/blocks.py:89-96 | the filter distributes over concatenation, so configured order is kept and no duplicate is dropped |
| `Assets.ScriptsAppend` | wagtailcodeblock/blocks.py:81-96 | the scripts for `a + b` are those for `a` followed by the component scripts for `b` |
| `Assets.StylesheetsShape` | wagtailcodeblock/blocks.py:99-107 | exactly three stylesheets in fixed order: theme stylesheet (with `-<theme>` only for a truthy theme), Draftail stylesheet, the block's own stylesheet |
| `Assets.ThemeExamples` | wagtailcodeblock/blocks.py:101-104 | an absent or empty theme gives `prism.min.css`, and theme `okaidia` gives `prism-okaidia.min.css` |
| `Assets.ScriptsExample` | wagtailcodeblock/blocks.py:81-96 | configured python and html give the core script, the Draftail script and the python component script only |
| `CodeBlocks.CodeBlock.GetLanguageChoiceList` | wagtailcodeblock/blocks.py:52-69 | the overwrite-on-match scan returns exactly the choices and default of `Resolve` over the instance's bundled table |
| `CodeBlocks.CodeBlock.Media` | wagtailcodeblock/blocks.py:71-109 | the script list built by the loop is `Scripts` over the bundled codes, and the stylesheets are exactly `Stylesheets` under the single key `"all"` |
| `CodeBlocks.CodeBlock.constructor` | wagtailcodeblock/blocks.py:22-50 | the bundled table is the four core languages; the child blocks are the caller's blocks (or none) followed by the `language` choice field built from the resolved choices and default, and then the `code` field; the caller's array is not modified |

## Left out

- The Django `Media` object and its rendering. The media are a plain record: a script sequence and a map from media type to stylesheet sequence.
- Wagtail's `StructBlock`, `ChoiceBlock` and `TextBlock`, including `super().__init__` and the other keyword arguments passed on to it. Child blocks are opaque tagged values. Only the choices and default of the language field are kept.
- The `ugettext_lazy` translation of labels and help text, and the `identifier` arguments. Both are UI plumbing.
- The inner `Meta` class (icon, templates, CSS class). It is static configuration with no behaviour.
- The settings module (`get_language_choices`, `get_theme`, `get_prism_version`) is not part of this model. The model does not assume its defaults.
- The `language` keyword argument is modelled as an optional string. A non-string value, including the default `False`, matches no code, and the model treats it as absent.
- The theme is modelled as an optional string, with Python truthiness (absent or empty is false). Other non-string theme values are not modelled.
- `WCB_LANGUAGES + self.INCLUDED_LANGUAGES` in Python needs the settings getter to return a tuple, because the bundled table is a tuple and a list plus a tuple raises `TypeError`. The model concatenates sequences and does not model that failure.
- The two calls to `get_language_choices` (one in `__init__`, one in `media`) are separate parameters. Nothing requires them to agree.
- The caller's `local_blocks` is modelled as a list (an array read by the constructor). Other iterables make `local_blocks.copy()` raise `AttributeError`, because a tuple has no `copy()`. That error path is not modelled.
