/** The asset URLs a code block declares (CodeBlock.media): the PrismJS core
    script, the Draftail editor script, one PrismJS component script per
    configured language that the core does not bundle, and three stylesheets. */
module Assets {
  import opened Languages

  /** Root of the PrismJS release directories on cdnjs. */
  const PrismRoot := "//cdnjs.cloudflare.com/ajax/libs/prism/"
  const DraftailScript := "wagtailadmin/js/draftail.js"
  const DraftailStylesheet := "wagtailadmin/css/panels/draftail.css"
  const CodeBlockStylesheet := "wagtailcodeblock/css/wagtail-code-block.min.css"

  function CoreScript(version: string): string
  {
    PrismRoot + version + "/prism.min.js"
  }

  function ComponentScript(version: string, code: string): string
  {
    PrismRoot + version + "/components/prism-" + code + ".min.js"
  }

  /** Python truthiness of the theme setting: absent (None) and "" are false. */
  predicate IsTruthy(theme: Option<string>)
  {
    theme.Some? && theme.value != ""
  }

  /** The part of the theme stylesheet name that follows "prism". */
  function ThemeSuffix(theme: Option<string>): (r: string)
    ensures r == "" <==> !IsTruthy(theme)
    ensures IsTruthy(theme) ==> r == "-" + theme.value
  {
    if IsTruthy(theme) then "-" + theme.value else ""
  }

  function ThemeStylesheet(version: string, theme: Option<string>): string
  {
    PrismRoot + version + "/themes/prism" + ThemeSuffix(theme) + ".min.css"
  }

  /** The stylesheets declared under the media type "all", in order. */
  function Stylesheets(version: string, theme: Option<string>): seq<string>
  {
    [ThemeStylesheet(version, theme), DraftailStylesheet, CodeBlockStylesheet]
  }

  /** The configured entries whose code is not bundled in the core script, in configured order. */
  function NeedsComponent(configured: seq<LanguageEntry>, includedCodes: seq<string>): (r: seq<LanguageEntry>)
    ensures |r| <= |configured|
    ensures forall e :: e in r ==> e in configured && e.code !in includedCodes
  {
    if |configured| == 0 then []
    else
      var rest := NeedsComponent(configured[..|configured| - 1], includedCodes);
      var last := configured[|configured| - 1];
      if last.code in includedCodes then rest else rest + [last]
  }

  /** The component script URL of each entry, in order. */
  function ComponentScripts(version: string, entries: seq<LanguageEntry>): (r: seq<string>)
    ensures |r| == |entries|
    ensures forall i :: 0 <= i < |entries| ==> r[i] == ComponentScript(version, entries[i].code)
  {
    seq(|entries|, i requires 0 <= i < |entries| => ComponentScript(version, entries[i].code))
  }

  /** The script list of a code block. */
  function Scripts(version: string, configured: seq<LanguageEntry>, includedCodes: seq<string>): seq<string>
  {
    [CoreScript(version), DraftailScript] + ComponentScripts(version, NeedsComponent(configured, includedCodes))
  }

  /** The positions of the configured entries that need a component script. */
  function IndicesNeedingComponent(configured: seq<LanguageEntry>, includedCodes: seq<string>): set<nat>
  {
    set i: nat | i < |configured| && configured[i].code !in includedCodes
  }

  lemma {:induction false} NeedsComponentCount(configured: seq<LanguageEntry>, includedCodes: seq<string>)
    ensures |NeedsComponent(configured, includedCodes)| == |IndicesNeedingComponent(configured, includedCodes)|
  {
    if |configured| > 0 {
      var n := |configured| - 1;
      var prefix := configured[..n];
      NeedsComponentCount(prefix, includedCodes);
      var before := IndicesNeedingComponent(prefix, includedCodes);
      var now := IndicesNeedingComponent(configured, includedCodes);
      if configured[n].code in includedCodes {
        assert now == before;
      } else {
        assert now == before + {n};
        assert n !in before;
      }
    }
  }

  /** The script list starts with the core script and the Draftail script, and
      holds one more script per configured entry whose code is not bundled. */
  lemma ScriptsShape(version: string, configured: seq<LanguageEntry>, includedCodes: seq<string>)
    ensures var r := Scripts(version, configured, includedCodes);
      |r| == 2 + |IndicesNeedingComponent(configured, includedCodes)|
      && r[0] == CoreScript(version) && r[1] == DraftailScript
  {
    NeedsComponentCount(configured, includedCodes);
  }

  /** Filtering one more entry appends it exactly when its code is not bundled. */
  lemma NeedsComponentSnoc(s: seq<LanguageEntry>, x: LanguageEntry, includedCodes: seq<string>)
    ensures NeedsComponent(s + [x], includedCodes)
         == NeedsComponent(s, includedCodes) + (if x.code in includedCodes then [] else [x])
  {
    assert (s + [x])[..|s|] == s;
  }

  /** Every configured code that is not bundled is among the codes kept by the filter. */
  lemma {:induction false} NeedsComponentKeeps(configured: seq<LanguageEntry>, includedCodes: seq<string>, code: string)
    requires code in Codes(configured) && code !in includedCodes
    ensures code in Codes(NeedsComponent(configured, includedCodes))
  {
    var n := |configured| - 1;
    var prefix, x := configured[..n], configured[n];
    assert configured == prefix + [x];
    NeedsComponentSnoc(prefix, x, includedCodes);
    var rest := NeedsComponent(prefix, includedCodes);
    if x.code == code {
      CodeAt(rest + [x], code, |rest|);
    } else {
      var j := IndexOfCode(configured, code);
      CodeAt(prefix, code, j);
      NeedsComponentKeeps(prefix, includedCodes, code);
      var i := IndexOfCode(rest, code);
      CodeAt(rest + [x], code, i);
    }
  }

  /** A code is among the codes kept by the filter exactly when it is configured and not bundled. */
  lemma NeedsComponentCodes(configured: seq<LanguageEntry>, includedCodes: seq<string>, code: string)
    ensures code in Codes(NeedsComponent(configured, includedCodes)) <==> code in Codes(configured) && code !in includedCodes
  {
    var kept := NeedsComponent(configured, includedCodes);
    if code in Codes(kept) {
      var i := IndexOfCode(kept, code);
      assert kept[i] in kept;
      var j :| 0 <= j < |configured| && configured[j] == kept[i];
      CodeAt(configured, code, j);
    }
    if code in Codes(configured) && code !in includedCodes {
      NeedsComponentKeeps(configured, includedCodes, code);
    }
  }

  /** Component script URLs of one version differ whenever the codes do. */
  lemma ComponentScriptInjective(version: string, code1: string, code2: string)
    requires ComponentScript(version, code1) == ComponentScript(version, code2)
    ensures code1 == code2
  {
    var prefix := PrismRoot + version + "/components/prism-";
    var u1, u2 := prefix + code1 + ".min.js", prefix + code2 + ".min.js";
    assert |code1| == |code2|;
    forall i | 0 <= i < |code1|
      ensures code1[i] == code2[i]
    {
      assert u1[|prefix| + i] == code1[i];
      assert u2[|prefix| + i] == code2[i];
    }
  }

  /** A component script URL is never one of the two fixed scripts. */
  lemma ComponentScriptNotFixed(version: string, code: string)
    ensures ComponentScript(version, code) != CoreScript(version)
    ensures ComponentScript(version, code) != DraftailScript
  {
    assert |ComponentScript(version, code)| > |CoreScript(version)|;
    assert ComponentScript(version, code)[0] == '/' != DraftailScript[0];
  }

  /** The component scripts of some entries hold the URL of a code exactly when an entry carries that code. */
  lemma ComponentScriptsHold(version: string, entries: seq<LanguageEntry>, code: string)
    ensures ComponentScript(version, code) in ComponentScripts(version, entries) <==> code in Codes(entries)
  {
    var url := ComponentScript(version, code);
    var components := ComponentScripts(version, entries);
    if url in components {
      var i :| 0 <= i < |components| && components[i] == url;
      ComponentScriptInjective(version, entries[i].code, code);
      CodeAt(entries, code, i);
    }
    if code in Codes(entries) {
      var i := IndexOfCode(entries, code);
      assert components[i] == url;
    }
  }

  /** The component script of a code is declared exactly when the code is
      configured and not bundled in the core script. */
  lemma ComponentScriptDeclared(version: string, configured: seq<LanguageEntry>, includedCodes: seq<string>, code: string)
    ensures ComponentScript(version, code) in Scripts(version, configured, includedCodes)
        <==> code in Codes(configured) && code !in includedCodes
  {
    ComponentScriptNotFixed(version, code);
    ComponentScriptsHold(version, NeedsComponent(configured, includedCodes), code);
    NeedsComponentCodes(configured, includedCodes, code);
  }

  /** No component script is declared for a language the core bundles (html, mathml, svg, xml). */
  lemma NoBundledComponentScript(version: string, configured: seq<LanguageEntry>, code: string)
    requires code in ["html", "mathml", "svg", "xml"]
    ensures ComponentScript(version, code) !in Scripts(version, configured, Codes(IncludedLanguages))
  {
    IncludedCodes();
    ComponentScriptDeclared(version, configured, Codes(IncludedLanguages), code);
  }

  /** The filter keeps configured order and drops no duplicate: it distributes over concatenation. */
  lemma {:induction false} NeedsComponentAppend(a: seq<LanguageEntry>, b: seq<LanguageEntry>, includedCodes: seq<string>)
    ensures NeedsComponent(a + b, includedCodes) == NeedsComponent(a, includedCodes) + NeedsComponent(b, includedCodes)
  {
    if |b| == 0 {
      assert a + b == a;
    } else {
      var n := |b| - 1;
      var front, x := b[..n], b[n];
      assert b == front + [x];
      assert a + b == (a + front) + [x];
      NeedsComponentAppend(a, front, includedCodes);
      NeedsComponentSnoc(a + front, x, includedCodes);
      NeedsComponentSnoc(front, x, includedCodes);
    }
  }

  /** The scripts of `a + b` are those of `a` followed by the component scripts of `b`. */
  lemma ScriptsAppend(version: string, a: seq<LanguageEntry>, b: seq<LanguageEntry>, includedCodes: seq<string>)
    ensures Scripts(version, a + b, includedCodes) == Scripts(version, a, includedCodes) + Scripts(version, b, includedCodes)[2..]
  {
    NeedsComponentAppend(a, b, includedCodes);
    var ka, kb := NeedsComponent(a, includedCodes), NeedsComponent(b, includedCodes);
    assert ComponentScripts(version, ka + kb) == ComponentScripts(version, ka) + ComponentScripts(version, kb);
  }

  /** Three stylesheets in fixed order; the theme adds "-<theme>" to the PrismJS stylesheet only when truthy. */
  lemma StylesheetsShape(version: string, theme: Option<string>)
    ensures |Stylesheets(version, theme)| == 3
    ensures Stylesheets(version, theme)[0] == PrismRoot + version + "/themes/prism"
      + (if IsTruthy(theme) then "-" + theme.value else "") + ".min.css"
    ensures Stylesheets(version, theme)[1..] == [DraftailStylesheet, CodeBlockStylesheet]
  {
  }

  lemma ThemeExamples(version: string)
    ensures ThemeStylesheet(version, None) == PrismRoot + version + "/themes/prism.min.css"
    ensures ThemeStylesheet(version, Some("")) == PrismRoot + version + "/themes/prism.min.css"
    ensures ThemeStylesheet(version, Some("okaidia")) == PrismRoot + version + "/themes/prism-okaidia.min.css"
  {
  }

  /** A configured html entry gets no component script; python does. */
  lemma ScriptsExample()
    ensures Scripts("1.29.0", [LanguageEntry("python", "Python"), LanguageEntry("html", "HTML")], Codes(IncludedLanguages))
         == [CoreScript("1.29.0"), DraftailScript, ComponentScript("1.29.0", "python")]
  {
    var python, html := LanguageEntry("python", "Python"), LanguageEntry("html", "HTML");
    var inc := Codes(IncludedLanguages);
    IncludedCodes();
    NeedsComponentAppend([python], [html], inc);
    assert [python] + [html] == [python, html];
    assert [python][..0] == [] && [html][..0] == [];
    assert NeedsComponent([python], inc) == [python];
    assert NeedsComponent([html], inc) == [];
    assert ComponentScripts("1.29.0", [python]) == [ComponentScript("1.29.0", "python")];
  }
}
