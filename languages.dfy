/** Language entries, the table of languages bundled in the PrismJS core
    script, and the specification of how a code block resolves its
    selectable languages (CodeBlock.get_language_choice_list). */
module Languages {

  datatype Option<T> = None | Some(value: T)

  /** A selectable language: its PrismJS code (e.g. "python") and the name shown to editors. */
  datatype LanguageEntry = LanguageEntry(code: string, name: string)

  /** Languages PrismJS highlights without loading a component script. */
  const IncludedLanguages: seq<LanguageEntry> := [
    LanguageEntry("html", "HTML"),
    LanguageEntry("mathml", "MathML"),
    LanguageEntry("svg", "SVG"),
    LanguageEntry("xml", "XML")
  ]

  /** The codes of a language table, in table order. */
  function Codes(s: seq<LanguageEntry>): (r: seq<string>)
    ensures |r| == |s|
    ensures forall i :: 0 <= i < |s| ==> r[i] == s[i].code
  {
    seq(|s|, i requires 0 <= i < |s| => s[i].code)
  }

  lemma CodeAt(s: seq<LanguageEntry>, code: string, i: nat)
    requires i < |s| && s[i].code == code
    ensures code in Codes(s)
  {
    assert Codes(s)[i] == code;
  }

  lemma IndexOfCode(s: seq<LanguageEntry>, code: string) returns (i: nat)
    requires code in Codes(s)
    ensures i < |s| && s[i].code == code
  {
    i :| 0 <= i < |s| && Codes(s)[i] == code;
  }

  lemma IncludedCodes()
    ensures Codes(IncludedLanguages) == ["html", "mathml", "svg", "xml"]
  {
  }

  /** The index of the last entry of `s` whose code is `code`, if there is one. */
  function LastIndexOf(s: seq<LanguageEntry>, code: string): (r: Option<nat>)
    ensures r.None? <==> code !in Codes(s)
    ensures r.Some? ==> r.value < |s| && s[r.value].code == code
    ensures r.Some? ==> forall j :: r.value < j < |s| ==> s[j].code != code
  {
    if |s| == 0 then None
    else if s[|s| - 1].code == code then Some(|s| - 1)
    else LastIndexOf(s[..|s| - 1], code)
  }

  /** What a code block offers in its language field: the selectable entries and the default code. */
  datatype Choices = Choices(entries: seq<LanguageEntry>, defaultCode: Option<string>)

  /** Language-choice resolution. A pre-selected code found among the codes of
      `configured + included` narrows the choices to the LAST entry carrying
      it and makes it the default; otherwise the configured table is offered
      unchanged with no default. */
  function Resolve(configured: seq<LanguageEntry>, included: seq<LanguageEntry>, language: Option<string>): Choices
  {
    var total := configured + included;
    if language.None? then Choices(configured, None)
    else
      match LastIndexOf(total, language.value)
      case Some(k) => Choices([total[k]], language)
      case None => Choices(configured, None)
  }

  /** The entry chosen for a found code is the last one in `configured + included` carrying it. */
  lemma ResolveLastMatch(configured: seq<LanguageEntry>, included: seq<LanguageEntry>, code: string, k: nat)
    requires k < |configured + included| && (configured + included)[k].code == code
    requires forall j :: k < j < |configured + included| ==> (configured + included)[j].code != code
    ensures Resolve(configured, included, Some(code)) == Choices([(configured + included)[k]], Some(code))
  {
  }

  /** A code carried by exactly one entry of `configured + included` selects that entry. */
  lemma ResolveUniqueMatch(configured: seq<LanguageEntry>, included: seq<LanguageEntry>, code: string, k: nat)
    requires k < |configured + included| && (configured + included)[k].code == code
    requires forall j :: 0 <= j < |configured + included| && j != k ==> (configured + included)[j].code != code
    ensures Resolve(configured, included, Some(code)) == Choices([(configured + included)[k]], Some(code))
  {
  }

  /** No pre-selected code, or one that no entry carries: the configured table, unchanged, with no default. */
  lemma ResolveNotFound(configured: seq<LanguageEntry>, included: seq<LanguageEntry>, language: Option<string>)
    requires language.Some? ==> forall i :: 0 <= i < |configured + included| ==> (configured + included)[i].code != language.value
    ensures Resolve(configured, included, language) == Choices(configured, None)
  {
  }

  /** Resolution never invents an entry, and a default is always the code of the single entry offered. */
  lemma ResolveNeverInvents(configured: seq<LanguageEntry>, included: seq<LanguageEntry>, language: Option<string>)
    ensures forall e :: e in Resolve(configured, included, language).entries ==> e in configured + included
    ensures Resolve(configured, included, language).defaultCode.Some? ==>
      var r := Resolve(configured, included, language);
      r.defaultCode == language && |r.entries| == 1 && r.entries[0].code == r.defaultCode.value
  {
  }

  /** A configured entry that shares its code with a bundled one loses to the bundled one, which comes later. */
  lemma ResolveBundledEntryWins()
    ensures Resolve([LanguageEntry("html", "Markup")], IncludedLanguages, Some("html"))
         == Choices([LanguageEntry("html", "HTML")], Some("html"))
  {
    ResolveLastMatch([LanguageEntry("html", "Markup")], IncludedLanguages, "html", 1);
  }

  /** A pre-selected configured code narrows the choices to its entry. */
  lemma ResolveExample()
    ensures Resolve([LanguageEntry("python", "Python")], [LanguageEntry("html", "HTML")], Some("python"))
         == Choices([LanguageEntry("python", "Python")], Some("python"))
  {
    ResolveLastMatch([LanguageEntry("python", "Python")], [LanguageEntry("html", "HTML")], "python", 0);
  }
}
