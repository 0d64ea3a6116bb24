/** Fence slots of a layout (docjigcodefence.go). */
module CodeFences {
  import opened Wrappers

  /**
   * A declared binding from a fenced code block to the destination fields
   * for its body, its language tag and its info text. An empty field name
   * means "not bound".
   */
  datatype Fence = Fence(
    bodyField: string,
    languages: seq<string>,
    languageField: string,
    infoField: string,
    repeat: bool,
    sampleCode: string,
    sampleInfo: string)
  {
    /** `CodeFence.Language`: names the destination of the block's language tag. */
    function Language(fieldName: string): (r: Fence)
      ensures r.languageField == fieldName
      ensures r.(languageField := languageField) == this
    {
      this.(languageField := fieldName)
    }

    /** `CodeFence.Info`: names the destination of the block's info text. */
    function Info(fieldName: string): (r: Fence)
      ensures r.infoField == fieldName
      ensures r.(infoField := infoField) == this
    {
      this.(infoField := fieldName)
    }

    /** `CodeFence.SampleCode`: the body shown by the template. */
    function SampleCode(code: string): (r: Fence)
      ensures r.sampleCode == code && r.(sampleCode := sampleCode) == this
    {
      this.(sampleCode := code)
    }

    /** `CodeFence.SampleInfo`: the text the template writes after the language tag. */
    function SampleInfo(info: string): (r: Fence)
      ensures r.sampleInfo == info && r.(sampleInfo := sampleInfo) == this
    {
      this.(sampleInfo := info)
    }

    /** `CodeFence.matchLanguage`: no filter accepts every tag; otherwise the tag must be listed exactly. */
    predicate MatchLanguage(lang: string) {
      |languages| == 0 || lang in languages
    }

    /** `CodeFence.generateTemplate`: the skeleton fenced block for this slot. */
    function Template(): (r: string)
      ensures var lang := if |languages| > 0 then languages[0] else "";
              var code := if sampleCode != "" then sampleCode + "\n" else "";
              && |r| == 9 + |lang| + |sampleInfo| + |code|
              && r[..3] == "```"
              && r[3..3 + |lang| + |sampleInfo|] == lang + sampleInfo
              && r[3 + |lang| + |sampleInfo|] == '\n'
              && r[4 + |lang| + |sampleInfo|..|r| - 5] == code
              && r[|r| - 5..] == "```\n\n"
    {
      var lang := if |languages| > 0 then languages[0] else "";
      var code := if sampleCode != "" then sampleCode + "\n" else "";
      "```" + lang + sampleInfo + "\n" + code + "```\n\n"
    }
  }

  /** The first line of a template for a filtered slot is the fence, the first listed tag and the sample info. */
  lemma TemplateInfoLine(f: Fence)
    requires |f.languages| > 0
    ensures f.Template()[3..3 + |f.languages[0]| + |f.sampleInfo|] == f.languages[0] + f.sampleInfo
  {
    var r := f.Template();
    var n := 3 + |f.languages[0]| + |f.sampleInfo|;
    assert r[3..n] == f.languages[0] + f.sampleInfo;
  }

  /** `Layout.CodeFence`'s slot before any setter: no language or info destination, no samples. */
  function NewFence(bodyField: string, languages: seq<string>, repeat: bool): (r: Fence)
    ensures r.bodyField == bodyField && r.languages == languages && r.repeat == repeat
    ensures r.languageField == "" && r.infoField == "" && r.sampleCode == "" && r.sampleInfo == ""
  {
    Fence(bodyField, languages, "", "", repeat, "", "")
  }

  /**
   * The destination setters touch disjoint parts of a slot: they commute,
   * a later call of the same setter wins, and neither changes which
   * language tags the slot accepts.
   */
  lemma SettersIndependent(f: Fence, a: string, b: string, lang: string)
    ensures f.Language(a).Info(b) == f.Info(b).Language(a)
    ensures f.Language(a).Language(b) == f.Language(b)
    ensures f.Info(a).Info(b) == f.Info(b)
    ensures f.Language(a).MatchLanguage(lang) == f.MatchLanguage(lang)
    ensures f.Info(a).MatchLanguage(lang) == f.MatchLanguage(lang)
  {
  }

  /** `Layout.findMatchedCodeFence`: the first slot, in declaration order, that accepts the tag. */
  function FindMatchedCodeFence(fences: seq<Fence>, lang: string): (r: Option<nat>)
    ensures r.Some? ==> r.value < |fences| && fences[r.value].MatchLanguage(lang)
    ensures r.Some? ==> forall j :: 0 <= j < r.value ==> !fences[j].MatchLanguage(lang)
    ensures r.None? ==> forall j :: 0 <= j < |fences| ==> !fences[j].MatchLanguage(lang)
  {
    if |fences| == 0 then None
    else if fences[0].MatchLanguage(lang) then Some(0)
    else
      match FindMatchedCodeFence(fences[1..], lang)
      case None => None
      case Some(i) => Some(i + 1)
  }

  /** A slot without filters takes every block, even one with no tag, once no earlier slot does. */
  lemma UnfilteredSlotTakesAnyTag(fences: seq<Fence>, k: nat, lang: string)
    requires k < |fences| && |fences[k].languages| == 0
    ensures FindMatchedCodeFence(fences, lang).Some?
    ensures FindMatchedCodeFence(fences, lang).value <= k
  {
  }

  /** A slot with filters takes exactly the tags it lists, compared as they are written. */
  lemma FilteredSlotMatchesExactly(f: Fence, lang: string)
    requires |f.languages| > 0
    ensures FindMatchedCodeFence([f], lang).Some? <==> lang in f.languages
  {
  }

  /** A slot with filters compares tags exactly, so case matters. */
  lemma FilteredSlotIsCaseSensitive()
    ensures FindMatchedCodeFence([NewFence("Code", ["sql"], false)], "SQL") == None
    ensures FindMatchedCodeFence([NewFence("Code", ["sql"], false)], "sql") == Some(0)
  {
    assert "SQL" != "sql" by { assert "SQL"[0] != "sql"[0]; }
  }
}
