/**
 * The document walk of `DocJig.ParseString` (docjig.go): the block stream
 * is folded into the output record, heading by heading, with a stack of
 * bound layouts indexed by heading depth.
 *
 * The markdown tokenizer and its plain-text renderer are collaborators:
 * the walk receives their output as a sequence of `Block`s.
 */
module Binder {
  import opened Wrappers
  import opened Text
  import opened Record
  import opened Aliases
  import opened CodeFences
  import opened Tables
  import opened Layouts

  /** A configured `DocJig`: its alias table and its layout tree. */
  datatype Jig = Jig(aliases: AliasTable, schema: Schema)

  /** The block kinds the walk reacts to, with their text already extracted. */
  datatype Block =
    | Heading(level: nat, text: string)
    | CodeBlock(info: string, literal: string)
    | TableBlock(header: seq<string>, rows: seq<seq<string>>)
    | OtherBlock

  /**
   * `assignValue`: writes one value into a named field of the target. No
   * field name means nothing to write; a missing field or a field that
   * already holds a non-zero value is an error.
   */
  function AssignValue(coerce: Coercer, target: Target, fieldName: string, value: Input, context: string,
                       section: string, rec: Value): (r: Result<Value, Error>)
    ensures fieldName == "" ==> r == Ok(rec)
    ensures fieldName != "" && StructAt(rec, target).None? ==> r.Err? && r.error.Panic?
    ensures fieldName != "" && StructAt(rec, target).Some? ==>
              var fs := StructAt(rec, target).value;
              && (fieldName !in fs ==> r == Err(MissingField(fieldName, context, section)))
              && (fieldName in fs && !IsZero(fs[fieldName]) ==> r == Err(AlreadyFilled(fieldName, context, section)))
              && (fieldName in fs && IsZero(fs[fieldName]) && coerce(fs[fieldName], value).Err? ==>
                    r == Err(CoerceFailed(coerce(fs[fieldName], value).error)))
              && (fieldName in fs && IsZero(fs[fieldName]) && coerce(fs[fieldName], value).Ok? ==>
                    r.Ok? && Get(r.value, target.path) == Some(Struct(fs[fieldName := coerce(fs[fieldName], value).value])))
    ensures r.Ok? ==> forall q :: Disjoint(target.path, q) ==> Get(r.value, q) == Get(rec, q)
  {
    if fieldName == "" then Ok(rec)
    else
      match StructAt(rec, target)
      case None => Err(Panic("reflect: FieldByName on a value that is not a struct"))
      case Some(fs) =>
        if fieldName !in fs then Err(MissingField(fieldName, context, section))
        else if !IsZero(fs[fieldName]) then Err(AlreadyFilled(fieldName, context, section))
        else
          match coerce(fs[fieldName], value)
          case Err(e) => Err(CoerceFailed(e))
          case Ok(v) =>
            var rec' := Put(rec, target.path, Struct(fs[fieldName := v]));
            assert forall q :: Disjoint(target.path, q) ==> Get(rec', q) == Get(rec, q) by {
              forall q | Disjoint(target.path, q) ensures Get(rec', q) == Get(rec, q) {
                PutFrame(rec, target.path, q, Struct(fs[fieldName := v]));
              }
            }
            Ok(rec')
  }

  /** A write into a present, still-zero field succeeds and changes that field alone. */
  lemma ZeroFieldWritten(coerce: Coercer, target: Target, fieldName: string, value: Input, context: string,
                         section: string, rec: Value)
    requires fieldName != "" && StructAt(rec, target).Some? && fieldName in StructAt(rec, target).value
    requires IsZero(StructAt(rec, target).value[fieldName])
    requires coerce(StructAt(rec, target).value[fieldName], value).Ok?
    ensures var fs := StructAt(rec, target).value;
            var r := AssignValue(coerce, target, fieldName, value, context, section, rec);
            && r.Ok?
            && StructAt(r.value, target) == Some(fs[fieldName := coerce(fs[fieldName], value).value])
  {
  }

  /**
   * A field is filled at most once: after a write that left a non-zero
   * value, a second write to the same field of the same target fails.
   */
  lemma FilledOnce(coerce: Coercer, target: Target, fieldName: string, a: Input, b: Input,
                   c1: string, c2: string, section: string, rec: Value)
    requires AssignValue(coerce, target, fieldName, a, c1, section, rec).Ok?
    requires fieldName != ""
    requires !IsZero(coerce(StructAt(rec, target).value[fieldName], a).value)
    ensures AssignValue(coerce, target, fieldName, b, c2, section,
                        AssignValue(coerce, target, fieldName, a, c1, section, rec).value)
            == Err(AlreadyFilled(fieldName, c2, section))
  {
  }

  /**
   * `parseCodeBlockType`: the info string of a fence splits at its first
   * colon into the language tag and the info text, both trimmed.
   */
  function ParseCodeBlockType(info: string): (r: (string, string))
    ensures ':' !in info ==> r == (TrimSpace(info), "")
    ensures ':' in info ==> exists i :: 0 <= i < |info| && info[i] == ':' && ':' !in info[..i] &&
                                        r == (TrimSpace(info[..i]), TrimSpace(info[i + 1..]))
  {
    var (before, after, found) := Cut(info, ':');
    if found then
      assert info[|before|] == ':' && info[..|before|] == before && info[|before| + 1..] == after;
      (TrimSpace(before), TrimSpace(after))
    else (TrimSpace(info), "")
  }

  /**
   * The template and the parser agree on fences: the info string a fence
   * slot's template writes (its first language and its sample info, when
   * that is a colon and a trimmed text) parses back into that language and
   * that text, and the slot accepts the language.
   */
  lemma FenceTemplateRoundTrip(f: Fence, info: string)
    requires |f.languages| > 0
    requires ':' !in f.languages[0]
    requires |f.languages[0]| > 0 ==> !IsSpace(f.languages[0][0]) && !IsSpace(f.languages[0][|f.languages[0]| - 1])
    requires |info| > 0 ==> !IsSpace(info[0]) && !IsSpace(info[|info| - 1])
    requires f.sampleInfo == [':'] + info
    ensures var lang := f.languages[0];
            && f.Template()[3..3 + |lang| + |f.sampleInfo|] == lang + f.sampleInfo
            && ParseCodeBlockType(lang + f.sampleInfo) == (lang, info)
            && FindMatchedCodeFence([f], lang) == Some(0)
  {
    TemplateInfoLine(f);
    InfoParses(f.languages[0], f.sampleInfo, info);
    assert f.MatchLanguage(f.languages[0]) by { assert f.languages[0] in f.languages; }
  }

  /**
   * Outside that domain the template can write an info line its own slot
   * rejects: a sample info that does not start with a colon is glued onto
   * the language tag, and the parser reads both as one tag.
   */
  lemma SampleInfoWithoutColonIsRejected()
    ensures var f := NewFence("Body", ["sql"], false).SampleInfo(" x");
            && f.Template()[3..3 + |f.languages[0]| + |f.sampleInfo|] == "sql x"
            && ParseCodeBlockType("sql x") == ("sql x", "")
            && FindMatchedCodeFence([f], "sql x") == None
  {
    GluedSlot(NewFence("Body", ["sql"], false).SampleInfo(" x"));
    GluedTagParses();
  }

  /** The `sql` slot with sample info ` x` writes `sql x` and does not accept it. */
  lemma GluedSlot(f: Fence)
    requires f == NewFence("Body", ["sql"], false).SampleInfo(" x")
    ensures f.Template()[3..3 + |f.languages[0]| + |f.sampleInfo|] == "sql x"
    ensures FindMatchedCodeFence([f], "sql x") == None
  {
    TemplateInfoLine(f);
    assert f.languages[0] + f.sampleInfo == "sql x";
    assert !f.MatchLanguage("sql x") by { assert "sql x" != "sql"; }
  }

  /** `sql x` holds no colon and no outer blank, so it parses as one tag. */
  lemma GluedTagParses()
    ensures ParseCodeBlockType("sql x") == ("sql x", "")
  {
    var line := "sql x";
    assert forall k :: 0 <= k < |line| ==> line[k] != ':';
    TrimNoop(line, IsSpace);
  }

  /** A trimmed tag without a colon, then a colon and a trimmed text, parse back into the tag and the text. */
  lemma InfoParses(lang: string, sampleInfo: string, info: string)
    requires ':' !in lang
    requires |lang| > 0 ==> !IsSpace(lang[0]) && !IsSpace(lang[|lang| - 1])
    requires |info| > 0 ==> !IsSpace(info[0]) && !IsSpace(info[|info| - 1])
    requires sampleInfo == [':'] + info
    ensures ParseCodeBlockType(lang + sampleInfo) == (lang, info)
  {
    assert lang + sampleInfo == lang + [':'] + info;
    CutFirst(lang, ':', info);
    TrimNoop(lang, IsSpace);
    TrimNoop(info, IsSpace);
  }

  /** The texts of the first `k` cells are those of the first `k - 1` and the `k`-th. */
  lemma TextsSnoc(header: seq<string>, k: nat)
    requires 0 < k <= |header|
    ensures (set c | 0 <= c < k :: header[c]) == (set c | 0 <= c < k - 1 :: header[c]) + {header[k - 1]}
  {
  }

  /** Filing the `k`-th column over the first `k - 1` keeps every text at its last column. */
  lemma Key2ColumnSnoc(header: seq<string>, k: nat, m: map<string, nat>)
    requires 0 < k <= |header|
    requires forall key | key in m :: m[key] < k - 1 && header[m[key]] == key
    requires forall key | key in m :: forall c :: m[key] < c < k - 1 ==> header[c] != key
    ensures var r := m[header[k - 1] := k - 1];
            && (forall key | key in r :: r[key] < k && header[r[key]] == key)
            && (forall key | key in r :: forall c :: r[key] < c < k ==> header[c] != key)
  {
    var r := m[header[k - 1] := k - 1];
    forall key | key in r
      ensures r[key] < k && header[r[key]] == key
      ensures forall c :: r[key] < c < k ==> header[c] != key
    {
      if key != header[k - 1] {
        assert r[key] == m[key];
      }
    }
  }

  /** `key2column` of `parseTable` over the first `k` header cells: each text to the last column that has it. */
  function Key2Column(header: seq<string>, k: nat): (r: map<string, nat>)
    requires k <= |header|
    ensures r.Keys == set c | 0 <= c < k :: header[c]
    ensures forall key | key in r :: r[key] < k && header[r[key]] == key
    ensures forall key | key in r :: forall c :: r[key] < c < k ==> header[c] != key
    decreases k
  {
    if k == 0 then map[]
    else
      var m := Key2Column(header, k - 1);
      TextsSnoc(header, k);
      Key2ColumnSnoc(header, k, m);
      m[header[k - 1] := k - 1]
  }

  /**
   * One body row of `parseTable`: each cell under the lower-cased text of
   * its column's header; cells past the header are dropped, and of two
   * columns whose headers agree in lower case the later one wins.
   */
  function RowCells(header: seq<string>, row: seq<string>, k: nat): (r: Row)
    requires k <= |header| && k <= |row|
    ensures r.Keys == set c | 0 <= c < k :: Lower(header[c])
    decreases k
  {
    if k == 0 then map[]
    else
      var m := RowCells(header, row, k - 1);
      assert (set c | 0 <= c < k :: Lower(header[c])) == (set c | 0 <= c < k - 1 :: Lower(header[c])) + {Lower(header[k - 1])};
      m[Lower(header[k - 1]) := row[k - 1]]
  }

  /** The cell a row keeps under a key comes from the last column filed under that key. */
  lemma {:induction false} RowCellsLast(header: seq<string>, row: seq<string>, k: nat, c: nat)
    requires k <= |header| && k <= |row| && c < k
    requires forall d :: c < d < k ==> Lower(header[d]) != Lower(header[c])
    ensures Lower(header[c]) in RowCells(header, row, k)
    ensures RowCells(header, row, k)[Lower(header[c])] == row[c]
    decreases k
  {
    if c < k - 1 {
      RowCellsLast(header, row, k - 1, c);
    }
  }

  function Min(a: nat, b: nat): nat {
    if a < b then a else b
  }

  /** `parseTable`: the body rows as maps, and `key2column`. */
  function ParseTable(header: seq<string>, rows: seq<seq<string>>): (r: (seq<Row>, map<string, nat>))
    ensures |r.0| == |rows|
    ensures forall i :: 0 <= i < |rows| ==> r.0[i] == RowCells(header, rows[i], Min(|header|, |rows[i]|))
    ensures r.1 == Key2Column(header, |header|)
  {
    (seq(|rows|, i requires 0 <= i < |rows| => RowCells(header, rows[i], Min(|header|, |rows[i]|))), Key2Column(header, |header|))
  }

  /**
   * The table template reads back: parsing the grid a table slot's template
   * lays out files each sample, or the "..." filler, under the lower-cased
   * title of its column, as long as no later column's title lower-cases to
   * the same key.
   */
  lemma TemplateGridParses(slot: TableSlot, tr: string -> string, i: nat, j: nat)
    requires j < |slot.fields| && i < SampleRows(slot.fields)
    requires forall d :: j < d < |slot.fields| ==>
               Lower(tr(slot.fields[d].fieldName)) != Lower(tr(slot.fields[j].fieldName))
    ensures var grid := TemplateGrid(slot, tr);
            var cells := ParseTable(grid[0], grid[1..]).0;
            var key := Lower(tr(slot.fields[j].fieldName));
            && i < |cells| && key in cells[i]
            && cells[i][key] == (if i < |slot.fields[j].samples| then slot.fields[j].samples[i] else "...")
  {
    var grid := TemplateGrid(slot, tr);
    var header := grid[0];
    var row := grid[1..][i];
    assert row == grid[i + 1];
    assert Min(|header|, |row|) == |slot.fields|;
    RowCellsLast(header, row, |slot.fields|, j);
  }

  /** The number of different texts of a sequence. */
  lemma {:induction false} DistinctTexts(header: seq<string>)
    ensures |set c | 0 <= c < |header| :: header[c]| <= |header|
    ensures |set c | 0 <= c < |header| :: header[c]| == |header| <==> Distinct(header)
    decreases |header|
  {
    if |header| > 0 {
      var n := |header| - 1;
      var init := header[..n];
      DistinctTexts(init);
      var s0 := set c | 0 <= c < n :: init[c];
      assert (set c | 0 <= c < |header| :: header[c]) == s0 + {header[n]};
      if header[n] in s0 {
        var c :| 0 <= c < n && init[c] == header[n];
        assert !Distinct(header) by { assert header[c] == header[n]; }
      } else {
        if Distinct(header) {
          assert Distinct(init);
        } else {
          var a, b :| 0 <= a < b < |header| && header[a] == header[b];
          assert b < n;
          assert init[a] == init[b];
        }
      }
    }
  }

  /**
   * Why repeated header texts panic in map mode: the last column's text
   * maps to its own index, which is not below the number of different
   * header texts, the length of the arrays that index goes into.
   */
  lemma DuplicateHeadersOverflow(header: seq<string>)
    requires !Distinct(header)
    ensures |header| > 0
    ensures Key2Column(header, |header|)[header[|header| - 1]] == |header| - 1
    ensures |Key2Column(header, |header|)| <= |header| - 1
  {
    DistinctTexts(header);
    assert header[|header| - 1] in Key2Column(header, |header|).Keys;
    assert |Key2Column(header, |header|)| == |Key2Column(header, |header|).Keys|;
  }

  /** With different header texts, every column maps to itself. */
  lemma DistinctHeadersMapToThemselves(header: seq<string>, c: nat)
    requires Distinct(header) && c < |header|
    ensures header[c] in Key2Column(header, |header|) && Key2Column(header, |header|)[header[c]] == c
  {
    assert header[c] in Key2Column(header, |header|).Keys;
  }

  /** How deep the parse stack is: Go allocates seven slots, of which 1 to 6 are used. */
  const Depth: nat := 7

  /** A bound heading level: the layout that matched and where it writes. */
  datatype Frame = Frame(layout: nat, target: Target)

  /**
   * The walk's state: the record so far, the parse stack (`stack` and
   * `targets` in the source, here one slot per depth), the section label
   * per depth, and the current depth.
   */
  datatype State = State(rec: Value, frames: seq<Option<Frame>>, labels: seq<string>, level: nat)

  /** Every bound slot holds a layout of the schema declared at that very depth. */
  predicate WF(jig: Jig, st: State) {
    && |st.frames| == Depth && |st.labels| == Depth
    && 1 <= st.level <= MaxLevel
    && forall d :: 0 <= d < Depth && st.frames[d].Some? ==>
         st.frames[d].value.layout < |jig.schema| && jig.schema[st.frames[d].value.layout].level == d
  }

  /** The root binding: the root layout writing into the record itself. */
  function RootFrame(): Frame {
    Frame(0, Target([], false))
  }

  /** The state before the first block: only the root is bound, at depth 1. */
  function Start(jig: Jig, zero: Value): (r: State)
    requires ValidSchema(jig.schema)
    ensures WF(jig, r) && r.rec == zero && r.level == 1 && r.frames[1] == Some(RootFrame())
  {
    State(zero, [None, Some(RootFrame()), None, None, None, None, None], seq(Depth, _ => ""), 1)
  }

  /**
   * The rest of a heading once its layout is bound: options are applied,
   * and if the label matched, the label without its option clause becomes
   * the section label of this depth and goes to the layout's label field.
   */
  function BindHeading(jig: Jig, coerce: Coercer, st: State, id: nat, target: Target, suffix: string,
                       matched: bool, text: string, rec: Value): (r: Result<State, Error>)
    requires ValidSchema(jig.schema) && id < |jig.schema| && st.level < |st.labels|
    ensures r.Ok? ==> r.value.frames == st.frames && r.value.level == st.level && |r.value.labels| == |st.labels|
    ensures r.Ok? && !matched ==> r.value.labels == st.labels
    ensures r.Ok? && matched ==>
              && ProcessOption(coerce, jig.schema[id], suffix, target, rec).Ok?
              && r.value.labels == st.labels[st.level := ProcessOption(coerce, jig.schema[id], suffix, target, rec).value.0]
  {
    match ProcessOption(coerce, jig.schema[id], suffix, target, rec)
    case Err(e) => Err(e)
    case Ok((noOpt, rec1)) =>
      if !matched then Ok(st.(rec := rec1))
      else
        match AssignValue(coerce, target, jig.schema[id].labelField, Text(noOpt), "heading title", text, rec1)
        case Err(e) => Err(e)
        case Ok(rec2) => Ok(st.(rec := rec2, labels := st.labels[st.level := noOpt]))
  }

  /**
   * What a bound heading writes: an option error ends the step; otherwise
   * the record after the options is kept, and a matched label additionally
   * goes, without its option clause, to the label field, whose write error
   * also ends the step.
   */
  lemma BindHeadingSpec(jig: Jig, coerce: Coercer, st: State, id: nat, target: Target, suffix: string,
                        matched: bool, text: string, rec: Value)
    requires ValidSchema(jig.schema) && id < |jig.schema| && st.level < |st.labels|
    ensures var r := BindHeading(jig, coerce, st, id, target, suffix, matched, text, rec);
            var p := ProcessOption(coerce, jig.schema[id], suffix, target, rec);
            && (p.Err? ==> r == Err(p.error))
            && (p.Ok? && !matched ==> r == Ok(st.(rec := p.value.1)))
            && (p.Ok? && matched ==>
                  var w := AssignValue(coerce, target, jig.schema[id].labelField, Text(p.value.0), "heading title",
                                       text, p.value.1);
                  && (w.Err? ==> r == Err(w.error))
                  && (w.Ok? ==> r == Ok(st.(rec := w.value, labels := st.labels[st.level := p.value.0]))))
  {
  }

  /**
   * A matched heading whose label field is declared, present and still
   * zero receives its label without the option clause, and the options
   * keep their own writes: the field holds the coerced label afterwards.
   */
  lemma HeadingLabelWritten(jig: Jig, coerce: Coercer, st: State, id: nat, target: Target, suffix: string,
                            text: string, rec: Value)
    requires ValidSchema(jig.schema) && id < |jig.schema| && st.level < |st.labels|
    requires ProcessOption(coerce, jig.schema[id], suffix, target, rec).Ok?
    requires var (noOpt, rec1) := ProcessOption(coerce, jig.schema[id], suffix, target, rec).value;
             var name := jig.schema[id].labelField;
             && name != "" && StructAt(rec1, target).Some? && name in StructAt(rec1, target).value
             && IsZero(StructAt(rec1, target).value[name])
             && coerce(StructAt(rec1, target).value[name], Text(noOpt)).Ok?
    ensures var (noOpt, rec1) := ProcessOption(coerce, jig.schema[id], suffix, target, rec).value;
            var name := jig.schema[id].labelField;
            var fs := StructAt(rec1, target).value;
            var r := BindHeading(jig, coerce, st, id, target, suffix, true, text, rec);
            && r.Ok? && r.value.labels[st.level] == noOpt
            && StructAt(r.value.rec, target) == Some(fs[name := coerce(fs[name], Text(noOpt)).value])
  {
    BindHeadingSpec(jig, coerce, st, id, target, suffix, true, text, rec);
    var (noOpt, rec1) := ProcessOption(coerce, jig.schema[id], suffix, target, rec).value;
    ZeroFieldWritten(coerce, target, jig.schema[id].labelField, Text(noOpt), "heading title", text, rec1);
  }

  /**
   * A heading of depth `level`. Depth 1 always binds the root and applies
   * its options; its label is kept only if it matches the root pattern.
   * A deeper heading is matched against the children of the layout bound
   * one level up; if none matches, only the current depth changes.
   */
  function HeadingStep(jig: Jig, coerce: Coercer, st: State, level: nat, text: string): (r: Result<State, Error>)
    requires ValidSchema(jig.schema) && WF(jig, st)
    ensures r.Ok? ==> WF(jig, r.value) && r.value.level == level
    ensures level == 1 && r.Ok? ==> r.value.frames == st.frames[1 := Some(RootFrame())]
    ensures (level < 1 || level > MaxLevel) ==> r.Err? && r.error.Panic?
    ensures 1 < level <= MaxLevel && st.frames[level - 1].None? ==> r.Err? && r.error.Panic?
  {
    if level < 1 || level > MaxLevel then Err(Panic("runtime error: index out of range"))
    else
      var st1 := st.(level := level);
      if level == 1 then
        var (suffix, matched) := MatchLabel(jig.aliases, jig.schema[0].pattern, text);
        Rebind(jig, st, 1, RootFrame());
        BindHeading(jig, coerce, st1.(frames := st.frames[1 := Some(RootFrame())]), 0, RootFrame().target,
                    suffix, matched, text, st.rec)
      else
        match st.frames[level - 1]
        case None => Err(Panic("runtime error: invalid memory address or nil pointer dereference"))
        case Some(parent) =>
          match FindMatchedChild(jig.aliases, jig.schema, parent.layout, text, parent.target, st.rec)
          case Err(e) => Err(e)
          case Ok(None) => Ok(st1)
          case Ok(Some(m)) =>
            Rebind(jig, st, level, Frame(m.child, m.target));
            BindHeading(jig, coerce, st1.(frames := st.frames[level := Some(Frame(m.child, m.target))]),
                        m.child, m.target, m.suffix, true, text, m.rec)
  }

  /** Binding a layout of depth `level` at that depth, and moving there, keeps the state well formed. */
  lemma Rebind(jig: Jig, st: State, level: nat, fr: Frame)
    requires WF(jig, st) && 1 <= level <= MaxLevel
    requires fr.layout < |jig.schema| && jig.schema[fr.layout].level == level
    ensures WF(jig, st.(level := level, frames := st.frames[level := Some(fr)]))
  {
  }

  /**
   * Which binding a heading gets: at depth 1 the root, with the root
   * pattern deciding whether the label counts; deeper, the first matching
   * child of the layout one level up, whose label always counts, or the
   * error of that lookup.
   */
  lemma HeadingStepBinds(jig: Jig, coerce: Coercer, st: State, level: nat, text: string)
    requires ValidSchema(jig.schema) && WF(jig, st)
    ensures var r := HeadingStep(jig, coerce, st, level, text);
            var (suffix, matched) := MatchLabel(jig.aliases, jig.schema[0].pattern, text);
            level == 1 ==>
              r == BindHeading(jig, coerce, st.(level := 1, frames := st.frames[1 := Some(RootFrame())]), 0,
                               RootFrame().target, suffix, matched, text, st.rec)
    ensures var r := HeadingStep(jig, coerce, st, level, text);
            1 < level <= MaxLevel && st.frames[level - 1].Some? ==>
              var parent := st.frames[level - 1].value;
              var m := FindMatchedChild(jig.aliases, jig.schema, parent.layout, text, parent.target, st.rec);
              && (m.Err? ==> r == Err(m.error))
              && (m.Ok? && m.value.Some? ==>
                    var c := m.value.value;
                    r == BindHeading(jig, coerce, st.(level := level, frames := st.frames[level := Some(Frame(c.child, c.target))]),
                                     c.child, c.target, c.suffix, true, text, c.rec))
  {
  }

  /** Whether a heading matches no child of the layout bound one level up. */
  predicate Unmatched(jig: Jig, st: State, level: nat, text: string)
    requires ValidSchema(jig.schema) && WF(jig, st)
  {
    && 1 < level <= MaxLevel
    && st.frames[level - 1].Some?
    && FindMatchedChild(jig.aliases, jig.schema, st.frames[level - 1].value.layout, text,
                        st.frames[level - 1].value.target, st.rec) == Ok(None)
  }

  /** An unmatched heading changes the current depth and nothing else. */
  lemma UnmatchedHeadingOnlyMovesLevel(jig: Jig, coerce: Coercer, st: State, level: nat, text: string)
    requires ValidSchema(jig.schema) && WF(jig, st)
    requires Unmatched(jig, st, level, text)
    ensures HeadingStep(jig, coerce, st, level, text) == Ok(st.(level := level))
  {
  }

  /** A matched heading binds its depth to the matched child and where the child writes. */
  lemma MatchedHeadingBinds(jig: Jig, coerce: Coercer, st: State, level: nat, text: string)
    requires ValidSchema(jig.schema) && WF(jig, st)
    requires 1 < level <= MaxLevel && st.frames[level - 1].Some?
    requires HeadingStep(jig, coerce, st, level, text).Ok?
    requires !Unmatched(jig, st, level, text)
    ensures var parent := st.frames[level - 1].value;
            var m := FindMatchedChild(jig.aliases, jig.schema, parent.layout, text, parent.target, st.rec);
            && m.Ok? && m.value.Some?
            && HeadingStep(jig, coerce, st, level, text).value.frames[level] ==
                 Some(Frame(m.value.value.child, m.value.value.target))
  {
  }

  /**
   * A fenced block, against the layout bound at the current depth: the
   * first fence slot accepting its language takes the body (without
   * surrounding newlines), the language and the info text; a block no slot
   * accepts is ignored.
   */
  function CodeStep(jig: Jig, coerce: Coercer, st: State, info: string, literal: string): (r: Result<State, Error>)
    requires ValidSchema(jig.schema) && WF(jig, st)
    ensures st.frames[st.level].None? ==> r.Err? && r.error.Panic?
    ensures r.Ok? ==> r.value == st.(rec := r.value.rec)
    ensures st.frames[st.level].Some? &&
            FindMatchedCodeFence(jig.schema[st.frames[st.level].value.layout].fences, ParseCodeBlockType(info).0).None?
            ==> r == Ok(st)
  {
    match st.frames[st.level]
    case None => Err(Panic("runtime error: invalid memory address or nil pointer dereference"))
    case Some(fr) =>
      var (lang, rest) := ParseCodeBlockType(info);
      var fences := jig.schema[fr.layout].fences;
      match FindMatchedCodeFence(fences, lang)
      case None => Ok(st)
      case Some(k) =>
        var f := fences[k];
        var section := st.labels[st.level];
        var rec1 :- AssignValue(coerce, fr.target, f.bodyField, Text(Trim(literal, IsNewline)), "code fence", section, st.rec);
        var rec2 :- AssignValue(coerce, fr.target, f.languageField, Text(lang), "code fence's lang", section, rec1);
        var rec3 :- AssignValue(coerce, fr.target, f.infoField, Text(rest), "code fence's info", section, rec2);
        Ok(st.(rec := rec3))
  }

  /**
   * What a fence writes once a slot accepts it: the body without
   * surrounding newlines to the body field, then the language, then the
   * info text, each through `AssignValue`; the first failing write ends the
   * step with its error.
   */
  lemma CodeStepWrites(jig: Jig, coerce: Coercer, st: State, info: string, literal: string, k: nat)
    requires ValidSchema(jig.schema) && WF(jig, st)
    requires st.frames[st.level].Some?
    requires FindMatchedCodeFence(jig.schema[st.frames[st.level].value.layout].fences, ParseCodeBlockType(info).0) == Some(k)
    ensures var fr := st.frames[st.level].value;
            var f := jig.schema[fr.layout].fences[k];
            var (lang, rest) := ParseCodeBlockType(info);
            var section := st.labels[st.level];
            var r := CodeStep(jig, coerce, st, info, literal);
            var w1 := AssignValue(coerce, fr.target, f.bodyField, Text(Trim(literal, IsNewline)), "code fence", section, st.rec);
            && (w1.Err? ==> r == Err(w1.error))
            && (w1.Ok? ==>
                  var w2 := AssignValue(coerce, fr.target, f.languageField, Text(lang), "code fence's lang", section, w1.value);
                  && (w2.Err? ==> r == Err(w2.error))
                  && (w2.Ok? ==>
                        var w3 := AssignValue(coerce, fr.target, f.infoField, Text(rest), "code fence's info", section, w2.value);
                        && (w3.Err? ==> r == Err(w3.error))
                        && (w3.Ok? ==> r == Ok(st.(rec := w3.value)))))
  {
  }

  /**
   * A fence whose three fields are declared, different, present and still
   * zero fills all three: the target afterwards holds the coerced body,
   * language and info text, and its other fields as they were.
   */
  lemma CodeFenceFills(jig: Jig, coerce: Coercer, st: State, info: string, literal: string, k: nat)
    requires ValidSchema(jig.schema) && WF(jig, st)
    requires st.frames[st.level].Some?
    requires FindMatchedCodeFence(jig.schema[st.frames[st.level].value.layout].fences, ParseCodeBlockType(info).0) == Some(k)
    requires var fr := st.frames[st.level].value;
             var f := jig.schema[fr.layout].fences[k];
             var (lang, rest) := ParseCodeBlockType(info);
             && StructAt(st.rec, fr.target).Some?
             && var fs := StructAt(st.rec, fr.target).value;
             && f.bodyField != "" && f.languageField != "" && f.infoField != ""
             && f.bodyField != f.languageField && f.bodyField != f.infoField && f.languageField != f.infoField
             && f.bodyField in fs && f.languageField in fs && f.infoField in fs
             && IsZero(fs[f.bodyField]) && IsZero(fs[f.languageField]) && IsZero(fs[f.infoField])
             && coerce(fs[f.bodyField], Text(Trim(literal, IsNewline))).Ok?
             && coerce(fs[f.languageField], Text(lang)).Ok?
             && coerce(fs[f.infoField], Text(rest)).Ok?
    ensures var fr := st.frames[st.level].value;
            var f := jig.schema[fr.layout].fences[k];
            var (lang, rest) := ParseCodeBlockType(info);
            var fs := StructAt(st.rec, fr.target).value;
            var r := CodeStep(jig, coerce, st, info, literal);
            && r.Ok?
            && StructAt(r.value.rec, fr.target) ==
                 Some(fs[f.bodyField := coerce(fs[f.bodyField], Text(Trim(literal, IsNewline))).value]
                        [f.languageField := coerce(fs[f.languageField], Text(lang)).value]
                        [f.infoField := coerce(fs[f.infoField], Text(rest)).value])
  {
    CodeStepWrites(jig, coerce, st, info, literal, k);
    var fr := st.frames[st.level].value;
    var f := jig.schema[fr.layout].fences[k];
    var (lang, rest) := ParseCodeBlockType(info);
    FenceFieldsWritten(coerce, fr.target, f.bodyField, f.languageField, f.infoField,
                       Text(Trim(literal, IsNewline)), Text(lang), Text(rest), st.labels[st.level], st.rec);
  }

  /** The three writes of a fence into three different, present, still-zero fields all succeed. */
  lemma FenceFieldsWritten(coerce: Coercer, target: Target, body: string, lang: string, info: string,
                           vb: Input, vl: Input, vi: Input, section: string, rec: Value)
    requires StructAt(rec, target).Some?
    requires var fs := StructAt(rec, target).value;
             && body != "" && lang != "" && info != ""
             && body != lang && body != info && lang != info
             && body in fs && lang in fs && info in fs
             && IsZero(fs[body]) && IsZero(fs[lang]) && IsZero(fs[info])
             && coerce(fs[body], vb).Ok? && coerce(fs[lang], vl).Ok? && coerce(fs[info], vi).Ok?
    ensures var fs := StructAt(rec, target).value;
            var w1 := AssignValue(coerce, target, body, vb, "code fence", section, rec);
            && w1.Ok?
            && var w2 := AssignValue(coerce, target, lang, vl, "code fence's lang", section, w1.value);
            && w2.Ok?
            && var w3 := AssignValue(coerce, target, info, vi, "code fence's info", section, w2.value);
            && w3.Ok?
            && StructAt(w3.value, target) ==
                 Some(fs[body := coerce(fs[body], vb).value][lang := coerce(fs[lang], vl).value]
                        [info := coerce(fs[info], vi).value])
  {
    ZeroFieldWritten(coerce, target, body, vb, "code fence", section, rec);
    var w1 := AssignValue(coerce, target, body, vb, "code fence", section, rec).value;
    ZeroFieldWritten(coerce, target, lang, vl, "code fence's lang", section, w1);
    var w2 := AssignValue(coerce, target, lang, vl, "code fence's lang", section, w1).value;
    ZeroFieldWritten(coerce, target, info, vi, "code fence's info", section, w2);
  }

  /**
   * A table, against the layout bound at the current depth: bound through
   * the layout's table slot, or ignored when the layout declares none.
   */
  function TableStep(jig: Jig, coerce: Coercer, convert: Converter, st: State, header: seq<string>,
                     rows: seq<seq<string>>): (r: Result<State, Error>)
    requires ValidSchema(jig.schema) && WF(jig, st)
    ensures st.frames[st.level].None? ==> r.Err? && r.error.Panic?
    ensures r.Ok? ==> r.value == st.(rec := r.value.rec)
    ensures st.frames[st.level].Some? && jig.schema[st.frames[st.level].value.layout].table.None? ==> r == Ok(st)
    ensures st.frames[st.level].Some? && jig.schema[st.frames[st.level].value.layout].table.Some? ==>
              var fr := st.frames[st.level].value;
              var bound := AssignCells(jig.aliases, coerce, convert, jig.schema[fr.layout].table.value, fr.target,
                                       st.rec, header, ParseTable(header, rows).0, st.labels[st.level]);
              && (bound.Err? ==> r == Err(bound.error))
              && (bound.Ok? ==> r == Ok(st.(rec := bound.value)))
  {
    match st.frames[st.level]
    case None => Err(Panic("runtime error: invalid memory address or nil pointer dereference"))
    case Some(fr) =>
      var (cells, _) := ParseTable(header, rows);
      match jig.schema[fr.layout].table
      case None => Ok(st)
      case Some(slot) =>
        var rec' :- AssignCells(jig.aliases, coerce, convert, slot, fr.target, st.rec, header, cells, st.labels[st.level]);
        Ok(st.(rec := rec'))
  }

  /** One block of the walk; blocks of other kinds are ignored. */
  function Step(jig: Jig, coerce: Coercer, convert: Converter, st: State, b: Block): (r: Result<State, Error>)
    requires ValidSchema(jig.schema) && WF(jig, st)
    ensures r.Ok? ==> WF(jig, r.value)
    ensures b.OtherBlock? ==> r == Ok(st)
    ensures !b.Heading? && r.Ok? ==> r.value.frames == st.frames && r.value.labels == st.labels && r.value.level == st.level
  {
    match b
    case Heading(level, text) => HeadingStep(jig, coerce, st, level, text)
    case CodeBlock(info, literal) => CodeStep(jig, coerce, st, info, literal)
    case TableBlock(header, rows) => TableStep(jig, coerce, convert, st, header, rows)
    case OtherBlock => Ok(st)
  }

  /** The walk over a block sequence; the first error ends it. */
  function Walk(jig: Jig, coerce: Coercer, convert: Converter, st: State, blocks: seq<Block>): (r: Result<State, Error>)
    requires ValidSchema(jig.schema) && WF(jig, st)
    ensures r.Ok? ==> WF(jig, r.value)
    decreases |blocks|
  {
    if |blocks| == 0 then Ok(st)
    else
      match Step(jig, coerce, convert, st, blocks[0])
      case Err(e) => Err(e)
      case Ok(st') => Walk(jig, coerce, convert, st', blocks[1..])
  }

  /** Walking two block sequences one after the other is walking their concatenation. */
  lemma {:induction false} WalkAppend(jig: Jig, coerce: Coercer, convert: Converter, st: State, a: seq<Block>, b: seq<Block>)
    requires ValidSchema(jig.schema) && WF(jig, st)
    ensures Walk(jig, coerce, convert, st, a + b) ==
              (match Walk(jig, coerce, convert, st, a)
               case Err(e) => Err(e)
               case Ok(mid) => Walk(jig, coerce, convert, mid, b))
    decreases |a|
  {
    if |a| > 0 {
      assert (a + b)[0] == a[0];
      assert (a + b)[1..] == a[1..] + b;
      match Step(jig, coerce, convert, st, a[0])
      case Err(_) =>
      case Ok(st') => WalkAppend(jig, coerce, convert, st', a[1..], b);
    } else {
      assert a + b == b;
    }
  }

  /** `DocJig.ParseString` after tokenizing: the record the walk builds from the zero record. */
  function Parse(jig: Jig, coerce: Coercer, convert: Converter, blocks: seq<Block>, zero: Value): (r: Result<Value, Error>)
    requires ValidSchema(jig.schema)
    ensures |blocks| == 0 ==> r == Ok(zero)
    ensures r.Ok? ==> Walk(jig, coerce, convert, Start(jig, zero), blocks).Ok? &&
                      r.value == Walk(jig, coerce, convert, Start(jig, zero), blocks).value.rec
  {
    match Walk(jig, coerce, convert, Start(jig, zero), blocks)
    case Err(e) => Err(e)
    case Ok(st) => Ok(st.rec)
  }

  /** Blocks of other kinds are invisible to the parse: removing one changes nothing. */
  lemma ParseIgnoresOtherBlocks(jig: Jig, coerce: Coercer, convert: Converter, a: seq<Block>, b: seq<Block>, zero: Value)
    requires ValidSchema(jig.schema)
    ensures Parse(jig, coerce, convert, a + [OtherBlock] + b, zero) == Parse(jig, coerce, convert, a + b, zero)
  {
    OtherBlocksAreIgnored(jig, coerce, convert, Start(jig, zero), a, b);
  }

  /** The parse stops at the first error: blocks after a failing prefix are never looked at. */
  lemma ParseStopsAtFirstError(jig: Jig, coerce: Coercer, convert: Converter, a: seq<Block>, b: seq<Block>, zero: Value)
    requires ValidSchema(jig.schema)
    requires Walk(jig, coerce, convert, Start(jig, zero), a).Err?
    ensures Parse(jig, coerce, convert, a + b, zero) == Err(Walk(jig, coerce, convert, Start(jig, zero), a).error)
  {
    WalkAppend(jig, coerce, convert, Start(jig, zero), a, b);
  }

  /** Blocks of other kinds are invisible to the walk. */
  lemma {:induction false} OtherBlocksAreIgnored(jig: Jig, coerce: Coercer, convert: Converter, st: State,
                                                 a: seq<Block>, b: seq<Block>)
    requires ValidSchema(jig.schema) && WF(jig, st)
    ensures Walk(jig, coerce, convert, st, a + [OtherBlock] + b) == Walk(jig, coerce, convert, st, a + b)
  {
    WalkAppend(jig, coerce, convert, st, a, [OtherBlock] + b);
    WalkAppend(jig, coerce, convert, st, a, b);
    assert a + [OtherBlock] + b == a + ([OtherBlock] + b);
    match Walk(jig, coerce, convert, st, a)
    case Err(_) =>
    case Ok(mid) => OtherBlockFirst(jig, coerce, convert, mid, b);
  }

  /** A block of another kind at the front of a walk is skipped. */
  lemma OtherBlockFirst(jig: Jig, coerce: Coercer, convert: Converter, st: State, b: seq<Block>)
    requires ValidSchema(jig.schema) && WF(jig, st)
    ensures Walk(jig, coerce, convert, st, [OtherBlock] + b) == Walk(jig, coerce, convert, st, b)
  {
    assert ([OtherBlock] + b)[0] == OtherBlock;
    assert ([OtherBlock] + b)[1..] == b;
  }

  /**
   * The walk with sections under an unmatched heading skipped: after a
   * heading of depth `d` matches no child, blocks are ignored until a
   * heading of depth `d` or less.
   */
  datatype SkipState = SkipState(inner: State, skipFrom: Option<nat>)

  function StepSkipping(jig: Jig, coerce: Coercer, convert: Converter, ss: SkipState, b: Block): (r: Result<SkipState, Error>)
    requires ValidSchema(jig.schema) && WF(jig, ss.inner)
    ensures r.Ok? ==> WF(jig, r.value.inner)
    ensures ss.skipFrom.Some? && (!b.Heading? || b.level > ss.skipFrom.value) ==> r == Ok(ss)
    ensures ss.skipFrom.None? && !b.Heading? ==>
              (match Step(jig, coerce, convert, ss.inner, b)
               case Err(e) => r == Err(e)
               case Ok(st) => r == Ok(SkipState(st, None)))
    ensures (b.Heading? && (ss.skipFrom.None? || b.level <= ss.skipFrom.value) &&
             Unmatched(jig, ss.inner, b.level, b.text)) ==>
              r == Ok(SkipState(ss.inner.(level := b.level), Some(b.level)))
    ensures (b.Heading? && (ss.skipFrom.None? || b.level <= ss.skipFrom.value) &&
             !Unmatched(jig, ss.inner, b.level, b.text)) ==>
              (match Step(jig, coerce, convert, ss.inner, b)
               case Err(e) => r == Err(e)
               case Ok(st) => r == Ok(SkipState(st, None)))
  {
    if ss.skipFrom.Some? && (!b.Heading? || b.level > ss.skipFrom.value) then Ok(ss)
    else if b.Heading? && Unmatched(jig, ss.inner, b.level, b.text) then
      Ok(SkipState(ss.inner.(level := b.level), Some(b.level)))
    else
      match Step(jig, coerce, convert, ss.inner, b)
      case Err(e) => Err(e)
      case Ok(st) => Ok(SkipState(st, None))
  }

  function WalkSkipping(jig: Jig, coerce: Coercer, convert: Converter, ss: SkipState, blocks: seq<Block>): (r: Result<SkipState, Error>)
    requires ValidSchema(jig.schema) && WF(jig, ss.inner)
    ensures r.Ok? ==> WF(jig, r.value.inner)
    decreases |blocks|
  {
    if |blocks| == 0 then Ok(ss)
    else
      match StepSkipping(jig, coerce, convert, ss, blocks[0])
      case Err(e) => Err(e)
      case Ok(ss') => WalkSkipping(jig, coerce, convert, ss', blocks[1..])
  }

  /**
   * The parse with unmatched sections skipped: the walk of `ParseString`,
   * except that after a heading matching no child every block is ignored
   * until a heading of the same depth or shallower.
   */
  function ParseSkipping(jig: Jig, coerce: Coercer, convert: Converter, blocks: seq<Block>, zero: Value): (r: Result<Value, Error>)
    requires ValidSchema(jig.schema)
    ensures |blocks| == 0 ==> r == Ok(zero)
  {
    match WalkSkipping(jig, coerce, convert, SkipState(Start(jig, zero), None), blocks)
    case Err(e) => Err(e)
    case Ok(ss) => Ok(ss.inner.rec)
  }

  /** Whether a block stays inside a section skipped from depth `d`. */
  predicate InSkippedSection(b: Block, d: nat) {
    !b.Heading? || b.level > d
  }

  /**
   * Under the skipping walk, a section under an unmatched heading
   * contributes nothing: its fences, tables and deeper headings leave the
   * state exactly as it was.
   */
  lemma {:induction false} SkippedSectionIsInert(jig: Jig, coerce: Coercer, convert: Converter, ss: SkipState,
                                                 blocks: seq<Block>)
    requires ValidSchema(jig.schema) && WF(jig, ss.inner)
    requires ss.skipFrom.Some?
    requires forall i :: 0 <= i < |blocks| ==> InSkippedSection(blocks[i], ss.skipFrom.value)
    ensures WalkSkipping(jig, coerce, convert, ss, blocks) == Ok(ss)
    decreases |blocks|
  {
    if |blocks| > 0 {
      assert StepSkipping(jig, coerce, convert, ss, blocks[0]) == Ok(ss);
      SkippedSectionIsInert(jig, coerce, convert, ss, blocks[1..]);
    }
  }

  /**
   * An unmatched heading and the section under it: the skipping walk moves
   * to the heading's depth, starts skipping there, and ignores the rest.
   */
  lemma UnmatchedSectionSkipped(jig: Jig, coerce: Coercer, convert: Converter, st: State, level: nat,
                                text: string, section: seq<Block>)
    requires ValidSchema(jig.schema) && WF(jig, st)
    requires Unmatched(jig, st, level, text)
    requires forall i :: 0 <= i < |section| ==> InSkippedSection(section[i], level)
    ensures WalkSkipping(jig, coerce, convert, SkipState(st, None), [Heading(level, text)] + section)
              == Ok(SkipState(st.(level := level), Some(level)))
  {
    var blocks := [Heading(level, text)] + section;
    assert blocks[0] == Heading(level, text) && blocks[1..] == section;
    SkippedSectionIsInert(jig, coerce, convert, SkipState(st.(level := level), Some(level)), section);
  }

  /** On a run of blocks without headings, the skipping walk is the walk of the source. */
  lemma {:induction false} SkippingAgreesWithoutHeadings(jig: Jig, coerce: Coercer, convert: Converter, st: State,
                                                      blocks: seq<Block>)
    requires ValidSchema(jig.schema) && WF(jig, st)
    requires forall i :: 0 <= i < |blocks| ==> !blocks[i].Heading?
    ensures var w := Walk(jig, coerce, convert, st, blocks);
            var s := WalkSkipping(jig, coerce, convert, SkipState(st, None), blocks);
            && (w.Err? ==> s == Err(w.error))
            && (w.Ok? ==> s == Ok(SkipState(w.value, None)))
    decreases |blocks|
  {
    if |blocks| > 0 {
      match Step(jig, coerce, convert, st, blocks[0])
      case Err(_) =>
      case Ok(st') => SkippingAgreesWithoutHeadings(jig, coerce, convert, st', blocks[1..]);
    }
  }

  /** On a document without headings the two parses agree. */
  lemma ParseSkippingAgrees(jig: Jig, coerce: Coercer, convert: Converter, blocks: seq<Block>, zero: Value)
    requires ValidSchema(jig.schema)
    requires forall i :: 0 <= i < |blocks| ==> !blocks[i].Heading?
    ensures ParseSkipping(jig, coerce, convert, blocks, zero) == Parse(jig, coerce, convert, blocks, zero)
  {
    SkippingAgreesWithoutHeadings(jig, coerce, convert, Start(jig, zero), blocks);
  }

  /** A bare layout tree: only the root, which declares nothing. */
  function BareJig(): (j: Jig)
    ensures ValidSchema(j.schema)
  {
    Jig(map[], NewSchema())
  }

  /** The bare root declares no children, so no heading matches below it. */
  lemma BareRootMatchesNothing(zero: Value, text: string)
    ensures Unmatched(BareJig(), Start(BareJig(), zero), 2, text)
  {
    var jig := BareJig();
    assert FindMatchedChild(jig.aliases, jig.schema, 0, text, RootFrame().target, zero) == Ok(None);
  }

  /**
   * The source does not skip the section under an unmatched heading: when
   * the heading's depth has no bound layout, a fenced block after it makes
   * the walk look up the fence slots of a nil layout, a panic; the
   * skipping walk ignores both blocks.
   */
  lemma {:induction false} UnmatchedThenFence(jig: Jig, coerce: Coercer, convert: Converter, st: State,
                                              level: nat, text: string, info: string, literal: string)
    requires ValidSchema(jig.schema) && WF(jig, st)
    requires Unmatched(jig, st, level, text) && st.frames[level].None?
    ensures var w := Walk(jig, coerce, convert, st, [Heading(level, text), CodeBlock(info, literal)]);
            w.Err? && w.error.Panic?
    ensures WalkSkipping(jig, coerce, convert, SkipState(st, None), [Heading(level, text), CodeBlock(info, literal)])
              == Ok(SkipState(st.(level := level), Some(level)))
  {
    var blocks := [Heading(level, text), CodeBlock(info, literal)];
    UnmatchedHeadingOnlyMovesLevel(jig, coerce, st, level, text);
    var st2 := st.(level := level);
    assert Step(jig, coerce, convert, st, blocks[0]) == Ok(st2);
    assert Step(jig, coerce, convert, st2, blocks[1]).Err?;
    assert blocks[1..] == [CodeBlock(info, literal)] && blocks[1..][1..] == [];
    var ss := SkipState(st2, Some(level));
    assert StepSkipping(jig, coerce, convert, SkipState(st, None), blocks[0]) == Ok(ss);
    assert StepSkipping(jig, coerce, convert, ss, blocks[1]) == Ok(ss);
    assert WalkSkipping(jig, coerce, convert, ss, blocks[1..]) == Ok(ss);
  }

  /**
   * The other half of the same behaviour: when the heading's depth is still
   * bound from an earlier sibling, a fenced block after the unmatched
   * heading is bound through that stale binding. `UnmatchedSectionSkipped`
   * states that the skipping walk ignores it.
   */
  lemma UnmatchedThenStaleFence(jig: Jig, coerce: Coercer, convert: Converter, st: State,
                                level: nat, text: string, info: string, literal: string)
    requires ValidSchema(jig.schema) && WF(jig, st)
    requires Unmatched(jig, st, level, text) && st.frames[level].Some?
    ensures Walk(jig, coerce, convert, st, [Heading(level, text), CodeBlock(info, literal)]) ==
              CodeStep(jig, coerce, st.(level := level), info, literal)
  {
    UnmatchedHeadingOnlyMovesLevel(jig, coerce, st, level, text);
    WalkPair(jig, coerce, convert, st, Heading(level, text), CodeBlock(info, literal));
  }

  /** A walk over two blocks: the second step runs from where the first left off. */
  lemma WalkPair(jig: Jig, coerce: Coercer, convert: Converter, st: State, b1: Block, b2: Block)
    requires ValidSchema(jig.schema) && WF(jig, st)
    ensures Walk(jig, coerce, convert, st, [b1, b2]) ==
              (match Step(jig, coerce, convert, st, b1)
               case Err(e) => Err(e)
               case Ok(mid) => Step(jig, coerce, convert, mid, b2))
  {
    var blocks := [b1, b2];
    assert blocks[1..] == [b2] && blocks[1..][1..] == [];
    match Step(jig, coerce, convert, st, b1)
    case Err(_) =>
    case Ok(mid) =>
      match Step(jig, coerce, convert, mid, b2)
      case Err(_) =>
      case Ok(last) => assert Walk(jig, coerce, convert, last, []) == Ok(last);
  }

  /** "## Notes" then a fenced block under the bare root: the source panics, the skipping walk keeps the zero value. */
  lemma UnmatchedSectionIsNotSkipped(coerce: Coercer, convert: Converter, zero: Value)
    ensures var p := Parse(BareJig(), coerce, convert, [Heading(2, "Notes"), CodeBlock("", "x")], zero);
            p.Err? && p.error.Panic?
    ensures ParseSkipping(BareJig(), coerce, convert, [Heading(2, "Notes"), CodeBlock("", "x")], zero) == Ok(zero)
  {
    BareRootMatchesNothing(zero, "Notes");
    UnmatchedThenFence(BareJig(), coerce, convert, Start(BareJig(), zero), 2, "Notes", "", "x");
  }
}
