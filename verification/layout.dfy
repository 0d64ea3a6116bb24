/**
 * The layout tree a `DocJig` is configured with (docjiglayout.go): one node
 * per heading level, the builders that grow it, the matching of a heading
 * against a node's children, and the parenthesised option clause at the
 * end of a heading.
 *
 * Go links layouts by pointer; here they live in a sequence (`Schema`) and
 * refer to their children by position. The root is at position 0.
 */
module Layouts {
  import opened Wrappers
  import opened Text
  import opened Record
  import opened Aliases
  import opened CodeFences
  import opened Tables

  /** The sample an option shows in the template: a bare flag, or a value. */
  datatype OptSample = FlagSample | ValueSample(text: string)

  /** `Option`: a heading option keyed by `pattern`, written to the field named by the key. */
  datatype OptionSlot = OptionSlot(fieldName: string, pattern: string, sample: Option<OptSample>)
  {
    /** `Option.Sample`. */
    function Sample(s: OptSample): (r: OptionSlot)
      ensures r.sample == Some(s) && r.(sample := sample) == this
    {
      this.(sample := Some(s))
    }
  }

  /** The deepest heading level; a layout at this level cannot have children. */
  const MaxLevel: nat := 6

  /** One node of the layout tree. */
  datatype Layout = Layout(
    level: nat,
    labelField: string,
    pattern: string,
    samples: seq<string>,
    instanceField: string,
    children: seq<nat>,
    fences: seq<Fence>,
    table: Option<TableSlot>,
    repeat: bool,
    options: seq<OptionSlot>)
  {
    /** `Layout.Label`: the heading text goes to `fieldName`; the pattern changes only when one is given. */
    function Label(fieldName: string, pattern': seq<string>): (r: Layout)
      ensures r.labelField == fieldName
      ensures r.pattern == (if |pattern'| > 0 then pattern'[0] else pattern)
      ensures r.(labelField := labelField, pattern := pattern) == this
    {
      this.(labelField := fieldName, pattern := if |pattern'| > 0 then pattern'[0] else pattern)
    }

    /** `Layout.Sample`: replaces the template's sample headings. */
    function Sample(sample: string, more: seq<string>): (r: Layout)
      ensures r.samples == [sample] + more && r.(samples := samples) == this
    {
      this.(samples := [sample] + more)
    }

    /** `Layout.CodeFence`: adds a fence slot that inherits this layout's repetition. */
    function CodeFence(fieldName: string, languages: seq<string>): (r: Layout)
      ensures r.fences == fences + [NewFence(fieldName, languages, repeat)]
      ensures r.(fences := fences) == this
    {
      this.(fences := fences + [NewFence(fieldName, languages, repeat)])
    }

    /** Writes back a fence slot after its setters ran (Go mutates it through the returned pointer). */
    function WithFence(k: nat, f: Fence): (r: Layout)
      requires k < |fences|
      ensures |r.fences| == |fences| && r.fences[k] == f
      ensures forall j :: 0 <= j < |fences| && j != k ==> r.fences[j] == fences[j]
      ensures r.(fences := fences) == this
    {
      this.(fences := fences[k := f])
    }

    /** `Layout.Table`: a layout holds at most one table; declaring a second panics. */
    function Table(fieldName: string): (r: Result<Layout, Error>)
      ensures table.Some? <==> r.Err?
      ensures r.Err? ==> r.error.Panic?
      ensures r.Ok? ==> r.value == this.(table := Some(NewTable(fieldName)))
    {
      if table.Some? then Err(Panic("this layout has table already"))
      else Ok(this.(table := Some(NewTable(fieldName))))
    }

    /** Writes back the table slot after its columns were declared. */
    function WithTable(slot: TableSlot): (r: Layout)
      requires table.Some?
      ensures r.table == Some(slot) && r.(table := table) == this
    {
      this.(table := Some(slot))
    }

    /** `Layout.Option`: the key defaults to the field name. */
    function Option(fieldName: string, pattern': seq<string>): (r: Layout)
      ensures |r.options| == |options| + 1 && r.options[..|options|] == options
      ensures r.options[|options|] ==
                OptionSlot(fieldName, if |pattern'| > 0 then pattern'[0] else fieldName, None)
      ensures r.(options := options) == this
    {
      this.(options := options + [OptionSlot(fieldName, if |pattern'| > 0 then pattern'[0] else fieldName, None)])
    }

    /** Writes back an option after `Option.Sample`. */
    function WithOption(k: nat, o: OptionSlot): (r: Layout)
      requires k < |options|
      ensures |r.options| == |options| && r.options[k] == o
      ensures forall j :: 0 <= j < |options| && j != k ==> r.options[j] == options[j]
      ensures r.(options := options) == this
    {
      this.(options := options[k := o])
    }
  }

  /** A fresh layout at `level`, bound to `instanceField`, with no label, slots or children. */
  function Blank(level: nat, instanceField: string, pattern: string, repeat: bool): Layout {
    Layout(level, "", pattern, [], instanceField, [], [], None, repeat, [])
  }

  /** All the layouts of a `DocJig`; position 0 is the root. */
  type Schema = seq<Layout>

  /** The root is at level 1 and every child sits exactly one level below its parent. */
  predicate ValidSchema(s: Schema) {
    && |s| > 0
    && s[0].level == 1
    && (forall id :: 0 <= id < |s| ==> 1 <= s[id].level <= MaxLevel)
    && (forall id, k :: 0 <= id < |s| && 0 <= k < |s[id].children| ==>
          s[id].children[k] < |s| && s[s[id].children[k]].level == s[id].level + 1)
  }

  /** `NewDocJig`'s layout tree: a bare root at level 1. */
  function NewSchema(): (r: Schema)
    ensures ValidSchema(r) && |r| == 1
    ensures r[0] == Blank(1, "", "", false)
  {
    [Blank(1, "", "", false)]
  }

  /**
   * `Layout.Child` (and, with `repeat`, `Layout.Children`): appends a new
   * layout one level down, bound to `instanceField`. A layout at the
   * deepest level panics.
   */
  function AddChild(s: Schema, parent: nat, instanceField: string, pattern: seq<string>, repeat: bool): (r: Result<(Schema, nat), Error>)
    requires ValidSchema(s) && parent < |s|
    ensures s[parent].level == MaxLevel <==> r.Err?
    ensures r.Err? ==> r.error.Panic?
    ensures r.Ok? ==>
              var (s', id) := r.value;
              && ValidSchema(s')
              && id == |s| && |s'| == |s| + 1
              && s'[id] == Blank(s[parent].level + 1, instanceField, if |pattern| > 0 then pattern[0] else "", repeat)
              && s'[parent] == s[parent].(children := s[parent].children + [id])
              && forall j :: 0 <= j < |s| && j != parent ==> s'[j] == s[j]
  {
    if s[parent].level == MaxLevel then Err(Panic("Level should be under 7"))
    else
      var id := |s|;
      var child := Blank(s[parent].level + 1, instanceField, if |pattern| > 0 then pattern[0] else "", repeat);
      var s' := s[parent := s[parent].(children := s[parent].children + [id])] + [child];
      assert forall j, k :: 0 <= j < |s'| && 0 <= k < |s'[j].children| ==>
               s'[j].children[k] == id || (j < |s| && s'[j].children[k] == s[j].children[k] && k < |s[j].children|);
      Ok((s', id))
  }

  /** `Layout.Child`. */
  function Child(s: Schema, parent: nat, instanceField: string, pattern: seq<string>): (r: Result<(Schema, nat), Error>)
    requires ValidSchema(s) && parent < |s|
    ensures r.Ok? ==> ValidSchema(r.value.0) && r.value.1 < |r.value.0| && !r.value.0[r.value.1].repeat
    ensures r.Ok? ==> parent < |r.value.0| && r.value.1 in r.value.0[parent].children
    ensures r.Err? <==> s[parent].level == MaxLevel
  {
    AddChild(s, parent, instanceField, pattern, false)
  }

  /** `Layout.Children`: like `Child`, but the section may repeat and fills a list. */
  function Children(s: Schema, parent: nat, instanceField: string, pattern: seq<string>): (r: Result<(Schema, nat), Error>)
    requires ValidSchema(s) && parent < |s|
    ensures r.Ok? ==> ValidSchema(r.value.0) && r.value.1 < |r.value.0| && r.value.0[r.value.1].repeat
    ensures r.Ok? ==> parent < |r.value.0| && r.value.1 in r.value.0[parent].children
    ensures r.Err? <==> s[parent].level == MaxLevel
  {
    AddChild(s, parent, instanceField, pattern, true)
  }

  /** Replaces one layout by a reconfigured copy (label, fences, table, options, samples). */
  function Update(s: Schema, id: nat, l: Layout): (r: Schema)
    requires ValidSchema(s) && id < |s|
    requires l.level == s[id].level && l.children == s[id].children
    ensures ValidSchema(r) && |r| == |s| && r[id] == l
    ensures forall j :: 0 <= j < |s| && j != id ==> r[j] == s[j]
  {
    s[id := l]
  }

  /** The first position holding `true`. */
  function FirstTrue(hits: seq<bool>): (r: Option<nat>)
    ensures r.Some? ==> r.value < |hits| && hits[r.value]
    ensures r.Some? ==> forall k :: 0 <= k < r.value ==> !hits[k]
    ensures r.None? ==> forall k :: 0 <= k < |hits| ==> !hits[k]
  {
    if |hits| == 0 then None
    else if hits[0] then Some(0)
    else
      match FirstTrue(hits[1..])
      case None => None
      case Some(k) => Some(k + 1)
  }

  /** Whether each child matches the heading, in declaration order. */
  function ChildHits(t: AliasTable, s: Schema, kids: seq<nat>, heading: string): (r: seq<bool>)
    requires forall k :: 0 <= k < |kids| ==> kids[k] < |s|
    ensures |r| == |kids|
    ensures forall k :: 0 <= k < |kids| ==> r[k] == MatchLabel(t, s[kids[k]].pattern, heading).1
  {
    seq(|kids|, k requires 0 <= k < |kids| => MatchLabel(t, s[kids[k]].pattern, heading).1)
  }

  /** The first child, in declaration order, whose pattern matches the heading. */
  function FirstMatchingChild(t: AliasTable, s: Schema, kids: seq<nat>, heading: string): (r: Option<nat>)
    requires forall k :: 0 <= k < |kids| ==> kids[k] < |s|
    ensures r.Some? ==> r.value < |kids| && MatchLabel(t, s[kids[r.value]].pattern, heading).1
    ensures r.Some? ==> forall k :: 0 <= k < r.value ==> !MatchLabel(t, s[kids[k]].pattern, heading).1
    ensures r.None? ==> forall k :: 0 <= k < |kids| ==> !MatchLabel(t, s[kids[k]].pattern, heading).1
  {
    FirstTrue(ChildHits(t, s, kids, heading))
  }

  /**
   * The binding half of `Layout.findMatchedChild`: where a matched child
   * writes. "." binds the child to the parent's own value; a named field
   * is followed, a nil pointer in it is allocated, and a repeated child
   * appends a zero element to its list and writes through that element's
   * address.
   */
  function BindChild(c: Layout, parent: Target, rec: Value): (r: Result<(Target, Value), Error>)
    ensures c.instanceField == "." ==> r.Ok? && r.value.1 == rec
    ensures c.instanceField == "." && c.repeat ==> r.value.0 == parent
    ensures c.instanceField == "." && !c.repeat ==> r.value.0 == Target(parent.path, false)
    ensures c.instanceField != "." && (parent.viaPointer || StructAt(rec, parent).None?) ==> r.Err? && r.error.Panic?
    ensures c.instanceField != "." && !parent.viaPointer && StructAt(rec, parent).Some? ==>
              var fs := StructAt(rec, parent).value;
              var name := c.instanceField;
              var at := parent.path + [Field(name)];
              && (name !in fs ==> r == Err(MissingChildField(name)))
              && (name in fs && !c.repeat && fs[name].Ptr? ==>
                    && r.Ok? && r.value.0 == Target(at + [Deref], false)
                    && Get(r.value.1, at) == Some(Ptr(fs[name].elemZero, Some(fs[name].ref.GetOr(fs[name].elemZero)))))
              && (name in fs && !c.repeat && !fs[name].Ptr? ==>
                    r == Ok((Target(at, false), rec)))
              && (name in fs && c.repeat && !fs[name].List? ==> r.Err? && r.error.Panic?)
              && (name in fs && c.repeat && fs[name].List? ==>
                    && r.Ok? && r.value.0 == Target(at + [Index(|fs[name].items|)], true)
                    && Get(r.value.1, at) == Some(List(fs[name].elemZero, fs[name].items + [fs[name].elemZero])))
    ensures r.Ok? && c.instanceField != "." ==> Get(r.value.1, r.value.0.path).Some?
  {
    var name := c.instanceField;
    if name == "." then
      if c.repeat then Ok((parent, rec)) else Ok((Target(parent.path, false), rec))
    else if parent.viaPointer then Err(Panic("reflect: FieldByName on a list element's address"))
    else
      match StructAt(rec, parent)
      case None => Err(Panic("reflect: FieldByName on a value that is not a struct"))
      case Some(fs) =>
        if name !in fs then Err(MissingChildField(name))
        else
          var at := parent.path + [Field(name)];
          GetAppend(rec, parent.path, Field(name));
          var v := fs[name];
          if !c.repeat then
            if v.Ptr? then
              var v' := Ptr(v.elemZero, Some(v.ref.GetOr(v.elemZero)));
              var rec' := Put(rec, at, v');
              GetAppend(rec', at, Deref);
              Ok((Target(at + [Deref], false), rec'))
            else Ok((Target(at, false), rec))
          else if !v.List? then Err(Panic("reflect: Append on a field that is not a list"))
          else
            var v' := List(v.elemZero, v.items + [v.elemZero]);
            var rec' := Put(rec, at, v');
            GetAppend(rec', at, Index(|v.items|));
            Ok((Target(at + [Index(|v.items|)], true), rec'))
  }

  /** Binding a child writes nowhere but under the child's own field of the parent. */
  lemma BindChildFrame(c: Layout, parent: Target, rec: Value, q: Path)
    requires BindChild(c, parent, rec).Ok?
    requires Disjoint(parent.path + [Field(c.instanceField)], q)
    ensures Get(BindChild(c, parent, rec).value.1, q) == Get(rec, q)
  {
    if c.instanceField != "." && StructAt(rec, parent).Some? {
      var fs := StructAt(rec, parent).value;
      var at := parent.path + [Field(c.instanceField)];
      GetAppend(rec, parent.path, Field(c.instanceField));
      var v := fs[c.instanceField];
      if !c.repeat && v.Ptr? {
        PutFrame(rec, at, q, Ptr(v.elemZero, Some(v.ref.GetOr(v.elemZero))));
      } else if c.repeat {
        PutFrame(rec, at, q, List(v.elemZero, v.items + [v.elemZero]));
      }
    }
  }

  /** Whether the `k`-th child is the first, in declaration order, whose pattern matches the heading. */
  predicate FirstMatchAt(t: AliasTable, s: Schema, kids: seq<nat>, heading: string, k: nat)
    requires forall j :: 0 <= j < |kids| ==> kids[j] < |s|
  {
    && k < |kids|
    && MatchLabel(t, s[kids[k]].pattern, heading).1
    && forall j :: 0 <= j < k ==> !MatchLabel(t, s[kids[j]].pattern, heading).1
  }

  /** A matched child: its position, where it writes, the record after binding, the heading suffix. */
  datatype ChildMatch = ChildMatch(child: nat, target: Target, rec: Value, suffix: string)

  /**
   * `Layout.findMatchedChild`: the first child whose pattern matches the
   * heading, bound below the parent's target; no match is not an error.
   */
  function FindMatchedChild(t: AliasTable, s: Schema, parent: nat, heading: string, target: Target, rec: Value): (r: Result<Option<ChildMatch>, Error>)
    requires ValidSchema(s) && parent < |s|
    ensures (r.Ok? && r.value.None?) <==>
              forall k :: 0 <= k < |s[parent].children| ==> !MatchLabel(t, s[s[parent].children[k]].pattern, heading).1
    ensures r.Ok? && r.value.Some? ==>
              var m := r.value.value;
              && m.child in s[parent].children && m.child < |s|
              && s[m.child].level == s[parent].level + 1
              && MatchLabel(t, s[m.child].pattern, heading) == (m.suffix, true)
              && BindChild(s[m.child], target, rec) == Ok((m.target, m.rec))
              && exists k :: 0 <= k < |s[parent].children| && s[parent].children[k] == m.child &&
                   forall j :: 0 <= j < k ==> !MatchLabel(t, s[s[parent].children[j]].pattern, heading).1
    ensures r.Err? ==>
              exists k: nat :: FirstMatchAt(t, s, s[parent].children, heading, k) &&
                          BindChild(s[s[parent].children[k]], target, rec) == Err(r.error)
    ensures forall k: nat ::
              (FirstMatchAt(t, s, s[parent].children, heading, k) &&
               BindChild(s[s[parent].children[k]], target, rec).Ok?) ==>
              r.Ok? && r.value.Some? && r.value.value.child == s[parent].children[k]
  {
    var kids := s[parent].children;
    match FirstMatchingChild(t, s, kids, heading)
    case None => Ok(None)
    case Some(k) =>
      assert FirstMatchAt(t, s, kids, heading, k);
      assert forall k': nat :: FirstMatchAt(t, s, kids, heading, k') ==> k' == k;
      var c := s[kids[k]];
      match BindChild(c, target, rec)
      case Err(e) => Err(e)
      case Ok((target', rec')) => Ok(Some(ChildMatch(kids[k], target', rec', MatchLabel(t, c.pattern, heading).0)))
  }

  /**
   * The option clause of a heading, as `(.*)\s*\((.*)\)` captures it on a
   * line: the text before the last "(" that a ")" follows, and the text
   * between it and the last ")". Text after that ")" is dropped.
   */
  function ExtractClause(heading: string): (r: Option<(string, string)>)
    ensures r.Some? ==>
              var (head, body) := r.value;
              && |head| + |body| + 2 <= |heading|
              && heading[..|head|] == head && heading[|head|] == '('
              && heading[|head| + 1..|head| + 1 + |body|] == body && heading[|head| + 1 + |body|] == ')'
              && '(' !in body && ')' !in heading[|head| + |body| + 2..]
    ensures r.None? <==> forall i, j :: 0 <= i < j < |heading| && heading[i] == '(' ==> heading[j] != ')'
  {
    match LastIndexOf(heading, ')')
    case None => None
    case Some(j) =>
      match LastIndexOf(heading[..j], '(')
      case None =>
        assert forall i, j' :: 0 <= i < j' < |heading| && heading[i] == '(' ==> heading[j'] != ')' by {
          forall i, j' | 0 <= i < j' < |heading| && heading[i] == '(' ensures heading[j'] != ')' {
            if j' > j { assert heading[j + 1..][j' - j - 1] == heading[j']; }
          }
        }
        None
      case Some(i) =>
        assert heading[..j][i + 1..] == heading[i + 1..j];
        assert heading[..j][..i] == heading[..i];
        Some((heading[..i], heading[i + 1..j]))
  }

  /**
   * One comma-separated option: `key=value` with both sides trimmed, or a
   * bare key that sets the option to true.
   */
  function ParseToken(tok: string): (r: (string, Input))
    ensures var (key, value, found) := Cut(TrimSpace(tok), '=');
            found ==> r == (TrimSpace(key), Text(TrimSpace(value))) && '=' !in r.0
    ensures '=' !in TrimSpace(tok) ==> r == (TrimSpace(tok), Flag)
  {
    var opt := TrimSpace(tok);
    var (key, value, found) := Cut(opt, '=');
    if found then
      assert '=' !in TrimSpace(key) by {
        var tk := TrimSpace(key);
        assert tk == TrimRight(TrimLeft(key, IsSpace), IsSpace);
      }
      (TrimSpace(key), Text(TrimSpace(value)))
    else (opt, Flag)
  }

  /** The first declared option whose key is `key`. */
  function FirstOptionWithPattern(options: seq<OptionSlot>, key: string): (r: Option<nat>)
    ensures r.Some? ==> r.value < |options| && options[r.value].pattern == key
    ensures r.Some? ==> forall j :: 0 <= j < r.value ==> options[j].pattern != key
    ensures r.None? ==> forall j :: 0 <= j < |options| ==> options[j].pattern != key
  {
    if |options| == 0 then None
    else if options[0].pattern == key then Some(0)
    else
      match FirstOptionWithPattern(options[1..], key)
      case None => None
      case Some(k) => Some(k + 1)
  }

  /**
   * One option of the clause: an undeclared key is ignored; a declared one
   * is coerced into the target's field named by the key, overwriting it.
   */
  function ApplyOption(coerce: Coercer, options: seq<OptionSlot>, key: string, input: Input,
                       target: Target, rec: Value): (r: Result<Value, Error>)
    ensures FirstOptionWithPattern(options, key).None? ==> r == Ok(rec)
    ensures FirstOptionWithPattern(options, key).Some? ==>
              var o := options[FirstOptionWithPattern(options, key).value];
              && (target.viaPointer || StructAt(rec, target).None? ==> r.Err? && r.error.Panic?)
              && (!target.viaPointer && StructAt(rec, target).Some? ==>
                    var fs := StructAt(rec, target).value;
                    && (key !in fs ==> r == Err(MissingOptionField(o.fieldName)))
                    && (key in fs && coerce(fs[key], input).Err? ==> r == Err(CoerceFailed(coerce(fs[key], input).error)))
                    && (key in fs && coerce(fs[key], input).Ok? ==>
                          r.Ok? && Get(r.value, target.path) == Some(Struct(fs[key := coerce(fs[key], input).value]))))
  {
    match FirstOptionWithPattern(options, key)
    case None => Ok(rec)
    case Some(k) =>
      if target.viaPointer then Err(Panic("reflect: FieldByName on a list element's address"))
      else
        match StructAt(rec, target)
        case None => Err(Panic("reflect: FieldByName on a value that is not a struct"))
        case Some(fs) =>
          if key !in fs then Err(MissingOptionField(options[k].fieldName))
          else
            match coerce(fs[key], input)
            case Err(e) => Err(CoerceFailed(e))
            case Ok(v) => Ok(Put(rec, target.path, Struct(fs[key := v])))
  }

  /** The parsed options of a clause. */
  function ParseTokens(tokens: seq<string>): (r: seq<(string, Input)>)
    ensures |r| == |tokens|
    ensures forall i :: 0 <= i < |tokens| ==> r[i] == ParseToken(tokens[i])
  {
    seq(|tokens|, i requires 0 <= i < |tokens| => ParseToken(tokens[i]))
  }

  /** Whether no parsed option names a declared option. */
  predicate NoneDeclared(options: seq<OptionSlot>, opts: seq<(string, Input)>) {
    forall i :: 0 <= i < |opts| ==> FirstOptionWithPattern(options, opts[i].0).None?
  }

  /**
   * The options of a clause, applied left to right; the first error stops
   * the heading. Nothing outside the target's own value changes.
   */
  function ApplyOptions(coerce: Coercer, options: seq<OptionSlot>, opts: seq<(string, Input)>, target: Target,
                        rec: Value): (r: Result<Value, Error>)
    ensures NoneDeclared(options, opts) ==> r == Ok(rec)
    ensures r.Ok? ==> forall q :: Disjoint(target.path, q) ==> Get(r.value, q) == Get(rec, q)
    ensures r.Err? ==> exists i :: 0 <= i < |opts| && FirstOptionWithPattern(options, opts[i].0).Some?
    decreases |opts|
  {
    if |opts| == 0 then Ok(rec)
    else
      match ApplyOption(coerce, options, opts[0].0, opts[0].1, target, rec)
      case Err(e) => Err(e)
      case Ok(rec') =>
        OptionFrame(coerce, options, opts[0].0, opts[0].1, target, rec);
        assert NoneDeclared(options, opts) ==> NoneDeclared(options, opts[1..]);
        ApplyOptions(coerce, options, opts[1..], target, rec')
  }

  /** One option writes nowhere outside the target's own value. */
  lemma OptionFrame(coerce: Coercer, options: seq<OptionSlot>, key: string, input: Input, target: Target, rec: Value)
    requires ApplyOption(coerce, options, key, input, target, rec).Ok?
    ensures forall q :: Disjoint(target.path, q) ==>
              Get(ApplyOption(coerce, options, key, input, target, rec).value, q) == Get(rec, q)
  {
    var r := ApplyOption(coerce, options, key, input, target, rec).value;
    if FirstOptionWithPattern(options, key).Some? {
      var fs := StructAt(rec, target).value;
      var v := coerce(fs[key], input).value;
      forall q | Disjoint(target.path, q) ensures Get(r, q) == Get(rec, q) {
        PutFrame(rec, target.path, q, Struct(fs[key := v]));
      }
    }
  }

  /** Whether some option is declared under `key`. */
  predicate Declared(options: seq<OptionSlot>, key: string) {
    FirstOptionWithPattern(options, key).Some?
  }

  /** Applying two runs of options one after the other is applying their concatenation. */
  lemma {:induction false} ApplyOptionsAppend(coerce: Coercer, options: seq<OptionSlot>, a: seq<(string, Input)>,
                                              b: seq<(string, Input)>, target: Target, rec: Value)
    ensures ApplyOptions(coerce, options, a + b, target, rec) ==
              (match ApplyOptions(coerce, options, a, target, rec)
               case Err(e) => Err(e)
               case Ok(mid) => ApplyOptions(coerce, options, b, target, mid))
    decreases |a|
  {
    if |a| == 0 {
      assert a + b == b;
    } else {
      assert (a + b)[0] == a[0];
      assert (a + b)[1..] == a[1..] + b;
      match ApplyOption(coerce, options, a[0].0, a[0].1, target, rec)
      case Err(_) =>
      case Ok(rec') => ApplyOptionsAppend(coerce, options, a[1..], b, target, rec');
    }
  }

  /**
   * Options leave the target's other fields alone: a field that no
   * declared option of the clause names keeps its value, and the target
   * keeps its set of fields.
   */
  lemma {:induction false} ApplyOptionsKeeps(coerce: Coercer, options: seq<OptionSlot>, opts: seq<(string, Input)>,
                                             target: Target, rec: Value)
    requires ApplyOptions(coerce, options, opts, target, rec).Ok? && StructAt(rec, target).Some?
    ensures var after := StructAt(ApplyOptions(coerce, options, opts, target, rec).value, target);
            && after.Some? && after.value.Keys == StructAt(rec, target).value.Keys
            && forall f :: f in after.value &&
                           (forall i :: 0 <= i < |opts| && Declared(options, opts[i].0) ==> opts[i].0 != f) ==>
                             after.value[f] == StructAt(rec, target).value[f]
    decreases |opts|
  {
    if |opts| > 0 {
      var rec' := ApplyOption(coerce, options, opts[0].0, opts[0].1, target, rec).value;
      assert StructAt(rec', target).Some? && StructAt(rec', target).value.Keys == StructAt(rec, target).value.Keys;
      ApplyOptionsKeeps(coerce, options, opts[1..], target, rec');
      forall f | f in StructAt(rec, target).value &&
                 (forall i :: 0 <= i < |opts| && Declared(options, opts[i].0) ==> opts[i].0 != f)
        ensures StructAt(rec', target).value[f] == StructAt(rec, target).value[f]
        ensures forall i :: 0 <= i < |opts[1..]| && Declared(options, opts[1..][i].0) ==> opts[1..][i].0 != f
      {
        assert forall i :: 0 <= i < |opts[1..]| ==> opts[1..][i] == opts[i + 1];
      }
    }
  }

  /**
   * The last occurrence of a declared key in a clause decides its field:
   * the field holds that occurrence's value coerced onto what the field
   * held just before it.
   */
  lemma OptionLastWins(coerce: Coercer, options: seq<OptionSlot>, opts: seq<(string, Input)>, target: Target,
                       rec: Value, i: nat)
    requires ApplyOptions(coerce, options, opts, target, rec).Ok?
    requires i < |opts| && Declared(options, opts[i].0)
    requires forall j :: i < j < |opts| ==> opts[j].0 != opts[i].0
    ensures var before := ApplyOptions(coerce, options, opts[..i], target, rec);
            && before.Ok?
            && StructAt(before.value, target).Some? && opts[i].0 in StructAt(before.value, target).value
            && var previous := StructAt(before.value, target).value[opts[i].0];
               && coerce(previous, opts[i].1).Ok?
               && var after := StructAt(ApplyOptions(coerce, options, opts, target, rec).value, target);
                  after.Some? && opts[i].0 in after.value && after.value[opts[i].0] == coerce(previous, opts[i].1).value
  {
    var key := opts[i].0;
    var rest := opts[i + 1..];
    assert opts == opts[..i] + ([opts[i]] + rest);
    ApplyOptionsAppend(coerce, options, opts[..i], [opts[i]] + rest, target, rec);
    var mid := ApplyOptions(coerce, options, opts[..i], target, rec).value;
    assert ([opts[i]] + rest)[0] == opts[i] && ([opts[i]] + rest)[1..] == rest;
    var mid' := ApplyOption(coerce, options, key, opts[i].1, target, mid).value;
    var fs := StructAt(mid, target).value;
    assert StructAt(mid', target) == Some(fs[key := coerce(fs[key], opts[i].1).value]);
    ApplyOptionsKeeps(coerce, options, rest, target, mid');
    assert forall j :: 0 <= j < |rest| ==> rest[j] == opts[i + 1 + j];
  }

  /**
   * `Layout.processOption`: strips the option clause from a heading and
   * applies its options. A heading without a clause comes back as it was;
   * otherwise the text before the clause comes back trimmed.
   */
  function ProcessOption(coerce: Coercer, l: Layout, heading: string, target: Target, rec: Value): (r: Result<(string, Value), Error>)
    ensures ExtractClause(heading).None? ==> r == Ok((heading, rec))
    ensures ExtractClause(heading).Some? ==>
              var (head, body) := ExtractClause(heading).value;
              var opts := ParseTokens(Split(body, ','));
              && (r.Ok? ==> r.value.0 == TrimSpace(head))
              && (NoneDeclared(l.options, opts) ==> r == Ok((TrimSpace(head), rec)))
    ensures r.Ok? ==> forall q :: Disjoint(target.path, q) ==> Get(r.value.1, q) == Get(rec, q)
  {
    match ExtractClause(heading)
    case None => Ok((heading, rec))
    case Some((head, body)) =>
      match ApplyOptions(coerce, l.options, ParseTokens(Split(body, ',')), target, rec)
      case Err(e) => Err(e)
      case Ok(rec') => Ok((TrimSpace(head), rec'))
  }

  /** The options a heading's clause declares, in the order they are written. */
  function ClauseOptions(heading: string): seq<(string, Input)>
    requires ExtractClause(heading).Some?
  {
    ParseTokens(Split(ExtractClause(heading).value.1, ','))
  }

  /**
   * What `processOption` writes: each declared key of the clause, at its
   * last occurrence, is coerced onto the value its field held just before;
   * every field no declared key names keeps its value.
   */
  lemma ProcessOptionWrites(coerce: Coercer, l: Layout, heading: string, target: Target, rec: Value, i: nat)
    requires ProcessOption(coerce, l, heading, target, rec).Ok? && ExtractClause(heading).Some?
    requires i < |ClauseOptions(heading)| && Declared(l.options, ClauseOptions(heading)[i].0)
    requires forall j :: i < j < |ClauseOptions(heading)| ==> ClauseOptions(heading)[j].0 != ClauseOptions(heading)[i].0
    ensures var opts := ClauseOptions(heading);
            var before := ApplyOptions(coerce, l.options, opts[..i], target, rec);
            && before.Ok?
            && StructAt(before.value, target).Some? && opts[i].0 in StructAt(before.value, target).value
            && var previous := StructAt(before.value, target).value[opts[i].0];
               && coerce(previous, opts[i].1).Ok?
               && var after := StructAt(ProcessOption(coerce, l, heading, target, rec).value.1, target);
                  after.Some? && opts[i].0 in after.value && after.value[opts[i].0] == coerce(previous, opts[i].1).value
  {
    OptionLastWins(coerce, l.options, ClauseOptions(heading), target, rec, i);
  }

  /** A heading's options write only the fields the clause names with a declared key. */
  lemma ProcessOptionKeeps(coerce: Coercer, l: Layout, heading: string, target: Target, rec: Value, f: string)
    requires ProcessOption(coerce, l, heading, target, rec).Ok? && StructAt(rec, target).Some?
    requires f in StructAt(rec, target).value
    requires ExtractClause(heading).Some? ==>
               forall i :: 0 <= i < |ClauseOptions(heading)| && Declared(l.options, ClauseOptions(heading)[i].0) ==>
                 ClauseOptions(heading)[i].0 != f
    ensures var after := StructAt(ProcessOption(coerce, l, heading, target, rec).value.1, target);
            after.Some? && f in after.value && after.value[f] == StructAt(rec, target).value[f]
  {
    if ExtractClause(heading).Some? {
      ApplyOptionsKeeps(coerce, l.options, ClauseOptions(heading), target, rec);
    }
  }

  /** The heading text the template shows for the `i`-th instance, before any option clause. */
  function TemplateBase(l: Layout, i: nat, tr: string -> string): string {
    if l.pattern != "" then
      if l.labelField != "" then
        tr(l.pattern) + ": [" + (if i < |l.samples| then tr(l.samples[i]) else tr("Lorem Ipsum")) + "]"
      else tr(l.pattern)
    else if |l.samples| > 0 then
      if i < |l.samples| then "[" + tr(l.samples[i]) + "]" else "[...]"
    else if l.instanceField != "" then
      if l.labelField != "" then "[" + tr(l.instanceField) + "]" else tr(l.instanceField)
    else "[" + tr("Title") + "]"
  }

  /** The template's rendering of the options that have a sample, in declaration order. */
  function TemplateOptions(options: seq<OptionSlot>, tr: string -> string): (r: seq<string>)
    ensures |r| <= |options|
    decreases |options|
  {
    if |options| == 0 then []
    else
      var rest := TemplateOptions(options[1..], tr);
      match options[0].sample
      case None => rest
      case Some(FlagSample) => [tr(options[0].fieldName)] + rest
      case Some(ValueSample(v)) => [tr(options[0].fieldName) + "=[" + v + "]"] + rest
  }

  /** `Layout.templateLabel`: the heading text the template writes for the `i`-th instance. */
  function TemplateLabel(l: Layout, i: nat, tr: string -> string): (r: string)
    ensures var opts := TemplateOptions(l.options, tr);
            && (|opts| == 0 ==> r == TemplateBase(l, i, tr))
            && (|opts| > 0 ==> r == TemplateBase(l, i, tr) + " (" + Join(opts, ", ") + ")")
  {
    var opts := TemplateOptions(l.options, tr);
    if |opts| > 0 then TemplateBase(l, i, tr) + " (" + Join(opts, ", ") + ")" else TemplateBase(l, i, tr)
  }

  /**
   * A layout with a label pattern that its template writes untranslated
   * recognises its own template heading: the heading matches, and the
   * suffix is the bracketed sample followed by the option clause.
   */
  lemma TemplateLabelMatches(t: AliasTable, l: Layout, i: nat, tr: string -> string)
    requires l.pattern != "" && l.labelField != "" && tr(l.pattern) == l.pattern
    ensures var sample := if i < |l.samples| then tr(l.samples[i]) else tr("Lorem Ipsum");
            var opts := TemplateOptions(l.options, tr);
            var clause := if |opts| > 0 then " (" + Join(opts, ", ") + ")" else "";
            MatchLabel(t, l.pattern, TemplateLabel(l, i, tr)) == ("[" + sample + "]" + clause, true)
  {
    var sample := if i < |l.samples| then tr(l.samples[i]) else tr("Lorem Ipsum");
    var opts := TemplateOptions(l.options, tr);
    var clause := if |opts| > 0 then " (" + Join(opts, ", ") + ")" else "";
    var rest := "[" + sample + "]" + clause;
    assert TemplateLabel(l, i, tr) == l.pattern + ": " + rest;
    MatchAfterColon(t, l.pattern, rest);
  }

  /**
   * A template heading with at least one option, a base without ")" and
   * rendered options that hold no brackets or commas and are trimmed (on
   * both sides of their first "=") parses back: the clause splits off
   * after the base, and each rendered option yields its name as key, with
   * the bracketed sample as value or as a bare flag.
   */
  lemma TemplateOptionsParse(l: Layout, i: nat, tr: string -> string)
    requires |TemplateOptions(l.options, tr)| > 0
    requires ')' !in TemplateBase(l, i, tr)
    requires forall k :: 0 <= k < |TemplateOptions(l.options, tr)| ==> TokenSafe(TemplateOptions(l.options, tr)[k])
    ensures ExtractClause(TemplateLabel(l, i, tr)) ==
              Some((TemplateBase(l, i, tr) + " ", Join(TemplateOptions(l.options, tr), ", ")))
    ensures var tokens := Split(Join(TemplateOptions(l.options, tr), ", "), ',');
            && |tokens| == |TemplateOptions(l.options, tr)|
            && forall k :: 0 <= k < |tokens| ==> ParseToken(tokens[k]) == Rendered(TemplateOptions(l.options, tr)[k])
  {
    var opts := TemplateOptions(l.options, tr);
    var base := TemplateBase(l, i, tr);
    var body := Join(opts, ", ");
    JoinAvoids(opts, '(');
    JoinAvoids(opts, ')');
    ClauseOf(base, body);
    JoinSplitTokens(opts);
  }

  /** A rendered option text that survives the clause syntax: no brackets of the clause, no comma, trimmed. */
  predicate TokenSafe(opt: string) {
    && '(' !in opt && ')' !in opt && ',' !in opt
    && (|opt| > 0 ==> !IsSpace(opt[0]) && !IsSpace(opt[|opt| - 1]))
    && var (key, value, found) := Cut(opt, '=');
       found ==> TrimSpace(key) == key && TrimSpace(value) == value
  }

  /** What a safe rendered option parses to. */
  function Rendered(opt: string): (string, Input) {
    var (key, value, found) := Cut(opt, '=');
    if found then (key, Text(value)) else (opt, Flag)
  }

  /** The clause of `base (body)` is `body`, when the body has no "(" or ")" and the base no ")". */
  lemma ClauseOf(base: string, body: string)
    requires '(' !in body && ')' !in body && ')' !in base
    ensures ExtractClause(base + " (" + body + ")") == Some((base + " ", body))
  {
    var heading := base + " (" + body + ")";
    var j := |heading| - 1;
    var i := |base| + 1;
    assert heading[j + 1..] == [];
    LastIndexOfIs(heading, ')', j);
    var pre := heading[..j];
    assert pre == (base + " ") + "(" + body;
    assert pre[i + 1..] == body;
    LastIndexOfIs(pre, '(', i);
    assert heading[..i] == base + " ";
    assert heading[i + 1..j] == body;
    assert ExtractClause(heading) == Some((heading[..i], heading[i + 1..j]));
  }

  /** A join of texts none of which holds `c`, on ", ", does not hold `c` either. */
  lemma {:induction false} JoinAvoids(opts: seq<string>, c: char)
    requires c != ',' && c != ' '
    requires forall k :: 0 <= k < |opts| ==> c !in opts[k]
    ensures c !in Join(opts, ", ")
    decreases |opts|
  {
    if |opts| > 1 {
      JoinAvoids(opts[1..], c);
    }
  }

  /** Splitting the rendered clause at commas gives back the options, each preceded by the joining blank. */
  lemma {:induction false} JoinSplitTokens(opts: seq<string>)
    requires |opts| > 0
    requires forall k :: 0 <= k < |opts| ==> TokenSafe(opts[k])
    ensures var tokens := Split(Join(opts, ", "), ',');
            && |tokens| == |opts|
            && forall k :: 0 <= k < |tokens| ==> ParseToken(tokens[k]) == Rendered(opts[k])
  {
    var spaced := seq(|opts|, k requires 0 <= k < |opts| => if k == 0 then opts[0] else " " + opts[k]);
    JoinSpaced(opts, spaced);
    SplitJoin(spaced, ',');
    forall k | 0 <= k < |opts| ensures ParseToken(spaced[k]) == Rendered(opts[k]) {
      if k > 0 {
        TrimSpaceAfterBlank(opts[k]);
      } else {
        TrimNoop(opts[0], IsSpace);
      }
      assert TrimSpace(spaced[k]) == opts[k];
    }
  }

  /** Joining on ", " is joining on "," the options with a blank put in front of all but the first. */
  lemma {:induction false} JoinSpaced(opts: seq<string>, spaced: seq<string>)
    requires |opts| == |spaced| && |opts| > 0
    requires spaced[0] == opts[0]
    requires forall k :: 1 <= k < |opts| ==> spaced[k] == " " + opts[k]
    requires forall k :: 0 <= k < |opts| ==> ',' !in opts[k]
    ensures Join(opts, ", ") == Join(spaced, ",")
    ensures forall k :: 0 <= k < |spaced| ==> ',' !in spaced[k]
    decreases |opts|
  {
    if |opts| > 1 {
      JoinSpacedTail(opts[1..], spaced[1..]);
      assert Join(opts, ", ") == opts[0] + (", " + Join(opts[1..], ", "));
      assert Join(spaced, ",") == spaced[0] + ("," + Join(spaced[1..], ","));
    }
  }

  /** The tail form of `JoinSpaced`: every option carries the blank. */
  lemma {:induction false} JoinSpacedTail(opts: seq<string>, spaced: seq<string>)
    requires |opts| == |spaced| && |opts| > 0
    requires forall k :: 0 <= k < |opts| ==> spaced[k] == " " + opts[k]
    ensures ", " + Join(opts, ", ") == "," + Join(spaced, ",")
    decreases |opts|
  {
    if |opts| > 1 {
      JoinSpacedTail(opts[1..], spaced[1..]);
      assert ", " + Join(opts, ", ") == (", " + opts[0]) + (", " + Join(opts[1..], ", "));
      assert "," + Join(spaced, ",") == ("," + spaced[0]) + ("," + Join(spaced[1..], ","));
    }
  }
}
