/**
 * Table slots (docjigtable.go): the column declarations, the two binding
 * modes (rows into structs, rows into text maps) and the template grid.
 */
module Tables {
  import opened Wrappers
  import opened Text
  import opened Record
  import opened Aliases
  import opened Fields

  /** A layout's table binding: the destination list field, its columns, and the mode. */
  datatype TableSlot = TableSlot(fieldName: string, fields: seq<StructField>, asMap: bool)
  {
    /**
     * `Table.Field`: declares a column filling row field `name`, selected by
     * the explicit key when one is given and by the field name otherwise,
     * compared in lower case.
     */
    function Field(name: string, key: seq<string>): (r: TableSlot)
      ensures r.fieldName == fieldName && r.asMap == asMap
      ensures |r.fields| == |fields| + 1 && r.fields[..|fields|] == fields
      ensures var spelled := if |key| > 0 then key[0] else name;
              r.fields[|fields|] == NewField(name, Lower(spelled), spelled)
    {
      var spelled := if |key| > 0 then key[0] else name;
      this.(fields := fields + [NewField(name, Lower(spelled), spelled)])
    }

    /** `Table.AsMap`: bind rows as text maps instead of structs. */
    function AsMap(): (r: TableSlot)
      ensures r.asMap && r.(asMap := asMap) == this
    {
      this.(asMap := true)
    }
  }

  /** `Layout.Table`'s new slot: no columns, struct mode. */
  function NewTable(fieldName: string): (r: TableSlot)
    ensures r.fieldName == fieldName && r.fields == [] && !r.asMap
  {
    TableSlot(fieldName, [], false)
  }

  /** One body row of a parsed table: lower-cased header text to cell text. */
  type Row = map<string, string>

  /** A Go map read: a missing cell reads as "". */
  function Cell(rv: Row, key: string): string {
    if key in rv then rv[key] else ""
  }

  /** A custom column converter (`StructField.As`): cell text and the record so far to a value. */
  type Converter = (nat, string, Value) -> Result<Value, string>

  /** The declared column keys, in declaration order. */
  function FieldKeys(fields: seq<StructField>): (r: seq<string>)
    ensures |r| == |fields|
    ensures forall i :: 0 <= i < |fields| ==> r[i] == fields[i].key
  {
    seq(|fields|, i requires 0 <= i < |fields| => fields[i].key)
  }

  /** The first declared column whose key is `key`. */
  function FirstFieldWithKey(fields: seq<StructField>, key: string): (r: Option<nat>)
    ensures r.Some? ==> r.value < |fields| && fields[r.value].key == key
    ensures r.Some? ==> forall j :: 0 <= j < r.value ==> fields[j].key != key
    ensures r.None? ==> forall j :: 0 <= j < |fields| ==> fields[j].key != key
  {
    if |fields| == 0 then None
    else if fields[0].key == key then Some(0)
    else
      match FirstFieldWithKey(fields[1..], key)
      case None => None
      case Some(i) => Some(i + 1)
  }

  /**
   * What one header text means for the declared columns: the column it
   * fills, the key its cells are read under, and the key it marks as present.
   */
  datatype Resolution = Resolved(index: nat, cellKey: string, usedKey: string) | Unresolved

  /**
   * The body of the header loop of `assignCellsAsStruct` for one header:
   * an alias of a column key wins; otherwise the header must equal a key
   * ignoring case, and the first such column is taken.
   */
  function ResolveHeader(t: AliasTable, fields: seq<StructField>, h: string): (r: Resolution)
    ensures r.Resolved? ==> r.index < |fields|
  {
    match TranslateToPrimaryKey(t, h, FieldKeys(fields))
    case Translated(i, primary) => Resolved(i, h, Lower(primary))
    case Untranslated =>
      match FirstFieldWithKey(fields, Lower(h))
      case Some(i) => Resolved(i, Lower(h), Lower(h))
      case None => Unresolved
  }

  /**
   * What one header resolves to: a header that is a registered spelling of
   * a column key fills that column, is read under its own text and marks
   * the key present; any other header fills the first column whose key it
   * equals ignoring case, or none.
   */
  lemma ResolveHeaderSpec(t: AliasTable, fields: seq<StructField>, h: string)
    ensures var tr := TranslateToPrimaryKey(t, h, FieldKeys(fields));
            var r := ResolveHeader(t, fields, h);
            && (tr.Translated? ==> r == Resolved(tr.index, h, Lower(tr.key)))
            && (tr.Untranslated? ==>
                  && (r.Resolved? <==> exists i :: 0 <= i < |fields| && fields[i].key == Lower(h))
                  && (r.Resolved? ==> r.cellKey == Lower(h) && r.usedKey == Lower(h)
                                      && fields[r.index].key == Lower(h)
                                      && forall j :: 0 <= j < r.index ==> fields[j].key != Lower(h)))
    ensures WellFormed(t) && ResolveHeader(t, fields, h).Resolved? ==>
              ResolveHeader(t, fields, h).usedKey == fields[ResolveHeader(t, fields, h).index].key
  {
  }

  /** How each header text resolves; the header loop only depends on this. */
  type Resolver = string -> Resolution

  /** Every resolution names one of `n` declared columns. */
  ghost predicate InRange(res: Resolver, n: nat) {
    forall h :: res(h).Resolved? ==> res(h).index < n
  }

  /** `ResolveHeader` for one slot's columns, as a resolver. */
  function SlotResolver(t: AliasTable, fields: seq<StructField>): (r: Resolver)
    ensures InRange(r, |fields|)
    ensures forall h :: r(h) == ResolveHeader(t, fields, h)
  {
    h => ResolveHeader(t, fields, h)
  }

  /**
   * Header resolution with the header folded to lower case first, as map
   * mode does before translating: an alias spelling then matches whatever
   * case the document writes it in.
   */
  function ResolveHeaderFolded(t: AliasTable, fields: seq<StructField>, h: string): (r: Resolution)
    ensures r.Resolved? ==> r.index < |fields| && r.cellKey == Lower(h)
  {
    LowerIdempotent(h);
    ResolveHeader(t, fields, Lower(h))
  }

  /** Any spelling registered for a column, in any case, resolves to that column or an earlier one. */
  lemma RegisteredSpellingResolves(t: AliasTable, fields: seq<StructField>, i: nat, e: AliasEntry, h: string)
    requires i < |fields| && e in Lookup(t, fields[i].key) && Lower(h) == Lower(e.spelling)
    ensures ResolveHeaderFolded(t, fields, h).Resolved?
    ensures ResolveHeaderFolded(t, fields, h).index <= i
  {
    assert FieldKeys(fields)[i] == fields[i].key;
    assert IsAliasOf(t, Lower(h), FieldKeys(fields)[i]);
  }

  /**
   * Struct mode as the source writes it passes the header unfolded: a
   * header "Desc" misses the alias "Desc" registered for the column
   * "Description", because the alias is compared in lower case; folding
   * the header first binds the column.
   */
  lemma CapitalisedAliasHeaderIsIgnored()
    ensures var t := map["description" := [AliasEntry("en", "Description"), AliasEntry("en", "Desc")]];
            var fields := [NewField("Description", "description", "Description")];
            && ResolveHeader(t, fields, "Desc") == Unresolved
            && ResolveHeaderFolded(t, fields, "Desc") == Resolved(0, "desc", "description")
  {
    var t := map["description" := [AliasEntry("en", "Description"), AliasEntry("en", "Desc")]];
    var fields := [NewField("Description", "description", "Description")];
    assert Lower("Description") == "description";
    assert Lower("Desc") == "desc";
    assert FieldKeys(fields) == ["description"];
    assert !IsAliasOf(t, "Desc", "description") by {
      forall e | e in Lookup(t, "description") ensures Lower(e.spelling) != "Desc" {
        assert Lower(e.spelling)[0] == 'd';
      }
    }
    assert TranslateToPrimaryKey(t, "Desc", ["description"]) == Untranslated;
    assert "desc" != "description";
    assert FirstFieldWithKey(fields, "desc") == None;
    assert IsAliasOf(t, "desc", "description") by {
      assert t["description"][1] == AliasEntry("en", "Desc");
    }
  }

  /** `ResolveHeaderFolded` for one slot's columns, as a resolver for the header loop. */
  function FoldingResolver(t: AliasTable, fields: seq<StructField>): (r: Resolver)
    ensures InRange(r, |fields|)
    ensures forall h :: r(h) == ResolveHeaderFolded(t, fields, h)
  {
    h => ResolveHeaderFolded(t, fields, h)
  }

  /**
   * With folded headers every column the header loop binds is read under
   * the lower-cased text of one of the headers, which is where the body
   * rows file their cells.
   */
  lemma FoldedColumnsReadFiledCells(t: AliasTable, fields: seq<StructField>, headers: seq<string>, i: nat)
    requires i < |fields|
    ensures var key := ResolveAll(FoldingResolver(t, fields), |fields|, headers, |headers|).0[i];
            key != "" ==> exists c :: 0 <= c < |headers| && key == Lower(headers[c])
  {
    var res := FoldingResolver(t, fields);
    ResolveAllSpec(res, |fields|, headers, |headers|, i);
    match LastResolving(res, headers, i, |headers|)
    case None =>
    case Some(c) => assert res(headers[c]).cellKey == Lower(headers[c]);
  }

  predicate ResolvesTo(res: Resolver, h: string, i: nat) {
    res(h).Resolved? && res(h).index == i
  }

  /**
   * The header loop of `assignCellsAsStruct` over the first `k` headers:
   * for each of the `n` columns, the key its cells are read under ("" when
   * no header supplies it), and the set of keys found present. Headers are
   * visited in column order; a later header resolving to the same column
   * overrides an earlier one.
   */
  function ResolveAll(res: Resolver, n: nat, headers: seq<string>, k: nat): (r: (seq<string>, set<string>))
    requires InRange(res, n) && k <= |headers|
    ensures |r.0| == n
    decreases k
  {
    if k == 0 then (seq(n, _ => ""), {})
    else
      var (keyMap, used) := ResolveAll(res, n, headers, k - 1);
      match res(headers[k - 1])
      case Unresolved => (keyMap, used)
      case Resolved(i, cellKey, usedKey) => (keyMap[i := cellKey], used + {usedKey})
  }

  /** The header loop over a whole header row. */
  function ResolveHeaders(t: AliasTable, fields: seq<StructField>, headers: seq<string>): (r: (seq<string>, set<string>))
    ensures |r.0| == |fields|
  {
    ResolveAll(SlotResolver(t, fields), |fields|, headers, |headers|)
  }

  /** The last of the first `k` headers that resolves to column `i`. */
  function LastResolving(res: Resolver, headers: seq<string>, i: nat, k: nat): (r: Option<nat>)
    requires k <= |headers|
    ensures r.Some? ==> r.value < k && ResolvesTo(res, headers[r.value], i)
    ensures r.Some? ==> forall d :: r.value < d < k ==> !ResolvesTo(res, headers[d], i)
    ensures r.None? ==> forall d :: 0 <= d < k ==> !ResolvesTo(res, headers[d], i)
    decreases k
  {
    if k == 0 then None
    else if ResolvesTo(res, headers[k - 1], i) then Some(k - 1)
    else LastResolving(res, headers, i, k - 1)
  }

  /** The keys marked present by a row of header texts. */
  function UsedKeys(res: Resolver, headers: seq<string>): set<string> {
    set h | h in headers && res(h).Resolved? :: res(h).usedKey
  }

  /**
   * What the header loop computes for column `i`: the key of the last
   * header resolving to it, or "" if none does.
   */
  lemma {:induction false} ResolveAllSpec(res: Resolver, n: nat, headers: seq<string>, k: nat, i: nat)
    requires InRange(res, n) && k <= |headers| && i < n
    ensures ResolveAll(res, n, headers, k).0[i] ==
              (match LastResolving(res, headers, i, k)
               case None => ""
               case Some(c) => res(headers[c]).cellKey)
    decreases k
  {
    if k > 0 {
      ResolveAllSpec(res, n, headers, k - 1, i);
    }
  }

  /** The keys the header loop marks present are those of all resolving headers. */
  lemma {:induction false} UsedKeysSpec(res: Resolver, n: nat, headers: seq<string>, k: nat)
    requires InRange(res, n) && k <= |headers|
    ensures ResolveAll(res, n, headers, k).1 == UsedKeys(res, headers[..k])
    decreases k
  {
    if k > 0 {
      UsedKeysSpec(res, n, headers, k - 1);
      var last := headers[k - 1];
      assert headers[..k] == headers[..k - 1] + [last];
      if res(last).Resolved? {
        assert UsedKeys(res, headers[..k]) == UsedKeys(res, headers[..k - 1]) + {res(last).usedKey};
      } else {
        assert UsedKeys(res, headers[..k]) == UsedKeys(res, headers[..k - 1]);
      }
    }
  }

  /** No two different header texts fill the same column. */
  predicate UniqueResolution(res: Resolver, headers: seq<string>) {
    forall a, b :: 0 <= a < |headers| && 0 <= b < |headers| &&
      res(headers[b]).Resolved? && ResolvesTo(res, headers[a], res(headers[b]).index)
      ==> headers[a] == headers[b]
  }

  /** Column `i` is read under the same key after either header row. */
  lemma SameColumnKey(res: Resolver, n: nat, h1: seq<string>, h2: seq<string>, i: nat)
    requires InRange(res, n) && i < n
    requires forall h :: h in h1 <==> h in h2
    requires UniqueResolution(res, h1)
    ensures ResolveAll(res, n, h1, |h1|).0[i] == ResolveAll(res, n, h2, |h2|).0[i]
  {
    ResolveAllSpec(res, n, h1, |h1|, i);
    ResolveAllSpec(res, n, h2, |h2|, i);
    var l1 := LastResolving(res, h1, i, |h1|);
    var l2 := LastResolving(res, h2, i, |h2|);
    if l1.Some? {
      SomeHeaderResolves(res, h1, h2, i);
    }
    if l2.Some? {
      var x := h2[l2.value];
      assert x in h1;
      var d :| 0 <= d < |h1| && h1[d] == x;
      assert ResolvesTo(res, h1[d], i);
      var c := l1.value;
      assert h1[d] == h1[c];
    }
  }

  /** If some header of one row resolves to column `i`, so does one of a row with the same texts. */
  lemma SomeHeaderResolves(res: Resolver, h1: seq<string>, h2: seq<string>, i: nat)
    requires forall h :: h in h1 <==> h in h2
    requires LastResolving(res, h1, i, |h1|).Some?
    ensures LastResolving(res, h2, i, |h2|).Some?
  {
    var x := h1[LastResolving(res, h1, i, |h1|).value];
    assert x in h2;
    var d :| 0 <= d < |h2| && h2[d] == x;
    assert ResolvesTo(res, h2[d], i);
  }

  /**
   * Header resolution depends only on which header texts are present, not
   * on their column order, as long as no two texts compete for one column
   * (the source visits the headers in Go map order).
   */
  lemma ResolutionIgnoresColumnOrder(res: Resolver, n: nat, h1: seq<string>, h2: seq<string>)
    requires InRange(res, n)
    requires forall h :: h in h1 <==> h in h2
    requires UniqueResolution(res, h1)
    ensures ResolveAll(res, n, h1, |h1|) == ResolveAll(res, n, h2, |h2|)
  {
    var r1 := ResolveAll(res, n, h1, |h1|);
    var r2 := ResolveAll(res, n, h2, |h2|);
    forall i | 0 <= i < n ensures r1.0[i] == r2.0[i] {
      SameColumnKey(res, n, h1, h2, i);
    }
    assert r1.0 == r2.0;
    UsedKeysSpec(res, n, h1, |h1|);
    UsedKeysSpec(res, n, h2, |h2|);
    assert h1[..|h1|] == h1;
    assert h2[..|h2|] == h2;
    UsedKeysIgnoreOrder(res, h1, h2);
    assert r1.1 == r2.1;
  }

  /** The present keys depend only on which header texts occur. */
  lemma UsedKeysIgnoreOrder(res: Resolver, h1: seq<string>, h2: seq<string>)
    requires forall h :: h in h1 <==> h in h2
    ensures UsedKeys(res, h1) == UsedKeys(res, h2)
  {
  }

  /** The `origKey` of every required column whose key was not found, in declaration order. */
  function MissingRequired(fields: seq<StructField>, used: set<string>): (r: seq<string>)
    ensures |r| <= |fields|
    ensures forall x :: x in r <==>
              exists i :: 0 <= i < |fields| && fields[i].required && fields[i].key !in used && fields[i].origKey == x
    ensures |r| == 0 <==> forall i :: 0 <= i < |fields| && fields[i].required ==> fields[i].key in used
    decreases |fields|
  {
    if |fields| == 0 then []
    else
      var rest := MissingRequired(fields[1..], used);
      assert forall i :: 1 <= i < |fields| ==> fields[i] == fields[1..][i - 1];
      if fields[0].required && fields[0].key !in used then [fields[0].origKey] + rest else rest
  }

  /**
   * The missing columns are reported in declaration order: declaring one
   * more column adds its key at the end of the report, and only when it is
   * required and absent.
   */
  lemma {:induction false} MissingRequiredInOrder(fields: seq<StructField>, f: StructField, used: set<string>)
    ensures MissingRequired(fields + [f], used) ==
              MissingRequired(fields, used) + (if f.required && f.key !in used then [f.origKey] else [])
    decreases |fields|
  {
    if |fields| > 0 {
      assert (fields + [f])[1..] == fields[1..] + [f];
      MissingRequiredInOrder(fields[1..], f, used);
    } else {
      assert fields + [f] == [f];
    }
  }

  /** The input a column's cell becomes: the converter's result, or the text itself. */
  function FieldInput(convert: Converter, f: StructField, cell: string, doc: Value): Result<Input, string> {
    match f.convert
    case None => Ok(Text(cell))
    case Some(id) =>
      match convert(id, cell, doc)
      case Err(cause) => Err(cause)
      case Ok(v) => Ok(Converted(v))
  }

  /** A coercion whose error is discarded: on failure the destination keeps its value. */
  function Keep(res: Result<Value, string>, previous: Value): Value {
    if res.Ok? then res.value else previous
  }

  /** Whether the row fields named by columns `i..` are pairwise different. */
  predicate DistinctFieldNames(fields: seq<StructField>, i: nat) {
    forall a, b :: i <= a < b < |fields| ==> fields[a].fieldName != fields[b].fieldName
  }

  /**
   * The inner loop of `assignCellsAsStruct` from column `i` on: each column's
   * cell is coerced into its row field. A converter's error aborts the
   * table; a coercion's error is dropped.
   */
  function FillRow(coerce: Coercer, convert: Converter, fields: seq<StructField>, keyMap: seq<string>,
                   rv: Row, doc: Value, section: string, i: nat, row: Value): (r: Result<Value, Error>)
    requires |keyMap| == |fields| && i <= |fields|
    ensures r.Err? ==> r.error.Panic? || r.error.MissingRowField? || r.error.ConvertFailed?
    ensures r.Err? && r.error.ConvertFailed? ==>
              && r.error.section == section
              && exists j :: i <= j < |fields| && fields[j].convert.Some?
                             && r.error.cell == Cell(rv, keyMap[j]) && r.error.key == fields[j].origKey
    ensures r.Ok? && i < |fields| ==> row.Struct?
    ensures r.Ok? && row.Struct? ==> r.value.Struct? && r.value.fields.Keys == row.fields.Keys
    decreases |fields| - i
  {
    if i == |fields| then Ok(row)
    else
      var f := fields[i];
      var cell := Cell(rv, keyMap[i]);
      if !row.Struct? then Err(Panic("reflect: FieldByName on a row that is not a struct"))
      else if f.fieldName !in row.fields then Err(MissingRowField(f.fieldName, section))
      else
        match FieldInput(convert, f, cell, doc)
        case Err(cause) => Err(ConvertFailed(cell, f.origKey, section, cause))
        case Ok(input) =>
          var current := row.fields[f.fieldName];
          FillRow(coerce, convert, fields, keyMap, rv, doc, section, i + 1,
                  row.(fields := row.fields[f.fieldName := Keep(coerce(current, input), current)]))
  }

  /**
   * What a successful `FillRow` writes: with distinct field names, every
   * named field holds its cell coerced onto its previous value (or that
   * value, when the coercion fails), and fields no column names keep theirs.
   */
  lemma {:induction false} FillRowSpec(coerce: Coercer, convert: Converter, fields: seq<StructField>, keyMap: seq<string>,
                                       rv: Row, doc: Value, section: string, i: nat, row: Value)
    requires |keyMap| == |fields| && i <= |fields|
    requires FillRow(coerce, convert, fields, keyMap, rv, doc, section, i, row).Ok? && row.Struct?
    ensures var r := FillRow(coerce, convert, fields, keyMap, rv, doc, section, i, row).value;
            forall k :: k in row.fields && (forall j :: i <= j < |fields| ==> fields[j].fieldName != k) ==>
              r.fields[k] == row.fields[k]
    ensures var r := FillRow(coerce, convert, fields, keyMap, rv, doc, section, i, row).value;
            DistinctFieldNames(fields, i) ==>
              forall j :: i <= j < |fields| ==>
                var name := fields[j].fieldName;
                && name in row.fields
                && FieldInput(convert, fields[j], Cell(rv, keyMap[j]), doc).Ok?
                && r.fields[name] ==
                     Keep(coerce(row.fields[name], FieldInput(convert, fields[j], Cell(rv, keyMap[j]), doc).value),
                          row.fields[name])
    decreases |fields| - i
  {
    if i < |fields| {
      var f := fields[i];
      var input := FieldInput(convert, f, Cell(rv, keyMap[i]), doc).value;
      var current := row.fields[f.fieldName];
      var row' := row.(fields := row.fields[f.fieldName := Keep(coerce(current, input), current)]);
      FillRowSpec(coerce, convert, fields, keyMap, rv, doc, section, i + 1, row');
    }
  }

  /** One fresh zero row per body row, in document order; the first failure aborts. */
  function BuildRows(coerce: Coercer, convert: Converter, fields: seq<StructField>, keyMap: seq<string>,
                     zero: Value, cells: seq<Row>, doc: Value, section: string): (r: Result<seq<Value>, Error>)
    requires |keyMap| == |fields|
    ensures r.Ok? ==> |r.value| == |cells|
    ensures r.Ok? ==> forall k :: 0 <= k < |cells| ==>
              FillRow(coerce, convert, fields, keyMap, cells[k], doc, section, 0, zero) == Ok(r.value[k])
    ensures r.Err? ==>
              exists k :: 0 <= k < |cells| && FillRow(coerce, convert, fields, keyMap, cells[k], doc, section, 0, zero) == Err(r.error)
                          && forall j :: 0 <= j < k ==> FillRow(coerce, convert, fields, keyMap, cells[j], doc, section, 0, zero).Ok?
    decreases |cells|
  {
    if |cells| == 0 then Ok([])
    else
      match FillRow(coerce, convert, fields, keyMap, cells[0], doc, section, 0, zero)
      case Err(e) => Err(e)
      case Ok(row) =>
        match BuildRows(coerce, convert, fields, keyMap, zero, cells[1..], doc, section)
        case Err(e) =>
          assert forall j :: 1 <= j < |cells| ==> cells[j] == cells[1..][j - 1];
          Err(e)
        case Ok(rows) => Ok([row] + rows)
  }

  /** The struct at the end of a target, if the target leads to one. */
  function StructAt(rec: Value, target: Target): Option<map<string, Value>> {
    match Get(rec, target.path)
    case Some(Struct(fs)) => Some(fs)
    case _ => None
  }

  /**
   * `Table.assignCellsAsStruct`: after checking that the destination is a
   * list and that every required column is present, appends one row per
   * body row to the list, after whatever it already holds.
   */
  function AssignCellsAsStruct(t: AliasTable, coerce: Coercer, convert: Converter, slot: TableSlot,
                               target: Target, rec: Value, headers: seq<string>, cells: seq<Row>,
                               section: string): (r: Result<Value, Error>)
    ensures target.viaPointer || StructAt(rec, target).None? ==> r.Err? && r.error.Panic?
    ensures !target.viaPointer && StructAt(rec, target).Some? ==>
              var fs := StructAt(rec, target).value;
              var name := slot.fieldName;
              && (name !in fs || !fs[name].List? ==> r == Err(NotSlice(name, section)))
              && (name in fs && fs[name].List? ==>
                    var missing := MissingRequired(slot.fields, ResolveHeaders(t, slot.fields, headers).1);
                    && (|missing| > 0 ==> r == Err(MissingColumns(missing, section)))
                    && (|missing| == 0 ==>
                          var rows := BuildRows(coerce, convert, slot.fields, ResolveHeaders(t, slot.fields, headers).0,
                                                fs[name].elemZero, cells, rec, section);
                          && (rows.Err? ==> r == Err(rows.error))
                          && (rows.Ok? ==>
                                && r.Ok?
                                && Get(r.value, target.path) ==
                                     Some(Struct(fs[name := List(fs[name].elemZero, fs[name].items + rows.value)])))))
  {
    if target.viaPointer then Err(Panic("reflect: FieldByName on a pointer target"))
    else
      match StructAt(rec, target)
      case None => Err(Panic("reflect: FieldByName on a target that is not a struct"))
      case Some(fs) =>
        var name := slot.fieldName;
        if name !in fs || !fs[name].List? then Err(NotSlice(name, section))
        else
          var list := fs[name];
          var (keyMap, used) := ResolveHeaders(t, slot.fields, headers);
          var missing := MissingRequired(slot.fields, used);
          if |missing| > 0 then Err(MissingColumns(missing, section))
          else
            match BuildRows(coerce, convert, slot.fields, keyMap, list.elemZero, cells, rec, section)
            case Err(e) => Err(e)
            case Ok(rows) => Ok(Put(rec, target.path, Struct(fs[name := List(list.elemZero, list.items + rows)])))
  }

  /**
   * Rows accumulate: a successful struct-mode bind keeps every row the list
   * already held, in place, and adds exactly one row per body row after them.
   */
  lemma StructRowsAccumulate(t: AliasTable, coerce: Coercer, convert: Converter, slot: TableSlot,
                             target: Target, rec: Value, headers: seq<string>, cells: seq<Row>, section: string)
    requires AssignCellsAsStruct(t, coerce, convert, slot, target, rec, headers, cells, section).Ok?
    ensures var before := Get(rec, target.path + [Field(slot.fieldName)]);
            var after := Get(AssignCellsAsStruct(t, coerce, convert, slot, target, rec, headers, cells, section).value,
                             target.path + [Field(slot.fieldName)]);
            && before.Some? && before.value.List? && after.Some? && after.value.List?
            && |after.value.items| == |before.value.items| + |cells|
            && after.value.items[..|before.value.items|] == before.value.items
  {
    var r := AssignCellsAsStruct(t, coerce, convert, slot, target, rec, headers, cells, section).value;
    GetAppend(rec, target.path, Field(slot.fieldName));
    GetAppend(r, target.path, Field(slot.fieldName));
  }

  /**
   * The struct-mode binding of cells to fields does not depend on the order
   * of the header row, provided no two header texts compete for a column.
   */
  lemma StructBindingIgnoresColumnOrder(t: AliasTable, coerce: Coercer, convert: Converter, slot: TableSlot,
                                        target: Target, rec: Value, h1: seq<string>, h2: seq<string>,
                                        cells: seq<Row>, section: string)
    requires forall h :: h in h1 <==> h in h2
    requires UniqueResolution(SlotResolver(t, slot.fields), h1)
    ensures AssignCellsAsStruct(t, coerce, convert, slot, target, rec, h1, cells, section) ==
            AssignCellsAsStruct(t, coerce, convert, slot, target, rec, h2, cells, section)
  {
    ResolutionIgnoresColumnOrder(SlotResolver(t, slot.fields), |slot.fields|, h1, h2);
  }

  /** Whether the header texts are pairwise different. */
  predicate Distinct(headers: seq<string>) {
    forall a, b :: 0 <= a < b < |headers| ==> headers[a] != headers[b]
  }

  /** The translation of every lower-cased header against the whole lower-cased header row. */
  function Translations(t: AliasTable, lowered: seq<string>): (r: seq<Translation>)
    ensures |r| == |lowered|
    ensures forall i :: 0 <= i < |lowered| ==> r[i] == TranslateToPrimaryKey(t, lowered[i], lowered)
    ensures Targets(r)
  {
    seq(|lowered|, i requires 0 <= i < |lowered| => TranslateToPrimaryKey(t, lowered[i], lowered))
  }

  /** Every translation names a column of the row. */
  predicate Targets(trs: seq<Translation>) {
    forall i :: 0 <= i < |trs| && trs[i].Translated? ==> trs[i].index < |trs|
  }

  /** The column a header's cells are filed under in map mode, before the last-wins rule. */
  function Slot(trs: seq<Translation>, i: nat): (r: nat)
    requires Targets(trs) && i < |trs|
    ensures r < |trs|
  {
    if trs[i].Translated? then trs[i].index else i
  }

  /**
   * The header loop of `assignCellsAsMap` over the first `k` columns: for
   * every column, the lower-cased header whose cells it carries and the key
   * it is written under. A header that is a registered spelling of another
   * header's key is filed under that header's column and primary label.
   */
  function Normalize(trs: seq<Translation>, lowered: seq<string>, headers: seq<string>, k: nat): (r: (seq<string>, seq<string>))
    requires Targets(trs) && |trs| == |lowered| == |headers| && k <= |lowered|
    ensures |r.0| == |lowered| && |r.1| == |lowered|
    decreases k
  {
    if k == 0 then (seq(|lowered|, _ => ""), headers)
    else
      var (keyMap, origKeys) := Normalize(trs, lowered, headers, k - 1);
      match trs[k - 1]
      case Translated(x, primary) => (keyMap[x := lowered[k - 1]], origKeys[x := primary])
      case Untranslated => (keyMap[k - 1 := lowered[k - 1]], origKeys)
  }

  /** The map-mode header loop over a whole header row. */
  function NormalizeHeaders(t: AliasTable, lowered: seq<string>, headers: seq<string>): (r: (seq<string>, seq<string>))
    requires |lowered| == |headers|
    ensures |r.0| == |lowered| && |r.1| == |lowered|
  {
    Normalize(Translations(t, lowered), lowered, headers, |lowered|)
  }

  /** The last of the first `k` columns filed under column `x`. */
  function LastFiledUnder(trs: seq<Translation>, x: nat, k: nat): (r: Option<nat>)
    requires Targets(trs) && k <= |trs|
    ensures r.Some? ==> r.value < k && Slot(trs, r.value) == x
    ensures r.Some? ==> forall d :: r.value < d < k ==> Slot(trs, d) != x
    ensures r.None? ==> forall d :: 0 <= d < k ==> Slot(trs, d) != x
    decreases k
  {
    if k == 0 then None
    else if Slot(trs, k - 1) == x then Some(k - 1)
    else LastFiledUnder(trs, x, k - 1)
  }

  /** Whether header `i` is a registered spelling of header `x`'s key, ahead of any other. */
  predicate TranslatedInto(trs: seq<Translation>, i: nat, x: nat)
    requires i < |trs|
  {
    trs[i].Translated? && trs[i].index == x
  }

  /** The last of the first `k` headers translated into column `x`. */
  function LastTranslatedInto(trs: seq<Translation>, x: nat, k: nat): (r: Option<nat>)
    requires k <= |trs|
    ensures r.Some? ==> r.value < k && TranslatedInto(trs, r.value, x)
    ensures r.Some? ==> forall d :: r.value < d < k ==> !TranslatedInto(trs, d, x)
    ensures r.None? ==> forall d :: 0 <= d < k ==> !TranslatedInto(trs, d, x)
    decreases k
  {
    if k == 0 then None
    else if TranslatedInto(trs, k - 1, x) then Some(k - 1)
    else LastTranslatedInto(trs, x, k - 1)
  }

  /**
   * What the map-mode header loop computes for column `x`: it carries the
   * cells of the last header filed under it (or none), and is keyed by the
   * primary label of the last header translated into it, by its own header
   * text when there is none.
   */
  lemma {:induction false} NormalizeHeadersSpec(trs: seq<Translation>, lowered: seq<string>, headers: seq<string>,
                                                k: nat, x: nat)
    requires Targets(trs) && |trs| == |lowered| == |headers| && k <= |lowered| && x < |lowered|
    ensures Normalize(trs, lowered, headers, k).0[x] ==
              (match LastFiledUnder(trs, x, k) case None => "" case Some(i) => lowered[i])
    ensures Normalize(trs, lowered, headers, k).1[x] ==
              (match LastTranslatedInto(trs, x, k) case None => headers[x] case Some(i) => trs[i].key)
    decreases k
  {
    if k > 0 {
      NormalizeHeadersSpec(trs, lowered, headers, k - 1, x);
    }
  }

  /**
   * A column some header was translated into is keyed by the primary
   * spelling registered for its own header, which, in a well-formed table,
   * lower-cases to that header.
   */
  lemma TranslatedKeyIsPrimary(t: AliasTable, lowered: seq<string>, headers: seq<string>, x: nat)
    requires |lowered| == |headers| && x < |lowered|
    requires LastTranslatedInto(Translations(t, lowered), x, |lowered|).Some?
    ensures |Lookup(t, lowered[x])| > 0
    ensures NormalizeHeaders(t, lowered, headers).1[x] == Lookup(t, lowered[x])[0].spelling
    ensures WellFormed(t) ==> Lower(NormalizeHeaders(t, lowered, headers).1[x]) == lowered[x]
  {
    NormalizeHeadersSpec(Translations(t, lowered), lowered, headers, |lowered|, x);
  }

  /** With no header translatable into another, map mode reads each column under its own header. */
  lemma {:induction false} NormalizeWithoutAliases(t: AliasTable, lowered: seq<string>, headers: seq<string>)
    requires |lowered| == |headers|
    requires forall i :: 0 <= i < |lowered| ==> TranslateToPrimaryKey(t, lowered[i], lowered).Untranslated?
    ensures NormalizeHeaders(t, lowered, headers) == (lowered, headers)
  {
    var trs := Translations(t, lowered);
    var r := NormalizeHeaders(t, lowered, headers);
    forall x | 0 <= x < |lowered| ensures r.0[x] == lowered[x] && r.1[x] == headers[x] {
      NormalizeHeadersSpec(trs, lowered, headers, |lowered|, x);
      assert Slot(trs, x) == x;
    }
    assert r.0 == lowered && r.1 == headers;
  }

  /** One map-mode row over the first `k` columns: a later column with the same key overwrites. */
  function RowMap(keyMap: seq<string>, origKeys: seq<string>, rv: Row, k: nat): (r: map<string, string>)
    requires |keyMap| == |origKeys| && k <= |keyMap|
    ensures r.Keys == set i | 0 <= i < k :: origKeys[i]
    decreases k
  {
    if k == 0 then map[]
    else
      var m := RowMap(keyMap, origKeys, rv, k - 1);
      assert (set i | 0 <= i < k :: origKeys[i]) == (set i | 0 <= i < k - 1 :: origKeys[i]) + {origKeys[k - 1]};
      m[origKeys[k - 1] := Cell(rv, keyMap[k - 1])]
  }

  /** With pairwise different keys, each key of a map-mode row holds the cell of its own column. */
  lemma {:induction false} RowMapDistinct(keyMap: seq<string>, origKeys: seq<string>, rv: Row, k: nat, c: nat)
    requires |keyMap| == |origKeys| && c < k <= |keyMap|
    requires Distinct(origKeys)
    ensures RowMap(keyMap, origKeys, rv, k)[origKeys[c]] == Cell(rv, keyMap[c])
    decreases k
  {
    if c < k - 1 {
      RowMapDistinct(keyMap, origKeys, rv, k - 1, c);
    }
  }

  /** The row maps of a map-mode bind, one per body row, in document order. */
  function MapRows(keyMap: seq<string>, origKeys: seq<string>, cells: seq<Row>): (r: seq<Value>)
    requires |keyMap| == |origKeys|
    ensures |r| == |cells|
    ensures forall k :: 0 <= k < |cells| ==> r[k] == Dict(RowMap(keyMap, origKeys, cells[k], |keyMap|))
  {
    seq(|cells|, k requires 0 <= k < |cells| => Dict(RowMap(keyMap, origKeys, cells[k], |keyMap|)))
  }

  /** The header texts, each lower-cased. */
  function LowerAll(headers: seq<string>): (r: seq<string>)
    ensures |r| == |headers|
    ensures forall i :: 0 <= i < |headers| ==> r[i] == Lower(headers[i])
  {
    seq(|headers|, i requires 0 <= i < |headers| => Lower(headers[i]))
  }

  /** The rows a map-mode bind stores, given the header row and the body rows. */
  function MapModeRows(t: AliasTable, headers: seq<string>, cells: seq<Row>): (r: seq<Value>)
    ensures |r| == |cells|
  {
    var lowered := LowerAll(headers);
    var (keyMap, origKeys) := NormalizeHeaders(t, lowered, headers);
    MapRows(keyMap, origKeys, cells)
  }

  /**
   * `Table.assignCellsAsMap`: replaces the destination list with one text
   * map per body row. A list element reached through its address is
   * dereferenced first. Repeated header texts make the source index past
   * its key arrays, and a list whose elements are not text maps cannot
   * take the result: both panic.
   */
  function AssignCellsAsMap(t: AliasTable, name: string, target: Target, rec: Value, headers: seq<string>,
                            cells: seq<Row>, section: string): (r: Result<Value, Error>)
    ensures StructAt(rec, target).None? ==> r.Err? && r.error.Panic?
    ensures StructAt(rec, target).Some? ==>
              var fs := StructAt(rec, target).value;
              && (name !in fs || !fs[name].List? ==> r == Err(NotSlice(name, section)))
              && (name in fs && fs[name].List? ==>
                    && (!Distinct(headers) || !fs[name].elemZero.Dict? ==> r.Err? && r.error.Panic?)
                    && (Distinct(headers) && fs[name].elemZero.Dict? ==>
                          r.Ok? &&
                          Get(r.value, target.path) ==
                            Some(Struct(fs[name := List(fs[name].elemZero, MapModeRows(t, headers, cells))]))))
  {
    match StructAt(rec, target)
    case None => Err(Panic("reflect: FieldByName on a target that is not a struct"))
    case Some(fs) =>
      if name !in fs || !fs[name].List? then Err(NotSlice(name, section))
      else if !Distinct(headers) then Err(Panic("runtime error: index out of range"))
      else if !fs[name].elemZero.Dict? then Err(Panic("reflect.Set: value of type []map[string]string is not assignable"))
      else Ok(Put(rec, target.path, Struct(fs[name := List(fs[name].elemZero, MapModeRows(t, headers, cells))])))
  }

  /**
   * Without aliases among the headers, each map-mode row maps every header
   * text, as written, to the cell under that header.
   */
  lemma PlainHeadersKeepTheirCells(t: AliasTable, headers: seq<string>, cells: seq<Row>, k: nat, c: nat)
    requires Distinct(headers) && k < |cells| && c < |headers|
    requires forall i :: 0 <= i < |headers| ==>
               TranslateToPrimaryKey(t, Lower(headers[i]), LowerAll(headers)).Untranslated?
    ensures MapModeRows(t, headers, cells)[k].Dict?
    ensures MapModeRows(t, headers, cells)[k].entries.Keys == set h | h in headers
    ensures MapModeRows(t, headers, cells)[k].entries[headers[c]] == Cell(cells[k], Lower(headers[c]))
  {
    var lowered := LowerAll(headers);
    NormalizeWithoutAliases(t, lowered, headers);
    assert MapModeRows(t, headers, cells) == MapRows(lowered, headers, cells);
    var m := RowMap(lowered, headers, cells[k], |lowered|);
    assert MapModeRows(t, headers, cells)[k] == Dict(m);
    RowMapDistinct(lowered, headers, cells[k], |lowered|, c);
    assert m[headers[c]] == Cell(cells[k], lowered[c]);
    IndexedKeys(headers);
  }

  /** The texts read by index are the texts of the sequence. */
  lemma IndexedKeys(keys: seq<string>)
    ensures (set i | 0 <= i < |keys| :: keys[i]) == set h | h in keys
  {
    forall h | h in keys ensures h in (set i | 0 <= i < |keys| :: keys[i]) {
      var i :| 0 <= i < |keys| && keys[i] == h;
    }
  }

  /**
   * A map-mode bind through the bind replaces: whatever the list held
   * before, it afterwards holds exactly one map per body row.
   */
  lemma MapRowsReplace(t: AliasTable, name: string, target: Target, rec: Value, headers: seq<string>,
                       cells: seq<Row>, section: string)
    requires AssignCellsAsMap(t, name, target, rec, headers, cells, section).Ok?
    ensures var after := Get(AssignCellsAsMap(t, name, target, rec, headers, cells, section).value,
                             target.path + [Field(name)]);
            && after.Some? && after.value.List? && |after.value.items| == |cells|
            && forall k :: 0 <= k < |cells| ==> after.value.items[k].Dict?
  {
    GetAppend(AssignCellsAsMap(t, name, target, rec, headers, cells, section).value, target.path, Field(name));
  }

  /** `Table.assignCells`: the mode chosen by `AsMap` decides the binding. */
  function AssignCells(t: AliasTable, coerce: Coercer, convert: Converter, slot: TableSlot, target: Target,
                       rec: Value, headers: seq<string>, cells: seq<Row>, section: string): (r: Result<Value, Error>)
    ensures slot.asMap ==> r == AssignCellsAsMap(t, slot.fieldName, target, rec, headers, cells, section)
    ensures !slot.asMap ==> r == AssignCellsAsStruct(t, coerce, convert, slot, target, rec, headers, cells, section)
  {
    if slot.asMap then AssignCellsAsMap(t, slot.fieldName, target, rec, headers, cells, section)
    else AssignCellsAsStruct(t, coerce, convert, slot, target, rec, headers, cells, section)
  }

  /** Replacing one field of the struct at the target changes nothing else. */
  lemma PutFieldFrame(rec: Value, target: Target, name: string, x: Value, q: Path)
    requires StructAt(rec, target).Some? && name in StructAt(rec, target).value
    ensures var fs := StructAt(rec, target).value;
            var r := Put(rec, target.path, Struct(fs[name := x]));
            && StructAt(r, target) == Some(fs[name := x])
            && (Disjoint(target.path, q) ==> Get(r, q) == Get(rec, q))
  {
    var fs := StructAt(rec, target).value;
    if Disjoint(target.path, q) {
      PutFrame(rec, target.path, q, Struct(fs[name := x]));
    }
  }

  /** The list a successful table bind leaves in the destination field. */
  function BoundList(t: AliasTable, coerce: Coercer, convert: Converter, slot: TableSlot, target: Target,
                     rec: Value, headers: seq<string>, cells: seq<Row>, section: string): Value
    requires StructAt(rec, target).Some? && slot.fieldName in StructAt(rec, target).value
    requires StructAt(rec, target).value[slot.fieldName].List?
  {
    var fs := StructAt(rec, target).value;
    var zero := fs[slot.fieldName].elemZero;
    if slot.asMap then List(zero, MapModeRows(t, headers, cells))
    else
      var rows := BuildRows(coerce, convert, slot.fields, ResolveHeaders(t, slot.fields, headers).0,
                            zero, cells, rec, section);
      List(zero, fs[slot.fieldName].items + (if rows.Ok? then rows.value else []))
  }

  lemma BindIsPut(t: AliasTable, coerce: Coercer, convert: Converter, slot: TableSlot, target: Target,
                  rec: Value, headers: seq<string>, cells: seq<Row>, section: string)
    requires AssignCells(t, coerce, convert, slot, target, rec, headers, cells, section).Ok?
    ensures StructAt(rec, target).Some? && slot.fieldName in StructAt(rec, target).value
    ensures StructAt(rec, target).value[slot.fieldName].List?
    ensures AssignCells(t, coerce, convert, slot, target, rec, headers, cells, section).value ==
              Put(rec, target.path, Struct(StructAt(rec, target).value[slot.fieldName :=
                    BoundList(t, coerce, convert, slot, target, rec, headers, cells, section)]))
  {
    if slot.asMap {
      assert AssignCellsAsMap(t, slot.fieldName, target, rec, headers, cells, section).Ok?;
    } else {
      assert AssignCellsAsStruct(t, coerce, convert, slot, target, rec, headers, cells, section).Ok?;
    }
  }

  /**
   * A table bind, in either mode, writes only the destination list: the
   * target keeps its other fields, and nothing outside the target changes.
   */
  lemma TableBindFrame(t: AliasTable, coerce: Coercer, convert: Converter, slot: TableSlot, target: Target,
                       rec: Value, headers: seq<string>, cells: seq<Row>, section: string, q: Path)
    requires AssignCells(t, coerce, convert, slot, target, rec, headers, cells, section).Ok?
    ensures var r := AssignCells(t, coerce, convert, slot, target, rec, headers, cells, section).value;
            && StructAt(rec, target).Some? && StructAt(r, target).Some?
            && StructAt(r, target).value.Keys == StructAt(rec, target).value.Keys
            && (forall f :: f in StructAt(rec, target).value && f != slot.fieldName ==>
                  StructAt(r, target).value[f] == StructAt(rec, target).value[f])
            && (Disjoint(target.path, q) ==> Get(r, q) == Get(rec, q))
  {
    BindIsPut(t, coerce, convert, slot, target, rec, headers, cells, section);
    PutFieldFrame(rec, target, slot.fieldName, BoundList(t, coerce, convert, slot, target, rec, headers, cells, section), q);
  }

  /** Template body rows: the longest sample list, but at least two. */
  function SampleRows(fields: seq<StructField>): (r: nat)
    ensures r >= 2
    ensures forall i :: 0 <= i < |fields| ==> |fields[i].samples| <= r
    ensures r == 2 || exists i :: 0 <= i < |fields| && |fields[i].samples| == r
    decreases |fields|
  {
    if |fields| == 0 then 2
    else
      var rest := SampleRows(fields[1..]);
      assert forall i :: 1 <= i < |fields| ==> fields[i] == fields[1..][i - 1];
      if |fields[0].samples| > rest then |fields[0].samples| else rest
  }

  /**
   * `Table.generateTemplate`'s grid before formatting: a header row of the
   * columns' field names in the template language, then the sample rows,
   * "..." where a column has run out of samples.
   */
  function TemplateGrid(slot: TableSlot, tr: string -> string): (r: seq<seq<string>>)
    ensures |r| == SampleRows(slot.fields) + 1
    ensures forall i :: 0 <= i < |r| ==> |r[i]| == |slot.fields|
    ensures forall j :: 0 <= j < |slot.fields| ==> r[0][j] == tr(slot.fields[j].fieldName)
    ensures forall i, j :: 1 <= i < |r| && 0 <= j < |slot.fields| ==>
              r[i][j] == (if i - 1 < |slot.fields[j].samples| then slot.fields[j].samples[i - 1] else "...")
  {
    var fields := slot.fields;
    var header := seq(|fields|, j requires 0 <= j < |fields| => tr(fields[j].fieldName));
    var body := seq(SampleRows(fields), i requires 0 <= i < SampleRows(fields) =>
                  seq(|fields|, j requires 0 <= j < |fields| =>
                    if i < |fields[j].samples| then fields[j].samples[i] else "..."));
    [header] + body
  }

  /** Every sample given to a column shows up in the template, in its column and order. */
  lemma TemplateShowsAllSamples(slot: TableSlot, tr: string -> string, j: nat, i: nat)
    requires j < |slot.fields| && i < |slot.fields[j].samples|
    ensures i + 1 < |TemplateGrid(slot, tr)|
    ensures TemplateGrid(slot, tr)[i + 1][j] == slot.fields[j].samples[i]
  {
  }
}
