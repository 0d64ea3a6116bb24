/** Column specifications of a struct-mode table slot (docjigfield.go). */
module Fields {
  import opened Wrappers

  /**
   * One declared column: the row field it fills, the lower-cased header key
   * that selects it, the key as the caller spelled it (for messages), whether
   * the column must be present, and an optional custom converter, named by
   * an index into the converters the parse is given. `samples` are the
   * template's example cells.
   */
  datatype StructField = StructField(
    fieldName: string,
    key: string,
    origKey: string,
    required: bool,
    convert: Option<nat>,
    samples: seq<string>)
  {
    /** `StructField.Alias`: accepted for API symmetry and ignored; column aliases live in the alias table. */
    function Alias(aliases: seq<string>): (r: StructField)
      ensures r == this
    {
      this
    }

    /** `StructField.Required`: the column must be present in every table bound to this slot. */
    function Required(): (r: StructField)
      ensures r.required
      ensures r.(required := required) == this
    {
      this.(required := true)
    }

    /** `StructField.As`: cells of this column go through the given converter. */
    function As(converter: nat): (r: StructField)
      ensures r.convert == Some(converter)
      ensures r.(convert := convert) == this
    {
      this.(convert := Some(converter))
    }
  }

  /** A column as `Table.Field` creates it: optional, default coercion, no samples. */
  function NewField(fieldName: string, key: string, origKey: string): (r: StructField)
    ensures r.fieldName == fieldName && r.key == key && r.origKey == origKey
    ensures !r.required && r.convert == None && r.samples == []
  {
    StructField(fieldName, key, origKey, false, None, [])
  }

  /**
   * The modifiers are independent: `Required` and `As` commute, repeating
   * either changes nothing more, and `Alias` anywhere in a chain is
   * invisible.
   */
  lemma ModifiersIndependent(f: StructField, c: nat, names: seq<string>)
    ensures f.Required().As(c) == f.As(c).Required()
    ensures f.Required().Required() == f.Required()
    ensures f.Alias(names).Required() == f.Required() && f.Alias(names).As(c) == f.As(c)
    ensures f.As(c).fieldName == f.fieldName && f.Required().key == f.key
  {
  }
}
