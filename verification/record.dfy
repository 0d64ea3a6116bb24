/**
 * The output record the binder fills, the addresses ("targets") it writes
 * through, and the errors that abort a parse.
 *
 * Go reaches the record by reflection; here it is an immutable tree and a
 * target is a path into it. Every container carries the zero value of its
 * element type, which is what `reflect.New(...).Elem()` produces when the
 * binder allocates a pointee or appends a list element.
 */
module Record {
  import opened Wrappers

  datatype Scalar = Str(s: string) | Int(i: int) | Bool(b: bool)

  datatype Value =
    | Leaf(scalar: Scalar)
    | Struct(fields: map<string, Value>)
    | Ptr(elemZero: Value, ref: Option<Value>)
    | List(elemZero: Value, items: seq<Value>)
    | Dict(entries: map<string, string>)

  /** `reflect.Value.IsZero`: the value a freshly declared Go variable of that type holds. */
  predicate IsZero(v: Value)
    decreases v
  {
    match v
    case Leaf(Str(s)) => s == ""
    case Leaf(Int(i)) => i == 0
    case Leaf(Bool(b)) => !b
    case Struct(fs) => forall k | k in fs :: IsZero(fs[k])
    case Ptr(_, ref) => ref.None?
    case List(_, items) => |items| == 0
    case Dict(m) => |m| == 0
  }

  /** One step of a path: a struct field, the pointee of a pointer, or a list element. */
  datatype Step = Field(name: string) | Deref | Index(i: nat)

  type Path = seq<Step>

  /**
   * Where the walker writes. `viaPointer` records that the Go `reflect.Value`
   * is the address of a list element rather than the element itself (what
   * `slice.Index(n).Addr()` yields); some reflective calls panic on it.
   */
  datatype Target = Target(path: Path, viaPointer: bool)

  /** The value the first step of a path leads to, if it exists. */
  function Child(v: Value, s: Step): Option<Value> {
    match s
    case Field(n) => if v.Struct? && n in v.fields then Some(v.fields[n]) else None
    case Deref => if v.Ptr? && v.ref.Some? then Some(v.ref.value) else None
    case Index(i) => if v.List? && i < |v.items| then Some(v.items[i]) else None
  }

  function Get(v: Value, p: Path): Option<Value>
    decreases |p|
  {
    if |p| == 0 then Some(v)
    else
      match Child(v, p[0])
      case None => None
      case Some(c) => Get(c, p[1..])
  }

  /** `v` with the value one step below it replaced by `c`. */
  function Replace(v: Value, s: Step, c: Value): (r: Value)
    requires Child(v, s).Some?
    ensures Child(r, s) == Some(c)
  {
    match s
    case Field(n) => v.(fields := v.fields[n := c])
    case Deref => v.(ref := Some(c))
    case Index(i) => v.(items := v.items[i := c])
  }

  /** Writes `x` at the end of path `p`, which must lead somewhere. */
  function Put(v: Value, p: Path, x: Value): (r: Value)
    requires Get(v, p).Some?
    ensures Get(r, p) == Some(x)
    decreases |p|
  {
    if |p| == 0 then x
    else Replace(v, p[0], Put(Child(v, p[0]).value, p[1..], x))
  }

  /** Following `p + [s]` is following `p`, then `s`. */
  lemma {:induction false} GetAppend(v: Value, p: Path, s: Step)
    ensures Get(v, p + [s]) == (match Get(v, p) case None => None case Some(u) => Child(u, s))
    decreases |p|
  {
    if |p| == 0 {
      assert p + [s] == [s];
      assert ([s])[1..] == [];
    } else {
      assert (p + [s])[0] == p[0];
      assert (p + [s])[1..] == p[1..] + [s];
      match Child(v, p[0])
      case None =>
      case Some(c) => GetAppend(c, p[1..], s);
    }
  }

  /** Two paths neither of which extends the other address disjoint parts of a record. */
  predicate Disjoint(p: Path, q: Path) {
    exists i :: 0 <= i < |p| && i < |q| && p[i] != q[i] && p[..i] == q[..i]
  }

  /** A write through one path leaves every disjoint path as it was. */
  lemma {:induction false} PutFrame(v: Value, p: Path, q: Path, x: Value)
    requires Get(v, p).Some?
    requires Disjoint(p, q)
    ensures Get(Put(v, p, x), q) == Get(v, q)
    decreases |p|
  {
    var r := Put(v, p, x);
    var c := Child(v, p[0]).value;
    var c' := Put(c, p[1..], x);
    assert r == Replace(v, p[0], c');
    if p[0] == q[0] {
      var i :| 0 <= i < |p| && i < |q| && p[i] != q[i] && p[..i] == q[..i];
      assert i > 0;
      assert p[1..][i - 1] == p[i] && q[1..][i - 1] == q[i];
      assert p[1..][..i - 1] == p[..i][1..] == q[..i][1..] == q[1..][..i - 1];
      assert Disjoint(p[1..], q[1..]);
      PutFrame(c, p[1..], q[1..], x);
    } else {
      assert Child(r, q[0]) == Child(v, q[0]);
    }
  }

  /** The value a successful string coercion feeds into (`runtimescan.FuzzyAssign`'s source). */
  datatype Input =
    | Text(text: string)
      /** a bare heading option, assigned as Go's `true` */
    | Flag
      /** whatever a custom table converter returned */
    | Converted(value: Value)

  /**
   * `runtimescan.FuzzyAssign`: coerces an input into the type of the
   * destination (given by its current value); an uninterpreted collaborator.
   */
  type Coercer = (Value, Input) -> Result<Value, string>

  /** The fatal conditions that end a parse; Go reports each as an `error` or a panic. */
  datatype Error =
      /** "<type> doesn't have field '<field>' for <context> (inside '<section>' section)" */
    | MissingField(field: string, context: string, section: string)
      /** "field '<field>' for <context> is already filled (inside '<section>' section)" */
    | AlreadyFilled(field: string, context: string, section: string)
      /** "<type> should have field <field> but not" */
    | MissingChildField(field: string)
    | MissingOptionField(field: string)
      /** "field '<field>' of <type> is not slice type (inside '<section>' section)" */
    | NotSlice(field: string, section: string)
      /** "required column(<columns joined by ", ">) are missing (inside '<section>' section)" */
    | MissingColumns(columns: seq<string>, section: string)
      /** "<row type> doesn't have field '<field>' (inside '<section>' section)" */
    | MissingRowField(field: string, section: string)
      /** "can't convert value '<cell>' at field '<key>' (inside '<section>' section): <cause>" */
    | ConvertFailed(cell: string, key: string, section: string, cause: string)
      /** an error returned by the coercion collaborator */
    | CoerceFailed(cause: string)
      /** a Go run-time panic (nil dereference, reflective misuse, index out of range) */
    | Panic(reason: string)
}
