/** The part of pydantic that the configuration engine relies on, abstracted to
    records: a model class is its name, its direct bases and its field table
    (each field with a default, already dumped to a `Value`, and its declared
    annotation); an instance is its class and its field values. Validation and
    coercion are not modelled: constructing an instance keeps the declared
    fields, takes each from the keyword arguments when given and from the
    class default otherwise, and ignores every other keyword. */
module Schema {
  import opened Utils

  /** A field's declared annotation: something that is not a class (`Optional[...]`,
      `list[int]`), or a class. */
  datatype Annotation = NotAType | TypeRef(cls: PyClass)

  datatype FieldSpec = FieldSpec(default: Value, annotation: Annotation)

  /** A Python class as far as the engine looks at it. `BaseModel` is pydantic's
      root model class; every other class lists its direct bases (`__bases__`)
      and its fields (`model_fields`, inherited ones included). */
  datatype PyClass =
    | BaseModel
    | Declared(name: string, bases: seq<PyClass>, fields: map<string, FieldSpec>)

  /** `issubclass(c, BaseModel)`: `c` is `BaseModel` or inherits from it. */
  predicate IsModel(c: PyClass)
    decreases c
  {
    c.BaseModel? || exists i :: 0 <= i < |c.bases| && IsModel(c.bases[i])
  }

  /** A config class: a subclass of `BaseModel` other than `BaseModel` itself. */
  predicate IsConfigClass(c: PyClass) {
    IsModel(c) && !c.BaseModel?
  }

  /** The field table of a class (`BaseModel` declares none). */
  function Fields(c: PyClass): map<string, FieldSpec> {
    if c.BaseModel? then map[] else c.fields
  }

  /** An instance: its class and the (dumped) value of each of its fields. */
  datatype Instance = Instance(cls: PyClass, values: map<string, Value>)

  /** An instance carries exactly its class's declared fields. */
  predicate WellFormed(i: Instance) {
    i.values.Keys == Fields(i.cls).Keys
  }

  /** `c(**m)`: every declared field takes its value from `m` when `m` has it and
      its default otherwise; keys of `m` that are not fields are dropped. */
  function Construct(c: PyClass, m: map<string, Value>): (i: Instance)
    ensures i.cls == c && WellFormed(i)
    ensures forall f :: f in m && f in Fields(c) ==> i.values[f] == m[f]
    ensures forall f :: f in Fields(c) && f !in m ==> i.values[f] == Fields(c)[f].default
  {
    Instance(c, map f | f in Fields(c) :: if f in m then m[f] else Fields(c)[f].default)
  }

  /** `c()`: the instance holding every default of `c`. */
  function Instantiate(c: PyClass): (i: Instance)
    ensures i.cls == c && WellFormed(i)
    ensures forall f :: f in Fields(c) ==> i.values[f] == Fields(c)[f].default
  {
    Construct(c, map[])
  }

  /** `model_dump()`: the instance as a dict of its field values. */
  function Dump(i: Instance): (v: Value)
    ensures v.Dict? && v.entries == i.values
  {
    Dict(i.values)
  }

  /** Constructing from an instance's own dump gives the instance back. */
  lemma ConstructDump(i: Instance)
    requires WellFormed(i)
    ensures Construct(i.cls, Dump(i).entries) == i
  {
    var j := Construct(i.cls, Dump(i).entries);
    assert j.values.Keys == i.values.Keys;
    assert forall f :: f in j.values ==> j.values[f] == i.values[f];
  }

  /** In particular, a default instance survives a dump and a reconstruction. */
  lemma ConstructDefaults(c: PyClass)
    ensures Construct(c, Dump(Instantiate(c)).entries) == Instantiate(c)
  {
    ConstructDump(Instantiate(c));
  }
}
