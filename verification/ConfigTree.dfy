/** Configuration values, the TOML trees they are written to, and what writing and reading a value
    comes to as a whole. */
module ConfigTree {
  type int32 = x: int | -0x8000_0000 <= x < 0x8000_0000
  type int64 = x: int | -0x8000_0000_0000_0000 <= x < 0x8000_0000_0000_0000

  /** A TOML node. */
  datatype Node =
    | Integer(i: int64)
    | Floating(f: real)
    | Boolean(b: bool)
    | Text(s: string)
    | Table(entries: map<string, Node>)
    | Array(items: seq<Node>)

  /** A configuration variable's value. A vector also knows what a new element of it holds; a struct
      lists its members in the order they are visited. */
  datatype Value =
    | VInt(i: int32)
    | VReal(f: real)
    | VBool(b: bool)
    | VText(s: string)
    | VVector(blank: Value, items: seq<Value>)
    | VStruct(fields: seq<Field>)

  datatype Field = Field(name: string, value: Value)

  // ---- Shapes ----

  /** The same C++ type: the contents of vectors and the scalars are free. */
  predicate SameShape(v: Value, w: Value)
    decreases v, 1
  {
    match v
    case VInt(_) => w.VInt?
    case VReal(_) => w.VReal?
    case VBool(_) => w.VBool?
    case VText(_) => w.VText?
    case VVector(blank, _) => w.VVector? && blank == w.blank
    case VStruct(fields) => w.VStruct? && SameFields(fields, w.fields)
  }

  predicate SameFields(fs: seq<Field>, gs: seq<Field>)
    decreases fs, 0
  {
    if fs == [] then gs == []
    else gs != [] && fs[0].name == gs[0].name && SameShape(fs[0].value, gs[0].value) && SameFields(fs[1..], gs[1..])
  }

  /** All elements of a vector have its element type, throughout. */
  predicate Typed(v: Value)
    decreases v, 1
  {
    match v
    case VVector(blank, items) => Typed(blank) && TypedItems(blank, items)
    case VStruct(fields) => TypedFields(fields)
    case _ => true
  }

  predicate TypedItems(blank: Value, items: seq<Value>)
    decreases items, 0
  {
    items != [] ==> Typed(items[0]) && SameShape(blank, items[0]) && TypedItems(blank, items[1..])
  }

  predicate TypedFields(fields: seq<Field>)
    decreases fields, 0
  {
    fields != [] ==> Typed(fields[0].value) && TypedFields(fields[1..])
  }

  function Names(fields: seq<Field>): set<string> {
    if fields == [] then {} else {fields[0].name} + Names(fields[1..])
  }

  /** Typed, and no struct in it has two members of one name. */
  predicate Distinct(v: Value)
    decreases v, 1
  {
    match v
    case VVector(blank, items) => Distinct(blank) && DistinctItems(blank, items)
    case VStruct(fields) => DistinctFields(fields)
    case _ => true
  }

  predicate DistinctItems(blank: Value, items: seq<Value>)
    decreases items, 0
  {
    items != [] ==> Distinct(items[0]) && SameShape(blank, items[0]) && DistinctItems(blank, items[1..])
  }

  predicate DistinctFields(fields: seq<Field>)
    decreases fields, 0
  {
    fields != [] ==>
      && Distinct(fields[0].value) && fields[0].name !in Names(fields[1..]) && DistinctFields(fields[1..])
  }

  // ---- Writing: the tree of a value ----

  function Tree(v: Value): Node
    decreases v, 1
  {
    match v
    case VInt(i) => Integer(i)
    case VReal(f) => Floating(f)
    case VBool(b) => Boolean(b)
    case VText(s) => Text(s)
    case VVector(_, items) => Array(TreeItems(items))
    case VStruct(fields) => Table(TreeFields(fields))
  }

  function TreeItems(items: seq<Value>): (ns: seq<Node>)
    ensures |ns| == |items|
    decreases items, 0
  {
    if items == [] then [] else [Tree(items[0])] + TreeItems(items[1..])
  }

  /** A later member of the same name replaces an earlier one. */
  function TreeFields(fields: seq<Field>): map<string, Node>
    decreases fields, 0
  {
    if fields == [] then map[]
    else map[fields[0].name := Tree(fields[0].value)] + TreeFields(fields[1..])
  }

  // ---- Reading: a value after it was visited with a node ----

  /** static_cast<int> of a 64-bit integer. */
  function Narrow(i: int64): int32 {
    (i + 0x8000_0000) % 0x1_0000_0000 - 0x8000_0000
  }

  datatype Loaded<T> = Loaded(value: T, ok: bool)

  /** The value that held `v` and whether all went well. Reading stops at the first node that is
      missing or of the wrong kind; what was read before stays, what comes after is not touched. */
  function Load(v: Value, n: Node): Loaded<Value>
    decreases n, 1, 0
  {
    match v
    case VInt(_) => if n.Integer? then Loaded(VInt(Narrow(n.i)), true) else Loaded(v, false)
    case VReal(_) => if n.Floating? then Loaded(VReal(n.f), true) else Loaded(v, false)
    case VBool(_) => if n.Boolean? then Loaded(VBool(n.b), true) else Loaded(v, false)
    case VText(_) => if n.Text? then Loaded(VText(n.s), true) else Loaded(v, false)
    case VVector(blank, items) =>
      if n.Array? then
        var r := LoadItems(Resized(blank, items, |n.items|), n.items);
        Loaded(VVector(blank, r.value), r.ok)
      else Loaded(v, false)
    case VStruct(fields) =>
      if n.Table? then
        var r := LoadFields(fields, n);
        Loaded(VStruct(r.value), r.ok)
      else Loaded(v, false)
  }

  /** std::vector::resize */
  function Resized(blank: Value, items: seq<Value>, size: nat): (r: seq<Value>)
    ensures |r| == size
  {
    if size == 0 then []
    else if items == [] then [blank] + Resized(blank, [], size - 1)
    else [items[0]] + Resized(blank, items[1..], size - 1)
  }

  function LoadItems(items: seq<Value>, nodes: seq<Node>): (r: Loaded<seq<Value>>)
    requires |items| == |nodes|
    ensures |r.value| == |items|
    decreases nodes, 0, 0
  {
    if items == [] then Loaded([], true)
    else
      var first := Load(items[0], nodes[0]);
      if !first.ok then Loaded([first.value] + items[1..], false)
      else
        var rest := LoadItems(items[1..], nodes[1..]);
        Loaded([first.value] + rest.value, rest.ok)
  }

  function LoadFields(fields: seq<Field>, n: Node): (r: Loaded<seq<Field>>)
    requires n.Table?
    ensures |r.value| == |fields|
    decreases n, 0, |fields|
  {
    if fields == [] then Loaded([], true)
    else
      var f := fields[0];
      if f.name !in n.entries then Loaded(fields, false)
      else
        var first := Load(f.value, n.entries[f.name]);
        var loaded := [Field(f.name, first.value)];
        if !first.ok then Loaded(loaded + fields[1..], false)
        else
          var rest := LoadFields(fields[1..], n);
          Loaded(loaded + rest.value, rest.ok)
  }

  // ---- When reading succeeds ----

  /** The node is what a value of this type is written as. */
  predicate Conforms(v: Value, n: Node)
    decreases n, 1, 0
  {
    match v
    case VInt(_) => n.Integer?
    case VReal(_) => n.Floating?
    case VBool(_) => n.Boolean?
    case VText(_) => n.Text?
    case VVector(blank, _) => n.Array? && forall k :: 0 <= k < |n.items| ==> Conforms(blank, n.items[k])
    case VStruct(fields) => n.Table? && FieldsConform(fields, n)
  }

  predicate FieldsConform(fields: seq<Field>, n: Node)
    requires n.Table?
    decreases n, 0, |fields|
  {
    fields != [] ==>
      && fields[0].name in n.entries && Conforms(fields[0].value, n.entries[fields[0].name])
      && FieldsConform(fields[1..], n)
  }
}
