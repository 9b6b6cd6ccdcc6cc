/** Reading undoes writing; reading succeeds exactly on trees of the right shape, and then what it
    yields is decided by the tree alone. */
module ConfigRoundTrip {
  import opened ConfigTree

  // ---- Shapes ----

  lemma {:induction false} ShapeReflexive(v: Value)
    ensures SameShape(v, v)
    decreases v, 1
  {
    if v.VStruct? {
      FieldsReflexive(v.fields);
    }
  }

  lemma {:induction false} FieldsReflexive(fields: seq<Field>)
    ensures SameFields(fields, fields)
    decreases fields, 0
  {
    if fields != [] {
      ShapeReflexive(fields[0].value);
      FieldsReflexive(fields[1..]);
    }
  }

  /** Two values of the type of a third are of one type. */
  lemma {:induction false} ShapeShared(a: Value, b: Value, c: Value)
    requires SameShape(a, b) && SameShape(a, c)
    ensures SameShape(b, c)
    decreases a, 1
  {
    if a.VStruct? {
      FieldsShared(a.fields, b.fields, c.fields);
    }
  }

  lemma {:induction false} FieldsShared(fs: seq<Field>, gs: seq<Field>, hs: seq<Field>)
    requires SameFields(fs, gs) && SameFields(fs, hs)
    ensures SameFields(gs, hs)
    decreases fs, 0
  {
    if fs != [] {
      ShapeShared(fs[0].value, gs[0].value, hs[0].value);
      FieldsShared(fs[1..], gs[1..], hs[1..]);
    }
  }

  lemma {:induction false} ResizedIsTyped(blank: Value, items: seq<Value>, size: nat)
    requires Typed(blank) && TypedItems(blank, items)
    ensures TypedItems(blank, Resized(blank, items, size))
    decreases size
  {
    ShapeReflexive(blank);
    if size > 0 {
      ResizedIsTyped(blank, if items == [] then [] else items[1..], size - 1);
    }
  }

  // ---- Success ----

  lemma {:induction false} ConformsByShape(v: Value, w: Value, n: Node)
    requires SameShape(v, w)
    ensures Conforms(v, n) == Conforms(w, n)
    decreases n, 1, 0
  {
    if v.VStruct? && n.Table? {
      FieldsConformByShape(v.fields, w.fields, n);
    }
  }

  lemma {:induction false} FieldsConformByShape(fs: seq<Field>, gs: seq<Field>, n: Node)
    requires n.Table? && SameFields(fs, gs)
    ensures FieldsConform(fs, n) == FieldsConform(gs, n)
    decreases n, 0, |fs|
  {
    if fs != [] {
      if fs[0].name in n.entries {
        ConformsByShape(fs[0].value, gs[0].value, n.entries[fs[0].name]);
      }
      FieldsConformByShape(fs[1..], gs[1..], n);
    }
  }

  /** Reading succeeds exactly when the node conforms to the value's type. */
  lemma {:induction false} LoadSucceedsIffConforms(v: Value, n: Node)
    requires Typed(v)
    ensures Load(v, n).ok <==> Conforms(v, n)
    decreases n, 1, 0
  {
    if v.VVector? && n.Array? {
      ResizedIsTyped(v.blank, v.items, |n.items|);
      LoadItemsSucceeds(v.blank, Resized(v.blank, v.items, |n.items|), n.items);
    } else if v.VStruct? && n.Table? {
      LoadFieldsSucceeds(v.fields, n);
    }
  }

  lemma {:induction false} LoadItemsSucceeds(blank: Value, items: seq<Value>, nodes: seq<Node>)
    requires |items| == |nodes| && TypedItems(blank, items)
    ensures LoadItems(items, nodes).ok <==> forall k :: 0 <= k < |nodes| ==> Conforms(blank, nodes[k])
    decreases nodes, 0, 0
  {
    if items != [] {
      LoadSucceedsIffConforms(items[0], nodes[0]);
      ConformsByShape(blank, items[0], nodes[0]);
      LoadItemsSucceeds(blank, items[1..], nodes[1..]);
      assert forall k :: 1 <= k < |nodes| ==> nodes[k] == nodes[1..][k - 1];
      assert (forall k :: 0 <= k < |nodes| ==> Conforms(blank, nodes[k]))
        <==> Conforms(blank, nodes[0]) && forall k :: 0 <= k < |nodes[1..]| ==> Conforms(blank, nodes[1..][k]);
    }
  }

  lemma {:induction false} LoadFieldsSucceeds(fields: seq<Field>, n: Node)
    requires n.Table? && TypedFields(fields)
    ensures LoadFields(fields, n).ok <==> FieldsConform(fields, n)
    decreases n, 0, |fields|
  {
    if fields != [] && fields[0].name in n.entries {
      LoadSucceedsIffConforms(fields[0].value, n.entries[fields[0].name]);
      LoadFieldsSucceeds(fields[1..], n);
    }
  }

  // ---- The tree alone decides ----

  /** Whatever two destinations of one type held before, a reading that succeeds leaves the same. */
  lemma {:induction false} LoadIgnoresDestination(v: Value, w: Value, n: Node)
    requires Typed(v) && Typed(w) && SameShape(v, w) && Load(v, n).ok
    ensures Load(w, n) == Load(v, n)
    decreases n, 1, 0
  {
    if v.VVector? {
      var size := |n.items|;
      ResizedIsTyped(v.blank, v.items, size);
      ResizedIsTyped(v.blank, w.items, size);
      LoadItemsIgnoresDestination(v.blank, Resized(v.blank, v.items, size), Resized(v.blank, w.items, size), n.items);
    } else if v.VStruct? {
      LoadFieldsIgnoresDestination(v.fields, w.fields, n);
    }
  }

  lemma {:induction false} LoadItemsIgnoresDestination(blank: Value, vs: seq<Value>, ws: seq<Value>, nodes: seq<Node>)
    requires |vs| == |ws| == |nodes| && TypedItems(blank, vs) && TypedItems(blank, ws)
    requires LoadItems(vs, nodes).ok
    ensures LoadItems(ws, nodes) == LoadItems(vs, nodes)
    decreases nodes, 0, 0
  {
    if vs != [] {
      ShapeShared(blank, vs[0], ws[0]);
      LoadIgnoresDestination(vs[0], ws[0], nodes[0]);
      LoadItemsIgnoresDestination(blank, vs[1..], ws[1..], nodes[1..]);
    }
  }

  lemma {:induction false} LoadFieldsIgnoresDestination(fs: seq<Field>, gs: seq<Field>, n: Node)
    requires n.Table? && TypedFields(fs) && TypedFields(gs) && SameFields(fs, gs)
    requires LoadFields(fs, n).ok
    ensures LoadFields(gs, n) == LoadFields(fs, n)
    decreases n, 0, |fs|
  {
    if fs != [] {
      LoadIgnoresDestination(fs[0].value, gs[0].value, n.entries[fs[0].name]);
      LoadFieldsIgnoresDestination(fs[1..], gs[1..], n);
    }
  }

  // ---- Round trip ----

  lemma {:induction false} DistinctIsTyped(v: Value)
    requires Distinct(v)
    ensures Typed(v)
    decreases v, 1
  {
    match v
    case VVector(blank, items) =>
      DistinctIsTyped(blank);
      DistinctItemsAreTyped(blank, items);
    case VStruct(fields) => DistinctFieldsAreTyped(fields);
    case _ =>
  }

  lemma {:induction false} DistinctItemsAreTyped(blank: Value, items: seq<Value>)
    requires DistinctItems(blank, items)
    ensures TypedItems(blank, items)
    decreases items, 0
  {
    if items != [] {
      DistinctIsTyped(items[0]);
      DistinctItemsAreTyped(blank, items[1..]);
    }
  }

  lemma {:induction false} DistinctFieldsAreTyped(fields: seq<Field>)
    requires DistinctFields(fields)
    ensures TypedFields(fields)
    decreases fields, 0
  {
    if fields != [] {
      DistinctIsTyped(fields[0].value);
      DistinctFieldsAreTyped(fields[1..]);
    }
  }

  /** The entries hold the trees of all these members. */
  predicate Holds(entries: map<string, Node>, fields: seq<Field>) {
    fields != [] ==>
      && fields[0].name in entries && entries[fields[0].name] == Tree(fields[0].value)
      && Holds(entries, fields[1..])
  }

  lemma {:induction false} TreeFieldsKeys(fields: seq<Field>)
    ensures TreeFields(fields).Keys == Names(fields)
    decreases |fields|
  {
    if fields != [] {
      TreeFieldsKeys(fields[1..]);
    }
  }

  lemma {:induction false} HoldsMore(entries: map<string, Node>, fields: seq<Field>, name: string, n: Node)
    requires Holds(entries, fields) && name !in Names(fields)
    ensures Holds(map[name := n] + entries, fields)
    decreases |fields|
  {
    if fields != [] {
      HoldsMore(entries, fields[1..], name, n);
    }
  }

  lemma {:induction false} TreeFieldsHolds(fields: seq<Field>)
    requires DistinctFields(fields)
    ensures Holds(TreeFields(fields), fields)
    decreases |fields|
  {
    if fields != [] {
      TreeFieldsHolds(fields[1..]);
      TreeFieldsKeys(fields[1..]);
      HoldsMore(TreeFields(fields[1..]), fields[1..], fields[0].name, Tree(fields[0].value));
    }
  }

  /** Reading the tree a value was written to succeeds and yields the value, whatever the destination
      of the same type held before. */
  lemma {:induction false} ReadUndoesWrite(v: Value, w: Value)
    requires Distinct(v) && Typed(w) && SameShape(v, w)
    ensures Load(w, Tree(v)) == Loaded(v, true)
    decreases v, 1
  {
    match v
    case VInt(i) => assert Narrow(i) == i;
    case VVector(blank, items) =>
      DistinctIsTyped(blank);
      ResizedIsTyped(blank, w.items, |items|);
      ItemsRoundTrip(blank, items, Resized(blank, w.items, |items|));
    case VStruct(fields) =>
      TreeFieldsHolds(fields);
      FieldsRoundTrip(fields, w.fields, Tree(v));
    case _ =>
  }

  lemma {:induction false} ItemsRoundTrip(blank: Value, vs: seq<Value>, ws: seq<Value>)
    requires |vs| == |ws| && DistinctItems(blank, vs) && TypedItems(blank, ws)
    ensures LoadItems(ws, TreeItems(vs)) == Loaded(vs, true)
    decreases vs, 0
  {
    if vs != [] {
      ShapeShared(blank, vs[0], ws[0]);
      ReadUndoesWrite(vs[0], ws[0]);
      ItemsRoundTrip(blank, vs[1..], ws[1..]);
      assert [vs[0]] + vs[1..] == vs;
    }
  }

  lemma {:induction false} FieldsRoundTrip(fs: seq<Field>, gs: seq<Field>, n: Node)
    requires n.Table? && Holds(n.entries, fs)
    requires DistinctFields(fs) && TypedFields(gs) && SameFields(fs, gs)
    ensures LoadFields(gs, n) == Loaded(fs, true)
    decreases fs, 0
  {
    if fs != [] {
      ReadUndoesWrite(fs[0].value, gs[0].value);
      FieldsRoundTrip(fs[1..], gs[1..], n);
      assert [fs[0]] + fs[1..] == fs;
    }
  }

  // ---- One node ----

  predicate IsScalar(v: Value) {
    !v.VVector? && !v.VStruct?
  }

  /** A node of the wrong kind fails the reading and leaves the value as it was: a scalar on any node
      that does not conform, a vector on anything but an array, a struct on anything but a table. */
  lemma MisfitIsKept(v: Value, n: Node)
    requires IsScalar(v) ==> !Conforms(v, n)
    requires v.VVector? ==> !n.Array?
    requires v.VStruct? ==> !n.Table?
    ensures Load(v, n) == Loaded(v, false)
  {
  }

  /** A scalar takes over what the node holds; of an integer that no int can hold, the low 32 bits. */
  lemma ScalarIsTaken(v: Value, n: Node)
    requires IsScalar(v) && Conforms(v, n)
    ensures Load(v, n).ok
    ensures match n
            case Integer(j) =>
              var r := Load(v, n).value;
              r.VInt? && (j - r.i) % 0x1_0000_0000 == 0 && (-0x8000_0000 <= j < 0x8000_0000 <==> r.i == j)
            case Floating(x) => Load(v, n).value == VReal(x)
            case Boolean(b) => Load(v, n).value == VBool(b)
            case Text(s) => Load(v, n).value == VText(s)
            case _ => false
    ensures Tree(Load(v, n).value) == n <==> (n.Integer? ==> -0x8000_0000 <= n.i < 0x8000_0000)
  {
  }

  /** Resizing keeps what there is and fills up with new elements. */
  lemma {:induction false} ResizedAt(blank: Value, items: seq<Value>, size: nat, k: nat)
    requires k < size
    ensures Resized(blank, items, size)[k] == if k < |items| then items[k] else blank
    decreases k
  {
    if k > 0 {
      ResizedAt(blank, if items == [] then [] else items[1..], size - 1, k - 1);
    }
  }

  /** Every element of a vector is written at its place. */
  lemma {:induction false} ItemIsWritten(items: seq<Value>, k: nat)
    requires k < |items|
    ensures TreeItems(items)[k] == Tree(items[k])
    decreases k
  {
    hide Tree;
    if k > 0 {
      ItemIsWritten(items[1..], k - 1);
    }
  }

  /** Every member of a struct is written under its name; of two with one name, the later. */
  lemma {:induction false} FieldIsWritten(fields: seq<Field>, k: nat)
    requires k < |fields| && fields[k].name !in Names(fields[k + 1..])
    ensures fields[k].name in TreeFields(fields) && TreeFields(fields)[fields[k].name] == Tree(fields[k].value)
    decreases k
  {
    hide Tree;
    TreeFieldsKeys(fields[1..]);
    if k > 0 {
      assert fields[1..][k - 1 + 1..] == fields[k + 1..];
      FieldIsWritten(fields[1..], k - 1);
    }
  }

  // ---- Failure ----

  /** What a reading leaves of one member: what its node makes of it, if there is one. */
  function Member(f: Field, n: Node): Value
    requires n.Table?
  {
    if f.name in n.entries then Load(f.value, n.entries[f.name]).value else f.value
  }

  /** A failed reading of a struct: the members before the first that does not conform are as a
      reading of them alone leaves them; that one is as its own reading leaves it where it fails, or as
      it was if it has no node; the members after it are untouched. */
  lemma {:induction false} FirstFailureFreezesTheRest(fields: seq<Field>, n: Node) returns (k: nat)
    requires n.Table? && TypedFields(fields) && !FieldsConform(fields, n)
    ensures k < |fields|
    ensures FieldsConform(fields[..k], n)
    ensures fields[k].name in n.entries ==> !Conforms(fields[k].value, n.entries[fields[k].name])
    ensures LoadFields(fields, n).value[..k] == LoadFields(fields[..k], n).value
    ensures LoadFields(fields, n).value[k] == Field(fields[k].name, Member(fields[k], n))
    ensures LoadFields(fields, n).value[k + 1..] == fields[k + 1..]
    decreases |fields|
  {
    var f := fields[0];
    if f.name !in n.entries {
      k := 0;
    } else {
      LoadSucceedsIffConforms(f.value, n.entries[f.name]);
      if !Conforms(f.value, n.entries[f.name]) {
        k := 0;
      } else {
        var j := FirstFailureFreezesTheRest(fields[1..], n);
        k := j + 1;
        assert fields[..k][1..] == fields[1..][..j];
        assert fields[1..][j + 1..] == fields[k + 1..];
      }
    }
  }

  /** The same for a vector of the nodes' number: each element up to the first whose node does not
      conform is as its own reading leaves it, and those after it are untouched. */
  lemma {:induction false} FirstBadElementFreezesTheRest(blank: Value, items: seq<Value>, nodes: seq<Node>)
    returns (k: nat)
    requires |items| == |nodes| && TypedItems(blank, items) && !LoadItems(items, nodes).ok
    ensures k < |items| && !Conforms(blank, nodes[k]) && forall j :: 0 <= j < k ==> Conforms(blank, nodes[j])
    ensures forall j :: 0 <= j <= k ==> LoadItems(items, nodes).value[j] == Load(items[j], nodes[j]).value
    ensures LoadItems(items, nodes).value[k + 1..] == items[k + 1..]
    decreases |items|
  {
    hide Load, Conforms, SameShape, Typed;
    LoadSucceedsIffConforms(items[0], nodes[0]);
    ConformsByShape(blank, items[0], nodes[0]);
    if !Conforms(blank, nodes[0]) {
      k := 0;
    } else {
      var j := FirstBadElementFreezesTheRest(blank, items[1..], nodes[1..]);
      k := j + 1;
      assert items[1..][j + 1..] == items[k + 1..];
      var all, rest := LoadItems(items, nodes).value, LoadItems(items[1..], nodes[1..]).value;
      assert all[1..] == rest && all[k + 1..] == rest[j + 1..];
      forall i | 0 < i <= k
        ensures all[i] == Load(items[i], nodes[i]).value && (i < k ==> Conforms(blank, nodes[i]))
      {
        assert rest[i - 1] == Load(items[1..][i - 1], nodes[1..][i - 1]).value;
        assert i < k ==> Conforms(blank, nodes[1..][i - 1]);
      }
    }
  }
}
