/** The two visitors as stack machines, and the walk over a value that drives them. */
module ConfigVisitors {
  import opened Options
  import opened ConfigTree

  // ---- Addresses in a tree ----

  /** A pointer to a node is the way to it from the root. */
  datatype Step = Key(name: string) | At(index: nat)

  type Path = seq<Step>

  function Child(n: Node, s: Step): Option<Node> {
    match s
    case Key(k) => if n.Table? && k in n.entries then Some(n.entries[k]) else None
    case At(i) => if n.Array? && i < |n.items| then Some(n.items[i]) else None
  }

  function WithChild(n: Node, s: Step, m: Node): Node
    requires Child(n, s).Some?
  {
    match s
    case Key(k) => Table(n.entries[k := m])
    case At(i) => Array(n.items[i := m])
  }

  lemma ChildReplaced(n: Node, s: Step, x: Node, y: Node)
    requires Child(n, s).Some?
    ensures Child(WithChild(n, s, x), s) == Some(x)
    ensures WithChild(WithChild(n, s, x), s, y) == WithChild(n, s, y)
    ensures WithChild(n, s, Child(n, s).value) == n
  {
    match s
    case Key(k) =>
      assert n.entries[k := x][k := y] == n.entries[k := y] && n.entries[k := n.entries[k]] == n.entries;
    case At(i) =>
      assert n.items[i := x][i := y] == n.items[i := y] && n.items[i := n.items[i]] == n.items;
  }

  lemma OtherChild(n: Node, s: Step, x: Node, s': Step)
    requires Child(n, s).Some? && s' != s
    ensures Child(WithChild(n, s, x), s') == Child(n, s')
  {
  }

  function Find(n: Node, p: Path): Option<Node>
    decreases |p|
  {
    if p == [] then Some(n)
    else
      var child := Child(n, p[0]);
      if child.None? then None else Find(child.value, p[1..])
  }

  function Replace(n: Node, p: Path, m: Node): Node
    requires Find(n, p).Some?
    decreases |p|
  {
    if p == [] then m else WithChild(n, p[0], Replace(Child(n, p[0]).value, p[1..], m))
  }

  predicate IsContainer(n: Node) {
    n.Table? || n.Array?
  }

  /** A container with one child more: under its name in a table, at the end of an array. */
  function Extended(parent: Node, name: string, child: Node): Node
    requires IsContainer(parent)
  {
    if parent.Table? then Table(parent.entries[name := child]) else Array(parent.items + [child])
  }

  function ChildStep(parent: Node, name: string): Step
    requires IsContainer(parent)
  {
    if parent.Table? then Key(name) else At(|parent.items|)
  }

  predicate Leads(n: Node, p: Path) {
    Find(n, p).Some? && IsContainer(Find(n, p).value)
  }

  function Put(n: Node, p: Path, name: string, child: Node): Node
    requires Leads(n, p)
  {
    Replace(n, p, Extended(Find(n, p).value, name, child))
  }

  function ChildPath(n: Node, p: Path, name: string): Path
    requires Leads(n, p)
  {
    p + [ChildStep(Find(n, p).value, name)]
  }

  lemma {:induction false} FindReplaced(n: Node, p: Path, m: Node, m': Node)
    requires Find(n, p).Some?
    ensures Find(Replace(n, p, m), p) == Some(m)
    ensures Replace(Replace(n, p, m), p, m') == Replace(n, p, m')
    decreases |p|
  {
    hide Child, WithChild;
    if p != [] {
      var child := Child(n, p[0]).value;
      FindReplaced(child, p[1..], m, m');
      ChildReplaced(n, p[0], Replace(child, p[1..], m), Replace(child, p[1..], m'));
    }
  }

  lemma {:induction false} ReplaceBySame(n: Node, p: Path)
    requires Find(n, p).Some?
    ensures Replace(n, p, Find(n, p).value) == n
    decreases |p|
  {
    hide Child, WithChild;
    if p != [] {
      ReplaceBySame(Child(n, p[0]).value, p[1..]);
      ChildReplaced(n, p[0], n, n);
    }
  }

  lemma PutUnder(n: Node, p: Path, name: string, x: Node)
    requires p != [] && Leads(n, p)
    ensures var child := Child(n, p[0]).value;
            && Leads(child, p[1..])
            && Put(n, p, name, x) == WithChild(n, p[0], Put(child, p[1..], name, x))
            && ChildPath(n, p, name) == [p[0]] + ChildPath(child, p[1..], name)
  {
    hide Child, WithChild, Extended, ChildStep, IsContainer;
  }

  /** A child just put in is found at its address, and replacing it there is putting in another. */
  lemma {:induction false} ReplaceChild(n: Node, p: Path, name: string, x: Node, y: Node)
    requires Leads(n, p)
    ensures Find(Put(n, p, name, x), ChildPath(n, p, name)) == Some(x)
    ensures Replace(Put(n, p, name, x), ChildPath(n, p, name), y) == Put(n, p, name, y)
    decreases |p|
  {
    hide Child, WithChild, Extended, ChildStep, IsContainer, Put, ChildPath;
    if p == [] {
      ReplaceOwnChild(n, name, x, y);
    } else {
      var child := Child(n, p[0]).value;
      PutUnder(n, p, name, x);
      PutUnder(n, p, name, y);
      ReplaceChild(child, p[1..], name, x, y);
      ChildReplaced(n, p[0], Put(child, p[1..], name, x), Put(child, p[1..], name, y));
      assert ChildPath(n, p, name)[1..] == ChildPath(child, p[1..], name);
    }
  }

  lemma ReplaceOwnChild(n: Node, name: string, x: Node, y: Node)
    requires Leads(n, [])
    ensures Find(Put(n, [], name, x), ChildPath(n, [], name)) == Some(x)
    ensures Replace(Put(n, [], name, x), ChildPath(n, [], name), y) == Put(n, [], name, y)
  {
    assert ChildPath(n, [], name) == [ChildStep(n, name)];
    if n.Table? {
      assert n.entries[name := x][name := y] == n.entries[name := y];
    } else {
      assert (n.items + [x])[|n.items| := y] == n.items + [y];
    }
  }

  /** Putting a child in leaves alone all that is not on the way to it or below it. */
  lemma {:induction false} PutKeeps(n: Node, p: Path, name: string, x: Node, q: Path)
    requires Leads(n, p) && !(q <= p) && !(ChildPath(n, p, name) <= q)
    ensures Find(Put(n, p, name, x), q) == Find(n, q)
    decreases |p|
  {
    hide WithChild, Child, Put, ChildPath, Extended, ChildStep;
    if p == [] {
      OtherOwnChild(n, name, x, q[0]) by { OwnPath(n, name, q); }
    } else {
      var child := Child(n, p[0]).value;
      PutUnder(n, p, name, x);
      if q[0] == p[0] {
        ChildReplaced(n, p[0], Put(child, p[1..], name, x), n);
        assert !(ChildPath(child, p[1..], name) <= q[1..]) by {
          assert q == [p[0]] + q[1..];
        }
        PutKeeps(child, p[1..], name, x, q[1..]);
      } else {
        OtherChild(n, p[0], Put(child, p[1..], name, x), q[0]);
      }
    }
  }

  lemma OwnPath(n: Node, name: string, q: Path)
    requires Leads(n, []) && q != [] && !(ChildPath(n, [], name) <= q)
    ensures q[0] != ChildStep(n, name)
  {
    assert q == [q[0]] + q[1..];
  }

  lemma OtherOwnChild(n: Node, name: string, x: Node, s: Step)
    requires Leads(n, []) && s != ChildStep(n, name)
    ensures Child(Put(n, [], name, x), s) == Child(n, s)
  {
  }

  // ---- The writer ----

  class DefaultWriter {
    var root: Node
    var m_stack: seq<Path>

    ghost predicate Valid() reads this {
      m_stack != [] && Leads(root, Top())
    }

    function Top(): Path
      requires m_stack != []
      reads this
    {
      m_stack[|m_stack| - 1]
    }

    constructor (root: Node)
      requires root.Table?
      ensures Valid() && this.root == root && m_stack == [[]]
    {
      this.root, m_stack := root, [[]];
    }

    method Insert(name: string, val: Node)
      requires Valid()
      modifies this`root
      ensures root == Put(old(root), Top(), name, val)
    {
      root := Put(root, Top(), name, val);
    }

    /** OnStructBegin and OnArrayBegin: an empty container goes into the parent at once and its
        address on the stack. */
    method Begin(name: string, empty: Node)
      requires Valid() && IsContainer(empty)
      modifies this
      ensures Valid() && root == Put(old(root), old(Top()), name, empty)
      ensures m_stack == old(m_stack) + [ChildPath(old(root), old(Top()), name)]
      ensures Find(root, Top()) == Some(empty)
    {
      ReplaceChild(root, Top(), name, empty, empty);
      var child := ChildPath(root, Top(), name);
      root := Put(root, Top(), name, empty);
      m_stack := m_stack + [child];
    }

    /** OnStructEnd and OnArrayEnd. */
    method End()
      requires |m_stack| > 1
      modifies this`m_stack
      ensures m_stack == old(m_stack)[..|old(m_stack)| - 1]
    {
      m_stack := m_stack[..|m_stack| - 1];
    }
  }

  /** Visit with the writer. The whole walk adds one child to the container on top, the tree of the
      value, and leaves the stack as it was. */
  method WriteValue(writer: DefaultWriter, name: string, value: Value)
    requires writer.Valid()
    modifies writer
    ensures writer.Valid() && writer.m_stack == old(writer.m_stack)
    ensures writer.root == Put(old(writer.root), writer.Top(), name, Tree(value))
    decreases value, 1
  {
    match value
    case VInt(i) => writer.Insert(name, Integer(i)); FindReplacedTop(writer, old(writer.root), name, Tree(value));
    case VReal(f) => writer.Insert(name, Floating(f)); FindReplacedTop(writer, old(writer.root), name, Tree(value));
    case VBool(b) => writer.Insert(name, Boolean(b)); FindReplacedTop(writer, old(writer.root), name, Tree(value));
    case VText(s) => writer.Insert(name, Text(s)); FindReplacedTop(writer, old(writer.root), name, Tree(value));
    case VVector(_, items) =>
      writer.Begin(name, Array([]));
      WriteItems(writer, items);
      ReplaceChild(old(writer.root), old(writer.Top()), name, Array([]), Tree(value));
      assert [] + TreeItems(items) == TreeItems(items);
      writer.End();
      FindReplacedTop(writer, old(writer.root), name, Tree(value));
    case VStruct(fields) =>
      writer.Begin(name, Table(map[]));
      WriteFields(writer, fields);
      ReplaceChild(old(writer.root), old(writer.Top()), name, Table(map[]), Tree(value));
      assert map[] + TreeFields(fields) == TreeFields(fields);
      writer.End();
      FindReplacedTop(writer, old(writer.root), name, Tree(value));
  }

  lemma FindReplacedTop(writer: DefaultWriter, before: Node, name: string, child: Node)
    requires writer.m_stack != [] && Leads(before, writer.Top())
    requires writer.root == Put(before, writer.Top(), name, child)
    ensures writer.Valid()
  {
    FindReplaced(before, writer.Top(), Extended(Find(before, writer.Top()).value, name, child), child);
  }

  method WriteItems(writer: DefaultWriter, items: seq<Value>)
    requires writer.Valid() && Find(writer.root, writer.Top()).value.Array?
    modifies writer
    ensures writer.Valid() && writer.m_stack == old(writer.m_stack)
    ensures writer.root == Replace(old(writer.root), writer.Top(),
                                   Array(Find(old(writer.root), writer.Top()).value.items + TreeItems(items)))
    decreases items, 0
  {
    ghost var before, p := writer.root, writer.Top();
    ghost var done := Find(before, p).value.items;
    ReplaceBySame(before, p);
    assert done + [] == done;
    for i := 0 to |items|
      invariant writer.Valid() && writer.m_stack == old(writer.m_stack)
      invariant writer.root == Replace(before, p, Array(done + TreeItems(items[..i])))
    {
      ghost var here := done + TreeItems(items[..i]);
      TreeItemsGrow(items, i);
      assert here + [Tree(items[i])] == done + TreeItems(items[..i + 1]);
      FindReplaced(before, p, Array(here), Array(here + [Tree(items[i])]));
      WriteValue(writer, "", items[i]);
    }
    assert items[..|items|] == items;
  }

  lemma {:induction false} TreeItemsGrow(items: seq<Value>, i: nat)
    requires i < |items|
    ensures TreeItems(items[..i + 1]) == TreeItems(items[..i]) + [Tree(items[i])]
    decreases i
  {
    if i == 0 {
      assert items[..1] == [items[0]];
    } else {
      assert items[..i + 1][1..] == items[1..][..i] && items[..i][1..] == items[1..][..i - 1];
      TreeItemsGrow(items[1..], i - 1);
    }
  }

  method WriteFields(writer: DefaultWriter, fields: seq<Field>)
    requires writer.Valid() && Find(writer.root, writer.Top()).value.Table?
    modifies writer
    ensures writer.Valid() && writer.m_stack == old(writer.m_stack)
    ensures writer.root == Replace(old(writer.root), writer.Top(),
                                   Table(Find(old(writer.root), writer.Top()).value.entries + TreeFields(fields)))
    decreases fields, 0
  {
    ghost var before, p := writer.root, writer.Top();
    ghost var done := Find(before, p).value.entries;
    if fields == [] {
      ReplaceBySame(before, p);
      assert done + map[] == done;
    } else {
      var f := fields[0];
      ghost var more := done[f.name := Tree(f.value)];
      TreeFieldsFirst(done, fields);
      FindReplaced(before, p, Table(more), Table(done + TreeFields(fields)));
      WriteValue(writer, f.name, f.value);
      WriteFields(writer, fields[1..]);
    }
  }

  lemma TreeFieldsFirst(done: map<string, Node>, fields: seq<Field>)
    requires fields != []
    ensures done[fields[0].name := Tree(fields[0].value)] + TreeFields(fields[1..]) == done + TreeFields(fields)
  {
  }

  // ---- The reader ----

  /** A container being read and, for an array, the position in it. */
  datatype Ctx = Ctx(node: Node, index: nat)

  /** The node the next visit reads, if there is one, and the position after it. */
  function Fetch(c: Ctx, name: string): (Option<Node>, Ctx) {
    match c.node
    case Table(entries) => (if name in entries then Some(entries[name]) else None, c)
    case Array(items) => if c.index < |items| then (Some(items[c.index]), c.(index := c.index + 1)) else (None, c)
    case _ => (None, c)
  }

  class ConfigReader {
    var m_stack: seq<Ctx>
    var m_ok: bool

    ghost predicate Valid() reads this {
      m_ok ==> m_stack != []
    }

    function Top(): Ctx
      requires m_stack != []
      reads this
    {
      m_stack[|m_stack| - 1]
    }

    constructor (root: Node)
      ensures Valid() && m_ok && m_stack == [Ctx(root, 0)]
    {
      m_stack, m_ok := [Ctx(root, 0)], true;
    }

    /** The stack after the next node was fetched. */
    ghost function Advanced(name: string): seq<Ctx>
      requires m_stack != []
      reads this
    {
      m_stack[..|m_stack| - 1] + [Fetch(Top(), name).1]
    }

    method FetchNode(name: string) returns (node: Option<Node>)
      requires m_stack != []
      modifies this`m_stack
      ensures node == Fetch(old(Top()), name).0 && m_stack == old(Advanced(name))
    {
      var (n, c) := Fetch(Top(), name);
      m_stack := m_stack[..|m_stack| - 1] + [c];
      node := n;
    }

    /** OnInt, OnString, OnBool, OnFloat and OnDouble. */
    method ReadScalar(name: string, v: Value) returns (v': Value)
      requires Valid() && !v.VVector? && !v.VStruct?
      modifies this
      ensures Valid() && Visited(old(m_ok), old(m_stack), name, v, v')
      ensures !m_ok ==> v' == v
    {
      if !m_ok {
        return v;
      }
      var node := FetchNode(name);
      if node.Some? {
        var loaded := Load(v, node.value);
        if loaded.ok {
          return loaded.value;
        }
      }
      m_ok := false;
      return v;
    }

    /** OnArrayBegin and OnStructBegin: the node must be of the wanted kind, and becomes the top. */
    method Begin(name: string, wantArray: bool) returns (node: Option<Node>)
      requires Valid()
      modifies this
      ensures !old(m_ok) ==> node.None? && !m_ok && m_stack == old(m_stack)
      ensures old(m_ok) ==>
                var n := Fetch(old(Top()), name).0;
                && m_ok == (n.Some? && if wantArray then n.value.Array? else n.value.Table?)
                && m_ok == node.Some?
                && (m_ok ==> node == n && m_stack == old(Advanced(name)) + [Ctx(n.value, 0)])
    {
      if !m_ok {
        return None;
      }
      node := FetchNode(name);
      if node.Some? && (if wantArray then node.value.Array? else node.value.Table?) {
        m_stack := m_stack + [Ctx(node.value, 0)];
        return;
      }
      m_ok := false;
      return None;
    }

    /** OnArrayEnd and OnStructEnd: after a failure the stack is left as it is. */
    method End()
      requires m_ok ==> m_stack != []
      modifies this`m_stack
      ensures m_stack == if m_ok then old(m_stack)[..|old(m_stack)| - 1] else old(m_stack)
    {
      if m_ok {
        m_stack := m_stack[..|m_stack| - 1];
      }
    }

    /** What a visit of a value that held v does, from the flag and stack it started with. */
    ghost predicate Visited(ok: bool, stack: seq<Ctx>, name: string, v: Value, v': Value)
      requires ok ==> stack != []
      reads this
    {
      if !ok then !m_ok && m_stack == stack && v' == v
      else
        var (n, c) := Fetch(stack[|stack| - 1], name);
        if n.None? then !m_ok && v' == v
        else
          && Loaded(v', m_ok) == Load(v, n.value)
          && (m_ok ==> m_stack == stack[..|stack| - 1] + [c])
    }
  }

  /** Visit with the reader. The whole walk fetches one node and leaves the value as reading it from
      that node does; if all went well the stack has its old height again. */
  method ReadValue(reader: ConfigReader, name: string, v: Value) returns (v': Value)
    requires reader.Valid()
    modifies reader
    ensures reader.Valid() && reader.Visited(old(reader.m_ok), old(reader.m_stack), name, v, v')
    ensures !v.VVector? && !v.VStruct? && !reader.m_ok ==> v' == v
    decreases v, 1
  {
    match v
    case VVector(blank, items) =>
      var node := reader.Begin(name, true);
      var size := if node.Some? then |node.value.items| else |items|;
      ResizedElements(blank, items, size);
      var resized := ReadItems(reader, v, Resized(blank, items, size));
      reader.End();
      v' := VVector(blank, resized);
    case VStruct(fields) =>
      var node := reader.Begin(name, false);
      var read := ReadFields(reader, fields);
      reader.End();
      v' := VStruct(read);
    case _ =>
      v' := reader.ReadScalar(name, v);
  }

  lemma {:induction false} ResizedElements(blank: Value, items: seq<Value>, size: nat)
    ensures forall k :: 0 <= k < size ==>
              var x := Resized(blank, items, size)[k];
              x == blank || x in items
    ensures size == |items| ==> Resized(blank, items, size) == items
    decreases size
  {
    hide Resized;
    ResizedFirst(blank, items, size);
    if size > 0 {
      ResizedElements(blank, if items == [] then [] else items[1..], size - 1);
    }
  }

  lemma ResizedFirst(blank: Value, items: seq<Value>, size: nat)
    ensures size == 0 ==> Resized(blank, items, size) == []
    ensures size > 0 && items == [] ==> Resized(blank, items, size) == [blank] + Resized(blank, [], size - 1)
    ensures size > 0 && items != [] ==> Resized(blank, items, size) == [items[0]] + Resized(blank, items[1..], size - 1)
  {
  }

  /** The elements of the vector v after it was resized, each visited in its turn. */
  method ReadItems(reader: ConfigReader, ghost v: Value, items: seq<Value>) returns (read: seq<Value>)
    requires v.VVector? && forall k :: 0 <= k < |items| ==> items[k] == v.blank || items[k] in v.items
    requires reader.m_ok ==>
      && reader.m_stack != [] && reader.Top().node.Array?
      && reader.Top().index == 0 && |reader.Top().node.items| == |items|
    modifies reader
    ensures |read| == |items|
    ensures !old(reader.m_ok) ==> !reader.m_ok && reader.m_stack == old(reader.m_stack) && read == items
    ensures old(reader.m_ok) ==>
      && Loaded(read, reader.m_ok) == LoadItems(items, old(reader.Top()).node.items)
      && (reader.m_ok ==>
            && |reader.m_stack| == |old(reader.m_stack)|
            && reader.m_stack[..|reader.m_stack| - 1] == old(reader.m_stack)[..|reader.m_stack| - 1])
    decreases v, 0
  {
    hide Load, LoadItems, ItemsRead, SameShape, Typed, Tree, Conforms;
    read := items;
    ghost var ok, stack := reader.m_ok, reader.m_stack;
    ghost var nodes := if ok then reader.Top().node.items else [];
    if ok {
      assert reader.Top() == Ctx(Array(nodes), 0);
      NoItemsRead(items, nodes);
    }
    for i := 0 to |items|
      invariant |read| == |items| && read[i..] == items[i..]
      invariant !ok ==> !reader.m_ok && reader.m_stack == stack && read == items
      invariant ok && reader.m_ok ==> reader.m_stack == stack[..|stack| - 1] + [Ctx(Array(nodes), i)]
      invariant ok ==> ItemsRead(items, nodes, read, i, reader.m_ok)
    {
      assert items[i] == read[i..][0];
      ghost var before, wasOk := read, reader.m_ok;
      var element := ReadValue(reader, "", read[i]);
      read := read[i := element];
      assert read[i + 1..] == before[i..][1..];
      if ok && wasOk {
        ItemRead(items, nodes, before, i, element, reader.m_ok);
      } else {
        assert read == before;
        if ok {
          ItemFrozen(items, nodes, read, i);
        }
      }
    }
    if ok {
      AllItemsRead(items, nodes, read, reader.m_ok);
    }
  }

  /** The loop is at the i-th element: what it has in `read`, and what is still to come of a reading
      of all elements. */
  ghost predicate ItemsRead(items: seq<Value>, nodes: seq<Node>, read: seq<Value>, i: nat, ok: bool) {
    && i <= |items| == |nodes| == |read|
    && if ok then
         var rest := LoadItems(items[i..], nodes[i..]);
         LoadItems(items, nodes) == Loaded(read[..i] + rest.value, rest.ok)
       else LoadItems(items, nodes) == Loaded(read, false)
  }

  lemma NoItemsRead(items: seq<Value>, nodes: seq<Node>)
    requires |items| == |nodes|
    ensures ItemsRead(items, nodes, items, 0, true)
  {
    hide LoadItems;
    var all := LoadItems(items, nodes);
    assert items[0..] == items && nodes[0..] == nodes && items[..0] + all.value == all.value;
  }

  lemma ItemRead(items: seq<Value>, nodes: seq<Node>, read: seq<Value>, i: nat, element: Value, ok: bool)
    requires i < |items| && ItemsRead(items, nodes, read, i, true) && read[i..] == items[i..]
    requires Load(items[i], nodes[i]) == Loaded(element, ok)
    ensures ItemsRead(items, nodes, read[i := element], i + 1, ok)
  {
    hide LoadItems, Load;
    var done, now := read[..i], read[i := element];
    assert items[i..][1..] == items[i + 1..] == read[i..][1..] && nodes[i..][1..] == nodes[i + 1..];
    LoadFirst(items[i..], nodes[i..], element, ok);
    if ok {
      AppendThen(done, element, LoadItems(items[i + 1..], nodes[i + 1..]).value);
      assert now[..i + 1] == done + [element];
    } else {
      AppendThen(done, element, items[i + 1..]);
      assert now == done + [element] + items[i + 1..];
    }
  }

  lemma AppendThen<T>(s: seq<T>, x: T, t: seq<T>)
    ensures s + ([x] + t) == s + [x] + t
  {
  }

  lemma LoadFirst(items: seq<Value>, nodes: seq<Node>, element: Value, ok: bool)
    requires |items| == |nodes| > 0 && Load(items[0], nodes[0]) == Loaded(element, ok)
    ensures var rest := LoadItems(items[1..], nodes[1..]);
            LoadItems(items, nodes)
            == if ok then Loaded([element] + rest.value, rest.ok) else Loaded([element] + items[1..], false)
  {
    hide Load;
  }

  lemma ItemFrozen(items: seq<Value>, nodes: seq<Node>, read: seq<Value>, i: nat)
    requires i < |items| && ItemsRead(items, nodes, read, i, false)
    ensures ItemsRead(items, nodes, read, i + 1, false)
  {
    hide LoadItems;
  }

  lemma AllItemsRead(items: seq<Value>, nodes: seq<Node>, read: seq<Value>, ok: bool)
    requires ItemsRead(items, nodes, read, |items|, ok)
    ensures LoadItems(items, nodes) == Loaded(read, ok)
  {
    assert items[|items|..] == [] && nodes[|items|..] == [];
    assert LoadItems([], []) == Loaded([], true);
    hide LoadItems;
    assert read[..|items|] + [] == read;
  }

  method ReadFields(reader: ConfigReader, fields: seq<Field>) returns (read: seq<Field>)
    requires reader.m_ok ==> reader.m_stack != [] && reader.Top().node.Table?
    modifies reader
    ensures |read| == |fields|
    ensures !old(reader.m_ok) ==> !reader.m_ok && reader.m_stack == old(reader.m_stack) && read == fields
    ensures old(reader.m_ok) ==>
      && Loaded(read, reader.m_ok) == LoadFields(fields, old(reader.Top()).node)
      && (reader.m_ok ==> reader.m_stack == old(reader.m_stack))
    decreases fields, 0
  {
    read := [];
    if fields != [] {
      var f := fields[0];
      var value := ReadValue(reader, f.name, f.value);
      assert old(reader.m_ok) && reader.m_ok ==> reader.m_stack == old(reader.m_stack);
      var others := ReadFields(reader, fields[1..]);
      read := [Field(f.name, value)] + others;
      assert [f] + fields[1..] == fields;
    }
  }
}
