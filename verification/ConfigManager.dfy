/** Registering a group of configuration variables against the loaded table: variables the table
    lacks are written to it with their defaults, the others are read from it. */
module ConfigManager {
  import opened Options
  import opened ConfigTree
  import opened ConfigRoundTrip
  import opened ConfigVisitors

  type Entries = map<string, Node>

  /** The variables of a group, in the order of declaration; None is a null mapping. */
  type Variables = seq<Option<Field>>

  // ---- The group's table ----

  function TableAt(parent: Entries, key: string): Entries {
    if key in parent && parent[key].Table? then parent[key].entries else map[]
  }

  /** The entries of the group's table, which is created empty if there is none. */
  function GroupEntries(config: Entries, space: string, name: string): Entries {
    TableAt(if space == "" then config else TableAt(config, space), name)
  }

  function WithGroup(config: Entries, space: string, name: string, entries: Entries): Entries {
    if space == "" then config[name := Table(entries)]
    else config[space := Table(TableAt(config, space)[name := Table(entries)])]
  }

  /** What is stored is found again, storing it once more changes nothing, and everything off the
      group's own path stays. Under a namespace its other groups stay too. */
  lemma GroupStored(config: Entries, space: string, name: string, entries: Entries)
    ensures var c := WithGroup(config, space, name, entries);
            && GroupEntries(c, space, name) == entries
            && WithGroup(c, space, name, entries) == c
            && var key := if space == "" then name else space;
               && c.Keys == config.Keys + {key}
               && (space == "" ==> c[name] == Table(entries))
               && (forall k :: k in config && k != key ==> c[k] == config[k])
               && (space != "" ==>
                     && c[space].Table? && c[space].entries.Keys == TableAt(config, space).Keys + {name}
                     && c[space].entries[name] == Table(entries)
                     && forall k :: k in TableAt(config, space) && k != name ==>
                          c[space].entries[k] == TableAt(config, space)[k])
  {
    if space != "" {
      var c := WithGroup(config, space, name, entries);
      assert TableAt(c, space) == TableAt(config, space)[name := Table(entries)];
      assert TableAt(c, space)[name := Table(entries)] == TableAt(c, space);
    }
  }

  /** The group's table is the one under its name, in its namespace if it has one; anything else there
      counts as an empty table. */
  lemma GroupIsFound(config: Entries, space: string, name: string)
    ensures var outer := if space == "" then config
                         else if space in config && config[space].Table? then config[space].entries
                         else map[];
            GroupEntries(config, space, name)
            == if name in outer && outer[name].Table? then outer[name].entries else map[]
  {
  }

  // ---- The variables ----

  datatype Registered = Registered(entries: Entries, vars: Variables, changed: bool)

  function Register(entries: Entries, vars: Variables): Registered
    decreases |vars|
  {
    if vars == [] then Registered(entries, [], false)
    else if vars[0].None? then
      var rest := Register(entries, vars[1..]);
      rest.(vars := [None] + rest.vars)
    else
      var f := vars[0].value;
      if f.name !in entries then
        var rest := Register(entries[f.name := Tree(f.value)], vars[1..]);
        Registered(rest.entries, [vars[0]] + rest.vars, true)
      else
        var rest := Register(entries, vars[1..]);
        rest.(vars := [Some(Field(f.name, Load(f.value, entries[f.name]).value))] + rest.vars)
  }

  predicate Within(small: Entries, large: Entries) {
    forall k :: k in small ==> k in large && large[k] == small[k]
  }

  function VariableNames(vars: Variables): set<string> {
    if vars == [] then {}
    else (if vars[0].Some? then {vars[0].value.name} else {}) + VariableNames(vars[1..])
  }

  /** Every key the group had stays with its node, and besides them there is exactly a key for every
      variable that is not null. */
  lemma {:induction false} RegisterKeeps(entries: Entries, vars: Variables)
    ensures Within(entries, Register(entries, vars).entries)
    ensures Register(entries, vars).entries.Keys == entries.Keys + VariableNames(vars)
    ensures Register(entries, vars).changed <==> !(VariableNames(vars) <= entries.Keys)
    decreases |vars|
  {
    if vars != [] {
      if vars[0].Some? && vars[0].value.name !in entries {
        RegisterKeeps(entries[vars[0].value.name := Tree(vars[0].value.value)], vars[1..]);
      } else {
        RegisterKeeps(entries, vars[1..]);
      }
    }
  }

  predicate AllDistinct(vars: Variables) {
    vars != [] ==> (vars[0].Some? ==> Distinct(vars[0].value.value)) && AllDistinct(vars[1..])
  }

  /** Registering the same defaults once more, against any table that has what the first registration
      left, changes nothing and gives every variable the value it got the first time. */
  lemma {:induction false} RegisterAgain(entries: Entries, vars: Variables, later: Entries)
    requires AllDistinct(vars) && Within(Register(entries, vars).entries, later)
    ensures Register(later, vars) == Registered(later, Register(entries, vars).vars, false)
    decreases |vars|
  {
    if vars != [] {
      if vars[0].None? {
        RegisterAgain(entries, vars[1..], later);
      } else {
        var f := vars[0].value;
        var now := if f.name in entries then entries else entries[f.name := Tree(f.value)];
        RegisterKeeps(now, vars[1..]);
        RegisterAgain(now, vars[1..], later);
        assert f.name in now && later[f.name] == now[f.name];
        DistinctIsTyped(f.value);
        ShapeReflexive(f.value);
        ReadUndoesWrite(f.value, f.value);
      }
    }
  }

  /** Every variable ends with what reading its node in the resulting table makes of it, the variables
      just written there included. */
  lemma {:induction false} VariablesAgree(entries: Entries, vars: Variables, i: nat)
    requires AllDistinct(vars) && i < |vars|
    ensures var r := Register(entries, vars);
            && |r.vars| == |vars|
            && (vars[i].None? ==> r.vars[i].None?)
            && (vars[i].Some? ==>
                  var f := vars[i].value;
                  f.name in r.entries
                  && r.vars[i] == Some(Field(f.name, Load(f.value, r.entries[f.name]).value)))
    decreases |vars|
  {
    hide Load, Tree, Distinct;
    var now := AfterFirst(entries, vars[0]);
    FirstRegistered(entries, vars);
    RegisterKeeps(now, vars[1..]);
    if i > 0 {
      VariablesAgree(now, vars[1..], i - 1);
    } else {
      SameLength(now, vars[1..]);
      if vars[0].Some? {
        var f := vars[0].value;
        DefaultReadsBack(f.value);
        assert f.name in now;
      }
    }
  }

  lemma DefaultReadsBack(v: Value)
    requires Distinct(v)
    ensures Load(v, Tree(v)).value == v
  {
    hide Load, Tree, Distinct, Typed, SameShape;
    DistinctIsTyped(v);
    ShapeReflexive(v);
    ReadUndoesWrite(v, v);
  }

  /** The group's entries after its first variable. */
  function AfterFirst(entries: Entries, first: Option<Field>): Entries {
    if first.None? || first.value.name in entries then entries else entries[first.value.name := Tree(first.value.value)]
  }

  lemma FirstRegistered(entries: Entries, vars: Variables)
    requires vars != []
    ensures var r, rest := Register(entries, vars), Register(AfterFirst(entries, vars[0]), vars[1..]);
            && r.entries == rest.entries && |r.vars| == 1 + |rest.vars| && r.vars[1..] == rest.vars
            && (vars[0].None? ==> r.vars[0].None?)
            && (vars[0].Some? ==>
                  var f := vars[0].value;
                  r.vars[0] == if f.name !in entries then vars[0]
                               else Some(Field(f.name, Load(f.value, entries[f.name]).value)))
  {
    hide Load, Tree;
  }

  lemma {:induction false} SameLength(entries: Entries, vars: Variables)
    ensures |Register(entries, vars).vars| == |vars|
    decreases |vars|
  {
    if vars != [] {
      FirstRegistered(entries, vars);
      SameLength(AfterFirst(entries, vars[0]), vars[1..]);
      hide Register;
    }
  }

  /** The i-th variable is a scalar for which the table holds a node of the wrong kind. */
  predicate Misfit(entries: Entries, vars: Variables, i: nat)
    requires i < |vars|
  {
    && vars[i].Some? && IsScalar(vars[i].value.value)
    && vars[i].value.name in entries && !Conforms(vars[i].value.value, entries[vars[i].value.name])
  }

  /** Such a variable keeps its default, and the table keeps the node. */
  lemma MisfitKeepsDefault(entries: Entries, vars: Variables, i: nat)
    requires i < |vars| && Misfit(entries, vars, i)
    ensures var r := Register(entries, vars);
            && |r.vars| == |vars| && r.vars[i] == vars[i] && vars[i].value.name in r.entries
            && r.entries[vars[i].value.name] == entries[vars[i].value.name]
    decreases |vars|
  {
    hide Load, Tree, Conforms, Register;
    RegisterKeeps(entries, vars);
    SameLength(entries, vars);
    FirstRegistered(entries, vars);
    if i > 0 {
      MisfitKeepsDefault(AfterFirst(entries, vars[0]), vars[1..], i - 1);
    } else {
      MisfitIsKept(vars[0].value.value, entries[vars[0].value.name]);
    }
  }

  /** Registering fresh copies of the same variables against the table that registering them left: the
      table stays as it is, nothing is to be written, and every variable gets what it got before. */
  lemma RegistrationIsIdempotent(config: Entries, space: string, name: string, vars: Variables)
    requires AllDistinct(vars)
    ensures var r := Register(GroupEntries(config, space, name), vars);
            var c := WithGroup(config, space, name, r.entries);
            && Register(GroupEntries(c, space, name), vars) == Registered(r.entries, r.vars, false)
            && WithGroup(c, space, name, r.entries) == c
  {
    hide Register, GroupEntries, WithGroup, AllDistinct;
    var entries := GroupEntries(config, space, name);
    var r := Register(entries, vars);
    GroupStored(config, space, name, r.entries);
    RegisterAgain(entries, vars, r.entries);
  }

  // ---- The manager ----

  class ConfigGroup {
    const m_typeIndex: nat
    const m_namespaceName: string
    const m_groupName: string
    var m_typeMapping: Variables

    constructor (typeIndex: nat, space: string, name: string, vars: Variables)
      ensures m_typeIndex == typeIndex && m_namespaceName == space && m_groupName == name
      ensures m_typeMapping == vars
    {
      m_typeIndex, m_namespaceName, m_groupName, m_typeMapping := typeIndex, space, name, vars;
    }
  }

  class ConfigurationManager {
    var m_configTable: Entries
    var m_registeredConfigs: map<nat, ConfigGroup>
    /** What was last written to the configuration file. */
    var m_file: Option<Entries>

    constructor (config: Entries)
      ensures m_configTable == config && m_registeredConfigs == map[] && m_file == None
    {
      m_configTable, m_registeredConfigs, m_file := config, map[], None;
    }

    method RegisterConfigGroup(group: ConfigGroup)
      modifies this, group`m_typeMapping
      ensures group.m_typeIndex in old(m_registeredConfigs) ==>
        && m_configTable == old(m_configTable) && m_registeredConfigs == old(m_registeredConfigs)
        && m_file == old(m_file) && group.m_typeMapping == old(group.m_typeMapping)
      ensures group.m_typeIndex !in old(m_registeredConfigs) ==>
        var space, name := group.m_namespaceName, group.m_groupName;
        var r := Register(GroupEntries(old(m_configTable), space, name), old(group.m_typeMapping));
        && m_registeredConfigs == old(m_registeredConfigs)[group.m_typeIndex := group]
        && m_configTable == WithGroup(old(m_configTable), space, name, r.entries)
        && group.m_typeMapping == r.vars
        && m_file == if r.changed then Some(m_configTable) else old(m_file)
      ensures |group.m_typeMapping| == |old(group.m_typeMapping)|
      ensures var entries := GroupEntries(old(m_configTable), group.m_namespaceName, group.m_groupName);
              forall i :: 0 <= i < |group.m_typeMapping| && Misfit(entries, old(group.m_typeMapping), i) ==>
                            group.m_typeMapping[i] == old(group.m_typeMapping[i])
    {
      hide Register, GroupEntries, WithGroup, RegisteredSoFar, Load, Tree, Misfit;
      if group.m_typeIndex in m_registeredConfigs {
        return;
      }
      m_registeredConfigs := m_registeredConfigs[group.m_typeIndex := group];
      var entries := GroupEntries(m_configTable, group.m_namespaceName, group.m_groupName);
      var configChanged := false;
      ghost var vars := group.m_typeMapping;
      ghost var whole := Register(entries, vars);
      assert vars[0..] == vars && group.m_typeMapping[..0] == [];
      RegisteredNone(whole);
      for i := 0 to |group.m_typeMapping|
        invariant unchanged(this`m_configTable) && unchanged(this`m_file)
        invariant m_registeredConfigs == old(m_registeredConfigs)[group.m_typeIndex := group]
        invariant |group.m_typeMapping| == |vars| && group.m_typeMapping[i..] == vars[i..]
        invariant RegisteredSoFar(whole, group.m_typeMapping[..i], configChanged, Register(entries, vars[i..]))
      {
        ghost var before := group.m_typeMapping;
        assert vars[i] == vars[i..][0] == before[i..][0] && vars[i..][1..] == vars[i + 1..];
        RegisterNext(whole, before[..i], configChanged, entries, vars[i..]);
        if group.m_typeMapping[i].Some? {
          var f := group.m_typeMapping[i].value;
          if f.name !in entries {
            entries := WriteDefault(entries, f);
            configChanged := true;
          } else {
            var value := ReadExisting(entries, f);
            group.m_typeMapping := group.m_typeMapping[i := Some(Field(f.name, value))];
          }
        }
        assert group.m_typeMapping[..i + 1] == before[..i] + [group.m_typeMapping[i]];
        assert group.m_typeMapping[i + 1..] == before[i..][1..];
      }
      assert vars[|vars|..] == [] && group.m_typeMapping[..|vars|] == group.m_typeMapping;
      RegisteredAll(whole, group.m_typeMapping, configChanged, entries);
      MisfitsKeepDefaults(GroupEntries(m_configTable, group.m_namespaceName, group.m_groupName), vars);
      m_configTable := WithGroup(m_configTable, group.m_namespaceName, group.m_groupName, entries);
      if configChanged {
        m_file := Some(m_configTable);
      }
    }
  }

  lemma MisfitsKeepDefaults(entries: Entries, vars: Variables)
    ensures |Register(entries, vars).vars| == |vars|
    ensures forall i :: 0 <= i < |vars| && Misfit(entries, vars, i) ==> Register(entries, vars).vars[i] == vars[i]
  {
    hide Register, Misfit;
    SameLength(entries, vars);
    forall i | 0 <= i < |vars| && Misfit(entries, vars, i)
      ensures Register(entries, vars).vars[i] == vars[i]
    {
      MisfitKeepsDefault(entries, vars, i);
    }
  }

  /** A fresh writer on the group's table adds the variable's tree under its name. */
  method WriteDefault(entries: Entries, f: Field) returns (written: Entries)
    ensures written == entries[f.name := Tree(f.value)]
  {
    var writer := new DefaultWriter(Table(entries));
    WriteValue(writer, f.name, f.value);
    written := writer.root.entries;
  }

  /** A fresh reader on the group's table; a failure shows only in what is left of the value. */
  method ReadExisting(entries: Entries, f: Field) returns (value: Value)
    requires f.name in entries
    ensures value == Load(f.value, entries[f.name]).value
    ensures IsScalar(f.value) && !Conforms(f.value, entries[f.name]) ==> value == f.value
  {
    if IsScalar(f.value) && !Conforms(f.value, entries[f.name]) {
      MisfitIsKept(f.value, entries[f.name]);
    }
    var reader := new ConfigReader(Table(entries));
    value := ReadValue(reader, f.name, f.value);
  }

  lemma RegisteredNone(whole: Registered)
    ensures RegisteredSoFar(whole, [], false, whole)
  {
  }

  lemma RegisteredAll(whole: Registered, done: Variables, changed: bool, entries: Entries)
    requires RegisteredSoFar(whole, done, changed, Register(entries, []))
    ensures whole == Registered(entries, done, changed)
  {
    assert done + [] == done;
  }

  /** The loop has done the first variables, into `done`, and has `rest` before it. */
  ghost predicate RegisteredSoFar(whole: Registered, done: Variables, changed: bool, rest: Registered) {
    whole == Registered(rest.entries, done + rest.vars, changed || rest.changed)
  }

  lemma RegisterNext(whole: Registered, done: Variables, changed: bool, entries: Entries, vars: Variables)
    requires vars != [] && RegisteredSoFar(whole, done, changed, Register(entries, vars))
    ensures vars[0].None? ==> RegisteredSoFar(whole, done + [None], changed, Register(entries, vars[1..]))
    ensures vars[0].Some? ==>
      var f := vars[0].value;
      if f.name in entries then
        RegisteredSoFar(whole, done + [Some(Field(f.name, Load(f.value, entries[f.name]).value))], changed,
                        Register(entries, vars[1..]))
      else
        RegisteredSoFar(whole, done + [vars[0]], true, Register(entries[f.name := Tree(f.value)], vars[1..]))
  {
  }
}
