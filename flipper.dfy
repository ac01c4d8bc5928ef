/** The module-level state of the Flipper facade: the default adapter, the
    memoised default DSL instance and the registry of named groups. */
module Flipper {
  import opened Wrappers
  import opened Types
  import opened Registries

  /** The two errors the facade raises itself. */
  datatype Error =
    | DefaultAdapterNotSet
    | DuplicateGroup(name: Name)

  /** Stands for the DSL object built from an adapter; it is a class so that
      "the same instance" means the same object, as it does in the source. */
  class Dsl {
    const adapter: Adapter

    constructor (adapter: Adapter)
      ensures this.adapter == adapter
    {
      this.adapter := adapter;
    }
  }

  // ---------------------------------------------------------------------
  // The group table as a value: what `register`, `group` and the views do
  // to the map from names to groups that the registry holds.
  // ---------------------------------------------------------------------

  /** Every entry is stored under its own group's name, as `register` keys it. */
  ghost predicate KeyedByName(m: map<Name, Group>)
  {
    forall n :: n in m ==> m[n].name == n
  }

  /** The names carried by a set of groups (`groups.map(&:name)`). */
  ghost function NamesOf(gs: set<Group>): set<Name>
  {
    set g | g in gs :: g.name
  }

  /** What `register(name, &block)` answers on table `m`. */
  function RegisterOutcome(m: map<Name, Group>, name: Name, block: Option<Block>): Result<Group, Error>
  {
    if name in m then Failure(DuplicateGroup(name)) else Success(Group(name, block))
  }

  /** The table after `register(name, &block)` on table `m`. */
  function Registered(m: map<Name, Group>, name: Name, block: Option<Block>): map<Name, Group>
  {
    if name in m then m else m[name := Group(name, block)]
  }

  /** What `group(name)` answers on table `m`: the registered group, or a
      placeholder group with that name and no block. */
  function Lookup(m: map<Name, Group>, name: Name): Group
  {
    if name in m then m[name] else Group(name, None)
  }

  /** One call of `register` in a series of them. */
  datatype Registration = Registration(name: Name, block: Option<Block>)

  /** The table after registering `regs` in order, each failed call leaving
      the table as it was. */
  ghost function RegisterEach(m: map<Name, Group>, regs: seq<Registration>): map<Name, Group>
    decreases |regs|
  {
    if regs == [] then m
    else RegisterEach(Registered(m, regs[0].name, regs[0].block), regs[1..])
  }

  // ---------------------------------------------------------------------
  // The facade's own state.
  // ---------------------------------------------------------------------

  /** The Flipper module object: `@default_adapter`, `@instance` and
      `@groups_registry`, each nil (None or null) until first set. */
  class Facade {
    var defaultAdapter: Option<Adapter>
    var instance: Dsl?
    var groupsRegistry: Registry?<Group>

    constructor ()
      ensures defaultAdapter == None && instance == null && groupsRegistry == null
    {
      defaultAdapter := None;
      instance := null;
      groupsRegistry := null;
    }

    /** The group table; a registry not yet created reads as empty. */
    ghost function Entries(): map<Name, Group>
      reads this, groupsRegistry
    {
      if groupsRegistry == null then map[] else groupsRegistry.entries
    }

    /** After `groups_registry`: a registry is installed, the old one if there
        was one and a fresh one otherwise. */
    twostate predicate RegistryInstalled()
      reads this
    {
      && groupsRegistry != null
      && (old(groupsRegistry) != null ==> groupsRegistry == old(groupsRegistry))
      && (old(groupsRegistry) == null ==> fresh(groupsRegistry))
    }

    /** `default_adapter`: the adapter last assigned, or DefaultAdapterNotSet. */
    method DefaultAdapter() returns (r: Result<Adapter, Error>)
      ensures defaultAdapter.None? <==> r == Failure(DefaultAdapterNotSet)
      ensures defaultAdapter.Some? ==> r == Success(defaultAdapter.value)
    {
      match defaultAdapter
      case None => r := Failure(DefaultAdapterNotSet);
      case Some(a) => r := Success(a);
    }

    /** `default_adapter=`; assigning nil (None) makes it unset again. */
    method SetDefaultAdapter(adapter: Option<Adapter>)
      modifies this`defaultAdapter
      ensures defaultAdapter == adapter
    {
      defaultAdapter := adapter;
    }

    /** `instance`: built from the default adapter on the first call that
        finds one, and the same object on every call after that. */
    method Instance() returns (r: Result<Dsl, Error>)
      modifies this`instance
      ensures old(instance) != null ==> r == Success(old(instance)) && instance == old(instance)
      ensures old(instance) == null && defaultAdapter.None? ==>
                r == Failure(DefaultAdapterNotSet) && instance == null
      ensures old(instance) == null && defaultAdapter.Some? ==>
                && r.Success? && fresh(r.value) && r.value.adapter == defaultAdapter.value
                && instance == r.value
    {
      if instance != null {
        r := Success(instance);
      } else {
        var adapter := DefaultAdapter();
        match adapter
        case Failure(e) =>
          r := Failure(e);
        case Success(a) =>
          var dsl := new Dsl(a);
          instance := dsl;
          r := Success(dsl);
      }
    }

    /** `groups_registry`: created empty on first use. */
    method GroupsRegistry() returns (registry: Registry<Group>)
      modifies this`groupsRegistry
      ensures RegistryInstalled() && registry == groupsRegistry
      ensures Entries() == old(Entries())
    {
      if groupsRegistry == null {
        groupsRegistry := new Registry<Group>();
      }
      registry := groupsRegistry;
    }

    /** `groups_registry=`; assigning nil (null) makes the next use create a
        fresh empty registry. */
    method SetGroupsRegistry(registry: Registry?<Group>)
      modifies this`groupsRegistry
      ensures groupsRegistry == registry
    {
      groupsRegistry := registry;
    }

    /** `register(name, &block)`: adds a group under a new name; a name
        already registered fails with DuplicateGroup and changes nothing. */
    method Register(name: Name, block: Option<Block>) returns (r: Result<Group, Error>)
      modifies this`groupsRegistry, groupsRegistry
      ensures RegistryInstalled()
      ensures r == RegisterOutcome(old(Entries()), name, block)
      ensures Entries() == Registered(old(Entries()), name, block)
    {
      var group := Types.Group(name, block);
      var registry := GroupsRegistry();
      var added := registry.Add(group.name, group);
      match added
      case Fail(_) => r := Failure(DuplicateGroup(name));
      case Pass => r := Success(group);
    }

    /** `groups`: the set of registered groups. */
    method Groups() returns (gs: set<Group>)
      modifies this`groupsRegistry
      ensures RegistryInstalled() && Entries() == old(Entries())
      ensures gs == Entries().Values
    {
      var registry := GroupsRegistry();
      gs := registry.Values();
    }

    /** `group_names`: the set of registered names, which are the names of
        the registered groups while every entry is keyed by its group's name. */
    method GroupNames() returns (names: set<Name>)
      modifies this`groupsRegistry
      ensures RegistryInstalled() && Entries() == old(Entries())
      ensures names == Entries().Keys
      ensures KeyedByName(Entries()) ==> names == NamesOf(Entries().Values)
    {
      var registry := GroupsRegistry();
      names := registry.Keys();
      if KeyedByName(Entries()) {
        NamesOfGroups(Entries());
      }
    }

    /** `unregister_groups`: empties the registry in place. */
    method UnregisterGroups()
      modifies this`groupsRegistry, groupsRegistry
      ensures RegistryInstalled()
      ensures Entries() == map[]
    {
      var registry := GroupsRegistry();
      registry.Clear();
    }

    /** `group_exists?(name)`. */
    method GroupExists(name: Name) returns (b: bool)
      modifies this`groupsRegistry
      ensures RegistryInstalled() && Entries() == old(Entries())
      ensures b <==> name in Entries()
    {
      var registry := GroupsRegistry();
      b := registry.HasKey(name);
    }

    /** `group(name)`: the registered group, or a placeholder; never fails
        and never adds anything. */
    method Group(name: Name) returns (g: Types.Group)
      modifies this`groupsRegistry
      ensures RegistryInstalled() && Entries() == old(Entries())
      ensures g == Lookup(Entries(), name)
    {
      var registry := GroupsRegistry();
      var found := registry.Get(name);
      match found
      case Some(existing) => g := existing;
      case None => g := Types.Group(name, None);
    }
  }

  // ---------------------------------------------------------------------
  // Properties of the group table.
  // ---------------------------------------------------------------------

  /** `group_names` equals the names of `groups` for a table keyed by name. */
  lemma NamesOfGroups(m: map<Name, Group>)
    requires KeyedByName(m)
    ensures m.Keys == NamesOf(m.Values)
  {
    forall n | n in m.Keys ensures n in NamesOf(m.Values) {
      assert m[n] in m.Values;
    }
  }

  /** Registering a new name adds exactly that group: `register` returns it,
      `group_exists?` and `group` then find it, and no other entry changes. */
  lemma RegisterNewName(m: map<Name, Group>, name: Name, block: Option<Block>)
    requires name !in m
    ensures RegisterOutcome(m, name, block) == Success(Group(name, block))
    ensures name in Registered(m, name, block)
    ensures Lookup(Registered(m, name, block), name) == RegisterOutcome(m, name, block).value
    ensures Registered(m, name, block).Keys == m.Keys + {name}
    ensures forall n :: n in m ==> Registered(m, name, block)[n] == m[n]
  {
  }

  /** Registering a name already present fails with DuplicateGroup and leaves
      the table, and so the group `group` finds, as they were. */
  lemma RegisterExistingName(m: map<Name, Group>, name: Name, block: Option<Block>)
    requires name in m
    ensures RegisterOutcome(m, name, block) == Failure(DuplicateGroup(name))
    ensures Registered(m, name, block) == m
    ensures Lookup(Registered(m, name, block), name) == m[name]
  {
  }

  /** A lookup that misses answers a placeholder carrying the asked name. */
  lemma LookupMiss(m: map<Name, Group>, name: Name)
    requires name !in m
    ensures Lookup(m, name) == Group(name, None)
  {
  }

  /** Whatever `group` answers carries the asked name, provided the table is
      keyed by name. */
  lemma LookupCarriesName(m: map<Name, Group>, name: Name)
    requires KeyedByName(m)
    ensures Lookup(m, name).name == name
  {
  }

  /** `register` keeps every entry keyed by its group's name. */
  lemma RegisteredKeyedByName(m: map<Name, Group>, name: Name, block: Option<Block>)
    requires KeyedByName(m)
    ensures KeyedByName(Registered(m, name, block))
  {
  }

  /** A series of registrations never changes an entry already present. */
  lemma {:induction false} RegisterEachKeeps(m: map<Name, Group>, regs: seq<Registration>, n: Name)
    requires n in m
    ensures n in RegisterEach(m, regs) && RegisterEach(m, regs)[n] == m[n]
    decreases |regs|
  {
    if regs != [] {
      RegisterEachKeeps(Registered(m, regs[0].name, regs[0].block), regs[1..], n);
    }
  }

  /** In a series of registrations the first one of a new name is the one
      that stays: later calls with the same name fail and change nothing. */
  lemma {:induction false} FirstRegistrationWins(m: map<Name, Group>, regs: seq<Registration>, i: nat)
    requires i < |regs| && regs[i].name !in m
    requires forall j :: 0 <= j < i ==> regs[j].name != regs[i].name
    ensures regs[i].name in RegisterEach(m, regs)
    ensures RegisterEach(m, regs)[regs[i].name] == Group(regs[i].name, regs[i].block)
    decreases i
  {
    var m' := Registered(m, regs[0].name, regs[0].block);
    if i == 0 {
      RegisterEachKeeps(m', regs[1..], regs[0].name);
    } else {
      assert regs[1..][i - 1] == regs[i];
      FirstRegistrationWins(m', regs[1..], i - 1);
    }
  }

  /** A series of registrations names exactly the old names plus the
      registered ones, and keeps the table keyed by name. */
  lemma {:induction false} RegisterEachNames(m: map<Name, Group>, regs: seq<Registration>)
    requires KeyedByName(m)
    ensures RegisterEach(m, regs).Keys == m.Keys + set j | 0 <= j < |regs| :: regs[j].name
    ensures KeyedByName(RegisterEach(m, regs))
    decreases |regs|
  {
    if regs != [] {
      var m' := Registered(m, regs[0].name, regs[0].block);
      RegisterEachNames(m', regs[1..]);
      var rest := set j | 0 <= j < |regs[1..]| :: regs[1..][j].name;
      var all := set j | 0 <= j < |regs| :: regs[j].name;
      assert all == {regs[0].name} + rest by {
        forall x | x in all ensures x in {regs[0].name} + rest {
          var j :| 0 <= j < |regs| && regs[j].name == x;
          if j > 0 { assert regs[1..][j - 1].name == x; }
        }
        forall x | x in rest ensures x in all {
          var j :| 0 <= j < |regs[1..]| && regs[1..][j].name == x;
          assert regs[j + 1].name == x;
        }
      }
    }
  }

  // ---------------------------------------------------------------------
  // Several calls on one facade.
  // ---------------------------------------------------------------------

  /** Registering a name twice: the second call fails, and the first group
      is still the one `group` finds and `group_exists?` reports. */
  method RegisterTwice(f: Facade, name: Name, first: Block, second: Block)
    returns (r1: Result<Group, Error>, r2: Result<Group, Error>, found: Group)
    requires name !in f.Entries()
    modifies f, f.groupsRegistry
    ensures r1 == Success(Group(name, Some(first)))
    ensures r2 == Failure(DuplicateGroup(name))
    ensures found == Group(name, Some(first))
    ensures f.Entries() == old(f.Entries())[name := Group(name, Some(first))]
  {
    r1 := f.Register(name, Some(first));
    r2 := f.Register(name, Some(second));
    found := f.Group(name);
  }

  /** After `unregister_groups`, once or twice, there are no groups, no names,
      and every lookup is a placeholder. */
  method UnregisterTwice(f: Facade, name: Name)
    returns (gs: set<Group>, names: set<Name>, present: bool, found: Group)
    modifies f, f.groupsRegistry
    ensures gs == {} && names == {} && !present && found == Group(name, None)
  {
    f.UnregisterGroups();
    f.UnregisterGroups();
    gs := f.Groups();
    names := f.GroupNames();
    present := f.GroupExists(name);
    found := f.Group(name);
  }

  /** `default_adapter` answers the value most recently assigned, and fails
      again once nil is assigned. */
  method DefaultAdapterFollowsAssignment(f: Facade, a: Adapter, b: Adapter)
    returns (r1: Result<Adapter, Error>, r2: Result<Adapter, Error>, r3: Result<Adapter, Error>)
    modifies f
    ensures r1 == Success(a) && r2 == Success(b) && r3 == Failure(DefaultAdapterNotSet)
  {
    f.SetDefaultAdapter(Some(a));
    r1 := f.DefaultAdapter();
    f.SetDefaultAdapter(Some(b));
    r2 := f.DefaultAdapter();
    f.SetDefaultAdapter(None);
    r3 := f.DefaultAdapter();
  }

  /** `instance` fails while no adapter is set, is then built from the
      adapter set, and stays the same object when the adapter changes. */
  method InstanceIsMemoised(f: Facade, a: Adapter, b: Adapter)
    returns (r0: Result<Dsl, Error>, r1: Result<Dsl, Error>, r2: Result<Dsl, Error>)
    requires f.instance == null && f.defaultAdapter == None
    modifies f
    ensures r0 == Failure(DefaultAdapterNotSet)
    ensures r1.Success? && r1.value.adapter == a
    ensures r2 == r1
  {
    r0 := f.Instance();
    f.SetDefaultAdapter(Some(a));
    r1 := f.Instance();
    f.SetDefaultAdapter(Some(b));
    r2 := f.Instance();
  }
}
