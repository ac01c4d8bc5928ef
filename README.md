# Flipper facade: default adapter, memoised instance and group registry

This project models the module-level state of the `Flipper` facade in
`lib/flipper.rb`, the entry point of the Flipper feature-flag library.

- **Default adapter and instance.** `default_adapter` fails with
  `DefaultAdapterNotSet` until an adapter has been assigned. `instance` builds
  the default DSL object from that adapter once and then returns the same
  object on every later call.
- **Group registry.** A process-wide table of named groups. `register` adds a
  group under a new name and turns the registry's `DuplicateKey` into
  `DuplicateGroup`. `group` falls back to a placeholder group on a miss.
  `groups`, `group_names` and `group_exists?` are read-only views, and
  `unregister_groups` clears the table. The registry object is created lazily
  and can be replaced.

Layout:

- `wrappers.dfy`: `Option`, `Result` and `Outcome`. Raised exceptions are returned as values.
- `types.dfy`: names, predicate blocks, `Types::Group` and adapters as opaque values.
- `registry.dfy`: `Registries.Registry<V>`, the name-to-value table the facade relies on.
- `flipper.dfy`: the facade and its proofs.
  - `Flipper.Facade` is a class holding `@default_adapter`, `@instance` and `@groups_registry`.
  - Specification functions (`RegisterOutcome`, `Registered`, `Lookup`) say what each registry operation does to the table as a map.
  - Lemmas about those functions.
  - Client methods that state what a sequence of calls on one facade yields.

Every facade query calls `groups_registry`, and `groups_registry` may create the
registry. So each query method may change the `groupsRegistry` field. Each one
promises that the group table (`Entries()`) is left unchanged.

## Model

| member | source | states |
|---|---|---|
| Registries.Registry.constructor | lib/flipper.rb:104 | a new registry is empty |
| Registries.Registry.Add | lib/flipper.rb:57-60 | fails with DuplicateKey exactly when the key is present, and then leaves the entries unchanged; otherwise stores the value under the key |
| Registries.Registry.Get | lib/flipper.rb:99 | answers the stored value when the key is present and None exactly when it is absent |
| Registries.Registry.HasKey | lib/flipper.rb:86 | true exactly when the key is present |
| Registries.Registry.Keys | lib/flipper.rb:72 | contains exactly the present keys |
| Registries.Registry.Values | lib/flipper.rb:65 | contains exactly the values stored under some key |
| Registries.Registry.Clear | lib/flipper.rb:79 | leaves no entries |
| Flipper.Facade.constructor | lib/flipper.rb:20-30 | starts with no default adapter, no instance and no registry object |
| Flipper.Facade.DefaultAdapter | lib/flipper.rb:20-22 | fails with DefaultAdapterNotSet exactly when no adapter is set, and otherwise answers the adapter set |
| Flipper.Facade.SetDefaultAdapter | lib/flipper.rb:24-26 | the adapter becomes the value assigned; assigning nil unsets it |
| Flipper.Facade.Instance | lib/flipper.rb:28-30 | answers the memoised object if there is one; otherwise fails with DefaultAdapterNotSet and memoises nothing when no adapter is set, or builds a fresh object from the default adapter and memoises it |
| Flipper.Facade.GroupsRegistry | lib/flipper.rb:103-105 | answers the installed registry, or installs a fresh empty one; the group table is unchanged |
| Flipper.Facade.SetGroupsRegistry | lib/flipper.rb:108-110 | the registry object becomes the one assigned, possibly shared with the caller, or nil |
| Flipper.Facade.Register | lib/flipper.rb:55-61 | answers DuplicateGroup for a name already registered and the new group otherwise; the table becomes `Registered` of the old table |
| Flipper.Facade.Groups | lib/flipper.rb:64-66 | answers exactly the set of registered groups; the table is unchanged |
| Flipper.Facade.GroupNames | lib/flipper.rb:68-73 | answers exactly the registered names; when every entry is keyed by its group's name, these are the names of the registered groups; the table is unchanged |
| Flipper.Facade.UnregisterGroups | lib/flipper.rb:75-80 | the table becomes empty, in the registry object already installed if there is one |
| Flipper.Facade.GroupExists | lib/flipper.rb:82-87 | true exactly when the name is registered; the table is unchanged |
| Flipper.Facade.Group | lib/flipper.rb:89-100 | answers `Lookup` of the table: the registered group, or a placeholder with that name and no block; never fails and the table is unchanged |
| Flipper.NamesOfGroups | lib/flipper.rb:68-73 | for a table keyed by group name, the key set equals the set of names of the stored groups |
| Flipper.RegisterNewName | lib/flipper.rb:55-58 | for a new name: register answers the new group, the name then exists, lookup finds that same group, exactly one key is added, and no other entry changes |
| Flipper.RegisterExistingName | lib/flipper.rb:54-60 | for a registered name: register answers DuplicateGroup(name), the table is unchanged, and lookup still finds the first group |
| Flipper.LookupMiss | lib/flipper.rb:98-99 | a lookup of an unregistered name answers a placeholder carrying that name and no block |
| Flipper.LookupCarriesName | lib/flipper.rb:57 | on a table keyed by name, every lookup answers a group whose name is the name asked |
| Flipper.RegisteredKeyedByName | lib/flipper.rb:56-57 | register keeps every entry keyed by its own group's name |
| Flipper.RegisterEachKeeps | lib/flipper.rb:57-60 | no series of register calls changes an entry that is already present |
| Flipper.FirstRegistrationWins | lib/flipper.rb:54-60 | in a series of register calls, the first call with a new name fixes that name's group for good |
| Flipper.RegisterEachNames | lib/flipper.rb:55-57 | after a series of register calls the names are the old names plus those registered, and the table stays keyed by name |
| Flipper.RegisterTwice | lib/flipper.rb:54-100 | registering a new name twice: the first call succeeds, the second fails with DuplicateGroup, and group then answers the first group |
| Flipper.UnregisterTwice | lib/flipper.rb:64-100 | after unregister_groups twice: groups and group_names are empty, group_exists? is false, and group answers a placeholder |
| Flipper.DefaultAdapterFollowsAssignment | lib/flipper.rb:20-26 | default_adapter answers the adapter most recently assigned, and fails again after nil is assigned |
| Flipper.InstanceIsMemoised | lib/flipper.rb:20-30 | instance fails while no adapter is set; it is then built from the adapter set, and it is the same object after the adapter is changed |

## Left out

- `def_delegators` (lib/flipper.rb:32-39) forwards calls to the DSL object. The DSL (`lib/flipper/dsl.rb`) is not part of this model.
- `Flipper.new` / `DSL.new` (lib/flipper.rb:16-18): `Flipper.Dsl` only records the adapter it was built from. The options hash (always empty from `instance`) and the DSL's own behaviour are not modelled.
- The text of the exception messages (lib/flipper.rb:21, 60) is not modelled. That text uses Ruby's `inspect`. The errors are the values `DefaultAdapterNotSet` and `DuplicateGroup(name)`.
- `InstrumentationNamespace` (lib/flipper.rb:8) is used only by instrumentation code, which is not part of this model.
- Group predicate blocks are never evaluated. `Types.Block` only identifies a block.
- `Types::Group` and `Registry` (`lib/flipper/types/group.rb`, `lib/flipper/registry.rb`) are not part of this model. Any name normalisation they do (such as converting to a Symbol) is not modelled. A group's name is the name given to `register`.
- Registries.Registry.Keys and Registries.Registry.Values: both answer sets. The source's `keys` and `values` give arrays. Their order is not modelled because the facade discards it with `to_set`.
- Flipper.Facade.Groups: two groups are the same set member when their name and block are equal. The equality that Ruby's `Set` applies to `Types::Group` objects is not visible, so it is not modelled.
- Flipper.Facade.Group: the placeholder for a miss is a value. In the source each miss builds a new object, so two placeholders for one name are not the same object there.
- Flipper.Facade.DefaultAdapter: `None` stands for both nil and false. In the source either value makes `@default_adapter ||` raise.
- The registry's mutex and the thread safety of the `||=` memoisation are not modelled. Every operation is modelled as a sequential step.
- `lib/flipper/cli.rb` (command-line help layout) is not modelled.
- Gates, features, percentage bucketing, adapters and typecasting are not modelled (required at lib/flipper.rb:113-121). Their source is not part of this model.
