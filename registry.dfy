/** The registry the facade keeps its groups in: a finite map from names to
    values whose insert refuses a name that is already present and whose
    lookup answers "none" on a miss. */
module Registries {
  import opened Wrappers
  import opened Types

  /** Registry::DuplicateKey. */
  datatype RegistryError = DuplicateKey(key: Name)

  class Registry<V(==)> {
    var entries: map<Name, V>

    constructor ()
      ensures entries == map[]
    {
      entries := map[];
    }

    /** Stores `value` under a new `key`; an existing key is refused and the
        registry is left as it was. */
    method Add(key: Name, value: V) returns (r: Outcome<RegistryError>)
      modifies this
      ensures r.Fail? <==> key in old(entries)
      ensures r.Fail? ==> r.error == DuplicateKey(key) && entries == old(entries)
      ensures r.Pass? ==> entries == old(entries)[key := value]
    {
      if key in entries {
        r := Fail(DuplicateKey(key));
      } else {
        entries := entries[key := value];
        r := Pass;
      }
    }

    /** The value stored under `key`, or None when there is none. */
    method Get(key: Name) returns (r: Option<V>)
      ensures r.Some? <==> key in entries
      ensures r.Some? ==> r.value == entries[key]
    {
      if key in entries {
        r := Some(entries[key]);
      } else {
        r := None;
      }
    }

    method HasKey(key: Name) returns (b: bool)
      ensures b <==> key in entries
    {
      b := key in entries;
    }

    method Keys() returns (ks: set<Name>)
      ensures forall k :: k in ks <==> k in entries
    {
      ks := entries.Keys;
    }

    /** Every stored value, each once, and nothing else. */
    method Values() returns (vs: set<V>)
      ensures forall v :: v in vs <==> exists k :: k in entries && entries[k] == v
    {
      vs := entries.Values;
    }

    method Clear()
      modifies this
      ensures entries == map[]
    {
      entries := map[];
    }
  }
}
