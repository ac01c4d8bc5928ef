/** Values the facade stores and hands out but whose classes are not part of
    this model: group names, predicate blocks, groups and adapters. */
module Types {
  import opened Wrappers

  /** A group name (a Ruby Symbol in the source). */
  type Name = string

  /** Stands for the block given to `register`. The model tells two blocks
      apart but never evaluates one. */
  datatype Block = Block(id: nat)

  /** Types::Group: a name and the predicate block, which is absent for the
      placeholder group returned by a lookup that misses. */
  datatype Group = Group(name: Name, block: Option<Block>)

  /** Stands for the adapter object passed to `default_adapter=`. */
  datatype Adapter = Adapter(id: nat)
}
