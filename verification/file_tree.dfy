/** Directory trees as both scripts see them through `readdirSync` and
    `statSync`: each listing is an ordered sequence of named entries, and
    a path is the sequence of names leading from the starting directory. */
module FileTree {

  /** A path as the list of its components; `path.join(dir, name)` is
      `dir + [name]`. */
  type Path = seq<string>

  /** One directory entry, in listing order. `statSync` tells regular files
      (`isFile()`) and directories (`isDirectory()`) apart from everything
      else (sockets, FIFOs, devices), which is `Special` here. */
  datatype Entry =
    | File(name: string)
    | Special(name: string)
    | Dir(name: string, children: seq<Entry>)

  /** The names in a listing are pairwise distinct, as they are in any one
      directory. */
  predicate DistinctNames(listing: seq<Entry>)
  {
    forall a, b :: 0 <= a < b < |listing| ==> listing[a].name != listing[b].name
  }
}
