/** A directory as a tree of named nodes. */
module FileTree {
  import opened Bytes
  import opened Options

  /** A path by its components between slashes. */
  type Path = seq<string>

  datatype Node = File(content: Bytes, executable: bool) | Link(target: string) | Special | Dir(entries: seq<Named>)

  /** A directory entry; a listing is sorted by name. */
  datatype Named = Named(name: string, node: Node)

  /** Names are distinct in every directory. */
  ghost predicate WellNamed(entries: seq<Named>) {
    && (forall i, j | 0 <= i < j < |entries| :: entries[i].name != entries[j].name)
    && (forall i | 0 <= i < |entries| :: entries[i].node.Dir? ==> WellNamed(entries[i].node.entries))
  }

  /** The node at a path, if there is one. */
  function NodeAt(entries: seq<Named>, path: Path): Option<Node>
    decreases |path|, |entries|
  {
    if path == [] || entries == [] then None
    else if entries[0].name != path[0] then NodeAt(entries[1..], path)
    else if |path| == 1 then Some(entries[0].node)
    else if entries[0].node.Dir? then NodeAt(entries[0].node.entries, path[1..])
    else None
  }
}
