/** The two OpenStreetMap records the core reads, as the `osmpbfreader` crate
    delivers them (only the parts the core looks at). */
module Osm {
  import opened Wrappers

  /** `osmpbfreader::Node`: its id and its coordinates in degrees. */
  datatype Node = Node(id: int, lat: real, lon: real)

  /** `osmpbfreader::Way`: the ids of its points, in order, and its tags. */
  datatype Way = Way(nodes: seq<int>, tags: map<string, string>)

  /** `tags.get(key)`: the value of a tag, if the way has it. */
  function Tag(w: Way, key: string): Option<string>
  {
    if key in w.tags then Some(w.tags[key]) else None
  }
}
