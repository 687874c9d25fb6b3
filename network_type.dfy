/** src/network_type.rs: the travel mode a graph is built for, and its names. */
module NetworkType {
  import opened Wrappers

  datatype NetworkType = Pedestrian | Car | Bicycle

  /** `get_network_type`: long and one-letter names; `None` stands for the panic
      on any other string. */
  function GetNetworkType(name: string): (r: Option<NetworkType>)
    ensures r == Some(Pedestrian) <==> name == "pedestrian" || name == "p"
    ensures r == Some(Car) <==> name == "car" || name == "c"
    ensures r == Some(Bicycle) <==> name == "bicycle" || name == "b"
    ensures r.None? <==> name !in {"pedestrian", "p", "car", "c", "bicycle", "b"}
  {
    if name == "pedestrian" || name == "p" then Some(Pedestrian)
    else if name == "car" || name == "c" then Some(Car)
    else if name == "bicycle" || name == "b" then Some(Bicycle)
    else None
  }

  /** `short_network_type` as written: its first arm `Pedestrian => "p"` names no
      variant in scope, so it is a binding pattern that matches every value and the
      other arms are never reached. */
  function ShortNetworkTypeAsWritten(t: NetworkType): (r: string)
    ensures |r| == 1
  {
    match t
    case _ => "p"
  }

  /** The evident intent of `short_network_type`: each variant's one-letter name. */
  function ShortNetworkType(t: NetworkType): (r: string)
    ensures |r| == 1
  {
    match t
    case Pedestrian => "p"
    case Car => "c"
    case Bicycle => "b"
  }

  /** As written, the short name of every travel mode reads back as Pedestrian:
      `Car` and `Bicycle` do not survive the round trip. */
  lemma ShortNetworkTypeAsWrittenCollapses(t: NetworkType)
    ensures GetNetworkType(ShortNetworkTypeAsWritten(t)) == Some(Pedestrian)
    ensures t != Pedestrian ==> GetNetworkType(ShortNetworkTypeAsWritten(t)) != Some(t)
  {
  }

  /** The corrected short name reads back as the travel mode it came from. */
  lemma ShortNetworkTypeRoundTrip(t: NetworkType)
    ensures GetNetworkType(ShortNetworkType(t)) == Some(t)
  {
  }
}
