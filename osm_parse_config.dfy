/** src/osm_parse_config.rs: access rules keyed by travel mode, and speed tables. */
module OsmParseConfig {
  import opened Wrappers
  import opened NetworkType

  /** The three tables `OSMParseConfig::new` stores. */
  datatype OsmParseConfig = OsmParseConfig(
    allowedHighways: map<NetworkType, set<string>>,
    maxSpeed: map<string, u8>,
    defaultWalkingSpeed: u8)
  {
    /** `OSMParseConfig::new`: the tables are stored as given. */
    static function New(allowedHighways: map<NetworkType, set<string>>, maxSpeed: map<string, u8>,
                        defaultWalkingSpeed: u8): (c: OsmParseConfig)
      ensures c.allowedHighways == allowedHighways
      ensures c.maxSpeed == maxSpeed
      ensures c.defaultWalkingSpeed == defaultWalkingSpeed
    {
      OsmParseConfig(allowedHighways, maxSpeed, defaultWalkingSpeed)
    }

    /** `is_allowed`: a travel mode without an entry permits nothing. */
    function IsAllowed(key: NetworkType, value: string): (r: bool)
      ensures r <==> key in allowedHighways && value in allowedHighways[key]
      ensures key !in allowedHighways ==> !r
    {
      value in (if key in allowedHighways then allowedHighways[key] else {})
    }

    function DefaultWalkingSpeed(): (r: u8)
      ensures r == defaultWalkingSpeed
    {
      defaultWalkingSpeed
    }

    /** `default_speed`: the street type's entry, else the "unknown" entry;
        `None` stands for the panic when "unknown" is missing too. */
    function DefaultSpeed(streetType: string): (r: Option<u8>)
      ensures streetType in maxSpeed ==> r == Some(maxSpeed[streetType])
      ensures streetType !in maxSpeed && "unknown" in maxSpeed ==> r == Some(maxSpeed["unknown"])
      ensures r.None? <==> streetType !in maxSpeed && "unknown" !in maxSpeed
    {
      if streetType in maxSpeed then Some(maxSpeed[streetType])
      else if "unknown" in maxSpeed then Some(maxSpeed["unknown"])
      else None
    }
  }

  /** A street type missing from the table is priced exactly like "unknown". */
  lemma DefaultSpeedFallsBackToUnknown(c: OsmParseConfig, streetType: string)
    requires streetType !in c.maxSpeed
    ensures c.DefaultSpeed(streetType) == c.DefaultSpeed("unknown")
  {
  }
}
