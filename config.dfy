/** src/config.rs: access rules and speed tables, keyed by strings. */
module Config {
  import opened Wrappers

  /** The three tables `Config::new` stores: permitted highway values per key,
      the default speed per highway value, and one default walking speed. */
  datatype Config = Config(
    allowedHighways: map<string, set<string>>,
    maxSpeed: map<string, u8>,
    defaultWalkingSpeed: u8)
  {
    /** `Config::new`: the tables are stored as given. */
    static function New(allowedHighways: map<string, set<string>>, maxSpeed: map<string, u8>,
                        defaultWalkingSpeed: u8): (c: Config)
      ensures c.allowedHighways == allowedHighways
      ensures c.maxSpeed == maxSpeed
      ensures c.defaultWalkingSpeed == defaultWalkingSpeed
    {
      Config(allowedHighways, maxSpeed, defaultWalkingSpeed)
    }

    /** `is_allowed`: a missing key behaves as an empty set. */
    function IsAllowed(key: string, value: string): (r: bool)
      ensures r <==> key in allowedHighways && value in allowedHighways[key]
      ensures key !in allowedHighways ==> !r
    {
      value in (if key in allowedHighways then allowedHighways[key] else {})
    }

    function DefaultWalkingSpeed(): (r: u8)
      ensures r == defaultWalkingSpeed
    {
      defaultWalkingSpeed
    }

    /** `default_speed`: the street type's entry, else the "unknown" entry;
        `None` stands for the panic when "unknown" is missing too. */
    function DefaultSpeed(streetType: string): (r: Option<u8>)
      ensures streetType in maxSpeed ==> r == Some(maxSpeed[streetType])
      ensures streetType !in maxSpeed && "unknown" in maxSpeed ==> r == Some(maxSpeed["unknown"])
      ensures r.None? <==> streetType !in maxSpeed && "unknown" !in maxSpeed
    {
      if streetType in maxSpeed then Some(maxSpeed[streetType])
      else if "unknown" in maxSpeed then Some(maxSpeed["unknown"])
      else None
    }
  }

  /** A street type missing from the table is priced exactly like "unknown". */
  lemma DefaultSpeedFallsBackToUnknown(c: Config, streetType: string)
    requires streetType !in c.maxSpeed
    ensures c.DefaultSpeed(streetType) == c.DefaultSpeed("unknown")
  {
  }
}
