/** src/osm_convert.rs: turning the filtered OpenStreetMap nodes and ways into
    the road graph, and reading a way's `maxspeed` tag. */
module OsmConvert {
  import opened Wrappers
  import opened Util
  import opened Config
  import opened Osm
  import opened Graph

  // ---------------------------------------------------------------------------
  // Decimal numbers

  /** The characters `keep_characters` keeps when a speed is read. */
  const Digits: string := "0123456789"

  predicate IsDigit(c: char)
  {
    '0' <= c <= '9'
  }

  predicate AllDigits(s: string)
  {
    forall i :: 0 <= i < |s| ==> IsDigit(s[i])
  }

  /** The value of a string of decimal digits (0 for the empty string). */
  function DigitsValue(s: string): nat
    requires AllDigits(s)
  {
    if s == [] then 0 else 10 * DigitsValue(s[..|s| - 1]) + (s[|s| - 1] as int - '0' as int)
  }

  /** The shortest decimal rendering of `n`. */
  function ToDecimal(n: nat): (r: string)
    ensures |r| > 0 && AllDigits(r)
  {
    if n < 10 then ['0' + n as char] else ToDecimal(n / 10) + ['0' + (n % 10) as char]
  }

  /** `str::parse::<u8>`: an optional leading `+`, then at least one decimal digit,
      and a value that fits in a byte. */
  function ParseU8(s: string): (r: Option<u8>)
    ensures r.Some? ==> |s| > 0 && (s[0] == '+' || IsDigit(s[0])) && IsDigit(s[|s| - 1])
    ensures r.Some? ==> forall i :: 0 < i < |s| ==> IsDigit(s[i])
    ensures AllDigits(s) && 0 < |s| && DigitsValue(s) < 256 ==> r == Some(DigitsValue(s))
  {
    var digits := if |s| > 0 && s[0] == '+' then s[1..] else s;
    if |digits| > 0 && AllDigits(digits) && DigitsValue(digits) < 256 then Some(DigitsValue(digits)) else None
  }

  /** `p` occurs in `s` starting at index `i`. */
  predicate OccursAt(s: string, p: string, i: nat)
  {
    i + |p| <= |s| && s[i..i + |p|] == p
  }

  /** `str::contains`. */
  predicate Contains(s: string, p: string): (r: bool)
    ensures r ==> |p| <= |s| && forall k :: 0 <= k < |p| ==> p[k] in s
    ensures p == [] ==> r
  {
    assert p == [] ==> OccursAt(s, p, 0);
    exists i: nat | i <= |s| :: OccursAt(s, p, i)
  }

  /** `(digits * 1.609344) as u8`: truncated toward zero and saturated at 255. */
  function MphToKmh(n: nat): (r: u8)
    ensures r < 255 ==> r * 1000000 <= n * 1609344 < (r + 1) * 1000000
    ensures r == 255 <==> n * 1609344 >= 255 * 1000000
  {
    var kmh := n * 1609344 / 1000000;
    if kmh > 255 then 255 else kmh
  }

  // ---------------------------------------------------------------------------
  // parse_speed

  /** The panics of `parse_speed`: no default speed for the street type nor for
      "unknown"; a unit without digits; a km/h value that is not a byte. */
  datatype SpeedError =
    | NoDefaultSpeed(streetType: string)
    | NoDigits(speed: string)
    | SpeedOutOfRange(speed: string)

  function DefaultOrError(config: Config, streetType: string): (r: Result<u8, SpeedError>)
    ensures r.Ok? <==> config.DefaultSpeed(streetType).Some?
    ensures r.Ok? ==> r.value == config.DefaultSpeed(streetType).value
  {
    match config.DefaultSpeed(streetType)
    case Some(v) => Ok(v)
    case None => Err(NoDefaultSpeed(streetType))
  }

  /** The speed names miles per hour: "mph" or "mp/h". */
  predicate IsMph(s: string): (r: bool)
    ensures r ==> |s| >= 3 && 'm' in s && 'p' in s && 'h' in s
  {
    assert "mph"[0] == 'm' && "mph"[1] == 'p' && "mph"[2] == 'h';
    assert "mp/h"[0] == 'm' && "mp/h"[1] == 'p' && "mp/h"[3] == 'h';
    Contains(s, "mph") || Contains(s, "mp/h")
  }

  /** The speed names kilometres per hour: "kph", "kp/h", "kmh" or "km/h". */
  predicate IsKmh(s: string): (r: bool)
    ensures r ==> |s| >= 3 && 'k' in s && 'h' in s
  {
    assert "kph"[0] == 'k' && "kph"[2] == 'h' && "kp/h"[0] == 'k' && "kp/h"[3] == 'h';
    assert "kmh"[0] == 'k' && "kmh"[2] == 'h' && "km/h"[0] == 'k' && "km/h"[3] == 'h';
    Contains(s, "kph") || Contains(s, "kp/h") || Contains(s, "kmh") || Contains(s, "km/h")
  }

  /** `parse_speed`: the `maxspeed` tag's value in km/h. The tests are tried in
      order: absent, a plain byte, "walk", "none", miles per hour, kilometres per
      hour, and anything else falls back to the street type's default. */
  function ParseSpeed(speed: Option<string>, streetType: string, config: Config): (r: Result<u8, SpeedError>)
    ensures r.Err? && r.error.NoDefaultSpeed? ==>
              streetType !in config.maxSpeed && "unknown" !in config.maxSpeed
    ensures r.Err? && r.error.NoDigits? ==>
              speed.Some? && KeepCharacters(speed.value, Digits) == [] && (IsMph(speed.value) || IsKmh(speed.value))
    ensures r.Err? && r.error.SpeedOutOfRange? ==>
              speed.Some? && IsKmh(speed.value) && ParseU8(KeepCharacters(speed.value, Digits)).None?
    ensures speed.Some? && ParseU8(speed.value).Some? ==> r == Ok(ParseU8(speed.value).value)
  {
    match speed
    case None => DefaultOrError(config, streetType)
    case Some(info) =>
      var plain := ParseU8(info);
      if plain.Some? then Ok(plain.value)
      else if Contains(info, "walk") then Ok(config.DefaultWalkingSpeed())
      else if Contains(info, "none") then DefaultOrError(config, streetType)
      else if IsMph(info) then
        var digits := KeepCharacters(info, Digits);
        if digits == [] then Err(NoDigits(info))
        else
          assert AllDigits(digits);
          Ok(MphToKmh(DigitsValue(digits)))
      else if IsKmh(info) then
        var digits := KeepCharacters(info, Digits);
        match ParseU8(digits)
        case Some(v) => Ok(v)
        case None => if digits == [] then Err(NoDigits(info)) else Err(SpeedOutOfRange(info))
      else DefaultOrError(config, streetType)
  }

  // ---------------------------------------------------------------------------
  // Decimal and substring facts

  /** Every digit is one of the characters kept when a speed is read. */
  lemma DigitsAreKept(c: char)
    ensures c in Digits <==> IsDigit(c)
  {
    if IsDigit(c) {
      var d := c as int - '0' as int;
      assert Digits[d] == c;
    }
  }

  /** Reading back a rendered number gives the number. */
  lemma {:induction false} DecimalRoundTrip(n: nat)
    ensures DigitsValue(ToDecimal(n)) == n
  {
    if n >= 10 {
      DecimalRoundTrip(n / 10);
      var r := ToDecimal(n);
      assert r[..|r| - 1] == ToDecimal(n / 10);
    }
  }

  /** `parse::<u8>` accepts a rendered number exactly when it fits in a byte,
      with or without a leading `+`. */
  lemma ParseU8Decimal(n: nat)
    ensures ParseU8(ToDecimal(n)) == if n < 256 then Some(n) else None
    ensures ParseU8("+" + ToDecimal(n)) == if n < 256 then Some(n) else None
  {
    DecimalRoundTrip(n);
    assert IsDigit(ToDecimal(n)[0]);
    assert ("+" + ToDecimal(n))[1..] == ToDecimal(n);
  }

  /** A string contains what follows a space at its end. */
  lemma ContainsAfterSpace(a: string, p: string)
    ensures Contains(a + (" " + p), p)
  {
    assert OccursAt(a + (" " + p), p, |a| + 1) by {
      assert (a + (" " + p))[|a| + 1..|a| + 1 + |p|] == p;
    }
  }

  /** A string contains its own suffix. */
  lemma ContainsSuffix(a: string, p: string)
    ensures Contains(a + p, p)
  {
    assert OccursAt(a + p, p, |a|) by {
      assert (a + p)[|a|..|a| + |p|] == p;
    }
  }

  /** Reading the digits out of a number followed by a digit-free unit gives the
      number's rendering. */
  lemma KeepDigitsOfQuantity(n: nat, unit: string)
    requires forall i :: 0 <= i < |unit| ==> !IsDigit(unit[i])
    ensures KeepCharacters(ToDecimal(n) + unit, Digits) == ToDecimal(n)
  {
    KeepCharactersAppend(ToDecimal(n), unit, Digits);
    forall i | 0 <= i < |ToDecimal(n)|
      ensures ToDecimal(n)[i] in Digits
    {
      DigitsAreKept(ToDecimal(n)[i]);
    }
    KeepCharactersIdentity(ToDecimal(n), Digits);
    var rest := KeepCharacters(unit, Digits);
    if rest != [] {
      KeepCharactersMembership(unit, Digits, rest[0]);
      var i :| 0 <= i < |unit| && unit[i] == rest[0];
      DigitsAreKept(unit[i]);
    }
  }

  /** A string without the letters of a keyword does not contain it. */
  lemma LacksKeyword(s: string, keyword: string, j: nat)
    requires j < |keyword| && keyword[j] !in s
    ensures !Contains(s, keyword)
  {
  }

  // ---------------------------------------------------------------------------
  // parse_speed, case by case

  /** Without a `maxspeed` tag the street type's default applies. */
  lemma ParseSpeedAbsent(streetType: string, config: Config)
    ensures streetType in config.maxSpeed ==> ParseSpeed(None, streetType, config) == Ok(config.maxSpeed[streetType])
    ensures streetType !in config.maxSpeed && "unknown" in config.maxSpeed ==>
              ParseSpeed(None, streetType, config) == Ok(config.maxSpeed["unknown"])
    ensures ParseSpeed(None, streetType, config).Err? <==> streetType !in config.maxSpeed && "unknown" !in config.maxSpeed
  {
  }

  /** A plain number that fits in a byte is the speed, whatever the defaults;
      a larger plain number is not a byte, carries no keyword, and so falls back
      to the default. */
  lemma ParseSpeedPlainNumber(n: nat, streetType: string, config: Config)
    ensures n < 256 ==> ParseSpeed(Some(ToDecimal(n)), streetType, config) == Ok(n)
    ensures n < 256 ==> ParseSpeed(Some("+" + ToDecimal(n)), streetType, config) == Ok(n)
    ensures n >= 256 ==> ParseSpeed(Some(ToDecimal(n)), streetType, config) == DefaultOrError(config, streetType)
  {
    ParseU8Decimal(n);
    var s := ToDecimal(n);
    if n >= 256 {
      assert !IsDigit('w') && !IsDigit('n') && !IsDigit('m') && !IsDigit('k');
      LacksKeyword(s, "walk", 0);
      LacksKeyword(s, "none", 0);
      LacksKeyword(s, "mph", 0);
      LacksKeyword(s, "mp/h", 0);
      LacksKeyword(s, "kph", 0);
      LacksKeyword(s, "kp/h", 0);
      LacksKeyword(s, "kmh", 0);
      LacksKeyword(s, "km/h", 0);
    }
  }

  /** A number followed by a unit that starts with a non-digit is no byte. */
  lemma QuantityIsNoByte(n: nat, unit: string)
    requires |unit| > 0 && !IsDigit(unit[0])
    ensures ParseU8(ToDecimal(n) + unit).None?
  {
    var s := ToDecimal(n) + unit;
    assert IsDigit(s[0]) && s[|ToDecimal(n)|] == unit[0];
  }

  /** A letter absent from the unit is absent from the whole quantity. */
  lemma QuantityLacks(n: nat, unit: string, c: char)
    requires c !in unit && !IsDigit(c)
    ensures c !in ToDecimal(n) + unit
  {
    assert forall i :: 0 <= i < |ToDecimal(n)| ==> IsDigit(ToDecimal(n)[i]);
  }

  /** "<n> mph" and "<n> mp/h" are converted from miles per hour, whatever `n` is. */
  lemma ParseSpeedMph(n: nat, word: string, streetType: string, config: Config)
    requires word == "mph" || word == "mp/h"
    ensures ParseSpeed(Some(ToDecimal(n) + (" " + word)), streetType, config) == Ok(MphToKmh(n))
  {
    UnitQuantity(n, word);
    DecimalRoundTrip(n);
    ParseSpeedMphBranch(ToDecimal(n) + (" " + word), streetType, config);
  }

  /** Past the plain byte and the keywords, a speed naming miles per hour is read
      from its digits, and is an error when it has none. */
  lemma ParseSpeedMphBranch(info: string, streetType: string, config: Config)
    ensures ParseU8(info).None? && !Contains(info, "walk") && !Contains(info, "none") && IsMph(info) ==>
              var digits := KeepCharacters(info, Digits);
              && AllDigits(digits)
              && ParseSpeed(Some(info), streetType, config)
                 == if digits == [] then Err(NoDigits(info)) else Ok(MphToKmh(DigitsValue(digits)))
  {
    KeptDigits(info);
  }

  /** `keep_characters` with the digits keeps only digits. */
  lemma KeptDigits(s: string)
    ensures AllDigits(KeepCharacters(s, Digits))
  {
    var d := KeepCharacters(s, Digits);
    forall i | 0 <= i < |d|
      ensures IsDigit(d[i])
    {
      KeepCharactersMembership(s, Digits, d[i]);
      DigitsAreKept(d[i]);
    }
  }

  /** "<n> km/h", "<n> kmh", "<n> kph" and "<n> kp/h" are the number when it fits in
      a byte, and an error otherwise. */
  lemma ParseSpeedKmh(n: nat, word: string, streetType: string, config: Config)
    requires word == "km/h" || word == "kmh" || word == "kph" || word == "kp/h"
    ensures var r := ParseSpeed(Some(ToDecimal(n) + (" " + word)), streetType, config);
            if n < 256 then r == Ok(n) else r == Err(SpeedOutOfRange(ToDecimal(n) + (" " + word)))
  {
    UnitQuantity(n, word);
    QuantityNamesNoMph(n, word, if word == "kph" || word == "kp/h" then 'm' else 'p');
    ParseU8Decimal(n);
    ParseSpeedKmhBranch(ToDecimal(n) + (" " + word), streetType, config);
  }

  /** A number followed by a word lacking 'm' or 'p' names no miles per hour. */
  lemma QuantityNamesNoMph(n: nat, word: string, absent: char)
    requires (absent == 'm' || absent == 'p') && absent !in word
    ensures !IsMph(ToDecimal(n) + (" " + word))
  {
    var s := ToDecimal(n) + (" " + word);
    QuantityLacks(n, " " + word, absent);
    LacksKeyword(s, "mph", if absent == 'm' then 0 else 1);
    LacksKeyword(s, "mp/h", if absent == 'm' then 0 else 1);
  }

  /** A number followed by a space and a word without digits, 'w' or 'o' is no
      plain byte, has neither keyword, contains the word, and keeps the number's
      digits. */
  lemma UnitQuantity(n: nat, word: string)
    requires 'w' !in word && 'o' !in word
    requires forall i :: 0 <= i < |word| ==> !IsDigit(word[i])
    ensures var s := ToDecimal(n) + (" " + word);
            && ParseU8(s).None? && !Contains(s, "walk") && !Contains(s, "none")
            && Contains(s, word) && KeepCharacters(s, Digits) == ToDecimal(n)
  {
    var unit := " " + word;
    var s := ToDecimal(n) + unit;
    forall i | 0 <= i < |unit|
      ensures !IsDigit(unit[i])
    {
      if i > 0 {
        assert unit[i] == word[i - 1];
      }
    }
    QuantityIsNoByte(n, unit);
    QuantityLacks(n, unit, 'w');
    QuantityLacks(n, unit, 'o');
    LacksKeyword(s, "walk", 0);
    LacksKeyword(s, "none", 1);
    ContainsAfterSpace(ToDecimal(n), word);
    KeepDigitsOfQuantity(n, unit);
  }

  /** Past the plain byte, the keywords and miles per hour, a speed naming
      kilometres per hour is its digits when they make a byte; otherwise it is an
      error, telling no digits apart from too large a value. */
  lemma ParseSpeedKmhBranch(info: string, streetType: string, config: Config)
    ensures ParseU8(info).None? && !Contains(info, "walk") && !Contains(info, "none") && !IsMph(info) && IsKmh(info) ==>
              var digits := KeepCharacters(info, Digits);
              ParseSpeed(Some(info), streetType, config)
                == if ParseU8(digits).Some? then Ok(ParseU8(digits).value)
                   else if digits == [] then Err(NoDigits(info))
                   else Err(SpeedOutOfRange(info))
  {
  }

  lemma ThirtyMph()
    ensures ToDecimal(30) == "30" && ToDecimal(30) + (" " + "mph") == "30 mph"
    ensures MphToKmh(30) == 48
  {
    assert ToDecimal(3) == "3";
    assert ToDecimal(30) == "30";
  }

  /** 30 mph converts to 48 km/h: 30 · 1.609344 = 48.28, truncated. */
  lemma ParseSpeedThirtyMph(streetType: string, config: Config)
    ensures ParseSpeed(Some("30 mph"), streetType, config) == Ok(48)
  {
    ThirtyMph();
    ParseSpeedMph(30, "mph", streetType, config);
  }

  /** Whatever else a value says, "walk" in it gives the walking speed, and
      "none" in it (without "walk") the street type's default: both are tested
      before the units. */
  lemma ParseSpeedKeywords(info: string, streetType: string, config: Config)
    ensures ParseU8(info).None? && Contains(info, "walk") ==>
              ParseSpeed(Some(info), streetType, config) == Ok(config.DefaultWalkingSpeed())
    ensures ParseU8(info).None? && !Contains(info, "walk") && Contains(info, "none") ==>
              ParseSpeed(Some(info), streetType, config) == DefaultOrError(config, streetType)
  {
  }

  /** The keywords on their own, and ahead of a unit. */
  lemma ParseSpeedKeywordExamples(streetType: string, config: Config)
    ensures ParseSpeed(Some("walk"), streetType, config) == Ok(config.DefaultWalkingSpeed())
    ensures ParseSpeed(Some("none"), streetType, config) == DefaultOrError(config, streetType)
    ensures ParseSpeed(Some("walk 30 mph"), streetType, config) == Ok(config.DefaultWalkingSpeed())
    ensures ParseSpeed(Some("none 30 km/h"), streetType, config) == DefaultOrError(config, streetType)
  {
    assert OccursAt("walk", "walk", 0);
    assert OccursAt("none", "none", 0);
    LacksKeyword("none", "walk", 0);
    assert !IsDigit("walk 30 mph"[0]) && OccursAt("walk 30 mph", "walk", 0);
    assert !IsDigit("none 30 km/h"[0]) && OccursAt("none 30 km/h", "none", 0);
    LacksKeyword("none 30 km/h", "walk", 0);
    ParseSpeedKeywords("walk 30 mph", streetType, config);
    ParseSpeedKeywords("none 30 km/h", streetType, config);
  }

  /** "mph" without a number is an error. */
  lemma ParseSpeedUnitWithoutNumber(streetType: string, config: Config)
    ensures ParseSpeed(Some("mph"), streetType, config) == Err(NoDigits("mph"))
  {
    BareMph();
    ParseSpeedMphBranch("mph", streetType, config);
  }

  /** "km/h" without a number is an error. */
  lemma ParseSpeedKmhWithoutNumber(streetType: string, config: Config)
    ensures ParseSpeed(Some("km/h"), streetType, config) == Err(NoDigits("km/h"))
  {
    BareKmh();
    ParseSpeedKmhBranch("km/h", streetType, config);
  }

  /** The bare unit "mph" reaches its branch without digits. */
  lemma BareMph()
    ensures ParseU8("mph").None? && !Contains("mph", "walk") && !Contains("mph", "none") && IsMph("mph")
    ensures KeepCharacters("mph", Digits) == []
  {
    assert !IsDigit("mph"[0]) && OccursAt("mph", "mph", 0);
    LacksKeyword("mph", "walk", 0);
    LacksKeyword("mph", "none", 0);
    NoDigitsKept("mph");
  }

  /** The bare unit "km/h" reaches its branch without digits. */
  lemma BareKmh()
    ensures ParseU8("km/h").None? && !Contains("km/h", "walk") && !Contains("km/h", "none")
    ensures !IsMph("km/h") && IsKmh("km/h") && KeepCharacters("km/h", Digits) == []
  {
    assert !IsDigit("km/h"[0]) && OccursAt("km/h", "km/h", 0);
    LacksKeyword("km/h", "walk", 0);
    LacksKeyword("km/h", "none", 0);
    LacksKeyword("km/h", "mph", 1);
    LacksKeyword("km/h", "mp/h", 1);
    NoDigitsKept("km/h");
  }

  /** A string without digits keeps nothing when its digits are read. */
  lemma NoDigitsKept(s: string)
    requires forall i :: 0 <= i < |s| ==> !IsDigit(s[i])
    ensures KeepCharacters(s, Digits) == []
  {
    var d := KeepCharacters(s, Digits);
    if d != [] {
      KeepCharactersMembership(s, Digits, d[0]);
      DigitsAreKept(d[0]);
    }
  }

  /** A value that is no plain byte, has neither keyword and names no unit falls
      back to the street type's default. */
  lemma ParseSpeedUnrecognised(info: string, streetType: string, config: Config)
    ensures ParseU8(info).None? && !Contains(info, "walk") && !Contains(info, "none") && !IsMph(info) && !IsKmh(info) ==>
              ParseSpeed(Some(info), streetType, config) == DefaultOrError(config, streetType)
  {
  }

  /** "signals", a value found in the map data, is not recognised. */
  lemma ParseSpeedSignals(streetType: string, config: Config)
    ensures ParseSpeed(Some("signals"), streetType, config) == DefaultOrError(config, streetType)
  {
    var s := "signals";
    assert !IsDigit(s[0]);
    assert 'w' !in s && 'o' !in s && 'm' !in s && 'k' !in s;
    LacksKeyword(s, "walk", 0);
    LacksKeyword(s, "none", 1);
    LacksKeyword(s, "mph", 0);
    LacksKeyword(s, "mp/h", 0);
    LacksKeyword(s, "kph", 0);
    LacksKeyword(s, "kp/h", 0);
    LacksKeyword(s, "kmh", 0);
    LacksKeyword(s, "km/h", 0);
  }

  /** Each spelling of a unit is read. */
  lemma ParseSpeedUnitSpellings(streetType: string, config: Config)
    ensures ParseSpeed(Some("30 mp/h"), streetType, config) == Ok(48)
    ensures ParseSpeed(Some("50 kph"), streetType, config) == Ok(50)
    ensures ParseSpeed(Some("50 kp/h"), streetType, config) == Ok(50)
    ensures ParseSpeed(Some("50 kmh"), streetType, config) == Ok(50)
    ensures ParseSpeed(Some("50 km/h"), streetType, config) == Ok(50)
  {
    ThirtyMph();
    assert ToDecimal(5) == "5" && ToDecimal(50) == "50";
    assert "30" + (" " + "mp/h") == "30 mp/h";
    ParseSpeedMph(30, "mp/h", streetType, config);
    assert "50" + (" " + "kph") == "50 kph" && "50" + (" " + "kp/h") == "50 kp/h";
    assert "50" + (" " + "kmh") == "50 kmh" && "50" + (" " + "km/h") == "50 km/h";
    ParseSpeedKmh(50, "kph", streetType, config);
    ParseSpeedKmh(50, "kp/h", streetType, config);
    ParseSpeedKmh(50, "kmh", streetType, config);
    ParseSpeedKmh(50, "km/h", streetType, config);
  }


  // ---------------------------------------------------------------------------
  // convert

  /** The panics of `convert`, with the position of the way that caused them:
      no `highway` tag, a `maxspeed` that cannot be read, a way without points,
      and an end point that is not among the nodes. */
  datatype ConvertError =
    | MissingHighway(way: nat)
    | BadSpeed(way: nat, error: SpeedError)
    | EmptyWay(way: nat)
    | UnknownNode(way: nat, node: int)

  /** `keys` lists every id of `nodes` once: the order in which the node map is
      iterated, which the hash map leaves unspecified. */
  ghost predicate Enumerates(keys: seq<int>, nodes: map<int, Node>)
  {
    && (forall k :: k in nodes ==> k in keys)
    && (forall i :: 0 <= i < |keys| ==> keys[i] in nodes)
    && (forall i, j :: 0 <= i < j < |keys| ==> keys[i] != keys[j])
  }

  /** `node_map` once the nodes were added in the order `keys`: every id maps to
      the graph index it was given, which is its position in `keys`. */
  function NodeIndex(keys: seq<int>): (r: map<int, NodeId>)
    ensures forall k :: k in r <==> k in keys
    ensures forall k :: k in r ==> r[k] < |keys| && keys[r[k]] == k
  {
    if keys == [] then map[]
    else NodeIndex(keys[..|keys| - 1])[keys[|keys| - 1] := |keys| - 1]
  }

  /** The road-graph payload of an OpenStreetMap node. */
  function NodeDataOf(n: Node): NodeData
  {
    NodeData(n.lat, n.lon)
  }

  /** What `convert` does with way number `j`: the endpoints and the payload of
      its edge, or the reason it panics. */
  function WayEdge(w: Way, index: map<int, NodeId>, config: Config, j: nat): (r: Result<(NodeId, NodeId, EdgeData), ConvertError>)
    ensures r.Ok? <==>
              && "highway" in w.tags
              && ParseSpeed(Tag(w, "maxspeed"), w.tags["highway"], config).Ok?
              && |w.nodes| > 0 && w.nodes[0] in index && w.nodes[|w.nodes| - 1] in index
    ensures r.Ok? ==> r.value.0 == index[w.nodes[0]] && r.value.1 == index[w.nodes[|w.nodes| - 1]]
    ensures r.Err? ==> r.error.way == j
    ensures r.Err? && r.error.UnknownNode? ==> r.error.node in w.nodes && r.error.node !in index
  {
    var name := if "name" in w.tags then w.tags["name"] else "";
    if "highway" !in w.tags then Err(MissingHighway(j))
    else
      var streetType := w.tags["highway"];
      match ParseSpeed(Tag(w, "maxspeed"), streetType, config)
      case Err(e) => Err(BadSpeed(j, e))
      case Ok(maxSpeed) =>
        var bidirectional := if "oneway" in w.tags then w.tags["oneway"] != "yes" else true;
        if w.nodes == [] then Err(EmptyWay(j))
        else if w.nodes[0] !in index then Err(UnknownNode(j, w.nodes[0]))
        else if w.nodes[|w.nodes| - 1] !in index then Err(UnknownNode(j, w.nodes[|w.nodes| - 1]))
        else Ok((index[w.nodes[0]], index[w.nodes[|w.nodes| - 1]], EdgeData(name, streetType, maxSpeed, bidirectional)))
  }

  /** The outcome of each way, in order. */
  function WayEdges(ways: seq<Way>, index: map<int, NodeId>, config: Config): (r: seq<Result<(NodeId, NodeId, EdgeData), ConvertError>>)
    ensures |r| == |ways|
    ensures forall j :: 0 <= j < |ways| ==> r[j] == WayEdge(ways[j], index, config, j)
  {
    seq(|ways|, j requires 0 <= j < |ways| => WayEdge(ways[j], index, config, j))
  }

  /** The values of the outcomes in order, or the first error among them. */
  ghost function Collect<T>(rs: seq<Result<T, ConvertError>>): Result<seq<T>, ConvertError>
  {
    if rs == [] then Ok([])
    else
      match Collect(rs[..|rs| - 1])
      case Err(e) => Err(e)
      case Ok(vs) =>
        match rs[|rs| - 1]
        case Err(e) => Err(e)
        case Ok(v) => Ok(vs + [v])
  }

  /** The edges of all ways in order, or the error of the first way that fails. */
  ghost function ConvertWays(ways: seq<Way>, index: map<int, NodeId>, config: Config): Result<seq<(NodeId, NodeId, EdgeData)>, ConvertError>
  {
    Collect(WayEdges(ways, index, config))
  }

  /** The arena holds node `v` for the `v`-th key, and edge `j` for the `j`-th
      converted way, bidirectional as its payload says. */
  ghost predicate Built(gNodes: seq<GraphNode<NodeData>>, gEdges: seq<GraphEdge<EdgeData>>, gBidirectional: seq<bool>,
                        nodes: map<int, Node>, keys: seq<int>, es: seq<(NodeId, NodeId, EdgeData)>)
    requires forall v :: 0 <= v < |keys| ==> keys[v] in nodes
  {
    && ArenaValid(gNodes, gEdges, gBidirectional)
    && |gNodes| == |keys|
    && (forall v :: 0 <= v < |keys| ==> gNodes[v].data == NodeDataOf(nodes[keys[v]]))
    && |gEdges| == |es|
    && (forall j :: 0 <= j < |es| ==> gEdges[j] == GraphEdge(j, es[j].0, es[j].1, es[j].2))
    && (forall j :: 0 <= j < |es| ==> gBidirectional[j] == es[j].2.bidirectional)
  }

  /** `convert`: one graph node per entry of the node map, in iteration order,
      then one edge per way from its first point to its last. */
  method Convert(nodes: map<int, Node>, keys: seq<int>, ways: seq<Way>, config: Config)
    returns (r: Result<Graph<NodeData, EdgeData>, ConvertError>)
    requires Enumerates(keys, nodes)
    ensures r.Err? <==> ConvertWays(ways, NodeIndex(keys), config).Err?
    ensures r.Err? ==> ConvertWays(ways, NodeIndex(keys), config) == Err(r.error)
    ensures r.Ok? ==> fresh(r.value) && r.value.Valid()
    ensures r.Ok? ==> Built(r.value.nodes, r.value.edges, r.value.bidirectional, nodes, keys,
                            ConvertWays(ways, NodeIndex(keys), config).value)
    ensures r.Ok? ==> |r.value.nodes| == |nodes| && |r.value.edges| == |ways|
  {
    var g := new Graph<NodeData, EdgeData>();
    var nodeMap := AddPoints(g, nodes, keys);
    ghost var es: seq<(NodeId, NodeId, EdgeData)> := [];
    for j := 0 to |ways|
      invariant Collect(WayEdges(ways, nodeMap, config)[..j]) == Ok(es)
      invariant Built(g.nodes, g.edges, g.bidirectional, nodes, keys, es)
    {
      var failure;
      failure, es := AddWayEdge(g, nodes, keys, nodeMap, ways, config, j, es);
      if failure.Some? {
        return Err(failure.value);
      }
    }
    assert WayEdges(ways, nodeMap, config)[..|ways|] == WayEdges(ways, nodeMap, config);
    ConvertWaysOk(ways, nodeMap, config);
    OneNodePerPoint(keys, nodes);
    r := Ok(g);
  }

  /** The first loop of `convert`: a graph node per map entry, remembering in
      `node_map` which index each id got. */
  method AddPoints(g: Graph<NodeData, EdgeData>, nodes: map<int, Node>, keys: seq<int>)
    returns (nodeMap: map<int, NodeId>)
    requires Enumerates(keys, nodes)
    requires g.Valid() && g.nodes == [] && g.edges == [] && g.bidirectional == []
    modifies g
    ensures Built(g.nodes, g.edges, g.bidirectional, nodes, keys, [])
    ensures nodeMap == NodeIndex(keys)
  {
    nodeMap := map[];
    for i := 0 to |keys|
      invariant g.Valid()
      invariant |g.nodes| == i && g.edges == [] && g.bidirectional == []
      invariant forall v :: 0 <= v < i ==> g.nodes[v].data == NodeDataOf(nodes[keys[v]])
      invariant nodeMap == NodeIndex(keys[..i])
    {
      var k := keys[i];
      var id := g.AddNode(NodeDataOf(nodes[k]));
      assert keys[..i + 1][..i] == keys[..i];
      nodeMap := nodeMap[k := id];
    }
    assert keys[..|keys|] == keys;
  }

  /** One turn of the second loop of `convert`: the edge of way `j`, or the
      panic it causes, which is then the outcome for all the ways. */
  method AddWayEdge(g: Graph<NodeData, EdgeData>, nodes: map<int, Node>, keys: seq<int>, nodeMap: map<int, NodeId>,
                    ways: seq<Way>, config: Config, j: nat, ghost es: seq<(NodeId, NodeId, EdgeData)>)
    returns (failure: Option<ConvertError>, ghost es': seq<(NodeId, NodeId, EdgeData)>)
    requires forall v :: 0 <= v < |keys| ==> keys[v] in nodes
    requires nodeMap == NodeIndex(keys)
    requires j < |ways| && Collect(WayEdges(ways, nodeMap, config)[..j]) == Ok(es)
    requires Built(g.nodes, g.edges, g.bidirectional, nodes, keys, es)
    modifies g
    ensures failure.Some? ==> ConvertWays(ways, nodeMap, config) == Err(failure.value)
    ensures failure.None? ==> Collect(WayEdges(ways, nodeMap, config)[..j + 1]) == Ok(es')
    ensures failure.None? ==> Built(g.nodes, g.edges, g.bidirectional, nodes, keys, es')
  {
    var next := WayEdge(ways[j], nodeMap, config, j);
    CollectStep(WayEdges(ways, nodeMap, config), j, es);
    match next
    case Err(e) =>
      CollectKeepsError(WayEdges(ways, nodeMap, config), j + 1, e);
      failure, es' := Some(e), es;
    case Ok(edge) =>
      WayEdgeEndpoints(ways[j], keys, config, j);
      AddBuiltEdge(g, nodes, keys, es, edge);
      failure, es' := None, es + [edge];
  }

  /** `add_edge` with the flag of the edge's own data keeps the arena describing
      the edges so far. */
  method AddBuiltEdge(g: Graph<NodeData, EdgeData>, nodes: map<int, Node>, keys: seq<int>,
                      ghost es: seq<(NodeId, NodeId, EdgeData)>, edge: (NodeId, NodeId, EdgeData))
    requires forall v :: 0 <= v < |keys| ==> keys[v] in nodes
    requires Built(g.nodes, g.edges, g.bidirectional, nodes, keys, es)
    requires edge.0 < |keys| && edge.1 < |keys|
    modifies g
    ensures Built(g.nodes, g.edges, g.bidirectional, nodes, keys, es + [edge])
  {
    var (s, t, data) := edge;
    ghost var nodes0, edges0, bidirectional0 := g.nodes, g.edges, g.bidirectional;
    g.AddEdge(s, t, data, data.bidirectional);
    BuiltStep(nodes, keys, es, edge, nodes0, edges0, bidirectional0, g.nodes, g.edges, g.bidirectional);
  }

  /** A failure on a prefix of the outcomes is the failure of all of them. */
  lemma {:induction false} CollectKeepsError<T>(rs: seq<Result<T, ConvertError>>, m: nat, e: ConvertError)
    requires m <= |rs| && Collect(rs[..m]) == Err(e)
    ensures Collect(rs) == Err(e)
    decreases |rs|
  {
    if m < |rs| {
      var init := rs[..|rs| - 1];
      assert init[..m] == rs[..m];
      CollectKeepsError(init, m, e);
    } else {
      assert rs[..m] == rs;
    }
  }

  /** One more outcome either fails or appends its value. */
  lemma CollectStep<T>(rs: seq<Result<T, ConvertError>>, j: nat, vs: seq<T>)
    requires j < |rs| && Collect(rs[..j]) == Ok(vs)
    ensures Collect(rs[..j + 1]) == match rs[j] case Err(e) => Err(e) case Ok(v) => Ok(vs + [v])
  {
    assert rs[..j + 1][..j] == rs[..j];
  }

  /** Adding the edge of the next way extends what was built by that edge. */
  lemma BuiltStep(nodes: map<int, Node>, keys: seq<int>, es: seq<(NodeId, NodeId, EdgeData)>, edge: (NodeId, NodeId, EdgeData),
                  gNodes: seq<GraphNode<NodeData>>, gEdges: seq<GraphEdge<EdgeData>>, gBidirectional: seq<bool>,
                  gNodes': seq<GraphNode<NodeData>>, gEdges': seq<GraphEdge<EdgeData>>, gBidirectional': seq<bool>)
    requires forall v :: 0 <= v < |keys| ==> keys[v] in nodes
    requires Built(gNodes, gEdges, gBidirectional, nodes, keys, es)
    requires ArenaValid(gNodes', gEdges', gBidirectional')
    requires gEdges' == gEdges + [GraphEdge(|gEdges|, edge.0, edge.1, edge.2)]
    requires gBidirectional' == gBidirectional + [edge.2.bidirectional]
    requires |gNodes'| == |gNodes|
    requires forall v :: 0 <= v < |gNodes| ==> gNodes'[v].data == gNodes[v].data
    ensures Built(gNodes', gEdges', gBidirectional', nodes, keys, es + [edge])
  {
  }

  /** The edge of a way runs from the graph node of its first point to the graph
      node of its last point. */
  lemma WayEdgeEndpoints(w: Way, keys: seq<int>, config: Config, j: nat)
    ensures WayEdge(w, NodeIndex(keys), config, j).Ok? ==>
              var (s, t, _) := WayEdge(w, NodeIndex(keys), config, j).value;
              && |w.nodes| > 0
              && s < |keys| && keys[s] == w.nodes[0]
              && t < |keys| && keys[t] == w.nodes[|w.nodes| - 1]
  {
    var index := NodeIndex(keys);
    var r := WayEdge(w, index, config, j);
    if r.Ok? {
      assert w.nodes != [] && w.nodes[0] in index && w.nodes[|w.nodes| - 1] in index;
      assert r.value.0 == index[w.nodes[0]] && r.value.1 == index[w.nodes[|w.nodes| - 1]];
    }
  }

  /** Collecting succeeds exactly when every outcome does, and then yields their
      values in order. */
  lemma {:induction false} CollectOk<T>(rs: seq<Result<T, ConvertError>>)
    ensures Collect(rs).Ok? <==> forall j :: 0 <= j < |rs| ==> rs[j].Ok?
    ensures Collect(rs).Ok? ==> |Collect(rs).value| == |rs| && forall j :: 0 <= j < |rs| ==> Collect(rs).value[j] == rs[j].value
  {
    if rs != [] {
      var init := rs[..|rs| - 1];
      CollectOk(init);
    }
  }

  /** A failed collection reports the error of the first failing outcome. */
  lemma {:induction false} CollectFirstError<T>(rs: seq<Result<T, ConvertError>>)
    ensures Collect(rs).Err? ==>
              exists j :: 0 <= j < |rs| && rs[j] == Err(Collect(rs).error) && forall i :: 0 <= i < j ==> rs[i].Ok?
  {
    if rs != [] {
      var init := rs[..|rs| - 1];
      CollectFirstError(init);
      CollectOk(init);
    }
  }

  /** The ways convert exactly when each of them does, and then the edges are
      theirs, one per way, in order. */
  lemma ConvertWaysOk(ways: seq<Way>, index: map<int, NodeId>, config: Config)
    ensures ConvertWays(ways, index, config).Ok? <==>
              forall j :: 0 <= j < |ways| ==> WayEdge(ways[j], index, config, j).Ok?
    ensures ConvertWays(ways, index, config).Ok? ==>
              var es := ConvertWays(ways, index, config).value;
              && |es| == |ways|
              && forall j :: 0 <= j < |ways| ==> es[j] == WayEdge(ways[j], index, config, j).value
  {
    CollectOk(WayEdges(ways, index, config));
  }

  /** A failed conversion reports the error of the first way that fails. */
  lemma ConvertWaysFirstError(ways: seq<Way>, index: map<int, NodeId>, config: Config)
    ensures ConvertWays(ways, index, config).Err? ==>
              exists j :: && 0 <= j < |ways|
                          && WayEdge(ways[j], index, config, j) == Err(ConvertWays(ways, index, config).error)
                          && forall i :: 0 <= i < j ==> WayEdge(ways[i], index, config, i).Ok?
  {
    CollectFirstError(WayEdges(ways, index, config));
  }

  /** The payload of a way's edge: its name or "", its highway type, the speed
      its `maxspeed` tag gives, and two-way unless tagged `oneway=yes`; a way
      without a `highway` tag fails. */
  lemma WayEdgePayload(w: Way, index: map<int, NodeId>, config: Config, j: nat)
    ensures "highway" !in w.tags ==> WayEdge(w, index, config, j) == Err(MissingHighway(j))
    ensures WayEdge(w, index, config, j).Ok? ==>
              var data := WayEdge(w, index, config, j).value.2;
              && "highway" in w.tags && data.streetType == w.tags["highway"]
              && data.name == (if "name" in w.tags then w.tags["name"] else "")
              && Ok(data.maxSpeed) == ParseSpeed(Tag(w, "maxspeed"), w.tags["highway"], config)
              && (data.bidirectional <==> Tag(w, "oneway") != Some("yes"))
    ensures w.nodes == [] ==> WayEdge(w, index, config, j).Err?
  {
  }

  /** The node map has as many entries as its enumeration has ids. */
  lemma {:induction false} OneNodePerPoint(keys: seq<int>, nodes: map<int, Node>)
    requires Enumerates(keys, nodes)
    ensures |nodes| == |keys|
  {
    DistinctIds(keys, nodes.Keys);
    assert |nodes.Keys| == |nodes|;
  }

  lemma {:induction false} DistinctIds(keys: seq<int>, ids: set<int>)
    requires forall k :: k in ids <==> k in keys
    requires forall i, j :: 0 <= i < j < |keys| ==> keys[i] != keys[j]
    ensures |ids| == |keys|
  {
    if keys != [] {
      var last := keys[|keys| - 1];
      var init := keys[..|keys| - 1];
      assert keys == init + [last];
      assert last in ids;
      forall k
        ensures k in ids - {last} <==> k in init
      {
        if k in init {
          var i :| 0 <= i < |init| && init[i] == k;
          assert keys[i] != keys[|keys| - 1];
        }
      }
      DistinctIds(init, ids - {last});
      assert ids == (ids - {last}) + {last};
    } else {
      forall k
        ensures k !in ids
      {
        assert k in ids ==> k in keys;
      }
      assert ids == {};
    }
  }
}
