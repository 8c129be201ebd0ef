/**
 * The plugin's settings (CustomConf.cpp): whether detailed logging is on,
 * the ring type and which keypad key dials, with their JSON form.
 */
module Configuration {
  import opened Base

  /** Ring types run from 0 to RING_TYPE_MAX - 1; a larger stored value is ignored. */
  const RING_TYPE_MAX: int := 5

  /** A JSON value, as far as the settings use it. */
  datatype Json =
    | Object(members: map<string, Json>)
    | Bool(b: bool)
    | UInt(n: uint32)
    | Str(s: string)
    | Null

  /** The three settings, as a value. */
  datatype Settings = Settings(detailedLogging: bool, ringType: uint32, dialKey: string)

  const DEFAULTS: Settings := Settings(false, 0, "#")

  /** `jv.getBool(name, out)`: the member when it is a boolean, else `out` unchanged. */
  function GetBool(members: map<string, Json>, name: string, out: bool): bool
  {
    if name in members && members[name].Bool? then members[name].b else out
  }

  /** `jv.getUInt(name, tmp)`: the member when it is an unsigned integer. */
  function GetUInt(members: map<string, Json>, name: string): Option<uint32>
  {
    if name in members && members[name].UInt? then Some(members[name].n) else None
  }

  /** `jv.getString(name, out)`: the member when it is a string, else `out` unchanged. */
  function GetString(members: map<string, Json>, name: string, out: string): string
  {
    if name in members && members[name].Str? then members[name].s else out
  }

  /** The JSON object toJson produces. */
  function Render(s: Settings): (jv: Json)
    ensures jv.Object? && jv.members.Keys == {"detailedLogging", "ringType", "dialKey"}
  {
    Object(map["detailedLogging" := Bool(s.detailedLogging),
               "ringType" := UInt(s.ringType),
               "dialKey" := Str(s.dialKey)])
  }

  /** fromJson on settings `s`: anything but an object changes nothing; each
      member of the right type replaces its setting, except a ring type of
      RING_TYPE_MAX or more. */
  function Apply(jv: Json, s: Settings): (r: Settings)
    ensures !jv.Object? ==> r == s
    ensures s.ringType < RING_TYPE_MAX ==> r.ringType < RING_TYPE_MAX
    ensures r.ringType != s.ringType ==> r.ringType < RING_TYPE_MAX
  {
    if !jv.Object? then s
    else
      var m := jv.members;
      var tmp := GetUInt(m, "ringType");
      Settings(GetBool(m, "detailedLogging", s.detailedLogging),
               if tmp.Some? && tmp.value < RING_TYPE_MAX then tmp.value else s.ringType,
               GetString(m, "dialKey", s.dialKey))
  }

  /** Loading what toJson wrote restores the settings, whatever they were
      before, as long as the ring type is in range. */
  lemma RoundTrip(s: Settings, before: Settings)
    requires s.ringType < RING_TYPE_MAX
    ensures Apply(Render(s), before) == s
  {
  }

  /** A stored ring type of RING_TYPE_MAX or more is not loaded; the other settings are. */
  lemma OutOfRangeRingTypeIgnored(s: Settings, before: Settings)
    requires s.ringType >= RING_TYPE_MAX
    ensures Apply(Render(s), before) == s.(ringType := before.ringType)
  {
  }

  /** Loading the same JSON twice is loading it once. */
  lemma ApplyIdempotent(jv: Json, s: Settings)
    ensures Apply(jv, Apply(jv, s)) == Apply(jv, s)
  {
  }

  class CustomConf {
    var detailedLogging: bool
    var ringType: uint32
    var dialKey: string

    function Fields(): Settings
      reads this
    {
      Settings(detailedLogging, ringType, dialKey)
    }

    constructor ()
      ensures Fields() == DEFAULTS
    {
      detailedLogging := false;
      ringType := 0;
      dialKey := "#";
    }

    method ToJson() returns (jv: Json)
      ensures jv == Render(Fields())
    {
      var members: map<string, Json> := map[];
      members := members["detailedLogging" := Bool(detailedLogging)];
      members := members["ringType" := UInt(ringType)];
      members := members["dialKey" := Str(dialKey)];
      jv := Object(members);
    }

    method FromJson(jv: Json)
      modifies this
      ensures Fields() == Apply(jv, old(Fields()))
    {
      if !jv.Object? {
        return;
      }
      detailedLogging := GetBool(jv.members, "detailedLogging", detailedLogging);
      var tmp := GetUInt(jv.members, "ringType");
      if tmp.Some? && tmp.value < RING_TYPE_MAX {
        ringType := tmp.value;
      }
      dialKey := GetString(jv.members, "dialKey", dialKey);
    }
  }
}
