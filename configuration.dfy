/**
 * The persisted defaults (`AWSConfig`) and the manager that loads and saves them at a
 * fixed path and turns them into session arguments.
 */
module Configuration {
  import opened Wrappers

  /** `AWSConfig`: default region and profile; the empty string means "not set". */
  datatype AWSConfig = AWSConfig(region: string, profile: string) {

    /** `is_valid`: at least one of the two defaults is set. */
    predicate IsValid() {
      region != "" || profile != ""
    }

    /** `to_dict`: exactly the keys `region` and `profile`. */
    function ToDict(): (d: map<string, string>)
      ensures d.Keys == {"region", "profile"}
    {
      map["region" := region, "profile" := profile]
    }
  }

  /** `AWSConfig()`. */
  const Default := AWSConfig("", "")

  /** `AWSConfig.from_dict`: each field from its key, or "" when the key is missing. */
  function FromDict(data: map<string, string>): AWSConfig
  {
    AWSConfig(
      if "region" in data then data["region"] else "",
      if "profile" in data then data["profile"] else "")
  }

  /** The default record has neither default set, and is what an empty mapping reads as. */
  lemma DefaultIsUnset()
    ensures !Default.IsValid()
    ensures FromDict(map[]) == Default
  {
  }

  /** A record is valid exactly when one of its fields is non-empty. */
  lemma IsValidExactly(region: string, profile: string)
    ensures AWSConfig(region, profile).IsValid() <==> region != "" || profile != ""
    ensures AWSConfig(region, "").IsValid() <==> region != ""
    ensures AWSConfig("", profile).IsValid() <==> profile != ""
  {
  }

  /** `from_dict(to_dict(c)) == c`. */
  lemma FromDictToDict(c: AWSConfig)
    ensures FromDict(c.ToDict()) == c
  {
  }

  /** On a mapping with exactly the two keys, `to_dict(from_dict(d)) == d`. */
  lemma ToDictFromDict(d: map<string, string>)
    requires d.Keys == {"region", "profile"}
    ensures FromDict(d).ToDict() == d
  {
    var e := FromDict(d).ToDict();
    assert e.Keys == d.Keys;
    forall k | k in d ensures e[k] == d[k] {
      assert k == "region" || k == "profile";
    }
  }

  /**
   * What the configuration path holds: no file at all, or a YAML document that
   * reads as a mapping, or as nothing (`None`) when the file is empty.
   */
  datatype ConfigFile =
    | Missing
    | Document(data: Option<map<string, string>>)

  /** `load_config` as a function of the file: absent or empty gives the default record. */
  function Load(file: ConfigFile): AWSConfig
  {
    match file
    case Missing => Default
    case Document(None) => Default
    case Document(Some(data)) => FromDict(data)
  }

  /** What `save_config` leaves at the path: the YAML dump of `to_dict`. */
  function Saved(c: AWSConfig): ConfigFile
  {
    Document(Some(c.ToDict()))
  }

  /** Saving a record and loading it back gives the same region and profile. */
  lemma LoadSaved(c: AWSConfig)
    ensures Load(Saved(c)) == c
  {
    FromDictToDict(c);
  }

  /**
   * The keyword arguments `_build_session_args` produces: `region_name` exactly when a
   * region is set and `profile_name` exactly when a profile is set, with those values,
   * and nothing else.
   */
  function SessionArgs(c: AWSConfig): (args: map<string, string>)
    ensures "region_name" in args <==> c.region != ""
    ensures "profile_name" in args <==> c.profile != ""
    ensures "region_name" in args ==> args["region_name"] == c.region
    ensures "profile_name" in args ==> args["profile_name"] == c.profile
    ensures args.Keys <= {"region_name", "profile_name"}
  {
    (if c.region != "" then map["region_name" := c.region] else map[])
    + (if c.profile != "" then map["profile_name" := c.profile] else map[])
  }

  /** The session arguments are fixed by the record: the empty record gives none. */
  lemma SessionArgsOfDefault()
    ensures SessionArgs(Default) == map[]
    ensures SessionArgs(AWSConfig("us-east-1", "test")) == map["region_name" := "us-east-1", "profile_name" := "test"]
  {
    var args := SessionArgs(AWSConfig("us-east-1", "test"));
    assert args.Keys == {"region_name", "profile_name"};
  }

  /** `ConfigurationManager`, with the state of the file at its `config_path`. */
  class ConfigurationManager {
    var file: ConfigFile

    constructor (file: ConfigFile)
      ensures this.file == file
    {
      this.file := file;
    }

    /** `load_config`. */
    method LoadConfig() returns (c: AWSConfig)
      ensures c == Load(file)
    {
      match file
      case Missing =>
        c := Default;
      case Document(data) =>
        c := FromDict(data.GetOr(map[]));
    }

    /** `save_config`: the file now holds the record's mapping. */
    method SaveConfig(c: AWSConfig)
      modifies this
      ensures file == Saved(c)
    {
      file := Document(Some(c.ToDict()));
    }

    /** `_build_session_args`, filling the mapping one key at a time. */
    method BuildSessionArgs(c: AWSConfig) returns (args: map<string, string>)
      ensures args == SessionArgs(c)
    {
      args := map[];
      if c.region != "" {
        args := args["region_name" := c.region];
      }
      if c.profile != "" {
        args := args["profile_name" := c.profile];
      }
    }

    /** `create_session`: the arguments the new session is built from, read from the file. */
    method CreateSession() returns (args: map<string, string>)
      ensures args == SessionArgs(Load(file))
    {
      var c := LoadConfig();
      args := BuildSessionArgs(c);
    }
  }
}
