/** `archive/utils/config_utils.py`: `load_config` reads the configuration
    file into a dict of sections, checks the required sections, overrides the
    secrets from the environment and checks the credentials. The parsed file
    (absent when it could not be read) and the environment are inputs. */
module ConfigUtils {
  import opened Wrappers
  import opened Seqs

  /** A section: option name to value. */
  type Section = map<string, string>

  /** `config_dict`: section name to section. */
  type Config = map<string, Section>

  /** The environment: variable name to value. */
  type Env = map<string, string>

  /** What `load_config` raises. */
  datatype ConfigError =
    | EmptyPath                                  // ValueError
    | FileNotFound                               // FileNotFoundError
    | MissingSection(name: string)               // ValueError
    | KeyErrorOn(key: string)                    // KeyError
    | MissingApiKey                              // ValueError
    | MissingSnowflakeFields(fields: seq<string>) // ValueError

  const Azure: string := "Azure"
  const Snowflake: string := "Snowflake"
  const WelcomeHome: string := "WelcomeHome"
  const ConnectionString: string := "connection_string"
  const ApiKey: string := "api_key"
  const Password: string := "password"
  const AzureConnectionStringVar: string := "AZURE_CONNECTION_STRING"
  const WelcomeHomeApiKeyVar: string := "WELCOME_HOME_API_KEY"
  const SnowflakePasswordVar: string := "SNOWFLAKE_PASSWORD"

  /** `required_snowflake_fields`. */
  const RequiredSnowflakeFields: seq<string> := ["user", "password", "account", "warehouse", "database", "schema", "stage_name"]

  /** `d.get(key, default)`. */
  function GetOr(d: map<string, string>, key: string, default: string): string {
    if key in d then d[key] else default
  }

  /** `not section.get(field)`: the field is absent or empty. */
  predicate FieldMissing(section: Section, field: string) {
    field !in section || section[field] == ""
  }

  /** The fields of `fields` the section lacks, in order. */
  function MissingAmong(fields: seq<string>, section: Section): seq<string> {
    Filter(fields, f => FieldMissing(section, f))
  }

  /** The required Snowflake fields the section lacks, in the required order. */
  function MissingFields(section: Section): seq<string> {
    MissingAmong(RequiredSnowflakeFields, section)
  }

  /** The missing fields after one more field. */
  lemma MissingAmongSnoc(fields: seq<string>, field: string, section: Section)
    ensures MissingAmong(fields + [field], section) == MissingAmong(fields, section) + (if FieldMissing(section, field) then [field] else [])
  {
    FilterSnoc(fields, field, f => FieldMissing(section, f));
  }

  /** The configuration after the environment overrides: the connection string
      only when its variable is set, the API key always (`None`, modelled as the
      empty string, when unset), the password from the environment, else the
      file, else empty. */
  function Overridden(cfg: Config, env: Env): Config
    requires Azure in cfg && Snowflake in cfg && WelcomeHome in cfg
  {
    var cfg1 := if AzureConnectionStringVar in env then cfg[Azure := cfg[Azure][ConnectionString := env[AzureConnectionStringVar]]] else cfg;
    var cfg2 := cfg1[WelcomeHome := cfg1[WelcomeHome][ApiKey := GetOr(env, WelcomeHomeApiKeyVar, "")]];
    cfg2[Snowflake := cfg2[Snowflake][Password := GetOr(env, SnowflakePasswordVar, GetOr(cfg2[Snowflake], Password, ""))]]
  }

  /** What `load_config` returns or raises. */
  function LoadConfigResult(configPath: string, file: Option<Config>, env: Env): Result<Config, ConfigError> {
    if configPath == "" then Err(EmptyPath)
    else if file.None? then Err(FileNotFound)
    else if Azure !in file.value then Err(MissingSection(Azure))
    else if Snowflake !in file.value then Err(MissingSection(Snowflake))
    else if WelcomeHome !in file.value then Err(KeyErrorOn(WelcomeHome))
    else
      var cfg := Overridden(file.value, env);
      if cfg[WelcomeHome][ApiKey] == "" then Err(MissingApiKey)
      else if MissingFields(cfg[Snowflake]) != [] then Err(MissingSnowflakeFields(MissingFields(cfg[Snowflake])))
      else Ok(cfg)
  }

  /** The loop that collects `missing_fields`. */
  method CollectMissingFields(snowflakeConfig: Section) returns (missingFields: seq<string>)
    ensures missingFields == MissingFields(snowflakeConfig)
  {
    missingFields := [];
    for i := 0 to |RequiredSnowflakeFields|
      invariant missingFields == MissingAmong(RequiredSnowflakeFields[..i], snowflakeConfig)
    {
      var field := RequiredSnowflakeFields[i];
      assert RequiredSnowflakeFields[..i + 1] == RequiredSnowflakeFields[..i] + [field];
      MissingAmongSnoc(RequiredSnowflakeFields[..i], field, snowflakeConfig);
      if FieldMissing(snowflakeConfig, field) {
        missingFields := missingFields + [field];
      }
    }
    assert RequiredSnowflakeFields[..|RequiredSnowflakeFields|] == RequiredSnowflakeFields;
  }

  /** `load_config(config_path)`; `file` is what `config.read` parsed, `None`
      when it read no file. */
  method LoadConfig(configPath: string, file: Option<Config>, env: Env) returns (r: Result<Config, ConfigError>)
    ensures r == LoadConfigResult(configPath, file, env)
  {
    if configPath == "" {
      return Err(EmptyPath);
    }
    if file.None? {
      return Err(FileNotFound);
    }
    var configDict := file.value;
    var requiredSections := [Azure, Snowflake];
    for i := 0 to |requiredSections|
      invariant forall j :: 0 <= j < i ==> requiredSections[j] in configDict
    {
      if requiredSections[i] !in configDict {
        assert i == 0 ==> requiredSections[i] == Azure;
        assert i == 1 ==> requiredSections[0] == Azure && requiredSections[i] == Snowflake;
        return Err(MissingSection(requiredSections[i]));
      }
    }
    assert Azure in configDict && Snowflake in configDict by {
      assert requiredSections[0] == Azure && requiredSections[1] == Snowflake;
    }
    if AzureConnectionStringVar in env {
      configDict := configDict[Azure := configDict[Azure][ConnectionString := env[AzureConnectionStringVar]]];
    }
    if WelcomeHome !in configDict {
      return Err(KeyErrorOn(WelcomeHome));
    }
    configDict := configDict[WelcomeHome := configDict[WelcomeHome][ApiKey := GetOr(env, WelcomeHomeApiKeyVar, "")]];
    configDict := configDict[Snowflake := configDict[Snowflake][Password := GetOr(env, SnowflakePasswordVar, GetOr(configDict[Snowflake], Password, ""))]];
    assert configDict == Overridden(file.value, env);
    if configDict[WelcomeHome][ApiKey] == "" {
      return Err(MissingApiKey);
    }
    var missingFields := CollectMissingFields(configDict[Snowflake]);
    if missingFields != [] {
      return Err(MissingSnowflakeFields(missingFields));
    }
    return Ok(configDict);
  }

  /** An empty path raises before anything is read. */
  lemma EmptyPathRaises(file: Option<Config>, env: Env)
    ensures LoadConfigResult("", file, env) == Err(EmptyPath)
  {
  }

  /** A missing `Azure` section is reported before a missing `Snowflake` one. */
  lemma MissingSectionRaises(configPath: string, cfg: Config, env: Env)
    requires configPath != ""
    requires Azure !in cfg || Snowflake !in cfg
    ensures LoadConfigResult(configPath, Some(cfg), env) == Err(MissingSection(if Azure !in cfg then Azure else Snowflake))
  {
  }

  /** A loaded configuration: the API key is the environment's, and never
      empty; the connection string is the environment's exactly when its
      variable is set; the password is the environment's, else the file's,
      else empty; no required Snowflake field is missing. */
  lemma LoadedConfig(configPath: string, file: Option<Config>, env: Env)
    requires LoadConfigResult(configPath, file, env).Ok?
    ensures var cfg := LoadConfigResult(configPath, file, env).value;
      && file.Some? && Azure in cfg && Snowflake in cfg && WelcomeHome in cfg
      && WelcomeHomeApiKeyVar in env && cfg[WelcomeHome][ApiKey] == env[WelcomeHomeApiKeyVar] != ""
      && (AzureConnectionStringVar in env ==> cfg[Azure][ConnectionString] == env[AzureConnectionStringVar])
      && (AzureConnectionStringVar !in env ==> cfg[Azure] == file.value[Azure])
      && cfg[Snowflake][Password] == GetOr(env, SnowflakePasswordVar, GetOr(file.value[Snowflake], Password, ""))
      && forall i :: 0 <= i < |RequiredSnowflakeFields| ==> !FieldMissing(cfg[Snowflake], RequiredSnowflakeFields[i])
  {
    var cfg := LoadConfigResult(configPath, file, env).value;
    FilterMembers(RequiredSnowflakeFields, f => FieldMissing(cfg[Snowflake], f));
  }

  /** The overrides touch three entries and nothing else. */
  lemma OverridesTouchNothingElse(cfg: Config, env: Env, s: string, key: string)
    requires Azure in cfg && Snowflake in cfg && WelcomeHome in cfg
    requires s in cfg
    requires !(s == Azure && key == ConnectionString) && !(s == WelcomeHome && key == ApiKey)
      && !(s == Snowflake && key == Password)
    ensures s in Overridden(cfg, env)
    ensures key in Overridden(cfg, env)[s] <==> key in cfg[s]
    ensures key in cfg[s] ==> Overridden(cfg, env)[s][key] == cfg[s][key]
  {
  }

  /** The missing fields are exactly the required fields that are absent or
      empty, in the required order; any of them makes the load raise. */
  lemma MissingFieldsExact(section: Section)
    ensures forall f :: f in MissingFields(section) <==> f in RequiredSnowflakeFields && FieldMissing(section, f)
    ensures IsSubsequence(MissingFields(section), RequiredSnowflakeFields)
  {
    FilterIsSubsequence(RequiredSnowflakeFields, f => FieldMissing(section, f));
    FilterMembers(RequiredSnowflakeFields, f => FieldMissing(section, f));
  }

  /** An unset or empty API key fails the load, once the sections are there. */
  lemma MissingApiKeyRaises(configPath: string, cfg: Config, env: Env)
    requires configPath != "" && Azure in cfg && Snowflake in cfg && WelcomeHome in cfg
    requires GetOr(env, WelcomeHomeApiKeyVar, "") == ""
    ensures LoadConfigResult(configPath, Some(cfg), env) == Err(MissingApiKey)
  {
  }
}
