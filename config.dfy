/**
 * The process-wide configuration dictionary of `Config` (config/config.py): set wholesale
 * by the constructor from the loaded YAML document, and topped up with the credentials
 * found in the environment each time `get_info` is called.
 */
module Configuration {
  import opened Common

  /** The loaded configuration: top-level keys to values. */
  type ConfigDict = map<string, string>

  /** The process environment. */
  type Environment = map<string, string>

  const UserVariable: string := "USERNAME"
  const PasswordVariable: string := "PASSWORD"
  const UserKey: string := "user"
  const PasswordKey: string := "password"

  /** The exception `get_info` raises when the constructor has not stored a configuration. */
  datatype ConfigError = NotLoaded

  /** Python's truth test `if Config._CONFIG_DICT:` — both None and the empty dictionary fail it. */
  predicate IsLoaded(stored: Option<ConfigDict>)
  {
    stored.Some? && stored.value != map[]
  }

  /** Python's truth test on `os.getenv(name)`: unset and empty both fail it. */
  predicate EnvSet(env: Environment, name: string)
  {
    name in env && env[name] != ""
  }

  /**
   * The dictionary after `get_info` has copied the credentials in: "user" and "password"
   * take the environment's USERNAME and PASSWORD when those are non-empty and are left as
   * they were otherwise; every other key keeps its value.
   */
  function WithCredentials(d: ConfigDict, env: Environment): (r: ConfigDict)
    ensures forall k :: k != UserKey && k != PasswordKey ==> (k in r <==> k in d)
    ensures forall k :: k in d && k != UserKey && k != PasswordKey ==> r[k] == d[k]
    ensures EnvSet(env, UserVariable) ==> UserKey in r && r[UserKey] == env[UserVariable]
    ensures !EnvSet(env, UserVariable) ==>
              (UserKey in r <==> UserKey in d) && (UserKey in d ==> r[UserKey] == d[UserKey])
    ensures EnvSet(env, PasswordVariable) ==> PasswordKey in r && r[PasswordKey] == env[PasswordVariable]
    ensures !EnvSet(env, PasswordVariable) ==>
              (PasswordKey in r <==> PasswordKey in d) && (PasswordKey in d ==> r[PasswordKey] == d[PasswordKey])
  {
    var withUser := if EnvSet(env, UserVariable) then d[UserKey := env[UserVariable]] else d;
    if EnvSet(env, PasswordVariable) then withUser[PasswordKey := env[PasswordVariable]] else withUser
  }

  /** Calling `get_info` again with the same environment changes nothing more. */
  lemma WithCredentialsIdempotent(d: ConfigDict, env: Environment)
    ensures WithCredentials(WithCredentials(d, env), env) == WithCredentials(d, env)
  {
  }

  /** The stored dictionary stays non-empty, so a loaded configuration stays loaded. */
  lemma WithCredentialsKeepsLoaded(d: ConfigDict, env: Environment)
    requires d != map[]
    ensures WithCredentials(d, env) != map[]
  {
    var k :| k in d;
    assert k in WithCredentials(d, env);
  }

  /** The class `Config`; its one piece of state is the class attribute `_CONFIG_DICT`. */
  class Config {
    var configDict: Option<ConfigDict>

    /** The class as first defined: `_CONFIG_DICT = None`. */
    constructor ()
      ensures configDict == None
    {
      configDict := None;
    }

    /** `Config(db_config_file)`: replaces the stored dictionary wholesale with the loaded document. */
    method Construct(loaded: Option<ConfigDict>)
      modifies this
      ensures configDict == loaded
    {
      configDict := loaded;
    }

    /**
     * `get_info`: raise when nothing is loaded; otherwise copy the environment's credentials
     * into the stored dictionary in place and return that same dictionary.
     */
    method GetInfo(env: Environment) returns (r: Result<ConfigDict, ConfigError>)
      modifies this
      ensures !IsLoaded(old(configDict)) ==> r == Failure(NotLoaded) && configDict == old(configDict)
      ensures IsLoaded(old(configDict)) ==>
                && configDict == Some(WithCredentials(old(configDict).value, env))
                && r == Success(configDict.value)
    {
      if configDict.Some? && configDict.value != map[] {
        var d := configDict.value;
        if EnvSet(env, UserVariable) {
          d := d[UserKey := env[UserVariable]];
        }
        if EnvSet(env, PasswordVariable) {
          d := d[PasswordKey := env[PasswordVariable]];
        }
        configDict := Some(d);
        r := Success(d);
      } else {
        r := Failure(NotLoaded);
      }
    }
  }
}
