/** `ConfigManager`: settings read from an environment-specific properties
    file, with fixed defaults, and `${NAME:default}` placeholders in the
    API credentials resolved against the process environment.

    The loaded properties, the JVM system properties, the classpath
    resources and the process environment are all maps passed in. */
module ConfigManager {
  import opened Wrappers
  import opened JavaString

  /** A `java.util.Properties` table. */
  type Properties = map<string, string>

  /** `System.getenv()`. */
  type Environment = map<string, string>

  const DefaultEnvironment: string := "dev"
  const DefaultBrowser: string := "chrome"
  const DefaultHeadless: string := "false"
  const DefaultTimeout: string := "30000"
  const DefaultApiBaseUrl: string := "http://demostore.supersqa.com/wp-json/wc/v3"
  const DefaultConsumerKey: string := "your_consumer_key_here"
  const DefaultConsumerSecret: string := "your_consumer_secret_here"

  /** `properties.getProperty(key, defaultValue)` */
  function GetProperty(p: Properties, key: string, defaultValue: string): string
  {
    if key in p then p[key] else defaultValue
  }

  // ---------------------------------------------------------------------
  // Loading

  /** Lines 50-53: `config/<env>.properties`, with `env` the system
      property of that name or `dev`. */
  function PropertiesFile(systemProperties: map<string, string>): string
  {
    "config/" + GetProperty(systemProperties, "env", DefaultEnvironment) + ".properties"
  }

  /** Lines 46-65: the table of the properties file, or the exception for
      a file the class loader does not find.  `resources` maps each
      classpath resource to the table it parses to. */
  function LoadProperties(systemProperties: map<string, string>, resources: map<string, Properties>)
    : (r: Result<Properties>)
    ensures r.Ok? <==> PropertiesFile(systemProperties) in resources
    ensures r.Ok? ==> r.value == resources[PropertiesFile(systemProperties)]
    ensures r.Err? ==> r.error == RuntimeException("Properties file not found: " + PropertiesFile(systemProperties))
  {
    var file := PropertiesFile(systemProperties);
    if file in resources then Ok(resources[file])
    else Err(RuntimeException("Properties file not found: " + file))
  }

  /** The file name carries the chosen environment, `dev` when none is set. */
  lemma PropertiesFileNamesEnvironment(systemProperties: map<string, string>)
    ensures "env" !in systemProperties ==> PropertiesFile(systemProperties) == "config/dev.properties"
    ensures "env" in systemProperties ==>
              PropertiesFile(systemProperties)[7..|PropertiesFile(systemProperties)| - 11] == systemProperties["env"]
  {
    var f := PropertiesFile(systemProperties);
    if "env" in systemProperties {
      assert f == "config/" + systemProperties["env"] + ".properties";
      assert f[7..|f| - 11] == systemProperties["env"];
    }
  }

  // ---------------------------------------------------------------------
  // Placeholders

  /** The first `:` of a value that starts with `${` comes after those two
      characters. */
  lemma ColonAfterOpening(value: string)
    requires StartsWith(value, "${") && ':' in value
    ensures 2 <= IndexOf(value, ':') < |value|
  {
    var opening := value[..2];
    assert opening[0] == value[0] && opening[1] == value[1];
    assert value[0] != ':' && value[1] != ':';
  }

  /** Lines 142-148: a value of the form `${NAME:default}` names an
      environment variable; its value wins when set, otherwise the text
      between the first `:` and the last character.  When that `:` is the
      last character the `substring` call throws. */
  function ResolvePlaceholder(value: string, env: Environment): (r: Result<string>)
  {
    if StartsWith(value, "${") && ':' in value then
      var colon := IndexOf(value, ':');
      ColonAfterOpening(value);
      var name := value[2..colon];
      if colon + 1 > |value| - 1 then Err(IndexOutOfBounds)
      else if name in env then Ok(env[name])
      else Ok(value[colon + 1..|value| - 1])
    else Ok(value)
  }

  /** A value not in placeholder form comes back unchanged. */
  lemma VerbatimUnlessPlaceholder(value: string, env: Environment)
    requires !StartsWith(value, "${") || !Contains(value, ":")
    ensures ResolvePlaceholder(value, env) == Ok(value)
  {
    ContainsChar(value, ':');
  }

  /** Writing `${NAME:default}` and resolving it gives the environment
      variable `NAME` when set and `default` otherwise, for any name
      without a `:`. */
  lemma ResolveWrittenPlaceholder(name: string, defaultValue: string, env: Environment)
    requires ':' !in name
    ensures ResolvePlaceholder("${" + name + ":" + defaultValue + "}", env)
         == Ok(if name in env then env[name] else defaultValue)
  {
    PlaceholderParts(name, defaultValue, '}', env);
  }

  /** Whatever the last character is, `}` or not, it is dropped from the
      default. */
  lemma PlaceholderParts(name: string, defaultValue: string, last: char, env: Environment)
    requires ':' !in name
    ensures ResolvePlaceholder("${" + name + ":" + defaultValue + [last], env)
         == Ok(if name in env then env[name] else defaultValue)
  {
    var v := "${" + name + ":" + defaultValue + [last];
    assert v[..2] == "${";
    assert v[2 + |name|] == ':';
    assert v[..2 + |name|] == "${" + name;
    assert ':' !in v[..2 + |name|];
    assert IndexOf(v, ':') == 2 + |name|;
    assert v[2..2 + |name|] == name;
    assert v[3 + |name|..|v| - 1] == defaultValue;
  }

  /** `${NAME:` with nothing after the `:` throws. */
  lemma ColonLastThrows(name: string, env: Environment)
    requires ':' !in name
    ensures ResolvePlaceholder("${" + name + ":", env) == Err(IndexOutOfBounds)
  {
    var v := "${" + name + ":";
    assert v[..2] == "${";
    assert v[2 + |name|] == ':';
    assert v[..2 + |name|] == "${" + name;
    assert ':' !in v[..2 + |name|];
    assert IndexOf(v, ':') == 2 + |name|;
  }

  // ---------------------------------------------------------------------
  // Settings

  /** Lines 139-149. */
  function GetApiConsumerKey(p: Properties, env: Environment): Result<string>
  {
    ResolvePlaceholder(GetProperty(p, "api.consumer.key", DefaultConsumerKey), env)
  }

  /** Lines 157-167. */
  function GetApiConsumerSecret(p: Properties, env: Environment): Result<string>
  {
    ResolvePlaceholder(GetProperty(p, "api.consumer.secret", DefaultConsumerSecret), env)
  }

  /** Unconfigured credentials resolve to the placeholder words. */
  lemma MissingCredentialsDefault(p: Properties, env: Environment)
    ensures "api.consumer.key" !in p ==> GetApiConsumerKey(p, env) == Ok(DefaultConsumerKey)
    ensures "api.consumer.secret" !in p ==> GetApiConsumerSecret(p, env) == Ok(DefaultConsumerSecret)
  {
    NoPlaceholder(DefaultConsumerKey, env);
    NoPlaceholder(DefaultConsumerSecret, env);
  }

  lemma NoPlaceholder(value: string, env: Environment)
    requires |value| > 0 && value[0] != '$'
    ensures ResolvePlaceholder(value, env) == Ok(value)
  {
    if |value| >= 2 {
      assert value[..2][0] == value[0];
    }
  }

  /** The secret is resolved exactly as a key with the same text would be. */
  lemma SecretResolvedLikeKey(p: Properties, env: Environment)
    requires "api.consumer.secret" in p
    ensures GetApiConsumerSecret(p, env) == GetApiConsumerKey(map["api.consumer.key" := p["api.consumer.secret"]], env)
  {
  }

  /** Line 95: `base.url`, null when absent. */
  function GetBaseUrl(p: Properties): Option<string>
  {
    if "base.url" in p then Some(p["base.url"]) else None
  }

  /** Lines 102-104. */
  function GetBrowser(p: Properties): string
  {
    GetProperty(p, "browser", DefaultBrowser)
  }

  /** Lines 111-113: `Boolean.parseBoolean`, i.e. `"true"` in any case. */
  function IsHeadless(p: Properties): bool
  {
    EqualsIgnoreCase(GetProperty(p, "headless", DefaultHeadless), "true")
  }

  /** Lines 120-122: `Integer.parseInt`, which throws on a malformed value. */
  function GetTimeout(p: Properties): Result<int>
  {
    ParseInt(GetProperty(p, "timeout", DefaultTimeout))
  }

  /** Lines 129-131: no placeholder substitution here. */
  function GetApiBaseUrl(p: Properties): string
  {
    GetProperty(p, "api.base.url", DefaultApiBaseUrl)
  }

  /** An empty properties table yields the documented defaults. */
  lemma Defaults()
    ensures GetBrowser(map[]) == "chrome"
    ensures !IsHeadless(map[])
    ensures GetTimeout(map[]) == Ok(30000)
    ensures GetApiBaseUrl(map[]) == "http://demostore.supersqa.com/wp-json/wc/v3"
    ensures GetBaseUrl(map[]) == None
  {
    assert ToLower(DefaultHeadless)[0] == 'f';
    ParseIntOfDecimalString(30000);
    assert Digits(30000) == "30000";
  }

  /** Headless exactly when `headless` is set to `true` in some case. */
  lemma HeadlessOnlyForTrue(p: Properties)
    ensures IsHeadless(p) <==> "headless" in p && ToLower(p["headless"]) == "true"
  {
    if "headless" !in p {
      assert ToLower(DefaultHeadless)[0] == 'f';
    }
  }

  /** A configured value is returned as written, placeholder or not. */
  lemma ConfiguredValuesVerbatim(p: Properties)
    ensures "api.base.url" in p ==> GetApiBaseUrl(p) == p["api.base.url"]
    ensures "browser" in p ==> GetBrowser(p) == p["browser"]
  {
  }
}
