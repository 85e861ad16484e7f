/** `ApiCredentialValidator`: the check run before any API test that the
    consumer key and secret are set and are not the placeholder words,
    failing with setup instructions that name the missing variable. */
module ApiCredentialValidator {
  import opened Wrappers
  import opened JavaString
  import ConfigManager
  import TestUtils

  /** The two credentials, in the order they are checked. */
  datatype Credential = ConsumerKey | ConsumerSecret

  /** The environment variable that supplies the credential. */
  function Variable(c: Credential): string {
    match c
    case ConsumerKey => "API_CONSUMER_KEY"
    case ConsumerSecret => "API_CONSUMER_SECRET"
  }

  /** The value shown in the instructions. */
  function Example(c: Credential): string {
    match c
    case ConsumerKey => "ck_your_actual_key_here"
    case ConsumerSecret => "cs_your_actual_secret_here"
  }

  /** The default `ConfigManager` falls back to, rejected as unset. */
  function Placeholder(c: Credential): string {
    match c
    case ConsumerKey => ConfigManager.DefaultConsumerKey
    case ConsumerSecret => ConfigManager.DefaultConsumerSecret
  }

  // ---------------------------------------------------------------------
  // The message

  /** The format string of lines 69-82, cut at its seven `%s`. */
  const Template: seq<string> := [
    "\U{274C} ",
    " environment variable is not set!\n\n\U{1F527} Setup Instructions:\n"
    + "1. Set the environment variable:\n   export ",
    "=\"",
    "\"\n\n2. Or add it to your shell profile (~/.bashrc, ~/.zshrc, etc.):\n   echo 'export ",
    "=\"",
    "\"' >> ~/.bashrc\n   source ~/.bashrc\n\n3. Or set it temporarily for this session:\n   ",
    "=\"",
    "\" mvn test\n\n4. Check your configuration files:\n"
    + "   - src/test/resources/config/dev.properties\n"
    + "   - src/test/resources/config/staging.properties\n"
    + "   - src/test/resources/config/prod.properties\n\n"
    + "\U{1F4DA} For more help, see: API_SETUP.md"
  ]

  /** `String.format` of a format string cut at its `%s`: each piece is
      followed by the argument that fills its `%s`, the last by none. */
  function Format(pieces: seq<string>, args: seq<string>): string
    requires |pieces| == |args| + 1
  {
    if |args| == 0 then pieces[0] else pieces[0] + args[0] + Format(pieces[1..], args[1..])
  }

  /** Lines 67-86: the variable name fills four slots and the example
      value three. */
  function CreateMissingCredentialError(envVarName: string, exampleValue: string): string
  {
    Format(Template, [envVarName, envVarName, exampleValue, envVarName, exampleValue, envVarName, exampleValue])
  }

  /** Every argument appears in the formatted text. */
  lemma {:induction false} FormatContainsArguments(pieces: seq<string>, args: seq<string>, j: nat)
    requires |pieces| == |args| + 1 && j < |args|
    ensures Contains(Format(pieces, args), args[j])
  {
    var head := pieces[0] + args[0];
    if j == 0 {
      ContainsMiddle(pieces[0], args[0], Format(pieces[1..], args[1..]));
    } else {
      FormatContainsArguments(pieces[1..], args[1..], j - 1);
      ContainsWithin(head, Format(pieces[1..], args[1..]), [], args[j]);
      assert head + Format(pieces[1..], args[1..]) + [] == Format(pieces, args);
    }
  }

  /** The message opens with the cross mark and the variable's name, and
      shows the variable and the example value. */
  lemma ErrorNamesVariableAndExample(envVarName: string, exampleValue: string)
    ensures StartsWith(CreateMissingCredentialError(envVarName, exampleValue), "\U{274C} " + envVarName)
    ensures Contains(CreateMissingCredentialError(envVarName, exampleValue), envVarName)
    ensures Contains(CreateMissingCredentialError(envVarName, exampleValue), exampleValue)
  {
    var args := [envVarName, envVarName, exampleValue, envVarName, exampleValue, envVarName, exampleValue];
    FormatContainsArguments(Template, args, 0);
    FormatContainsArguments(Template, args, 2);
  }

  /** The exception thrown for a missing or placeholder credential. */
  function MissingError(c: Credential): Exception
  {
    RuntimeException(CreateMissingCredentialError(Variable(c), Example(c)))
  }

  // ---------------------------------------------------------------------
  // Validation

  /** Null, or nothing above U+0020: the test `TestUtils.isNullOrEmpty`
      also makes (`BlankIsNullOrEmpty`). */
  predicate IsBlank(value: Option<string>) {
    value.None? || forall i :: 0 <= i < |value.value| ==> IsTrimmed(value.value[i])
  }

  /** `IsBlank` is the source's `value == null || value.trim().isEmpty()`. */
  lemma BlankIsNullOrEmpty(value: Option<string>)
    ensures IsBlank(value) == TestUtils.IsNullOrEmpty(value)
  {
    TestUtils.IsNullOrEmptyIff(value);
  }

  /** Lines 32-55: the first failing check, key before secret and blankness
      before the exact placeholder comparison. */
  function FirstRejected(key: Option<string>, secret: Option<string>): Option<Credential>
  {
    if IsBlank(key) || key.value == Placeholder(ConsumerKey) then Some(ConsumerKey)
    else if IsBlank(secret) || secret.value == Placeholder(ConsumerSecret) then Some(ConsumerSecret)
    else None
  }

  /** Lines 24-58 over the two resolved values: the first failing check
      throws its credential's message. */
  function ValidateApiCredentials(key: Option<string>, secret: Option<string>): (r: Result<()>)
  {
    match FirstRejected(key, secret)
    case None => Ok(())
    case Some(c) => Err(MissingError(c))
  }

  /** A credential is usable when it is present, has a character above
      U+0020, and is not exactly the placeholder word. */
  predicate Usable(value: Option<string>, c: Credential) {
    value.Some?
    && (exists i :: 0 <= i < |value.value| && !IsTrimmed(value.value[i]))
    && value.value != Placeholder(c)
  }

  lemma UsableIffNotRejected(value: Option<string>, c: Credential)
    ensures Usable(value, c) <==> !IsBlank(value) && value.value != Placeholder(c)
  {
  }

  /** Validation passes exactly when both credentials are usable. */
  lemma PassesIffBothUsable(key: Option<string>, secret: Option<string>)
    ensures ValidateApiCredentials(key, secret).Ok? <==> Usable(key, ConsumerKey) && Usable(secret, ConsumerSecret)
  {
    UsableIffNotRejected(key, ConsumerKey);
    UsableIffNotRejected(secret, ConsumerSecret);
  }

  /** A bad key is reported whatever the secret is. */
  lemma KeyCheckedFirst(key: Option<string>, secret: Option<string>)
    requires !Usable(key, ConsumerKey)
    ensures ValidateApiCredentials(key, secret) == Err(MissingError(ConsumerKey))
  {
    UsableIffNotRejected(key, ConsumerKey);
  }

  /** A bad secret is reported once the key has passed. */
  lemma SecretCheckedSecond(key: Option<string>, secret: Option<string>)
    requires Usable(key, ConsumerKey) && !Usable(secret, ConsumerSecret)
    ensures ValidateApiCredentials(key, secret) == Err(MissingError(ConsumerSecret))
  {
    UsableIffNotRejected(key, ConsumerKey);
    UsableIffNotRejected(secret, ConsumerSecret);
  }

  /** The placeholder word itself is rejected as the key. */
  lemma PlaceholderKeyRejected(key: string, secret: Option<string>)
    requires key == Placeholder(ConsumerKey)
    ensures ValidateApiCredentials(Some(key), secret) == Err(MissingError(ConsumerKey))
  {
  }

  /** The comparison is exact, not trimmed: the placeholder after a space
      is accepted. */
  lemma PaddedPlaceholderAccepted(key: string, secret: Option<string>)
    requires key == " " + Placeholder(ConsumerKey)
    requires Usable(secret, ConsumerSecret)
    ensures ValidateApiCredentials(Some(key), secret) == Ok(())
  {
    assert !IsTrimmed(key[1]);
    assert |key| != |Placeholder(ConsumerKey)|;
    PassesIffBothUsable(Some(key), secret);
  }

  /** Lines 24-27: validating what `ConfigManager` resolves; a placeholder
      that cannot be resolved throws first. */
  function ValidateConfigured(p: ConfigManager.Properties, env: ConfigManager.Environment): Result<()>
  {
    var key :- ConfigManager.GetApiConsumerKey(p, env);
    var secret :- ConfigManager.GetApiConsumerSecret(p, env);
    ValidateApiCredentials(Some(key), Some(secret))
  }

  /** Without a configured key the validation fails naming
      `API_CONSUMER_KEY`, since the default key is the placeholder word. */
  lemma UnconfiguredKeyFails(p: ConfigManager.Properties, env: ConfigManager.Environment)
    requires "api.consumer.key" !in p
    requires ConfigManager.GetApiConsumerSecret(p, env).Ok?
    ensures ValidateConfigured(p, env) == Err(MissingError(ConsumerKey))
  {
    ConfigManager.MissingCredentialsDefault(p, env);
    var key := ConfigManager.GetApiConsumerKey(p, env).value;
    var secret := ConfigManager.GetApiConsumerSecret(p, env).value;
    PlaceholderKeyRejected(key, Some(secret));
  }
}
