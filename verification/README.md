# OAuth signer and test-harness helpers of the e-commerce test framework

This project models the core of a Playwright/Cucumber test framework for a
WooCommerce store. Everything is written as pure functions over immutable
values:

- **`SimpleOAuthClient`**: one-legged OAuth 1.0a signing, following
  section 3.4 of RFC 5849. It collects the five protocol parameters in a
  `TreeMap`, builds the signature base string with `URLEncoder`, computes
  HMAC-SHA1 keyed with `consumerSecret + "&"`, and Base64-encodes the MAC.
  It then appends `key=value&` for every parameter to the request URL.
  The model covers the clock-derived timestamp, the Base64-stripped nonce,
  and the GET and POST requests. It also covers the wrapped
  `RuntimeException` thrown when `URI.create` or the request builder
  rejects the URL.
- **`ConfigManager`**: loads the environment-specific properties file and
  supplies the fixed defaults. It resolves `${NAME:default}` placeholders
  in the API consumer key and secret against the process environment.
- **`ApiCredentialValidator`**: rejects a missing, blank or placeholder
  consumer key or secret. The key is checked first. A rejection throws the
  formatted setup-instructions message naming the environment variable.
- **`BaseApiTest`** (both the `src/main` and the `src/test` copy): masks
  credentials for logging.
- **`TestUtils`**: `isNullOrEmpty` and `safeString`.
- **`Hooks`**: API-test detection, the test name taken from the Cucumber
  scenario id, and the screenshot file name.
- **`TestContext`**: the browser lifecycle. It covers initialisation
  (Playwright, browser of the configured engine, page, timeout), the
  guarded getters, cleanup that stops at the first failing close, and the
  singleton with `reset`.

A few Java library behaviours are modelled to the extent the core relies
on them:

- `String` methods: `contains`, `indexOf`, `trim`, `split` on a
  one-character pattern, `toLowerCase`, and `Integer.parseInt`
  (module `JavaString`).
- `TreeMap` insertion order (`TreeMap`).
- UTF-8 (`Utf8`), Base64 as in RFC 4648 (`Base64`), and
  `URLEncoder`/`URLDecoder` (`UrlEncoder`).

Java `null` is `Option.None`. A thrown exception is `Result.Err` carrying
the exception class and message. Inputs the code obtains from outside are
parameters:

- the clock (`millis`);
- the sixteen `SecureRandom` bytes;
- the HMAC-SHA1 function;
- the system properties, the environment and the classpath resources, as
  maps;
- the outcome of each Playwright call (a `Runtime` record, and a `closes`
  predicate for `close()`).

The code uses `java.net.URLEncoder`, which is HTML form encoding: a space
becomes `+`, `*` is kept and `~` is escaped. It does not use RFC 3986
percent-encoding, and the model follows the code.
`UrlEncoder.EncodeAgreesWithRfc` proves that the two encodings agree on
every string without a space, `*` or `~`. `UrlEncoder.EncodeDiffersFromRfc`
exhibits the three characters on which they differ.

Source paths below are relative to the repository root.

## Model

| member | source | states |
|---|---|---|
| JavaString.ContainsIffOccurs | src/test/java/com/ecom/automation/stepdefinitions/Hooks.java:115 | `contains` holds exactly when the text occurs in the string at some position |
| JavaString.ContainsChar | src/main/java/com/ecom/automation/config/ConfigManager.java:142 | `contains(":")` is membership of the character `:` |
| JavaString.ContainsPrefixOf | src/test/java/com/ecom/automation/stepdefinitions/Hooks.java:121 | a string that contains `p + q` contains `p` |
| JavaString.IndexOf | src/main/java/com/ecom/automation/config/ConfigManager.java:143 | `indexOf(c)` is -1 exactly when `c` is absent; otherwise it is a position holding `c` with no `c` before it |
| JavaString.IndexOfFirst | src/main/java/com/ecom/automation/config/ConfigManager.java:143 | any position holding `c` with no earlier `c` is the one `indexOf` returns |
| JavaString.TrimEmptyIffAllSpace | src/main/java/com/ecom/automation/utils/TestUtils.java:84 | `trim().isEmpty()` holds exactly when every character is at or below U+0020 |
| JavaString.TrimIsInfix | src/main/java/com/ecom/automation/utils/TestUtils.java:84 | `trim()` returns a contiguous piece of the string |
| JavaString.Trim | src/main/java/com/ecom/automation/utils/TestUtils.java:84 | `trim()` drops every leading and trailing character at or below U+0020 and keeps the rest; characterised by `TrimEmptyIffAllSpace` and `TrimIsInfix` |
| JavaString.JoinFields | src/test/java/com/ecom/automation/stepdefinitions/Hooks.java:243 | cutting a string at every separator loses nothing: joining the fields with the separator gives the string back |
| JavaString.FirstField | src/test/java/com/ecom/automation/stepdefinitions/Hooks.java:243-245 | the first field is the text before the first separator |
| JavaString.LastField | src/test/java/com/ecom/automation/stepdefinitions/Hooks.java:247-248 | the text after the last separator is the last field |
| JavaString.FieldsOfSeparators | src/test/java/com/ecom/automation/stepdefinitions/Hooks.java:243-247 | a string made only of separators splits into empty fields, which `split` then drops |
| JavaString.Split | src/test/java/com/ecom/automation/stepdefinitions/Hooks.java:243-247 | `split` on a one-character pattern: the whole string when the separator is absent, otherwise the fields with trailing empty ones dropped; characterised by `JoinFields`, `FirstField`, `LastField` and `FieldsOfSeparators` |
| JavaString.LexLessIrreflexive | src/main/java/com/ecom/automation/api/SimpleOAuthClient.java:140 | the `TreeMap` key order never puts a key before itself |
| JavaString.LexLessTransitive | src/main/java/com/ecom/automation/api/SimpleOAuthClient.java:140 | the key order is transitive |
| JavaString.LexLessTotal | src/main/java/com/ecom/automation/api/SimpleOAuthClient.java:140 | any two different keys are ordered one way or the other |
| JavaString.LexLessAsymmetric | src/main/java/com/ecom/automation/api/SimpleOAuthClient.java:140 | two keys are never ordered both ways |
| JavaString.LexLessAfterCommonPrefix | src/main/java/com/ecom/automation/api/SimpleOAuthClient.java:143-147 | a common prefix such as `oauth_` does not change how two names compare |
| JavaString.DigitsValueOfDigits | src/main/java/com/ecom/automation/api/SimpleOAuthClient.java:145 | the decimal digits printed for `n` read back as `n` |
| JavaString.ParseInt | src/main/java/com/ecom/automation/config/ConfigManager.java:121 | a successful `Integer.parseInt` gives a value within 32 bits |
| JavaString.ParseIntOfDecimalString | src/main/java/com/ecom/automation/config/ConfigManager.java:121 | `parseInt` inverts printing for every 32-bit value, negative ones included |
| JavaString.ToLower | src/test/java/com/ecom/automation/stepdefinitions/TestContext.java:110 | lower-casing keeps the length and maps each character on its own, `A`-`Z` to `a`-`z`; characterised by `TestContext.BrowserEngineIgnoresCase` and `ConfigManager.HeadlessOnlyForTrue` |
| TreeMap.PutGet | src/main/java/com/ecom/automation/api/SimpleOAuthClient.java:143-147 | after `put(k, v)`, `get(k)` is `v` and every other key keeps its value |
| TreeMap.PutSorted | src/main/java/com/ecom/automation/api/SimpleOAuthClient.java:143-147 | `put` keeps the entries strictly ascending by key |
| TreeMap.PutSize | src/main/java/com/ecom/automation/api/SimpleOAuthClient.java:164 | `put` adds one entry for a new key and none for a present one |
| TreeMap.SortedUnique | src/main/java/com/ecom/automation/api/SimpleOAuthClient.java:156 | two sorted entry lists with the same lookups are the same list, so the iteration order is fixed by the contents |
| TreeMap.PutCommutes | src/main/java/com/ecom/automation/api/SimpleOAuthClient.java:143-147 | putting two different keys in either order gives the same map |
| TreeMap.PutAllGet | src/main/java/com/ecom/automation/api/SimpleOAuthClient.java:143-147 | after a series of puts with distinct keys each key holds the value put for it, and other keys are untouched |
| TreeMap.PutAllOrderIndependent | src/main/java/com/ecom/automation/api/SimpleOAuthClient.java:143-147 | putting the same distinct-key entries in any order gives the same map |
| TreeMap.PutAllAscending | src/main/java/com/ecom/automation/api/SimpleOAuthClient.java:156 | entries put in ascending order, each above those present, are iterated in that order |
| Utf8.EncodeAscii | src/main/java/com/ecom/automation/api/SimpleOAuthClient.java:177 | an ASCII string's bytes are its character codes, one byte per character |
| Utf8.DecodeEncode | src/main/java/com/ecom/automation/api/SimpleOAuthClient.java:175-177 | decoding the UTF-8 bytes that `getBytes()` yields gives the string back |
| Utf8.EncodeInjective | src/main/java/com/ecom/automation/api/SimpleOAuthClient.java:175-177 | different strings give different bytes to the MAC |
| Base64.Encode | src/main/java/com/ecom/automation/api/SimpleOAuthClient.java:178 | four characters per started group of three bytes, all from the alphabet or `=` |
| Base64.DecodeEncode | src/main/java/com/ecom/automation/api/SimpleOAuthClient.java:178 | decoding the Base64 text gives the bytes back |
| Base64.EncodeInjective | src/main/java/com/ecom/automation/api/SimpleOAuthClient.java:178 | different MACs give different Base64 text |
| Base64.EncodeOneLeftOver | src/main/java/com/ecom/automation/api/SimpleOAuthClient.java:189-191 | for a length one more than a multiple of three, the text ends in `==` after one of `A`, `Q`, `g`, `w`; everything before the padding is from the alphabet |
| UrlEncoder.EncodeChar | src/main/java/com/ecom/automation/api/SimpleOAuthClient.java:199 | form-safe characters are kept, a space becomes `+`, anything else becomes `%XX` per UTF-8 byte; the output uses only form-safe characters, `+` and `%` |
| UrlEncoder.EncodeAlphabet | src/main/java/com/ecom/automation/api/SimpleOAuthClient.java:197-203 | the encoding is never shorter than its input and holds only form-safe characters, `+` and `%` |
| UrlEncoder.EncodeSafe | src/main/java/com/ecom/automation/api/SimpleOAuthClient.java:199 | a string of form-safe characters encodes to itself |
| UrlEncoder.DecodeEncode | src/main/java/com/ecom/automation/api/SimpleOAuthClient.java:197-203 | `URLDecoder` gives back every string `URLEncoder` encoded |
| UrlEncoder.EncodeInjective | src/main/java/com/ecom/automation/api/SimpleOAuthClient.java:197-203 | different strings have different encodings |
| UrlEncoder.Encode | src/main/java/com/ecom/automation/api/SimpleOAuthClient.java:197-203 | `URLEncoder.encode(value, UTF-8)`, character by character; characterised by `EncodeAlphabet`, `EncodeSafe`, `DecodeEncode` and `EncodeAgreesWithRfc` |
| UrlEncoder.DecodeWithoutPercent | src/main/java/com/ecom/automation/api/SimpleOAuthClient.java:59 | without `%` escapes, decoding only turns each `+` into a space, so a string with `+` does not decode to itself |
| UrlEncoder.EncodeAgreesWithRfc | src/main/java/com/ecom/automation/api/SimpleOAuthClient.java:152-160 | the form encoding equals RFC 5849 percent-encoding on every string without a space, `*` or `~` |
| UrlEncoder.EncodeDiffersFromRfc | src/main/java/com/ecom/automation/api/SimpleOAuthClient.java:199 | on a space, `*` and `~` the two encodings differ |
| OAuthClient.SecondsOf | src/main/java/com/ecom/automation/api/SimpleOAuthClient.java:145 | `millis / 1000` rounds toward zero: the result times 1000 is within one second of `millis`, on `millis`'s side of zero |
| OAuthClient.Timestamp | src/main/java/com/ecom/automation/api/SimpleOAuthClient.java:145 | the seconds since the epoch, rounded toward zero, printed in decimal; characterised by `TimestampIsWholeSeconds` and `TimestampLegal` |
| OAuthClient.KeepAlphanumeric | src/main/java/com/ecom/automation/api/SimpleOAuthClient.java:191 | `replaceAll("[^a-zA-Z0-9]", "")`: never longer than its input and only ASCII letters and digits; characterised by `KeepAlphanumericAppend` and `KeepAlphanumericOfAlphanumeric` |
| OAuthClient.TimestampIsWholeSeconds | src/main/java/com/ecom/automation/api/SimpleOAuthClient.java:145 | for a clock at or after the epoch the timestamp is all digits, without a leading zero, and its value is the whole seconds |
| OAuthClient.KeepAlphanumericOfAlphanumeric | src/main/java/com/ecom/automation/api/SimpleOAuthClient.java:191 | stripping keeps an alphanumeric string whole, so stripping twice is stripping once |
| OAuthClient.GenerateNonce | src/main/java/com/ecom/automation/api/SimpleOAuthClient.java:187-192 | the nonce has between 1 and 22 characters, each an ASCII letter or digit |
| OAuthClient.NamesAscending | src/main/java/com/ecom/automation/api/SimpleOAuthClient.java:143-164 | the six parameter names, in the order consumer key, nonce, signature, signature method, timestamp, version, are strictly ascending |
| OAuthClient.PutOrderIrrelevant | src/main/java/com/ecom/automation/api/SimpleOAuthClient.java:140-147 | whatever order the five parameters are put in, the map iterates consumer key, nonce, signature method, timestamp, version |
| OAuthClient.UnsignedParamsInOrder | src/main/java/com/ecom/automation/api/SimpleOAuthClient.java:140-147 | the puts in the source's order give that sorted map |
| OAuthClient.BuildParamString | src/main/java/com/ecom/automation/api/SimpleOAuthClient.java:155-159 | the loop that writes `&` only once something is written produces the encoded pairs joined by `&` |
| OAuthClient.ParamStringOfUnsigned | src/main/java/com/ecom/automation/api/SimpleOAuthClient.java:150-160 | the signed parameter string is the five encoded pairs in ascending name order, without `oauth_signature` |
| OAuthClient.BaseString | src/main/java/com/ecom/automation/api/SimpleOAuthClient.java:150-160 | the method, `&`, the encoded URL, `&`, and the encoded parameter string; characterised by `ParamStringOfUnsigned` and `GetAndPostSignDifferently` |
| OAuthClient.SigningKey | src/main/java/com/ecom/automation/api/SimpleOAuthClient.java:163 | the consumer secret followed by `&` (an empty token secret); characterised by `SignatureDistinguishesSecrets` |
| OAuthClient.Signature | src/main/java/com/ecom/automation/api/SimpleOAuthClient.java:172-182 | Base64 of the MAC over the UTF-8 bytes of key and data; characterised by `SignatureCarriesMac` and `SignatureDistinguishesSecrets` |
| OAuthClient.GenerateOAuthParams | src/main/java/com/ecom/automation/api/SimpleOAuthClient.java:139-167 | the five parameters put into a `TreeMap`, then the signature over them; characterised by `GeneratedParamsShape` and `GeneratedParamsSorted` |
| OAuthClient.GeneratedParamsShape | src/main/java/com/ecom/automation/api/SimpleOAuthClient.java:139-167 | the result holds the consumer key verbatim, the nonce, the signature over the other five parameters keyed with the secret and `&`, `HMAC-SHA1`, the timestamp and `1.0`, in that order |
| OAuthClient.GeneratedParamsSorted | src/main/java/com/ecom/automation/api/SimpleOAuthClient.java:139-167 | the six entries iterate in ascending name order |
| OAuthClient.SignatureDistinguishesSecrets | src/main/java/com/ecom/automation/api/SimpleOAuthClient.java:163-178 | when the MAC separates two signing keys, the signatures differ; UTF-8 and Base64 lose nothing |
| OAuthClient.SignatureCarriesMac | src/main/java/com/ecom/automation/api/SimpleOAuthClient.java:172-178 | Base64-decoding the signature gives the MAC bytes |
| OAuthClient.BuildFinalUrl | src/main/java/com/ecom/automation/api/SimpleOAuthClient.java:57-61 | the `StringBuilder` loop builds the base URL, `?` and `key=value&` per entry |
| OAuthClient.FinalUrl | src/main/java/com/ecom/automation/api/SimpleOAuthClient.java:57-61 | the base URL, `?`, and `key=value&` for every parameter with the value raw; characterised by `BuildFinalUrl` and `FinalUrlCarriesEveryPair` |
| OAuthClient.FinalUrlCarriesEveryPair | src/main/java/com/ecom/automation/api/SimpleOAuthClient.java:57-61 | the URL starts with the base URL and `?`, contains `key=value&` for every parameter with the value raw, and ends in `&` |
| OAuthClient.RawSignatureMisreadWithPlus | src/main/java/com/ecom/automation/api/SimpleOAuthClient.java:59 | a signature holding `+`, written raw into the query, does not form-decode back to itself |
| OAuthClient.HttpUrlOfQueryUrl | src/main/java/com/ecom/automation/api/SimpleOAuthClient.java:67 | appending `?` and the query never changes whether the URL has an `http` or `https` scheme |
| OAuthClient.LegalConcat | src/main/java/com/ecom/automation/api/SimpleOAuthClient.java:57-61 | two strings legal in a URI, with complete `%` escapes, concatenate to a legal string |
| OAuthClient.GeneratedParamsLegal | src/main/java/com/ecom/automation/api/SimpleOAuthClient.java:139-167 | with a consumer key legal in a URI, every name and value written into the query is legal: fixed names, a signed numeral, an alphanumeric nonce and Base64 text |
| OAuthClient.PrepareGet | src/main/java/com/ecom/automation/api/SimpleOAuthClient.java:49-83 | the signed GET request, or `RuntimeException("OAuth GET request failed")` when `URI.create` or the builder rejects the URL; characterised by `LegalUrlIsRequested` and `RejectedUrlFails` |
| OAuthClient.PreparePost | src/main/java/com/ecom/automation/api/SimpleOAuthClient.java:92-134 | the signed POST request with the JSON body, or `RuntimeException("OAuth POST request failed")`; characterised by `LegalUrlIsRequested`, `RejectedUrlFails` and `PostSignatureIgnoresBody` |
| OAuthClient.LegalUrlIsRequested | src/main/java/com/ecom/automation/api/SimpleOAuthClient.java:49-119 | an `http` or `https` base URL with legal characters and escapes, and a legal consumer key, yield the GET and POST requests for the signed URL with their headers and entity |
| OAuthClient.RejectedUrlFails | src/main/java/com/ecom/automation/api/SimpleOAuthClient.java:67-81 | a non-`http(s)` base URL, or an illegal character in the base URL, endpoint or consumer key, makes `get` and `post` throw their wrapped exception |
| OAuthClient.PostSignatureIgnoresBody | src/main/java/com/ecom/automation/api/SimpleOAuthClient.java:92-134 | two POST bodies give the same outcome and the same URL; the entity is the JSON text when non-empty and no body otherwise |
| OAuthClient.GetAndPostSignDifferently | src/main/java/com/ecom/automation/api/SimpleOAuthClient.java:150-151 | with the same clock, nonce and URL, GET and POST are signed over different base strings, so the MAC sees different bytes, and the signatures differ whenever the MAC does |
| ConfigManager.LoadProperties | src/main/java/com/ecom/automation/config/ConfigManager.java:46-65 | the table of `config/<env>.properties` when that resource exists, otherwise `Properties file not found: ` and the file name |
| ConfigManager.PropertiesFileNamesEnvironment | src/main/java/com/ecom/automation/config/ConfigManager.java:50-53 | the file is `config/dev.properties` without an `env` property, and otherwise names that property's value |
| ConfigManager.ResolvePlaceholder | src/main/java/com/ecom/automation/config/ConfigManager.java:142-148 | `${NAME:default}` resolution: the environment value or the default, the value itself when it is no placeholder, and `IndexOutOfBoundsException` for a trailing `:`; characterised by `VerbatimUnlessPlaceholder`, `ResolveWrittenPlaceholder`, `PlaceholderParts` and `ColonLastThrows` |
| ConfigManager.GetApiConsumerKey | src/main/java/com/ecom/automation/config/ConfigManager.java:139-149 | the `api.consumer.key` property (default `${API_CONSUMER_KEY:your_consumer_key_here}`), resolved; characterised by `MissingCredentialsDefault` |
| ConfigManager.GetApiConsumerSecret | src/main/java/com/ecom/automation/config/ConfigManager.java:157-167 | the `api.consumer.secret` property, resolved like the key; characterised by `SecretResolvedLikeKey` and `MissingCredentialsDefault` |
| ConfigManager.GetBaseUrl | src/main/java/com/ecom/automation/config/ConfigManager.java:93-95 | the `base.url` property, null when absent; characterised by `Defaults` |
| ConfigManager.GetBrowser | src/main/java/com/ecom/automation/config/ConfigManager.java:102-104 | the `browser` property, `chrome` by default; characterised by `Defaults` and `ConfiguredValuesVerbatim` |
| ConfigManager.IsHeadless | src/main/java/com/ecom/automation/config/ConfigManager.java:111-113 | `Boolean.parseBoolean` of the `headless` property, `false` by default; characterised by `HeadlessOnlyForTrue` |
| ConfigManager.GetTimeout | src/main/java/com/ecom/automation/config/ConfigManager.java:120-122 | `Integer.parseInt` of the `timeout` property, `30000` by default; characterised by `Defaults` and `JavaString.ParseIntOfDecimalString` |
| ConfigManager.GetApiBaseUrl | src/main/java/com/ecom/automation/config/ConfigManager.java:129-131 | the `api.base.url` property with the demo store URL as default; characterised by `Defaults` and `ConfiguredValuesVerbatim` |
| ConfigManager.ColonAfterOpening | src/main/java/com/ecom/automation/config/ConfigManager.java:142-143 | in a value starting `${`, the first `:` comes at or after position 2, so the name substring is well defined |
| ConfigManager.VerbatimUnlessPlaceholder | src/main/java/com/ecom/automation/config/ConfigManager.java:142-148 | a value not starting with `${`, or without `:`, is returned unchanged |
| ConfigManager.ResolveWrittenPlaceholder | src/main/java/com/ecom/automation/config/ConfigManager.java:142-146 | `${NAME:default}` resolves to the environment variable `NAME` when set and to `default` otherwise |
| ConfigManager.PlaceholderParts | src/main/java/com/ecom/automation/config/ConfigManager.java:144 | whatever the last character is, `}` or not, it is cut from the default |
| ConfigManager.ColonLastThrows | src/main/java/com/ecom/automation/config/ConfigManager.java:144 | a placeholder whose `:` is the last character throws `IndexOutOfBoundsException` |
| ConfigManager.MissingCredentialsDefault | src/main/java/com/ecom/automation/config/ConfigManager.java:139-167 | unconfigured credentials resolve to `your_consumer_key_here` and `your_consumer_secret_here` |
| ConfigManager.SecretResolvedLikeKey | src/main/java/com/ecom/automation/config/ConfigManager.java:157-167 | the secret is resolved exactly as a key with the same text |
| ConfigManager.Defaults | src/main/java/com/ecom/automation/config/ConfigManager.java:93-131 | with no properties: browser `chrome`, not headless, timeout 30000, the demo store API URL, and no base URL |
| ConfigManager.HeadlessOnlyForTrue | src/main/java/com/ecom/automation/config/ConfigManager.java:111-113 | headless exactly when `headless` is set to `true` in any case |
| ConfigManager.ConfiguredValuesVerbatim | src/main/java/com/ecom/automation/config/ConfigManager.java:102-131 | a configured browser or API base URL is returned as written, without placeholder substitution |
| TestUtils.IsNullOrEmptyIff | src/main/java/com/ecom/automation/utils/TestUtils.java:83-85 | null and the strings of characters at or below U+0020 only count as empty |
| TestUtils.IsNullOrEmpty | src/main/java/com/ecom/automation/utils/TestUtils.java:83-85 | `value == null || value.trim().isEmpty()`; characterised by `IsNullOrEmptyIff` |
| TestUtils.SafeString | src/main/java/com/ecom/automation/utils/TestUtils.java:73-75 | a present value prints as its `toString`; the result is `"null"` exactly for null or a value printing as `null` |
| TestUtils.SafeStringOfString | src/main/java/com/ecom/automation/utils/TestUtils.java:73-85 | for strings the result is the string itself or `"null"`; null and the text `null` print alike, but only null is empty |
| ApiCredentialValidator.CreateMissingCredentialError | src/main/java/com/ecom/automation/utils/ApiCredentialValidator.java:67-86 | the setup-instructions message with the variable name and example value filled in; characterised by `FormatContainsArguments` and `ErrorNamesVariableAndExample` |
| ApiCredentialValidator.FormatContainsArguments | src/main/java/com/ecom/automation/utils/ApiCredentialValidator.java:68-85 | every argument of the format call appears in the message |
| ApiCredentialValidator.ErrorNamesVariableAndExample | src/main/java/com/ecom/automation/utils/ApiCredentialValidator.java:67-86 | the message starts with the cross mark and the variable name, and it contains the variable name and the example value |
| ApiCredentialValidator.BlankIsNullOrEmpty | src/main/java/com/ecom/automation/utils/ApiCredentialValidator.java:32 | the validator's blank test is exactly `TestUtils.isNullOrEmpty` |
| ApiCredentialValidator.UsableIffNotRejected | src/main/java/com/ecom/automation/utils/ApiCredentialValidator.java:32-55 | a credential is usable exactly when it is neither blank nor the placeholder word |
| ApiCredentialValidator.PassesIffBothUsable | src/main/java/com/ecom/automation/utils/ApiCredentialValidator.java:24-58 | validation passes exactly when both key and secret are usable |
| ApiCredentialValidator.ValidateApiCredentials | src/main/java/com/ecom/automation/utils/ApiCredentialValidator.java:24-58 | the key checks, then the secret checks, each throwing the message for its variable; characterised by `PassesIffBothUsable`, `KeyCheckedFirst` and `SecretCheckedSecond` |
| ApiCredentialValidator.KeyCheckedFirst | src/main/java/com/ecom/automation/utils/ApiCredentialValidator.java:31-42 | an unusable key throws the `API_CONSUMER_KEY` message whatever the secret |
| ApiCredentialValidator.SecretCheckedSecond | src/main/java/com/ecom/automation/utils/ApiCredentialValidator.java:44-55 | with a usable key, an unusable secret throws the `API_CONSUMER_SECRET` message |
| ApiCredentialValidator.PlaceholderKeyRejected | src/main/java/com/ecom/automation/utils/ApiCredentialValidator.java:38-42 | the placeholder word itself is rejected as the key |
| ApiCredentialValidator.PaddedPlaceholderAccepted | src/main/java/com/ecom/automation/utils/ApiCredentialValidator.java:38 | the placeholder comparison is exact: the word after a space passes |
| ApiCredentialValidator.UnconfiguredKeyFails | src/main/java/com/ecom/automation/utils/ApiCredentialValidator.java:24-42 | with no configured key, validation of the resolved settings fails naming `API_CONSUMER_KEY` |
| MainBaseApiTest.MaskApiKey | src/main/java/com/ecom/automation/api/BaseApiTest.java:155-160 | the result is `****` exactly for null or at most eight characters; otherwise twelve characters: the first four, `****`, the last four |
| MainBaseApiTest.MaskApiSecret | src/main/java/com/ecom/automation/api/BaseApiTest.java:168-173 | the masked secret has four or twelve characters |
| MainBaseApiTest.SecretMaskedLikeKey | src/main/java/com/ecom/automation/api/BaseApiTest.java:155-173 | secrets are masked exactly as keys are |
| MainBaseApiTest.MiddleNotRevealed | src/main/java/com/ecom/automation/api/BaseApiTest.java:159 | two long values with the same first four and last four characters mask the same |
| MainBaseApiTest.MaskedLengthTellsCase | src/main/java/com/ecom/automation/api/BaseApiTest.java:155-160 | the masked value has twelve characters exactly when the input has more than eight |
| TestBaseApiTest.MaskApiKey | src/test/java/com/ecom/automation/api/BaseApiTest.java:230-235 | `****` exactly for null or at most eight characters; otherwise twelve characters keeping the first four and last four |
| TestBaseApiTest.MaskApiSecret | src/test/java/com/ecom/automation/api/BaseApiTest.java:243-248 | the masked secret has four or twelve characters |
| TestBaseApiTest.SecretMaskedLikeKey | src/test/java/com/ecom/automation/api/BaseApiTest.java:230-248 | secrets are masked exactly as keys are |
| TestBaseApiTest.AgreesWithMain | src/test/java/com/ecom/automation/api/BaseApiTest.java:230-248 | the test copy agrees with the main copy on every input |
| Hooks.IsApiTest | src/test/java/com/ecom/automation/stepdefinitions/Hooks.java:112-132 | the three API-test signals in the source's order; characterised by `IsApiTestIff` |
| Hooks.GetTestName | src/test/java/com/ecom/automation/stepdefinitions/Hooks.java:237-254 | the class part of the scenario id, or the fallback name; characterised by `QualifiedClassName`, `UnqualifiedClassName`, `NoClassPartFallsBack` and `DotsOnlyClassThrows` |
| Hooks.IsApiTestIff | src/test/java/com/ecom/automation/stepdefinitions/Hooks.java:112-132 | an API test exactly when the `test` property names the runner, the thread name contains `Api`, or the tag filter contains `@api`; the thread check for the runner name adds nothing |
| Hooks.QualifiedClassName | src/test/java/com/ecom/automation/stepdefinitions/Hooks.java:237-249 | an id `package.Class;scenario` gives `Class` |
| Hooks.UnqualifiedClassName | src/test/java/com/ecom/automation/stepdefinitions/Hooks.java:241-249 | an id `Class;scenario` without a package gives `Class` |
| Hooks.NoClassPartFallsBack | src/test/java/com/ecom/automation/stepdefinitions/Hooks.java:239-253 | an absent id, an id without `;`, or one made only of `;` gives the scenario name, or `UnknownTest` when that is null |
| Hooks.DotsOnlyClassThrows | src/test/java/com/ecom/automation/stepdefinitions/Hooks.java:247-248 | a class part made only of dots splits into nothing, and indexing the empty array throws |
| Hooks.Sanitize | src/test/java/com/ecom/automation/stepdefinitions/Hooks.java:204 | sanitising keeps the length and leaves only `[a-zA-Z0-9._-]` |
| Hooks.SanitizeFixesClean | src/test/java/com/ecom/automation/stepdefinitions/Hooks.java:204 | a name is left alone exactly when it is already clean |
| Hooks.SanitizeIdempotent | src/test/java/com/ecom/automation/stepdefinitions/Hooks.java:204 | sanitising twice is sanitising once |
| Hooks.ScreenshotFileName | src/test/java/com/ecom/automation/stepdefinitions/Hooks.java:203-206 | the test name, `_`, the sanitised scenario name, `_FAILED_`, the timestamp and `.png`; characterised by `SanitizedPartHasNoSeparator` and `FallbackNameNotSanitized` |
| Hooks.SanitizedPartHasNoSeparator | src/test/java/com/ecom/automation/stepdefinitions/Hooks.java:204-206 | the scenario-name part never adds a `/` to the file name |
| Hooks.FallbackNameNotSanitized | src/test/java/com/ecom/automation/stepdefinitions/Hooks.java:203-206 | when the id has no `;`, a `/` in the scenario name reaches the file name through the test-name part |
| Hooks.SafeScreenshotFileName | src/test/java/com/ecom/automation/stepdefinitions/Hooks.java:203-206 | with both name parts sanitised, every character before the fixed suffix is a file-name character |
| Hooks.SafeFileNameStaysInDirectory | src/test/java/com/ecom/automation/stepdefinitions/Hooks.java:203-206 | the sanitised name never holds a `/` from the names, and it equals the source's name whenever the test name is clean |
| TestContext.New | src/test/java/com/ecom/automation/stepdefinitions/TestContext.java:41-43 | a new context holds no handles and is not initialised |
| TestContext.BrowserEngine | src/test/java/com/ecom/automation/stepdefinitions/TestContext.java:109-121 | the engine for the lower-cased browser name; characterised by `BrowserEngineIgnoresCase`, `BrowserEngineIff` and `DefaultEngineIsChromium` |
| TestContext.BrowserEngineIgnoresCase | src/test/java/com/ecom/automation/stepdefinitions/TestContext.java:109-121 | the engine depends on the browser name only up to case |
| TestContext.BrowserEngineIff | src/test/java/com/ecom/automation/stepdefinitions/TestContext.java:109-121 | Firefox and WebKit are chosen exactly for their own names in any case; every other name gives Chromium |
| TestContext.DefaultEngineIsChromium | src/test/java/com/ecom/automation/stepdefinitions/TestContext.java:109-121 | without a `browser` setting the default `chrome` gives Chromium |
| TestContext.InitializeBrowser | src/test/java/com/ecom/automation/stepdefinitions/TestContext.java:65-102 | creates Playwright, launches the configured engine, opens a page and sets its timeout, stopping at the first failure; characterised by `InitializeBrowserOutcome`, `FreshInitializeBrowser`, `InitializeBrowserIdempotent` and `BadTimeoutKeepsHandles` |
| TestContext.InitializeBrowserOutcome | src/test/java/com/ecom/automation/stepdefinitions/TestContext.java:65-102 | initialisation succeeds exactly when it raises the flag, never raises it without all three handles, and fails only with `Browser initialization failed` |
| TestContext.FreshInitializeBrowser | src/test/java/com/ecom/automation/stepdefinitions/TestContext.java:65-102 | from a fresh context, success means every Playwright call and the timeout parse succeeded; the context then holds exactly what they returned |
| TestContext.InitializeBrowserIdempotent | src/test/java/com/ecom/automation/stepdefinitions/TestContext.java:66-68 | a second initialisation changes nothing, whatever Playwright would do |
| TestContext.BadTimeoutKeepsHandles | src/test/java/com/ecom/automation/stepdefinitions/TestContext.java:85-100 | a malformed `timeout` fails after the page exists, leaving all three handles assigned with the flag down |
| TestContext.GetPage | src/test/java/com/ecom/automation/stepdefinitions/TestContext.java:130-135 | the page, or `IllegalStateException` when not initialised; characterised by `GettersFollowFlag` and `GettersAfterInit` |
| TestContext.GetBrowser | src/test/java/com/ecom/automation/stepdefinitions/TestContext.java:143-148 | the browser, or `IllegalStateException`; characterised by `GettersFollowFlag` and `FailedBrowserCloseLeavesFlag` |
| TestContext.GetPlaywright | src/test/java/com/ecom/automation/stepdefinitions/TestContext.java:156-161 | the Playwright object, or `IllegalStateException`; characterised by `GettersFollowFlag` and `GettersAfterInit` |
| TestContext.GettersFollowFlag | src/test/java/com/ecom/automation/stepdefinitions/TestContext.java:130-161 | on a consistent context each getter answers exactly when the flag is set, and otherwise throws `IllegalStateException` |
| TestContext.GettersAfterInit | src/test/java/com/ecom/automation/stepdefinitions/TestContext.java:130-161 | after a successful initialisation the getters return the created handles |
| TestContext.Cleanup | src/test/java/com/ecom/automation/stepdefinitions/TestContext.java:189-213 | cleanup leaves the configuration and the page timeout untouched |
| TestContext.CleanupClearsAll | src/test/java/com/ecom/automation/stepdefinitions/TestContext.java:189-206 | when every close succeeds nothing stays open, the flag is down and the getters throw |
| TestContext.CleanupOnlyClears | src/test/java/com/ecom/automation/stepdefinitions/TestContext.java:189-213 | cleanup only clears handles and never raises the flag |
| TestContext.FailedBrowserCloseLeavesFlag | src/test/java/com/ecom/automation/stepdefinitions/TestContext.java:196-213 | a failing browser close leaves the flag set with the page cleared: `getPage` throws while `getBrowser` still answers |
| TestContext.GetInstance | src/test/java/com/ecom/automation/stepdefinitions/TestContext.java:50-55 | the registered instance, created on first use; characterised by `GetInstanceStable` |
| TestContext.Reset | src/test/java/com/ecom/automation/stepdefinitions/TestContext.java:221-226 | cleans the registered instance up and forgets it; characterised by `ResetThenFresh` and `ResetAfterInitCloses` |
| TestContext.GetInstanceStable | src/test/java/com/ecom/automation/stepdefinitions/TestContext.java:50-55 | the same instance comes back on every call until a reset |
| TestContext.ResetThenFresh | src/test/java/com/ecom/automation/stepdefinitions/TestContext.java:221-226 | a reset cleans the instance up and forgets it; the next call creates a fresh context |
| TestContext.InitializeRegistered | src/test/java/com/ecom/automation/stepdefinitions/TestContext.java:50-55 | `getInstance().initializeBrowser()` changes the one registered object; characterised by `InitializedInstanceShared` |
| TestContext.CleanupRegistered | src/test/java/com/ecom/automation/stepdefinitions/TestContext.java:50-55 | `getInstance().cleanup()` changes the one registered object; characterised by `CleanupRegisteredShared` |
| TestContext.InitializedInstanceShared | src/test/java/com/ecom/automation/stepdefinitions/TestContext.java:50-102 | after initialising through the singleton, the next `getInstance` returns the initialised object: its getters answer exactly when initialisation succeeded, and from a fresh registry they return what Playwright created |
| TestContext.ResetAfterInitCloses | src/test/java/com/ecom/automation/stepdefinitions/TestContext.java:221-226 | a reset after a successful initialisation through the singleton cleans up the object holding the created handles; with every close succeeding it hands back a context with no handles and the flag down, and the registry is empty |
| TestContext.CleanupRegisteredShared | src/test/java/com/ecom/automation/stepdefinitions/TestContext.java:50-55 | after a cleanup through the singleton in which every close succeeds, the next `getInstance` returns an object whose getters throw |

## Left out

- HTTP transport: the `HttpClient.send` call and the response wrapper are
  not modelled, and neither is a failure of the send, which the catch
  blocks would also wrap. The model ends at the request each method hands
  to the client, or at the wrapped exception when building that request
  throws.
- OAuthClient.PrepareGet: `URI.create` is modelled by two rules: no
  character that `java.net.URI` rejects in every component, and
  well-formed `%` escapes. The builder's scheme check is modelled as an
  `http://` or `https://` prefix in any case. The rest of the URI grammar
  is not modelled: a `[` outside a host, a second `#`, a malformed
  authority or an empty host. Some URLs that the model accepts would
  therefore still throw.
- OAuthClient.PreparePost: the same approximation of `URI.create` and of
  the builder as for `PrepareGet`.
- Jackson serialisation of the POST body: the body is given as its JSON
  text.
- Logging.
- HMAC-SHA1 itself is a parameter; the model states what is fed to it.
- `SecureRandom` is replaced by the sixteen bytes it would produce.
- `System.currentTimeMillis()` is replaced by its value.
- `System.getProperty`, `System.getenv` and the classpath lookup are maps.
  Parsing the `.properties` text format is not modelled; each resource
  maps directly to its table.
- `ConfigManager.getInstance` and its unsynchronised lazy initialisation
  are not modelled. The configuration table is passed to each operation.
- Playwright calls are outcomes given in a `Runtime` record and a `closes`
  predicate. Browser behaviour, screenshots and report attachments are not
  modelled.
- The `Hooks` setup and tear-down flows and the screenshot capture are not
  modelled. They consist of logging, file I/O and Playwright calls. The
  decisions they take (`isApiTest`, `getTestName`, the file name) are
  modelled.
- Concurrency: both singletons are unsynchronised, and threads are not
  modelled.
- Object identity: Java hands every caller of `TestContext.getInstance`
  the same object. The model threads the registry as a value instead.
  `InitializeRegistered` and `CleanupRegistered` store the changed context
  back into the registry, which is how the sharing is modelled. The
  separate contexts that PicoContainer injects through the public
  constructor are independent `Context` values.
- Java strings are sequences of UTF-16 code units. Here they are sequences
  of Unicode scalar values, so lengths and substrings differ for
  characters outside the Basic Multilingual Plane. The `TreeMap` order
  matches Java's `compareTo` only for strings without such characters. All
  parameter names are ASCII.
- JavaString.ToLower: models `toLowerCase` only for the characters whose
  lower case is an ASCII letter. That is exact for the comparisons with
  `firefox`, `webkit` and `true` that the code makes, but not for
  lower-casing in general or for locale-specific rules.
- JavaString.ParseInt: accepts ASCII digits only. Java's
  `Integer.parseInt` also accepts other Unicode decimal digits.
- JavaString.Split: models `String.split` only for the one-character
  patterns the code uses (`;` and `\\.`), not for general regular
  expressions.
- MainBaseApiTest.MaskApiSecret and TestBaseApiTest.MaskApiSecret: their
  own contracts state only the output length. The full behaviour is
  stated through `SecretMaskedLikeKey`, which equates them with
  `MaskApiKey`.
- RFC 5849 requires query parameters already present in the URL to be
  folded into the base string. The code never does this, and neither does
  the model.
- `HomePage`, the page factory, the locators and the step definitions are
  not part of this model.

## Findings

| source | as written | input that shows it | evidently intended | confidence | as-written member | corrected member |
|---|---|---|---|---|---|---|
| src/test/java/com/ecom/automation/stepdefinitions/Hooks.java:203-206 | only the scenario name is sanitised for the screenshot file name; the test name comes from `getTestName` raw, and that falls back to the unsanitised scenario name when the id has no `;` | scenario id `abc`, scenario name `log in / out`: the file name contains `/`, so the screenshot path points into a directory that does not exist | every part of the file name taken from the scenario is sanitised, so the file lands in `target/screenshots/failed` | medium, not executed | Hooks.FallbackNameNotSanitized | Hooks.SafeFileNameStaysInDirectory |
