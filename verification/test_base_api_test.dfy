/** The credential masking of `src/test`'s `BaseApiTest`, a second copy of
    the `src/main` helper. */
module TestBaseApiTest {
  import opened Wrappers
  import MainBaseApiTest

  const Stars: string := "****"

  /** Lines 230-235. */
  function MaskApiKey(apiKey: Option<string>): (r: string)
    ensures apiKey.None? || |apiKey.value| <= 8 <==> r == Stars
    ensures apiKey.Some? && |apiKey.value| > 8 ==>
              |r| == 12 && r[..4] == apiKey.value[..4] && r[8..] == apiKey.value[|apiKey.value| - 4..]
  {
    if apiKey == None || |apiKey.value| <= 8 then Stars
    else apiKey.value[..4] + Stars + apiKey.value[|apiKey.value| - 4..]
  }

  /** Lines 243-248. */
  function MaskApiSecret(apiSecret: Option<string>): (r: string)
    ensures |r| == 4 || |r| == 12
  {
    if apiSecret == None || |apiSecret.value| <= 8 then Stars
    else apiSecret.value[..4] + Stars + apiSecret.value[|apiSecret.value| - 4..]
  }

  /** Secrets are masked exactly as keys are. */
  lemma SecretMaskedLikeKey(value: Option<string>)
    ensures MaskApiSecret(value) == MaskApiKey(value)
  {
  }

  /** This copy agrees with the `src/main` one on every input. */
  lemma AgreesWithMain(value: Option<string>)
    ensures MaskApiKey(value) == MainBaseApiTest.MaskApiKey(value)
    ensures MaskApiSecret(value) == MainBaseApiTest.MaskApiSecret(value)
  {
  }
}
