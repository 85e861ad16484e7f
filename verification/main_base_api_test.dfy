/** The credential masking of `src/main`'s `BaseApiTest`, used when the
    configuration is logged at start-up. */
module MainBaseApiTest {
  import opened Wrappers

  const Stars: string := "****"

  /** Lines 155-160: null or at most eight characters hides everything;
      longer keys keep their first four and last four characters. */
  function MaskApiKey(apiKey: Option<string>): (r: string)
    ensures apiKey.None? || |apiKey.value| <= 8 <==> r == Stars
    ensures apiKey.Some? && |apiKey.value| > 8 ==>
              |r| == 12 && r[4..8] == Stars
              && r[..4] == apiKey.value[..4] && r[8..] == apiKey.value[|apiKey.value| - 4..]
  {
    if apiKey.None? || |apiKey.value| <= 8 then Stars
    else apiKey.value[..4] + Stars + apiKey.value[|apiKey.value| - 4..]
  }

  /** Lines 168-173: the same rule for the secret. */
  function MaskApiSecret(apiSecret: Option<string>): (r: string)
    ensures |r| == 4 || |r| == 12
  {
    if apiSecret.None? || |apiSecret.value| <= 8 then Stars
    else apiSecret.value[..4] + Stars + apiSecret.value[|apiSecret.value| - 4..]
  }

  /** Secrets are masked exactly as keys are. */
  lemma SecretMaskedLikeKey(value: Option<string>)
    ensures MaskApiSecret(value) == MaskApiKey(value)
  {
  }

  /** Nothing between the first four and the last four characters reaches
      the output: two long values that agree there mask the same. */
  lemma MiddleNotRevealed(a: string, b: string)
    requires |a| > 8 && |b| > 8
    requires a[..4] == b[..4] && a[|a| - 4..] == b[|b| - 4..]
    ensures MaskApiKey(Some(a)) == MaskApiKey(Some(b))
  {
  }

  /** A masked value of twelve characters came from a longer value whose
      ends it shows. */
  lemma MaskedLengthTellsCase(value: Option<string>)
    ensures |MaskApiKey(value)| == 12 <==> value.Some? && |value.value| > 8
  {
  }
}
