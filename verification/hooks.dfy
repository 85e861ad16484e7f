/** The Cucumber `Hooks` decisions that do not drive a browser: whether
    the running test is an API test, the test name used for screenshots,
    and the screenshot file name.  System properties, the thread name, the
    scenario's id and name, and the formatted clock reading are inputs. */
module Hooks {
  import opened Wrappers
  import opened JavaString

  // ---------------------------------------------------------------------
  // API test detection

  const ApiMarker: string := "Api"
  const RunnerClass: string := ApiMarker + "TestRunner"
  const ApiTag: string := "@api"

  /** Lines 112-132: the `test` system property names the API runner, or
      the thread name mentions it or `Api`, or the `cucumber.filter.tags`
      property holds `@api`. */
  function IsApiTest(testClass: Option<string>, threadName: string, cucumberTags: Option<string>): bool
  {
    if testClass.Some? && Contains(testClass.value, RunnerClass) then true
    else if Contains(threadName, RunnerClass) || Contains(threadName, ApiMarker) then true
    else cucumberTags.Some? && Contains(cucumberTags.value, ApiTag)
  }

  /** The thread check for the runner's name is subsumed by the check for
      `Api`: three independent signals decide. */
  lemma IsApiTestIff(testClass: Option<string>, threadName: string, cucumberTags: Option<string>)
    ensures IsApiTest(testClass, threadName, cucumberTags) <==>
              (testClass.Some? && Contains(testClass.value, RunnerClass))
              || Contains(threadName, ApiMarker)
              || (cucumberTags.Some? && Contains(cucumberTags.value, ApiTag))
  {
    if Contains(threadName, RunnerClass) {
      ContainsPrefixOf(threadName, ApiMarker, "TestRunner");
    }
  }

  // ---------------------------------------------------------------------
  // Test name

  const UnknownTest: string := "UnknownTest"

  /** Line 253: the scenario name, or `UnknownTest` when it is null. */
  function FallbackName(scenarioName: Option<string>): string
  {
    scenarioName.GetOr(UnknownTest)
  }

  /** Lines 237-254: for an id with a `;`, the last `.`-field of the text
      before the first `;`, both found with `String.split`, which drops
      trailing empty strings; indexing an empty class split throws.
      Otherwise, or when the `;`-split is empty, the fallback name.
      `contains(";")` is membership of the character. */
  function GetTestName(scenarioId: Option<string>, scenarioName: Option<string>): Result<string>
  {
    if scenarioId.Some? && ';' in scenarioId.value then
      var parts := Split(scenarioId.value, ';');
      if |parts| > 0 then
        var classParts := Split(parts[0], '.');
        if |classParts| == 0 then Err(IndexOutOfBounds)
        else Ok(classParts[|classParts| - 1])
      else Ok(FallbackName(scenarioName))
    else Ok(FallbackName(scenarioName))
  }

  /** `package.Class;scenario` gives `Class`. */
  lemma QualifiedClassName(pkg: string, cls: string, rest: string, scenarioName: Option<string>)
    requires ';' !in pkg && ';' !in cls && '.' !in cls && cls != ""
    ensures GetTestName(Some(pkg + "." + cls + ";" + rest), scenarioName) == Ok(cls)
  {
    var q := pkg + "." + cls;
    var id := q + ";" + rest;
    assert q[|pkg|] == '.';
    assert ';' !in q;
    FieldsAtSeparator(q, rest, ';');
    assert id[|q|] == ';';
    var parts := Split(id, ';');
    assert Fields(id, ';')[0] == q;
    assert |parts| > 0;
    LastField(pkg, cls, '.');
    assert '.' in q;
  }

  /** `Class;scenario`, with no package, gives `Class`. */
  lemma UnqualifiedClassName(cls: string, rest: string, scenarioName: Option<string>)
    requires ';' !in cls && '.' !in cls && cls != ""
    ensures GetTestName(Some(cls + ";" + rest), scenarioName) == Ok(cls)
  {
    var id := cls + ";" + rest;
    FieldsAtSeparator(cls, rest, ';');
    assert id[|cls|] == ';';
    assert Fields(id, ';')[0] == cls;
  }

  /** An absent id, one without `;`, or one made only of `;` falls back to
      the scenario name. */
  lemma NoClassPartFallsBack(scenarioId: Option<string>, scenarioName: Option<string>)
    requires scenarioId.Some? ==>
               || ';' !in scenarioId.value
               || forall i :: 0 <= i < |scenarioId.value| ==> scenarioId.value[i] == ';'
    ensures GetTestName(scenarioId, scenarioName) == Ok(FallbackName(scenarioName))
  {
    if scenarioId.Some? && ';' in scenarioId.value {
      FieldsOfSeparators(scenarioId.value, ';');
    }
  }

  /** A class part made only of dots splits into nothing, and indexing the
      empty array throws. */
  lemma DotsOnlyClassThrows(dots: string, rest: string, scenarioName: Option<string>)
    requires |dots| > 0 && forall i :: 0 <= i < |dots| ==> dots[i] == '.'
    ensures GetTestName(Some(dots + ";" + rest), scenarioName) == Err(IndexOutOfBounds)
  {
    var id := dots + ";" + rest;
    assert ';' !in dots;
    FieldsAtSeparator(dots, rest, ';');
    assert id[|dots|] == ';';
    assert Fields(id, ';')[0] == dots;
    assert dots[0] == '.';
    FieldsOfSeparators(dots, '.');
  }

  // ---------------------------------------------------------------------
  // Screenshot file name

  /** The characters `[a-zA-Z0-9._-]` kept by the sanitising pattern. */
  predicate IsFileNameChar(c: char) {
    'a' <= c <= 'z' || 'A' <= c <= 'Z' || '0' <= c <= '9' || c == '.' || c == '_' || c == '-'
  }

  /** Line 204: `replaceAll("[^a-zA-Z0-9._-]", "_")` replaces every other
      character, one for one. */
  function Sanitize(name: string): (r: string)
    ensures |r| == |name|
    ensures forall i :: 0 <= i < |r| ==> IsFileNameChar(r[i])
  {
    seq(|name|, i requires 0 <= i < |name| => if IsFileNameChar(name[i]) then name[i] else '_')
  }

  /** Sanitising leaves a name alone exactly when it is already clean. */
  lemma SanitizeFixesClean(name: string)
    ensures Sanitize(name) == name <==> forall i :: 0 <= i < |name| ==> IsFileNameChar(name[i])
  {
    if Sanitize(name) == name {
      assert forall i :: 0 <= i < |name| ==> IsFileNameChar(Sanitize(name)[i]);
    }
  }

  /** Sanitising twice is sanitising once. */
  lemma SanitizeIdempotent(name: string)
    ensures Sanitize(Sanitize(name)) == Sanitize(name)
  {
    SanitizeFixesClean(Sanitize(name));
  }

  /** Lines 205-206: `%s_%s_FAILED_%s.png` of the test name, the sanitised
      scenario name and the timestamp. */
  function ScreenshotFileName(testName: string, scenarioName: string, timestamp: string): string
  {
    testName + "_" + Sanitize(scenarioName) + "_FAILED_" + timestamp + ".png"
  }

  /** The scenario-name part cannot add a `/`: the file stays in the
      screenshot directory when the test name and timestamp have none. */
  lemma SanitizedPartHasNoSeparator(testName: string, scenarioName: string, timestamp: string)
    requires '/' !in testName && '/' !in timestamp
    ensures '/' !in ScreenshotFileName(testName, scenarioName, timestamp)
  {
    assert !IsFileNameChar('/');
  }

  /** The test-name part is not sanitised: when the id has no `;`, a `/`
      in the scenario name reaches the file name through it. */
  lemma FallbackNameNotSanitized(scenarioId: string, scenarioName: string, timestamp: string)
    requires ';' !in scenarioId && '/' in scenarioName
    ensures GetTestName(Some(scenarioId), Some(scenarioName)) == Ok(scenarioName)
    ensures '/' in ScreenshotFileName(GetTestName(Some(scenarioId), Some(scenarioName)).value, scenarioName, timestamp)
  {
    var f := ScreenshotFileName(scenarioName, scenarioName, timestamp);
    var i :| 0 <= i < |scenarioName| && scenarioName[i] == '/';
    assert f[i] == '/';
  }

  /** The file name with the test-name part sanitised as well, as the
      scenario-name part already is. */
  function SafeScreenshotFileName(testName: string, scenarioName: string, timestamp: string): (r: string)
    ensures |r| == |testName| + |scenarioName| + |timestamp| + 13
    ensures forall i :: 0 <= i < |testName| + 1 + |scenarioName| ==> IsFileNameChar(r[i])
  {
    Sanitize(testName) + "_" + Sanitize(scenarioName) + "_FAILED_" + timestamp + ".png"
  }

  /** Whatever the test name, the safe file name has no `/` unless the
      timestamp brings one, and it coincides with the source's name
      whenever the test name is already clean. */
  lemma SafeFileNameStaysInDirectory(testName: string, scenarioName: string, timestamp: string)
    ensures '/' !in timestamp ==> '/' !in SafeScreenshotFileName(testName, scenarioName, timestamp)
    ensures (forall i :: 0 <= i < |testName| ==> IsFileNameChar(testName[i])) ==>
              SafeScreenshotFileName(testName, scenarioName, timestamp)
              == ScreenshotFileName(testName, scenarioName, timestamp)
  {
    assert !IsFileNameChar('/');
    SanitizeFixesClean(testName);
  }
}
