/** `TestContext`: the shared holder of the Playwright instance, the
    browser and the page, with a flag that is set once all three exist.
    The context is an immutable record and every operation returns the
    next one.  Handles are opaque tokens; what Playwright's factory calls
    return (or throw) is a `Runtime` parameter, and whether a `close()`
    succeeds is a predicate on the handle. */
module TestContext {
  import opened Wrappers
  import opened JavaString
  import ConfigManager

  /** A Playwright object, browser or page. */
  type Handle = nat

  datatype Engine = Chromium | Firefox | Webkit

  datatype Context = Context(
    playwright: Option<Handle>,
    browser: Option<Handle>,
    page: Option<Handle>,
    /** The default timeout set on the page. */
    pageTimeout: Option<int>,
    initialized: bool,
    config: ConfigManager.Properties)

  /** The outcome of each Playwright call `initializeBrowser` makes. */
  datatype Runtime = Runtime(
    create: Result<Handle>,
    launch: (Engine, bool) -> Result<Handle>,
    newPage: Handle -> Result<Handle>)

  const InitFailed: Exception := RuntimeException("Browser initialization failed")
  const BrowserNotInitialized: Exception :=
    IllegalStateException("Browser not initialized. Call initializeBrowser() first.")
  const PlaywrightNotInitialized: Exception :=
    IllegalStateException("Playwright not initialized. Call initializeBrowser() first.")

  /** Lines 41-43: nothing created yet. */
  function New(config: ConfigManager.Properties): (c: Context)
    ensures !c.initialized && c.playwright.None? && c.browser.None? && c.page.None?
  {
    Context(None, None, None, None, false, config)
  }

  // ---------------------------------------------------------------------
  // Browser type

  /** Lines 109-121: the lower-cased `browser` setting picks the engine;
      `chrome`, `chromium` and every unknown name give Chromium. */
  function BrowserEngine(browserName: string): Engine
  {
    var name := ToLower(browserName);
    if name == "firefox" then Firefox
    else if name == "webkit" then Webkit
    else Chromium
  }

  /** The engine depends on the name only up to case. */
  lemma BrowserEngineIgnoresCase(browserName: string)
    ensures BrowserEngine(ToLower(browserName)) == BrowserEngine(browserName)
  {
    assert ToLower(ToLower(browserName)) == ToLower(browserName);
  }

  /** Firefox and WebKit are chosen exactly for their own names. */
  lemma BrowserEngineIff(browserName: string)
    ensures BrowserEngine(browserName) == Firefox <==> EqualsIgnoreCase(browserName, "firefox")
    ensures BrowserEngine(browserName) == Webkit <==> EqualsIgnoreCase(browserName, "webkit")
    ensures BrowserEngine(browserName) == Chromium <==>
              !EqualsIgnoreCase(browserName, "firefox") && !EqualsIgnoreCase(browserName, "webkit")
  {
  }

  /** Without a `browser` setting the default `chrome` gives Chromium. */
  lemma DefaultEngineIsChromium(config: ConfigManager.Properties)
    requires "browser" !in config
    ensures BrowserEngine(ConfigManager.GetBrowser(config)) == Chromium
  {
    var name := ToLower(ConfigManager.GetBrowser(config));
    assert name[0] == 'c';
  }

  // ---------------------------------------------------------------------
  // Initialisation

  /** Lines 65-102.  Already initialised: nothing happens.  Otherwise the
      Playwright instance, the browser (of the configured engine and
      headless mode) and the page are created in turn, the configured
      timeout is set, and only then is the flag raised.  Any failure is
      rethrown as `Browser initialization failed`, keeping the handles
      assigned before it. */
  function InitializeBrowser(c: Context, rt: Runtime): (Context, Result<()>)
  {
    if c.initialized then (c, Ok(()))
    else if rt.create.Err? then (c, Err(InitFailed))
    else
      var c1 := c.(playwright := Some(rt.create.value));
      var launched := rt.launch(BrowserEngine(ConfigManager.GetBrowser(c.config)), ConfigManager.IsHeadless(c.config));
      if launched.Err? then (c1, Err(InitFailed))
      else
        var c2 := c1.(browser := Some(launched.value));
        var created := rt.newPage(launched.value);
        if created.Err? then (c2, Err(InitFailed))
        else
          var c3 := c2.(page := Some(created.value));
          var timeout := ConfigManager.GetTimeout(c.config);
          if timeout.Err? then (c3, Err(InitFailed))
          else (c3.(pageTimeout := Some(timeout.value), initialized := true), Ok(()))
  }

  /** The flag means every handle exists. */
  predicate Ready(c: Context) {
    c.initialized ==> c.playwright.Some? && c.browser.Some? && c.page.Some?
  }

  /** Initialisation succeeds exactly when it leaves the flag set, keeps
      `Ready`, fails only with `Browser initialization failed`, and never
      changes the configuration. */
  lemma InitializeBrowserOutcome(c: Context, rt: Runtime)
    requires Ready(c)
    ensures var (c', r) := InitializeBrowser(c, rt);
      && Ready(c')
      && (r.Ok? <==> c'.initialized)
      && (r.Err? ==> r.error == InitFailed)
      && c'.config == c.config
  {
  }

  /** From a fresh context, success means each Playwright call succeeded
      and its result is held. */
  lemma FreshInitializeBrowser(c: Context, rt: Runtime)
    requires !c.initialized
    ensures var (c', r) := InitializeBrowser(c, rt);
      r.Ok? <==>
        && rt.create.Ok?
        && rt.launch(BrowserEngine(ConfigManager.GetBrowser(c.config)), ConfigManager.IsHeadless(c.config)).Ok?
        && rt.newPage(rt.launch(BrowserEngine(ConfigManager.GetBrowser(c.config)), ConfigManager.IsHeadless(c.config)).value).Ok?
        && ConfigManager.GetTimeout(c.config).Ok?
    ensures var (c', r) := InitializeBrowser(c, rt);
      r.Ok? ==>
        && c'.playwright == Some(rt.create.value)
        && c'.browser == Some(rt.launch(BrowserEngine(ConfigManager.GetBrowser(c.config)), ConfigManager.IsHeadless(c.config)).value)
        && c'.page == Some(rt.newPage(c'.browser.value).value)
        && c'.pageTimeout == Some(ConfigManager.GetTimeout(c.config).value)
  {
  }

  /** A second initialisation is a no-op, whatever Playwright would do. */
  lemma InitializeBrowserIdempotent(c: Context, rt: Runtime, rt2: Runtime)
    requires InitializeBrowser(c, rt).1.Ok?
    ensures InitializeBrowser(InitializeBrowser(c, rt).0, rt2) == (InitializeBrowser(c, rt).0, Ok(()))
  {
  }

  /** A malformed `timeout` fails initialisation after the page exists:
      the handles stay assigned with the flag down, so a retry replaces
      them without closing them. */
  lemma BadTimeoutKeepsHandles(c: Context, rt: Runtime, pw: Handle, b: Handle, pg: Handle)
    requires !c.initialized && rt.create == Ok(pw)
    requires rt.launch(BrowserEngine(ConfigManager.GetBrowser(c.config)), ConfigManager.IsHeadless(c.config)) == Ok(b)
    requires rt.newPage(b) == Ok(pg)
    requires ConfigManager.GetTimeout(c.config).Err?
    ensures InitializeBrowser(c, rt) == (c.(playwright := Some(pw), browser := Some(b), page := Some(pg)), Err(InitFailed))
  {
  }

  // ---------------------------------------------------------------------
  // Getters

  /** Lines 130-135. */
  function GetPage(c: Context): Result<Handle>
  {
    if !c.initialized || c.page.None? then Err(BrowserNotInitialized) else Ok(c.page.value)
  }

  /** Lines 143-148. */
  function GetBrowser(c: Context): Result<Handle>
  {
    if !c.initialized || c.browser.None? then Err(BrowserNotInitialized) else Ok(c.browser.value)
  }

  /** Lines 156-161. */
  function GetPlaywright(c: Context): Result<Handle>
  {
    if !c.initialized || c.playwright.None? then Err(PlaywrightNotInitialized) else Ok(c.playwright.value)
  }

  /** On a `Ready` context the getters answer exactly when the flag is
      set; otherwise they throw `IllegalStateException`. */
  lemma GettersFollowFlag(c: Context)
    requires Ready(c)
    ensures GetPage(c).Ok? <==> c.initialized
    ensures GetBrowser(c).Ok? <==> c.initialized
    ensures GetPlaywright(c).Ok? <==> c.initialized
    ensures GetPage(c).Err? ==> GetPage(c).error.IllegalStateException?
    ensures GetBrowser(c).Err? ==> GetBrowser(c).error.IllegalStateException?
    ensures GetPlaywright(c).Err? ==> GetPlaywright(c).error.IllegalStateException?
  {
  }

  /** After a successful initialisation the getters return what was
      created. */
  lemma GettersAfterInit(c: Context, rt: Runtime)
    requires Ready(c)
    ensures var (c', r) := InitializeBrowser(c, rt);
      r.Ok? ==> GetPage(c') == Ok(c'.page.value) && GetBrowser(c') == Ok(c'.browser.value)
                && GetPlaywright(c') == Ok(c'.playwright.value)
  {
    InitializeBrowserOutcome(c, rt);
  }

  // ---------------------------------------------------------------------
  // Cleanup

  /** Lines 189-213: closes the page, the browser and Playwright in that
      order, clearing each handle after its close, then lowers the flag.
      A close that throws ends the cleanup there; the exception is logged
      and swallowed. */
  function Cleanup(c: Context, closes: Handle -> bool): (c': Context)
    ensures c'.config == c.config && c'.pageTimeout == c.pageTimeout
  {
    if c.page.Some? && !closes(c.page.value) then c
    else
      var c1 := c.(page := None);
      if c1.browser.Some? && !closes(c1.browser.value) then c1
      else
        var c2 := c1.(browser := None);
        if c2.playwright.Some? && !closes(c2.playwright.value) then c2
        else c2.(playwright := None, initialized := false)
  }

  /** Every close succeeding leaves nothing open and the flag down. */
  lemma CleanupClearsAll(c: Context, closes: Handle -> bool)
    requires c.page.Some? ==> closes(c.page.value)
    requires c.browser.Some? ==> closes(c.browser.value)
    requires c.playwright.Some? ==> closes(c.playwright.value)
    ensures var c' := Cleanup(c, closes);
      c'.page.None? && c'.browser.None? && c'.playwright.None? && !c'.initialized
    ensures GetPage(Cleanup(c, closes)).Err? && GetPlaywright(Cleanup(c, closes)).Err?
  {
  }

  /** Cleanup never opens anything: each handle is either kept or
      cleared, and the flag is never raised. */
  lemma CleanupOnlyClears(c: Context, closes: Handle -> bool)
    ensures var c' := Cleanup(c, closes);
      && (c'.page == c.page || c'.page.None?)
      && (c'.browser == c.browser || c'.browser.None?)
      && (c'.playwright == c.playwright || c'.playwright.None?)
      && (c'.initialized ==> c.initialized)
  {
  }

  /** A browser whose close throws leaves the flag set with the page
      cleared, which is why the getters also check the handle. */
  lemma FailedBrowserCloseLeavesFlag(c: Context, closes: Handle -> bool)
    requires c.initialized && c.browser.Some? && !closes(c.browser.value)
    requires c.page.Some? ==> closes(c.page.value)
    ensures Cleanup(c, closes).initialized && Cleanup(c, closes).page.None?
    ensures !Ready(Cleanup(c, closes))
    ensures GetPage(Cleanup(c, closes)) == Err(BrowserNotInitialized)
    ensures GetBrowser(Cleanup(c, closes)) == Ok(c.browser.value)
  {
  }

  // ---------------------------------------------------------------------
  // The singleton

  /** The static `instance` field. */
  datatype Registry = Registry(instance: Option<Context>)

  /** Lines 50-55: creates the instance on first use. */
  function GetInstance(r: Registry, config: ConfigManager.Properties): (Registry, Context)
  {
    if r.instance.None? then
      var c := New(config);
      (Registry(Some(c)), c)
    else (r, r.instance.value)
  }

  /** Lines 221-226: cleans the instance up, then forgets it; the cleaned
      instance is returned for whoever still holds it. */
  function Reset(r: Registry, closes: Handle -> bool): (Registry, Option<Context>)
  {
    if r.instance.None? then (r, None)
    else (Registry(None), Some(Cleanup(r.instance.value, closes)))
  }

  /** The same instance comes back on every call until a reset. */
  lemma GetInstanceStable(r: Registry, config: ConfigManager.Properties, config2: ConfigManager.Properties)
    ensures var (r1, c1) := GetInstance(r, config);
      GetInstance(r1, config2) == (r1, c1)
    ensures r.instance.Some? ==> GetInstance(r, config).1 == r.instance.value
  {
  }

  /** After a reset the next call creates a fresh, uninitialised context. */
  lemma ResetThenFresh(r: Registry, closes: Handle -> bool, config: ConfigManager.Properties)
    ensures Reset(r, closes).0.instance.None?
    ensures GetInstance(Reset(r, closes).0, config).1 == New(config)
    ensures r.instance.Some? ==> Reset(r, closes).1 == Some(Cleanup(r.instance.value, closes))
  {
  }

  /** `TestContext.getInstance().initializeBrowser()`: every caller holds
      the one registered object, so the call changes the instance the
      registry keeps. */
  function InitializeRegistered(r: Registry, config: ConfigManager.Properties, rt: Runtime): (Registry, Result<()>)
  {
    var (_, c) := GetInstance(r, config);
    var (c', res) := InitializeBrowser(c, rt);
    (Registry(Some(c')), res)
  }

  /** `TestContext.getInstance().cleanup()`, on the registered object. */
  function CleanupRegistered(r: Registry, config: ConfigManager.Properties, closes: Handle -> bool): Registry
  {
    var (_, c) := GetInstance(r, config);
    Registry(Some(Cleanup(c, closes)))
  }

  /** Whatever initialisation did through one reference, the next
      `getInstance` returns: on success the getters answer with the
      handles it created, from a fresh registry those Playwright
      returned. */
  lemma InitializedInstanceShared(r: Registry, config: ConfigManager.Properties, config2: ConfigManager.Properties,
                                  rt: Runtime)
    requires r.instance.Some? ==> Ready(r.instance.value)
    ensures var (r1, res) := InitializeRegistered(r, config, rt);
      && r1.instance.Some?
      && GetInstance(r1, config2).1 == r1.instance.value
      && (res.Ok? <==> GetPage(GetInstance(r1, config2).1).Ok?)
    ensures var (r1, res) := InitializeRegistered(r, config, rt);
      r.instance.None? && res.Ok? ==>
        && GetPlaywright(GetInstance(r1, config2).1) == Ok(rt.create.value)
        && GetBrowser(GetInstance(r1, config2).1)
           == rt.launch(BrowserEngine(ConfigManager.GetBrowser(config)), ConfigManager.IsHeadless(config))
        && GetPage(GetInstance(r1, config2).1) == rt.newPage(GetBrowser(GetInstance(r1, config2).1).value)
  {
    var c := GetInstance(r, config).1;
    InitializeBrowserOutcome(c, rt);
    GettersFollowFlag(InitializeBrowser(c, rt).0);
    if r.instance.None? {
      FreshInitializeBrowser(c, rt);
    }
  }

  /** A reset after a successful initialisation through the singleton
      closes the handles that initialisation created: when each close
      succeeds, the instance it hands back holds nothing and has the
      flag down, and the registry is empty. */
  lemma ResetAfterInitCloses(r: Registry, config: ConfigManager.Properties, rt: Runtime, closes: Handle -> bool)
    requires r.instance.Some? ==> Ready(r.instance.value)
    requires InitializeRegistered(r, config, rt).1.Ok?
    requires var c := InitializeRegistered(r, config, rt).0.instance.value;
      c.page.Some? && c.browser.Some? && c.playwright.Some?
      && closes(c.page.value) && closes(c.browser.value) && closes(c.playwright.value)
    ensures var r1 := InitializeRegistered(r, config, rt).0;
      && Reset(r1, closes).0.instance.None?
      && Reset(r1, closes).1 == Some(Cleanup(r1.instance.value, closes))
      && Reset(r1, closes).1.value.page.None? && Reset(r1, closes).1.value.browser.None?
      && Reset(r1, closes).1.value.playwright.None? && !Reset(r1, closes).1.value.initialized
  {
    var r1 := InitializeRegistered(r, config, rt).0;
    CleanupClearsAll(r1.instance.value, closes);
  }

  /** A cleanup through the singleton is seen by the next `getInstance`:
      with every close succeeding, the getters throw again until the
      next initialisation. */
  lemma CleanupRegisteredShared(r: Registry, config: ConfigManager.Properties, config2: ConfigManager.Properties,
                                closes: Handle -> bool)
    requires var c := GetInstance(r, config).1;
      && (c.page.Some? ==> closes(c.page.value))
      && (c.browser.Some? ==> closes(c.browser.value))
      && (c.playwright.Some? ==> closes(c.playwright.value))
    ensures var c := GetInstance(CleanupRegistered(r, config, closes), config2).1;
      GetPage(c) == Err(BrowserNotInitialized) && GetBrowser(c) == Err(BrowserNotInitialized)
      && GetPlaywright(c) == Err(PlaywrightNotInitialized)
  {
    CleanupClearsAll(GetInstance(r, config).1, closes);
  }
}
