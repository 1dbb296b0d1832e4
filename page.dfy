/** `MainPage`, the XAML page that hosts the Unity swap-chain panel behind an extended splash
    screen. The model keeps the page's own fields, and records what its calls into XAML
    leave behind: whether `ExtendedSplashGrid` is still in the panel, the brush colour the
    manifest parse gave that grid, how many of the page's resize handlers `Window.SizeChanged`
    holds, and the text of `_EventsFromUnity`.

    Each state-changing method is specified by a transition function on `PageState`, the
    page's abstract value. The lemmas about those functions are what the page promises. */
module Page {
  import opened Wrappers
  import opened DotNet
  import opened SplashColor
  import opened Communications

  /** `Windows.Foundation.Rect`: left, top, width, height. */
  datatype Rect = Rect(x: real, y: real, width: real, height: real)

  const EMPTY_RECT := Rect(0.0, 0.0, 0.0, 0.0)

  const EVENT_TEXT_PREFIX := "Event received "
  const EVENT_TEXT_SUFFIX := " times"
  const XAML_MESSAGE := "Message from XAML"

  /** The delegate the page registers with Unity: its `UnityToXAMLEventCallback`. */
  datatype PageCallback = ToXamlEventCallback

  /** The abstract value of a page. */
  datatype PageState = PageState(
    splashLocation: Option<Rect>,   // null `splash`, or its `ImageLocation`
    splashImageRect: Rect,
    resizeHandlerSet: bool,         // `onResizeHandler != null`
    sizeChangedHandlers: nat,       // the page's handlers on `Window.SizeChanged`
    unsubscribes: nat,              // how often the page has removed one
    splashGridAttached: bool,       // `ExtendedSplashGrid` is a child of the panel
    splashBackground: Option<ARGB>, // the colour given to the grid's background, if any
    eventWasReceivedCount: int32,
    eventsFromUnityText: string)

  /** What every reachable page satisfies: the window holds the page's one resize handler
      exactly while `onResizeHandler` is set, and it was removed at most once. */
  ghost predicate Inv(s: PageState) {
    s.sizeChangedHandlers == (if s.resizeHandlerSet then 1 else 0) &&
    s.sizeChangedHandlers + s.unsubscribes == 1
  }

  // ---------------------------------------------------------------------------
  // Transitions

  /** `OnResize`: the image rectangle follows the splash screen, when there is one. */
  function Resized(s: PageState): (t: PageState)
    ensures s.splashLocation.Some? ==> t.splashImageRect == s.splashLocation.value
    ensures s.splashLocation.None? ==> t == s
    ensures t.(splashImageRect := s.splashImageRect) == s
  {
    match s.splashLocation
    case None => s
    case Some(location) => s.(splashImageRect := location)
  }

  /** The constructor's path for a device without holographic support: the app's splash
      screen, one resize, and one handler on `Window.SizeChanged`. */
  function Initial(splashLocation: Option<Rect>): (t: PageState)
    ensures Inv(t)
    ensures t.resizeHandlerSet && t.splashGridAttached && t.splashBackground.None?
    ensures t.eventWasReceivedCount == 0
    ensures t.splashLocation == splashLocation
    ensures splashLocation.Some? ==> t.splashImageRect == splashLocation.value
  {
    Resized(PageState(splashLocation, EMPTY_RECT, true, 1, 0, true, None, 0, ""))
  }

  /** `OnNavigatedTo`: the navigation parameter becomes the splash screen, then a resize. */
  function Navigated(s: PageState, splashLocation: Option<Rect>): (t: PageState)
    ensures t.splashLocation == splashLocation
    ensures splashLocation.Some? ==> t.splashImageRect == splashLocation.value
    ensures t.(splashLocation := s.splashLocation, splashImageRect := s.splashImageRect) == s
  {
    Resized(s.(splashLocation := splashLocation))
  }

  /** The system moving the splash image, as it does when the window changes size: the
      `ImageLocation` of the page's splash screen, if it has one, becomes `location`. */
  function Moved(s: PageState, location: Rect): (t: PageState)
    ensures s.splashLocation.Some? ==> t.splashLocation == Some(location)
    ensures s.splashLocation.None? ==> t == s
    ensures t.(splashLocation := s.splashLocation) == s
  {
    if s.splashLocation.Some? then s.(splashLocation := Some(location)) else s
  }

  /** `Window.SizeChanged` firing: the page's handler runs `OnResize` while registered. */
  function SizeChanged(s: PageState): (t: PageState)
    ensures t.splashImageRect ==
            if s.resizeHandlerSet && s.splashLocation.Some? then s.splashLocation.value else s.splashImageRect
    ensures t.(splashImageRect := s.splashImageRect) == s
  {
    if s.resizeHandlerSet then Resized(s) else s
  }

  /** `RemoveSplashScreen`: the grid leaves the panel, and the resize handler, if still set,
      is unsubscribed and cleared. */
  function Removed(s: PageState): (t: PageState)
    ensures !t.splashGridAttached && !t.resizeHandlerSet
    ensures Inv(s) ==> Inv(t) && t.sizeChangedHandlers == 0
    ensures t.unsubscribes == s.unsubscribes + (if s.resizeHandlerSet then 1 else 0)
    ensures t.(splashGridAttached := s.splashGridAttached, resizeHandlerSet := s.resizeHandlerSet,
               sizeChangedHandlers := s.sizeChangedHandlers, unsubscribes := s.unsubscribes) == s
  {
    s.(splashGridAttached := false,
       resizeHandlerSet := false,
       sizeChangedHandlers :=
         if s.resizeHandlerSet && s.sizeChangedHandlers > 0 then s.sizeChangedHandlers - 1 else s.sizeChangedHandlers,
       unsubscribes := if s.resizeHandlerSet then s.unsubscribes + 1 else s.unsubscribes)
  }

  /** The text shown after the `n`th event. */
  function EventText(n: int32): string {
    EVENT_TEXT_PREFIX + Int32ToString(n) + EVENT_TEXT_SUFFIX
  }

  /** `UnityToXAMLEventCallback`: the counter is bumped (C#'s unchecked `int++`) and shown. */
  function EventReceived(s: PageState): (t: PageState)
    ensures t.eventWasReceivedCount == Increment32(s.eventWasReceivedCount)
    ensures t.eventsFromUnityText == EventText(t.eventWasReceivedCount)
    ensures t.(eventWasReceivedCount := s.eventWasReceivedCount, eventsFromUnityText := s.eventsFromUnityText) == s
  {
    var n := Increment32(s.eventWasReceivedCount);
    s.(eventWasReceivedCount := n, eventsFromUnityText := EventText(n))
  }

  /** The dispatched part of `GetSplashBackgroundColor`, once the manifest read has finished
      (`None`: the read threw, which the catch-all swallows). */
  function BackgroundRead(s: PageState, manifest: Option<string>): (t: PageState)
    ensures manifest.None? ==> t == s
    ensures manifest.Some? && ExtractColor(manifest.value).Some? ==> t.splashBackground == ExtractColor(manifest.value)
    ensures manifest.Some? && ExtractColor(manifest.value).None? ==> t == s
    ensures t.(splashBackground := s.splashBackground) == s
  {
    match manifest
    case None => s
    case Some(text) =>
      match ExtractColor(text)
      case None => s
      case Some(color) => s.(splashBackground := Some(color))
  }

  // ---------------------------------------------------------------------------
  // Runs of events

  /** Everything that can happen to a page after it is built. A window resize carries where
      the system has moved the splash image to. */
  datatype PageEvent =
    | WindowResized(location: Rect)
    | NavigatedTo(splashLocation: Option<Rect>)
    | RenderingStarted
    | EventFromUnity
    | ManifestRead(manifest: Option<string>)

  function Step(s: PageState, e: PageEvent): PageState {
    match e
    case WindowResized(location) => SizeChanged(Moved(s, location))
    case NavigatedTo(location) => Navigated(s, location)
    case RenderingStarted => Removed(s)
    case EventFromUnity => EventReceived(s)
    case ManifestRead(manifest) => BackgroundRead(s, manifest)
  }

  function Run(s: PageState, events: seq<PageEvent>): PageState
    decreases |events|
  {
    if events == [] then s else Run(Step(s, events[0]), events[1..])
  }

  /** How many events came from Unity. */
  function EventsFromUnity(events: seq<PageEvent>): nat
    decreases |events|
  {
    if events == [] then 0
    else (if events[0].EventFromUnity? then 1 else 0) + EventsFromUnity(events[1..])
  }

  // ---------------------------------------------------------------------------
  // Properties

  /** Every transition keeps the invariant. */
  lemma StepKeepsInv(s: PageState, e: PageEvent)
    requires Inv(s)
    ensures Inv(Step(s, e))
  {
  }

  lemma {:induction false} RunKeepsInv(s: PageState, events: seq<PageEvent>)
    requires Inv(s)
    ensures Inv(Run(s, events))
    ensures Run(s, events).unsubscribes <= 1
    decreases |events|
  {
    if events != [] {
      StepKeepsInv(s, events[0]);
      RunKeepsInv(Step(s, events[0]), events[1..]);
    }
  }

  /** `RemoveSplashScreen` is idempotent: a second call changes nothing. */
  lemma RemoveIdempotent(s: PageState)
    ensures Removed(Removed(s)) == Removed(s)
  {
  }

  /** The handler is unsubscribed on the first call only: however often `RemoveSplashScreen`
      runs, the window ends with none of the page's handlers and one unsubscribe. */
  lemma RemoveUnsubscribesOnce(s: PageState)
    requires Inv(s) && s.resizeHandlerSet
    ensures Removed(s).sizeChangedHandlers == 0 && Removed(s).unsubscribes == 1
    ensures Removed(Removed(s)).unsubscribes == 1
  {
  }

  /** Once the splash screen is removed it never comes back: nothing the page does
      afterwards re-attaches the grid or re-subscribes the resize handler. */
  lemma {:induction false} RemovalIsFinal(s: PageState, events: seq<PageEvent>)
    requires !s.splashGridAttached && !s.resizeHandlerSet
    ensures !Run(s, events).splashGridAttached && !Run(s, events).resizeHandlerSet
    ensures Run(s, events).sizeChangedHandlers == s.sizeChangedHandlers
    decreases |events|
  {
    if events != [] {
      RemovalIsFinal(Step(s, events[0]), events[1..]);
    }
  }

  /** While the handler is subscribed, a window resize puts the image where the system moved
      the splash screen to. */
  lemma ResizeFollowsSplash(s: PageState, location: Rect)
    requires s.resizeHandlerSet && s.splashLocation.Some?
    ensures Step(s, WindowResized(location)).splashLocation == Some(location)
    ensures Step(s, WindowResized(location)).splashImageRect == location
  {
  }

  /** After the splash screen is removed, window resizes no longer move the image, wherever
      the system moves the splash screen. */
  lemma ResizeAfterRemoval(s: PageState, location: Rect)
    ensures SizeChanged(Removed(s)) == Removed(s)
    ensures Step(Removed(s), WindowResized(location)).splashImageRect == s.splashImageRect
  {
  }

  /** `OnResize` is idempotent. */
  lemma ResizeIdempotent(s: PageState)
    ensures Resized(Resized(s)) == Resized(s)
  {
  }

  /** Each event from Unity adds exactly one to the count, modulo 2^32 as C# `int` does; no
      other event touches it. */
  lemma CountsEveryEvent(s: PageState, events: seq<PageEvent>)
    ensures Run(s, events).eventWasReceivedCount == Wrap32(s.eventWasReceivedCount + EventsFromUnity(events))
  {
    RunCount(s, events);
    CountFromUnity(s.eventWasReceivedCount, events);
  }

  /** The count after a run of events, following the count alone. */
  function CountAfter(count: int32, events: seq<PageEvent>): int32
    decreases |events|
  {
    if events == [] then count
    else CountAfter(if events[0].EventFromUnity? then Increment32(count) else count, events[1..])
  }

  lemma {:induction false} RunCount(s: PageState, events: seq<PageEvent>)
    ensures Run(s, events).eventWasReceivedCount == CountAfter(s.eventWasReceivedCount, events)
    decreases |events|
  {
    if events != [] {
      StepCount(s, events[0]);
      RunCount(Step(s, events[0]), events[1..]);
    }
  }

  lemma {:induction false} CountFromUnity(count: int32, events: seq<PageEvent>)
    ensures CountAfter(count, events) == Wrap32(count + EventsFromUnity(events))
    decreases |events|
  {
    if events == [] {
      assert Wrap32(count + 0) == count;
    } else {
      var k := if events[0].EventFromUnity? then 1 else 0;
      var next := if k == 1 then Increment32(count) else count;
      var n := EventsFromUnity(events[1..]);
      CountFromUnity(next, events[1..]);
      CountStep(count, next, k, n);
    }
  }

  /** Only an event from Unity moves the count, and by one. */
  lemma StepCount(s: PageState, e: PageEvent)
    ensures Step(s, e).eventWasReceivedCount ==
            if e.EventFromUnity? then Increment32(s.eventWasReceivedCount) else s.eventWasReceivedCount
  {
  }

  /** One step of the count, in 32-bit arithmetic. */
  lemma CountStep(c: int32, next: int32, k: int, n: nat)
    requires k == 0 || k == 1
    requires next == if k == 1 then Increment32(c) else c
    ensures Wrap32(next + n) == Wrap32(c + (k + n))
  {
    assert (next + n) - (c + (k + n)) == next - (c + k);
    Wrap32Congruent(next + n, c + (k + n));
  }

  /** The shown text names the count: between "Event received " and " times" stands the
      decimal text of `n`, with a '-' once the count has wrapped negative. */
  lemma EventTextReadsBack(n: int32)
    ensures var text := EventText(n);
            |text| > |EVENT_TEXT_PREFIX| + |EVENT_TEXT_SUFFIX| &&
            text[..|EVENT_TEXT_PREFIX|] == EVENT_TEXT_PREFIX &&
            text[|text| - |EVENT_TEXT_SUFFIX|..] == EVENT_TEXT_SUFFIX &&
            text[|EVENT_TEXT_PREFIX|..|text| - |EVENT_TEXT_SUFFIX|] == Int32ToString(n)
  {
    var digits := Int32ToString(n);
    var text := EventText(n);
    assert |digits| > 0;
    assert text[|EVENT_TEXT_PREFIX|..|text| - |EVENT_TEXT_SUFFIX|] == digits;
  }

  /** Over any run, the splash background is either what it was or the colour that one of
      the manifest reads of the run extracted. */
  lemma {:induction false} BackgroundOnlyFromManifest(s: PageState, events: seq<PageEvent>)
    ensures var bg := Run(s, events).splashBackground;
            bg == s.splashBackground ||
            exists i :: 0 <= i < |events| && events[i].ManifestRead? && events[i].manifest.Some? &&
                        bg == ExtractColor(events[i].manifest.value)
    decreases |events|
  {
    if events != [] {
      var t := Step(s, events[0]);
      var bg := Run(s, events).splashBackground;
      BackgroundOnlyFromManifest(t, events[1..]);
      if bg != t.splashBackground {
        var i :| 0 <= i < |events[1..]| && events[1..][i].ManifestRead? && events[1..][i].manifest.Some? &&
                 bg == ExtractColor(events[1..][i].manifest.value);
        assert events[i + 1] == events[1..][i];
      } else if t.splashBackground != s.splashBackground {
        assert events[0].ManifestRead? && events[0].manifest.Some?;
        assert bg == ExtractColor(events[0].manifest.value);
      }
    }
  }

  // ---------------------------------------------------------------------------
  // The page's calls into the scene

  /** `OnInitialized`: what runs on the app thread, registering the page's callback. */
  function OnInitialized(scene: Scene<PageCallback>): (r: Result<Scene<PageCallback>, Exception>)
    ensures r.Err? <==> CAMERA !in scene.objects
    ensures r.Ok? ==> SameShape(scene, r.value) && OthersUnchanged(scene, r.value)
  {
    SetEventCallback(ToXamlEventCallback, scene)
  }

  /** `OnSendToUnityClick`: nothing before Unity is initialized; afterwards the app thread
      sends "Message from XAML". */
  function OnSendToUnityClick(initialized: bool, scene: Scene<PageCallback>): (r: Result<Scene<PageCallback>, Exception>)
    ensures !initialized ==> r == Ok(scene)
    ensures r.Ok? ==> SameShape(scene, r.value) && OthersUnchanged(scene, r.value)
  {
    if initialized then SendMessageToUnity(XAML_MESSAGE, scene) else Ok(scene)
  }

  /** After `OnInitialized` found the Camera's script, it holds the page's callback. */
  lemma InitializedInstallsCallback(scene: Scene<PageCallback>)
    requires CameraHandlers(scene).Some?
    ensures OnInitialized(scene).Ok?
    ensures CameraHandlers(OnInitialized(scene).value).Some?
    ensures CameraHandlers(OnInitialized(scene).value).value.onEvent == Some(ToXamlEventCallback)
  {
    SetInstalls(ToXamlEventCallback, scene);
  }

  /** A click before initialization leaves the scene alone; after it, the Camera's script
      receives "Message from XAML" once, or the send throws. */
  lemma ClickSendsOnce(initialized: bool, scene: Scene<PageCallback>)
    ensures !initialized ==> OnSendToUnityClick(initialized, scene) == Ok(scene)
    ensures initialized && CameraHandlers(scene).Some? ==>
              OnSendToUnityClick(initialized, scene).Ok? &&
              CameraHandlers(OnSendToUnityClick(initialized, scene).value).value.feedback ==
              CameraHandlers(scene).value.feedback + [XAML_MESSAGE]
    ensures initialized && CameraHandlers(scene).None? ==> OnSendToUnityClick(initialized, scene).Err?
  {
    SendForwardsOnce(XAML_MESSAGE, scene);
  }

  // ---------------------------------------------------------------------------
  // The page itself

  /** `Windows.ApplicationModel.Activation.SplashScreen`, of which the page reads where the
      system draws the splash image. */
  class SplashScreen {
    var imageLocation: Rect

    constructor (imageLocation: Rect)
      ensures this.imageLocation == imageLocation
    {
      this.imageLocation := imageLocation;
    }
  }

  class MainPage {
    var splash: SplashScreen?
    var splashImageRect: Rect
    var onResizeHandler: bool
    var sizeChangedHandlers: nat
    var unsubscribes: nat
    var splashGridAttached: bool
    var splashBackground: Option<ARGB>
    var eventWasReceivedCount: int32
    var eventsFromUnityText: string

    /** Where the splash screen is, read through `splash`. */
    function SplashLocation(): (location: Option<Rect>)
      reads this, splash
      ensures location.Some? <==> splash != null
      ensures splash != null ==> location.value == splash.imageLocation
    {
      if splash != null then Some(splash.imageLocation) else None
    }

    function State(): PageState
      reads this, splash
    {
      PageState(SplashLocation(), splashImageRect, onResizeHandler, sizeChangedHandlers, unsubscribes,
                splashGridAttached, splashBackground, eventWasReceivedCount, eventsFromUnityText)
    }

    ghost predicate Valid()
      reads this, splash
    {
      Inv(State())
    }

    /** The constructor, on the non-holographic path: the app's splash screen is taken,
        the image placed, and the resize handler subscribed. */
    constructor (appSplash: SplashScreen?)
      ensures Valid()
      ensures splash == appSplash
      ensures State() == Initial(if appSplash != null then Some(appSplash.imageLocation) else None)
    {
      splashImageRect := EMPTY_RECT;
      onResizeHandler := false;
      sizeChangedHandlers := 0;
      unsubscribes := 0;
      splashGridAttached := true;
      splashBackground := None;
      eventWasReceivedCount := 0;
      eventsFromUnityText := "";
      splash := appSplash;
      new;
      OnResize();
      onResizeHandler := true;
      sizeChangedHandlers := sizeChangedHandlers + 1;
    }

    /** `OnResize`. */
    method OnResize()
      modifies this`splashImageRect
      ensures State() == Resized(old(State()))
      ensures splash != null ==> splashImageRect == splash.imageLocation
      ensures splash == null ==> splashImageRect == old(splashImageRect)
    {
      if splash != null {
        splashImageRect := splash.imageLocation;
      }
    }

    /** `OnNavigatedTo`, with the navigation parameter already a `SplashScreen` (or null). */
    method OnNavigatedTo(parameter: SplashScreen?)
      modifies this`splash, this`splashImageRect
      ensures splash == parameter
      ensures State() == Navigated(old(State()), if parameter != null then Some(parameter.imageLocation) else None)
    {
      splash := parameter;
      OnResize();
    }

    /** `Window.SizeChanged` raised: the page's handler, if still subscribed, runs. */
    method WindowSizeChanged()
      modifies this`splashImageRect
      ensures State() == SizeChanged(old(State()))
    {
      if onResizeHandler {
        OnResize();
      }
    }

    /** `RemoveSplashScreen`. */
    method RemoveSplashScreen()
      requires Valid()
      modifies this`splashGridAttached, this`onResizeHandler, this`sizeChangedHandlers, this`unsubscribes
      ensures Valid()
      ensures !splashGridAttached && !onResizeHandler && sizeChangedHandlers == 0
      ensures State() == Removed(old(State()))
    {
      splashGridAttached := false;
      if onResizeHandler {
        if sizeChangedHandlers > 0 {
          sizeChangedHandlers := sizeChangedHandlers - 1;
        }
        unsubscribes := unsubscribes + 1;
        onResizeHandler := false;
      }
    }

    /** What `GetSplashBackgroundColor` leaves behind once its manifest read ends. */
    method GetSplashBackgroundColor(manifest: Option<string>)
      modifies this`splashBackground
      ensures State() == BackgroundRead(old(State()), manifest)
    {
      if manifest.Some? {
        var color := ExtractColor(manifest.value);
        if color.Some? {
          splashBackground := color;
        }
      }
    }

    /** `UnityToXAMLEventCallback`, with its UI-thread payload run in place. */
    method UnityToXamlEventCallback()
      modifies this`eventWasReceivedCount, this`eventsFromUnityText
      ensures State() == EventReceived(old(State()))
    {
      eventWasReceivedCount := Increment32(eventWasReceivedCount);
      eventsFromUnityText := EVENT_TEXT_PREFIX + Int32ToString(eventWasReceivedCount) + EVENT_TEXT_SUFFIX;
    }
  }
}
