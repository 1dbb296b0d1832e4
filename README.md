# UnityXaml MainPage, modelled in Dafny

This project models the XAML page of the Unity-in-XAML sample for the Universal Windows
Platform (`UWP/UnityXaml/MainPage.xaml.cs`). It covers three parts:

- **The splash background colour.** `GetSplashBackgroundColor` reads the application manifest
  and finds the first `SplashScreen`, then the first `BackgroundColor` after it, then the text
  between the next two `"` characters. It reads that text as `transparent` or as `#` plus a
  hexadecimal number, and gives the extended splash grid that colour. Every exception is
  swallowed. The manifest text is a parameter here.
- **The page state.** This covers the splash screen and the image rectangle that `OnResize`
  copies from it (the system moves the splash image when the window changes size, so a resize
  event carries the new image location), the resize handler that `RemoveSplashScreen` unsubscribes once, and the
  counter and text that `UnityToXAMLEventCallback` updates for each event from Unity.
- **The `Communications` bridge.** `SendMessageToUnity` and `SetEventCallback` act on the Unity
  scene's "Camera" object. The scene is an abstract value.

Modules, one file each:

- `wrappers.dfy` (`Wrappers`): `Option` and `Result`. An `Err` stands for a thrown exception.
- `dotnet.dfy` (`DotNet`): the .NET behaviour the source relies on:
  - `string.IndexOf`, `Substring(start)` and `Substring(start, length)`, with their exceptions;
  - `Convert.ToInt32(s, 16)`;
  - C# `int` arithmetic: wrap-around, `&`, `>>`, the `(byte)` cast and `int.ToString()`.
- `splash_color.dfy` (`SplashColor`): the manifest parse, as pure functions and lemmas.
- `communications.dfy` (`Communications`): the routing over a scene value.
- `page.dfy` (`Page`): the `MainPage` class, its abstract state `PageState` and the transition
  functions that specify each method. It also models the page's calls into the scene.

Behaviour of the code worth knowing:

- **Both bridge operations throw without a Camera** (lines 283 and 306). Only a Camera
  without a `ButtonHandlers` component is skipped silently, and only by `SetEventCallback`
  (299).
- **`Convert.ToInt32(s, 16)` accepts more than hex digits.** It also takes a leading `+` and a
  `0x`/`0X` prefix. It fails in distinct ways:
  - an empty string: `ArgumentOutOfRangeException`;
  - a leading `-`: `ArgumentException`;
  - a value needing more than 32 bits: `OverflowException`;
  - no digits, or something left after them: `FormatException`.

  A value from 2^31 up becomes a negative `int` with the same 32 bits. `#80FF0000` therefore
  parses, and its alpha byte is masked away.
- **A Camera without `ButtonHandlers` makes `SendMessageToUnity` throw.** `GetComponent`
  returns null and the call on it raises a `NullReferenceException` (279). The message is not
  forwarded.

## Model

| member | source | states |
|---|---|---|
| `DotNet.IndexOf` | UWP/UnityXaml/MainPage.xaml.cs:131-139 | the result is the first position where the value occurs, or -1 when it occurs nowhere |
| `DotNet.Substring` | UWP/UnityXaml/MainPage.xaml.cs:132-138 | `Substring(start)` throws exactly when `start` is outside `0..Length`; otherwise it gives the suffix from `start` |
| `DotNet.SubstringOfLength` | UWP/UnityXaml/MainPage.xaml.cs:140 | `Substring(start, length)` throws exactly when the range leaves the string; otherwise it gives the characters of that range |
| `DotNet.ToInt32Base16` | UWP/UnityXaml/MainPage.xaml.cs:146 | the parse succeeds exactly for a non-empty, unsigned (optionally `+`, optionally `0x`) run of hex digits whose value is below 2^32; the result's 32-bit pattern is that value; an empty string is out of range |
| `DotNet.ToInt32Base16OfToHexString` | UWP/UnityXaml/MainPage.xaml.cs:146 | reading back the upper-case hex digits of any 32-bit value gives that value as an `int` |
| `DotNet.ToInt32Base16OfDigits` | UWP/UnityXaml/MainPage.xaml.cs:146 | plain hex digits that fit in 32 bits parse without error, to their value wrapped into an `int` |
| `DotNet.BitAndLowMask` | UWP/UnityXaml/MainPage.xaml.cs:146-151 | `& (2^k - 1)` keeps the value modulo 2^k |
| `DotNet.BitAndSecondByte` | UWP/UnityXaml/MainPage.xaml.cs:150 | `& 0xFF00` keeps exactly the second byte in place |
| `DotNet.ShiftRight` | UWP/UnityXaml/MainPage.xaml.cs:149-150 | `x >> n` is `x` divided by 2^(n mod 32) rounded toward minus infinity, negative `x` included; a non-negative `x` gives a value between 0 and `x` |
| `DotNet.Increment32` | UWP/UnityXaml/MainPage.xaml.cs:252 | `int++` adds one below `int.MaxValue` and wraps `int.MaxValue` to `int.MinValue` |
| `DotNet.Wrap32` | UWP/UnityXaml/MainPage.xaml.cs:146 | the result is the `int` with the same low 32 bits as its argument, and an argument already in `int` range is kept; `Wrap32Congruent` shows two arguments with the same low 32 bits wrap alike |
| `DotNet.And` | UWP/UnityXaml/MainPage.xaml.cs:146-151 | the 32-bit pattern of `x & y` is the bitwise AND of the two patterns; a non-negative mask gives a result between 0 and the mask |
| `DotNet.ToByte` | UWP/UnityXaml/MainPage.xaml.cs:149-151 | `(byte)x` is the byte with the same low 8 bits as `x`, and an `x` that is already a byte is kept |
| `DotNet.Int32ToString` | UWP/UnityXaml/MainPage.xaml.cs:253 | the text is non-empty and starts with `-` exactly for a negative number; `Int32ToStringReadsBack` shows it reads back as the number |
| `DotNet.Int32ToStringReadsBack` | UWP/UnityXaml/MainPage.xaml.cs:253 | the decimal text of an `int` is an optional `-` and digits that read back as the number |
| `SplashColor.QuotedText` | UWP/UnityXaml/MainPage.xaml.cs:137-140 | the only exception is `ArgumentOutOfRange`, and the text returned holds no quote; `QuotedTextUnclosed` gives the throwing case |
| `SplashColor.BackgroundColorLiteral` | UWP/UnityXaml/MainPage.xaml.cs:131-140 | the search throws nothing but `ArgumentOutOfRange`, and a literal it finds holds no quote; `LiteralBetweenQuotes` and `MissingAttribute` say which literal it finds and when it finds none |
| `SplashColor.LiteralColor` | UWP/UnityXaml/MainPage.xaml.cs:141-151 | the early return happens exactly for a non-empty literal that is neither `transparent` nor `#`-prefixed; it throws only for an empty or `#` literal; a colour has alpha 0 exactly for `transparent` |
| `SplashColor.Color` | UWP/UnityXaml/MainPage.xaml.cs:149-155 | alpha is 0x00 when transparent and 0xFF otherwise; for a 24-bit value, red, green and blue are its bytes 2, 1 and 0 |
| `SplashColor.GetSplashBackgroundColor` | UWP/UnityXaml/MainPage.xaml.cs:127-157 | a colour with alpha 0 is set only when the literal found is `transparent`, and any other colour only when it starts with `#`; `ColorOfLiteralBetweenQuotes` gives the whole outcome |
| `SplashColor.ExtractColor` | UWP/UnityXaml/MainPage.xaml.cs:127-160 | `Some(c)` exactly when the try block sets `c`, and `None` after every throw and early return; `ExtractColorOfLiteral`, `NoSplashScreen`, `MissingAttribute` and `UnclosedLiteral` give its value for every manifest |
| `SplashColor.ExtractColorOfLiteral` | UWP/UnityXaml/MainPage.xaml.cs:127-160 | for a manifest whose first `SplashScreen` is followed by `BackgroundColor` and two quotes, the colour set is the one the text between the quotes names; every throw and early return sets none |
| `SplashColor.ExtractColorOfRgb` | UWP/UnityXaml/MainPage.xaml.cs:127-160 | `BackgroundColor="#RRGGBB"` sets the grid to (0xFF, RR, GG, BB) |
| `SplashColor.ExtractColorOfArgb` | UWP/UnityXaml/MainPage.xaml.cs:127-160 | `BackgroundColor="#AARRGGBB"` sets the grid to (0xFF, RR, GG, BB), ignoring `AA` |
| `SplashColor.ExtractColorOfTransparent` | UWP/UnityXaml/MainPage.xaml.cs:127-160 | `BackgroundColor="transparent"` sets the grid to (0, 0, 0, 0) |
| `SplashColor.NoSplashScreen` | UWP/UnityXaml/MainPage.xaml.cs:131-132 | with no `SplashScreen` in the manifest, `Substring(-1)` throws and no colour is set |
| `SplashColor.MissingAttribute` | UWP/UnityXaml/MainPage.xaml.cs:133-135 | the parse returns early without error exactly when no `BackgroundColor` follows the first `SplashScreen`, and then no colour is set |
| `SplashColor.LiteralBetweenQuotes` | UWP/UnityXaml/MainPage.xaml.cs:131-140 | the literal is exactly the text between the first `"` after the first `BackgroundColor` (after the first `SplashScreen`) and the next `"` |
| `SplashColor.ColorOfLiteralBetweenQuotes` | UWP/UnityXaml/MainPage.xaml.cs:131-156 | the outcome of the whole parse is the outcome of reading that literal |
| `SplashColor.QuotedTextUnclosed` | UWP/UnityXaml/MainPage.xaml.cs:137-140 | text with fewer than two quotes makes `Substring(0, -1)` throw |
| `SplashColor.UnclosedLiteral` | UWP/UnityXaml/MainPage.xaml.cs:136-140 | fewer than two quotes after the attribute name: the parse throws and no colour is set |
| `SplashColor.TransparentLiteral` | UWP/UnityXaml/MainPage.xaml.cs:141-144 | `transparent` gives ARGB (0, 0, 0, 0) |
| `SplashColor.EmptyLiteral` | UWP/UnityXaml/MainPage.xaml.cs:145 | an empty literal throws on `manifest[0]` |
| `SplashColor.UnsupportedLiteral` | UWP/UnityXaml/MainPage.xaml.cs:147-148 | a literal that is neither `transparent` nor `#`-prefixed returns early with no colour |
| `SplashColor.MalformedNumber` | UWP/UnityXaml/MainPage.xaml.cs:146 | a `#` literal whose number `Convert.ToInt32` rejects throws that exception |
| `SplashColor.HashLiteral` | UWP/UnityXaml/MainPage.xaml.cs:145-146 | a `#` literal is decided by `Convert.ToInt32` on the text after the `#`, masked to its low 24 bits |
| `SplashColor.ColorOfNumber` | UWP/UnityXaml/MainPage.xaml.cs:146-151 | a parsed number gives alpha 0xFF and bytes 2, 1 and 0 of its 32-bit pattern as red, green and blue |
| `SplashColor.HexLiteral` | UWP/UnityXaml/MainPage.xaml.cs:145-155 | `#h` with hex value v below 2^32 gives alpha 0xFF, r = (v >> 16) & 0xFF, g = (v >> 8) & 0xFF, b = v & 0xFF |
| `SplashColor.RgbLiteral` | UWP/UnityXaml/MainPage.xaml.cs:145-155 | `#RRGGBB` gives alpha 0xFF and the three digit pairs as red, green and blue |
| `SplashColor.ArgbLiteral` | UWP/UnityXaml/MainPage.xaml.cs:145-155 | `#AARRGGBB` gives alpha 0xFF whatever `AA` is, and `RR`, `GG`, `BB` as the colour |
| `SplashColor.AlphaDigitsDiscarded` | UWP/UnityXaml/MainPage.xaml.cs:146 | `#AARRGGBB` gives the same colour as `#RRGGBB`: the `& 0x00FFFFFF` mask drops the alpha pair |
| `SplashColor.AlphaZeroOnlyWhenTransparent` | UWP/UnityXaml/MainPage.xaml.cs:127-160 | a colour set on the grid has alpha 0 exactly when the manifest's literal is `transparent` |
| `Communications.Find` | UWP/UnityXaml/MainPage.xaml.cs:275 | `GameObject.Find` returns an object exactly when one of that name exists |
| `Communications.SendMessageToUnity` | UWP/UnityXaml/MainPage.xaml.cs:272-285 | a failure is "Camera not found" without a Camera and a null reference with one; success keeps the scene's shape and every object but the Camera; `SendForwardsOnce` gives the message's effect |
| `Communications.SetEventCallback` | UWP/UnityXaml/MainPage.xaml.cs:291-308 | it throws "Camera not found" exactly when there is no Camera; success keeps the scene's shape and every object but the Camera; `SetInstalls` gives the delegate's effect |
| `Communications.SendForwardsOnce` | UWP/UnityXaml/MainPage.xaml.cs:272-285 | sending succeeds exactly when the Camera has `ButtonHandlers`; the message is then appended once to its feedback; the delegate, the scene's shape and every other object stay as they were |
| `Communications.CameraMissing` | UWP/UnityXaml/MainPage.xaml.cs:275-307 | without a Camera, both send and register throw "Camera not found, have you exported the correct scene?" |
| `Communications.ComponentMissing` | UWP/UnityXaml/MainPage.xaml.cs:279-302 | a Camera without `ButtonHandlers`: send throws a null reference, register leaves the scene unchanged |
| `Communications.SetInstalls` | UWP/UnityXaml/MainPage.xaml.cs:298-302 | with the component present, registering succeeds, installs the delegate and keeps the feedback |
| `Communications.SetIdempotent` | UWP/UnityXaml/MainPage.xaml.cs:301 | registering the same delegate twice is registering it once |
| `Communications.LastSetWins` | UWP/UnityXaml/MainPage.xaml.cs:301 | a second registration replaces the first |
| `Communications.SendAndSetCommute` | UWP/UnityXaml/MainPage.xaml.cs:279-301 | a send and a registration give the same scene in either order |
| `Communications.SendTwiceInOrder` | UWP/UnityXaml/MainPage.xaml.cs:279 | two messages reach the feedback in the order they were sent |
| `Page.Resized` | UWP/UnityXaml/MainPage.xaml.cs:94-101 | with a splash screen the image rectangle becomes its image location; without one nothing changes; nothing but the rectangle ever changes |
| `Page.EventReceived` | UWP/UnityXaml/MainPage.xaml.cs:247-256 | the count becomes its 32-bit successor, the text shows the new count, and nothing else changes |
| `Page.BackgroundRead` | UWP/UnityXaml/MainPage.xaml.cs:125-161 | a failed read or parse leaves the page as it was; a colour found becomes the splash background; nothing else changes |
| `Page.Initial` | UWP/UnityXaml/MainPage.xaml.cs:73-77 | a new page satisfies the invariant, has its resize handler subscribed once, the splash grid attached, no background colour yet, a zero count, and the image where the splash screen puts it |
| `Page.Navigated` | UWP/UnityXaml/MainPage.xaml.cs:85-89 | the parameter becomes the splash screen, the image goes where it says, and nothing else changes |
| `Page.SizeChanged` | UWP/UnityXaml/MainPage.xaml.cs:76-77 | the image moves to the splash screen's location exactly while the handler is subscribed and there is a splash screen; nothing else changes |
| `Page.Removed` | UWP/UnityXaml/MainPage.xaml.cs:174-182 | the grid is detached and the handler cleared; an unsubscribe happens exactly when the handler was set; the invariant is kept with no handler left; nothing else changes |
| `Page.StepKeepsInv` | UWP/UnityXaml/MainPage.xaml.cs:76-77 | every page operation keeps the window subscribed to the page's handler exactly while `onResizeHandler` is set |
| `Page.RunKeepsInv` | UWP/UnityXaml/MainPage.xaml.cs:174-182 | over any sequence of page operations that invariant holds, and the handler is unsubscribed at most once |
| `Page.RemoveIdempotent` | UWP/UnityXaml/MainPage.xaml.cs:174-182 | a second `RemoveSplashScreen` changes nothing |
| `Page.RemoveUnsubscribesOnce` | UWP/UnityXaml/MainPage.xaml.cs:177-181 | after one or two removals the window holds none of the page's handlers and one unsubscribe has happened |
| `Page.RemovalIsFinal` | UWP/UnityXaml/MainPage.xaml.cs:174-182 | once removed, no later operation re-attaches the splash grid or re-subscribes the resize handler |
| `Page.ResizeFollowsSplash` | UWP/UnityXaml/MainPage.xaml.cs:76-77 | while the handler is subscribed, a window resize puts the image where the system moved the splash screen |
| `Page.ResizeAfterRemoval` | UWP/UnityXaml/MainPage.xaml.cs:177-181 | after removal a window resize leaves the image where it was, wherever the system moved the splash screen |
| `Page.ResizeIdempotent` | UWP/UnityXaml/MainPage.xaml.cs:94-101 | resizing twice is resizing once |
| `Page.CountsEveryEvent` | UWP/UnityXaml/MainPage.xaml.cs:252 | over any sequence of page operations the count grows by the number of events from Unity, modulo 2^32, and by nothing else |
| `Page.EventTextReadsBack` | UWP/UnityXaml/MainPage.xaml.cs:253 | the text is "Event received ", then the decimal count, then " times" |
| `Page.BackgroundOnlyFromManifest` | UWP/UnityXaml/MainPage.xaml.cs:153-157 | over any sequence of page operations, the background is what it was or the colour one of the manifest reads extracted |
| `Page.OnInitialized` | UWP/UnityXaml/MainPage.xaml.cs:233-239 | registration fails exactly without a Camera, and otherwise touches only the Camera |
| `Page.OnSendToUnityClick` | UWP/UnityXaml/MainPage.xaml.cs:212-226 | before initialization the scene is left alone; a send that succeeds touches only the Camera |
| `Page.InitializedInstallsCallback` | UWP/UnityXaml/MainPage.xaml.cs:233-239 | when the Camera has `ButtonHandlers`, `OnInitialized` installs the page's event callback |
| `Page.ClickSendsOnce` | UWP/UnityXaml/MainPage.xaml.cs:212-226 | before Unity is initialized a click does nothing; afterwards "Message from XAML" reaches the feedback once, or the send throws |
| `Page.MainPage.constructor` | UWP/UnityXaml/MainPage.xaml.cs:64-78 | the page takes the app's splash screen, places the image and subscribes one resize handler |
| `Page.MainPage.OnResize` | UWP/UnityXaml/MainPage.xaml.cs:94-101 | the new state is `Resized` of the old |
| `Page.MainPage.OnNavigatedTo` | UWP/UnityXaml/MainPage.xaml.cs:85-89 | the parameter becomes the splash screen and the image is placed again |
| `Page.MainPage.WindowSizeChanged` | UWP/UnityXaml/MainPage.xaml.cs:76-77 | `OnResize` runs exactly while the handler is subscribed |
| `Page.MainPage.RemoveSplashScreen` | UWP/UnityXaml/MainPage.xaml.cs:174-182 | the grid is detached, the handler unsubscribed if set and cleared, and the invariant kept |
| `Page.MainPage.GetSplashBackgroundColor` | UWP/UnityXaml/MainPage.xaml.cs:125-161 | the background is the extracted colour when there is one; otherwise it is left as it was |
| `Page.MainPage.UnityToXamlEventCallback` | UWP/UnityXaml/MainPage.xaml.cs:247-256 | the new state is `EventReceived` of the old: the count wraps up by one and the text shows it |

## Left out

- `DotNet.IndexOf`: compares ordinally. .NET's `IndexOf(string)` compares with the current
  culture, which can match differently for text that is not plain ASCII. The manifest keys
  and the quote character are ASCII.
- The manifest file read (lines 129-130) is I/O. A manifest text is passed in, and
  `Page.MainPage.GetSplashBackgroundColor` takes `None` for a read that throws.
- Asynchrony and thread dispatch:
  - the `await`s in `GetSplashBackgroundColor`;
  - `Dispatcher.RunAsync`;
  - `InvokeOnAppThread` and `InvokeOnUIThread`.

  Each payload runs in place when its step happens. In particular, the constructor does not
  run the background read; it is a separate step on the page. The order in which dispatched
  work interleaves is not modelled.
- `PositionImage` (lines 106-120) is floating-point scaling of XAML layout properties by the
  panel's composition scale. `Rect` holds reals that are copied but never computed with.
- The constructor's engine setup (lines 42-72) consists of calls into UnityPlayer and the
  window:
  - the bridge and the swap-chain panel;
  - the `UNITY_HOLOGRAPHIC` test and the view manager;
  - the phone-contract probe behind `isPhone`;
  - the `RenderingStarted` and `Initialized` subscriptions.

  The model takes the non-holographic path. Rendering starting is the `RenderingStarted`
  page event and initialization is `Page.OnInitialized`.
- `OnNavigateClick` (lines 191-205) navigates a WebView over the network.
- `GetSwapChainPanel` (166-169) returns a XAML control.
- `GameObject.Find` and `GetComponent` are Unity engine calls. The scene is a map from names
  to objects, so it cannot hold two objects with the same name.
- `ButtonHandlers` is a Unity script outside this repository. Its `ShowFeedback` is modelled
  as appending the message to a list.
- `Page.MainPage.OnNavigatedTo`: takes the navigation parameter as a `SplashScreen` or null.
  The source's cast `(SplashScreen)e.Parameter` would throw for a parameter of another type.
- `DotNet.Int32ToString`: always writes `-` as the negative sign. `int.ToString()` uses the
  current culture's `NegativeSign`, which differs only for a negative count, that is after
  2^31 events.
- The system moving the splash image is the location carried by a `WindowResized` event. In
  the class, it is whatever `SplashScreen.imageLocation` holds when the handler runs.
- The XAML markup that creates `_EventsFromUnity`, the grid and the panel is not part of
  this model. The text block starts empty, and the grid's background starts unset.
