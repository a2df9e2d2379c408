# Portfolio page interactivity, modelled in Dafny

`script.js` wires five independent behaviours into a static portfolio page.
This project models the three that follow rules: the statistic count-up
pass (`initStatsCounter`), the persisted light/dark theme and the mobile
navigation toggle.

- **Statistic count-up** (`stats.dfy`, `text.dfy`, `countup.dfy`).
  - Each `.stats .num` element is a record: its text and its
    `data-animated` attribute. The pass is a loop over an array of these
    records that updates them in place (`Stats.RunPass`).
  - Parsing an element's text takes three steps: `String.prototype.trim`
    with the full ECMAScript white-space and line-terminator set, the
    `[^0-9]` filter, and `Number` on the digits that remain.
  - An element is skipped when the target is not positive or, as
    `Number.isFinite` decides, too large for a double: 2^1024 - 2^970 and
    above.
  - The pass returns the animations it starts, in the order it requests
    them.
  - The per-frame arithmetic of `animateCount` is modelled over exact reals:
    the elapsed fraction, the ease-out cubic curve, `Math.round`, and the
    `t < 1` test that decides whether another frame is requested.
  - Number formatting (`toLocaleString`) is a parameter `format: int -> string`.
- **Theme** (`theme.dfy`). Six functions model the `data-theme` marker, the
  stored preference and the two decision rules. The class
  `ThemeController` holds the root attribute and the origin's storage as
  fields. Its `Load` and `Toggle` methods are the load-time call and the
  click handler.
- **Mobile navigation** (`nav.dfy`). The navigation's class set and the
  toggle button's `aria-expanded` form a `NavState`. The class `MobileNav`
  holds both as fields. Its two click handlers are specified by
  `ToggleClick` and `LinkClick`.
- `dom.dfy` holds the optional value type, `localStorage.getItem` lookup
  and `String(bool)`.

Three behaviours of the code are easy to miss:

- Storage access is not wrapped in `try`/`catch`. When `getItem` throws at
  load (script.js:50), the marker is not touched and the exception ends the
  rest of the initialisation: the theme button's click listener
  (script.js:51-57) and the stats observer are never installed. When only
  `setItem` throws (a full quota, say), the load applies the stored theme,
  and each toggle changes the theme but does not store it.
  `ThemeController.Load` and `ThemeController.Toggle` report these through
  `threw`, from two separate flags for reading and writing.
- A link click closes the menu whatever its state was (script.js:23-26),
  and `Nav.LinkClick` does the same.
- The load removes any `data-theme` marker other than `light`
  (script.js:47), so markup that says `data-theme="dark"` loses it at load,
  unless `getItem` throws, in which case the marker stays. The click
  listener is installed only after that load, so the toggle handler always
  sees an absent or `light` attribute, and two toggles always restore it
  (`ThemeController.Load`, `ThemeController.Toggle`). `Theme.ToggleTwice`
  shows that this holds only for those two forms: the handler reads any
  other value as dark.

## Model

| member | source | states |
|---|---|---|
| Dom.GetItem | script.js:42 | the lookup yields a value exactly when the key is stored, and then the stored string |
| Dom.BoolString | script.js:20 | `String(isOpen)` is "true" or "false" |
| Dom.BoolStringReadsBack | script.js:20 | "true" is written exactly for true and "false" exactly for false |
| Text.IsDigit | script.js:91 | the characters of the class `[0-9]`; `Text.KeepDigits` keeps only these, and `Text.KeepDigitsIdentity` shows a string of them passes the filter unchanged |
| Text.IsTrimmable | script.js:88 | the characters `trim()` removes: the ECMAScript WhiteSpace and LineTerminator code points; `Text.TrimSpec` and `Text.TrimOfPadded` fix what is cut with it, and `Text.NoDigitInTrimmable` shows none of them is a digit |
| Text.TrimOffset | script.js:88 | the count of leading trimmable characters is at most the length |
| Text.TrimOffsetSpec | script.js:88 | the leading run is all white space and ends at the first other character |
| Text.TrimEndLength | script.js:88 | the length kept after cutting the trailing white space is at most the length |
| Text.TrimEndLengthSpec | script.js:88 | what is cut off the end is all white space, and what is kept ends with another character |
| Text.TrimSpec | script.js:88 | `trim()` returns the infix of the text at the trim offset; both cut-off parts are white space; the result neither starts nor ends with white space |
| Text.TrimOfPadded | script.js:88 | white space on both sides of a core with non-white ends trims away to exactly that core, which fixes `trim` on every input |
| Text.Trim | script.js:88 | `String.prototype.trim`; its meaning is stated by `Text.TrimSpec` and `Text.TrimOfPadded`, and `Text.TrimIdempotent` shows it is idempotent |
| Text.TrimIdempotent | script.js:88 | trimming twice is trimming once |
| Text.KeepDigits | script.js:91 | the filtered string has only digits and is no longer than the input |
| Text.KeepDigitsIdentity | script.js:91 | the filter leaves a string unchanged exactly when it is all digits |
| Text.KeepDigitsAppend | script.js:91 | filtering distributes over concatenation, so every non-digit is dropped wherever it stands and the digits keep their order |
| Text.KeepDigitsNone | script.js:91 | a string without digits filters to the empty string |
| Text.TrimKeepsDigits | script.js:88-91 | trimming removes no digit, so the kept digits are the same with or without the trim |
| Text.NoDigitInTrimmable | script.js:88-91 | the `[^0-9]` filter drops all white space |
| Text.KeepDigitsZeros | script.js:91-92 | the kept digits are all '0' exactly when every digit of the text is '0' |
| Text.DigitValue | script.js:92 | a digit's value is below ten |
| Text.DecimalValue | script.js:92 | `Number` on a digit string, read as a decimal numeral; `Text.DecimalRoundTrip` makes it the inverse of `Text.ToDecimal`, and `Text.DecimalValueZero` says when it is zero |
| Text.DecimalValueZero | script.js:92-93 | a digit string reads as zero exactly when all its digits are '0' (the empty string included) |
| Text.DigitChar | script.js:92 | the digit character for a value below ten is a digit that reads back as that value |
| Text.ToDecimal | script.js:92 | the decimal spelling is a non-empty digit string without a leading zero for positive numbers |
| Text.DecimalRoundTrip | script.js:92 | reading the decimal spelling of n gives n back |
| Stats.EndsWithPlus | script.js:89 | the `/\+$/` test on the trimmed text; `Stats.ParseSuffix` states it on the untrimmed text as an if-and-only-if |
| Stats.Qualifies | script.js:93 | the guard the element must pass: `Number.isFinite(target)` (target below 2^1024 - 2^970) and `target > 0`; `Stats.ParseTargetZero` says which texts fail `target > 0` |
| Stats.Parse | script.js:88-92 | the suffix is "+" or empty |
| Stats.ParseTarget | script.js:88-92 | the target is the number spelled by the digits of the text, in order, every other character dropped |
| Stats.ParseSuffix | script.js:89-90 | the suffix is "+" exactly when the last character that is not white space is '+', and empty otherwise |
| Stats.ParseTargetZero | script.js:92-93 | the target is 0 (and the element skipped) exactly when the text has no digit other than '0' |
| Stats.ParseRendered | script.js:88-92 | a rendering of n that carries n's decimal digits, with a "+" or empty suffix appended, parses back to n and that suffix |
| Stats.KeepDigitsExample | script.js:91 | "1,250+" filters to "1250" |
| Stats.DecimalValueExample | script.js:92 | "1250" reads as 1250 |
| Stats.ParseExamplePlus | script.js:88-92 | "1,250+" parses to target 1250 with suffix "+" |
| Stats.ParseExampleZero | script.js:88-93 | " 0 " parses to target 0 with no suffix |
| Stats.IsAnimated | script.js:87 | the `el.dataset.animated === 'true'` test; `Stats.StepEffect` shows a marked element is left alone and every element that starts ends up marked |
| Stats.Starts | script.js:87-93 | the element passes both skip guards; `Stats.StepEffect` shows exactly these elements change, and `Stats.RequestsSound` and `Stats.RequestsComplete` that exactly these get an animation |
| Stats.Step | script.js:87-99 | the `forEach` callback on one element; `Stats.StepEffect` states every branch, `Stats.StepIdempotent` shows a second visit changes nothing, and `Stats.VisitElement` is proved equal to it |
| Stats.StepEffect | script.js:87-99 | an element already animated or with a non-qualifying target is unchanged; any other is marked animated; its text becomes format(target) + suffix under reduced motion and is not written during the pass otherwise |
| Stats.StepIdempotent | script.js:87-94 | handling an element a second time changes nothing |
| Stats.ReducedMotionShowsFinalFrame | script.js:75-96 | the reduced-motion text equals the text of the animation's last frame |
| Stats.Pass | script.js:86-100 | the elements after the `forEach`; `Stats.PassAt` says each is the step of its own element, `Stats.PassIdempotent` and `Stats.PassReducedMotion` state its effect, and `Stats.RunPass` is proved equal to it |
| Stats.PassAt | script.js:86-100 | the pass keeps the element count and handles each element on its own |
| Stats.PassIdempotent | script.js:86-100 | running the pass twice leaves the same elements as running it once |
| Stats.ShownAtOnce | script.js:94-96 | the reduced-motion write, format(target) + suffix, and the mark; `Stats.PassReducedMotion` shows every starting element ends up so under reduced motion |
| Stats.PassReducedMotion | script.js:94-96 | under reduced motion each qualifying element's text becomes format(target) + suffix and it is marked; every other element is unchanged |
| Stats.RequestAt | script.js:95-98 | the `animateCount` call of one element: one animation with its index, target and suffix exactly when it starts and motion is not reduced; `Stats.VisitElement` is proved to request exactly it, and `Stats.RequestsLast` places it last in `Stats.Requests` |
| Stats.Requests | script.js:86-98 | the `animateCount` calls of the whole pass, in element order; specified by `Stats.RequestsSound`, `Stats.RequestsComplete`, `Stats.RequestsReducedMotion` and `Stats.NoRequestsAfterPass` |
| Stats.RequestsReducedMotion | script.js:95-99 | under reduced motion no animation is started |
| Stats.RequestsSound | script.js:94-98 | every animation started belongs to a qualifying, not yet animated element, runs to its target with its suffix, and animations come in element order |
| Stats.RequestsPrefix | script.js:86 | adding an element at the end keeps the earlier requests in place |
| Stats.RequestsLast | script.js:86-98 | a qualifying last element gets the last request |
| Stats.RequestsComplete | script.js:87-98 | every qualifying, not yet animated element gets an animation when motion is not reduced |
| Stats.NoRequestsAfterPass | script.js:87-94 | a second pass starts no animation: nothing is animated twice |
| Stats.PrefixExtend | script.js:86 | one more element extends the pass and the requests by that element's outcome |
| Stats.VisitElement | script.js:86-100 | the forEach callback returns the element as `Step` leaves it and the animation it requests |
| Stats.RunPass | script.js:83-101 | the array afterwards is `Pass` of the array before, and the animations started are `Requests` of it, in order |
| CountUp.Progress | script.js:71 | the elapsed fraction is at most 1, not negative once time has started, and 1 exactly when the duration has passed |
| CountUp.Round | script.js:74 | `Math.round(x)` is the integer n with n <= x + 0.5 < n + 1 |
| CountUp.Eased | script.js:73 | the ease-out cubic `1 - (1 - t)^3`; `CountUp.EasedRange` and `CountUp.EasedMonotone` state its range and its order |
| CountUp.EasedRange | script.js:73 | on [0, 1] the ease-out cubic stays in [0, 1], going from 0 at t = 0 to 1 at t = 1 |
| CountUp.EasedMonotone | script.js:73 | the ease-out cubic never decreases up to t = 1, negative t included |
| CountUp.RoundMonotone | script.js:74 | rounding never reverses an order |
| CountUp.RoundOfInteger | script.js:74 | rounding an integer gives that integer |
| CountUp.FrameValue | script.js:71-74 | the value one frame shows; `CountUp.FrameValueBounds`, `CountUp.FrameValueMonotone` and `CountUp.FinalFrame` state what it is |
| CountUp.FrameText | script.js:75 | the text one frame writes, format(value) + suffix; `Stats.ReducedMotionShowsFinalFrame` shows the final frame writes what the reduced-motion path writes |
| CountUp.RequestsAnotherFrame | script.js:76 | the `t < 1` test; `CountUp.FinalFrame` shows it holds exactly while the duration has not passed |
| CountUp.FrameValueBounds | script.js:71-74 | once time has started each frame shows a value between 0 and the target |
| CountUp.FrameValueMonotone | script.js:71-74 | a later frame never shows a smaller value, also for timestamps before the start |
| CountUp.FinalFrame | script.js:71-77 | another frame is requested exactly while the duration has not passed, and after that the frame shows the target |
| Theme.Name | script.js:53-56 | a theme's name is "light" or "dark", and "light" exactly for the light theme |
| Theme.Opposite | script.js:54 | the next theme differs from the current one |
| Theme.ApplyTheme | script.js:43-49 | `applyTheme`: the marker is set only for "light"; `Theme.ApplyName` and `Theme.LoadRule` state its effect |
| Theme.Applied | script.js:53 | the theme the handler reads off the attribute; `Theme.ApplyName` shows it reads back what `applyTheme` of a name leaves |
| Theme.LoadedAttribute | script.js:50 | the attribute after `applyTheme(getSavedTheme())`; specified by `Theme.LoadRule` |
| Theme.ToggledAttribute | script.js:53-55 | the attribute after the handler's `applyTheme(next)`; specified by `Theme.ToggleFlips`, `Theme.ToggleTwice` and `Theme.TogglePersists` |
| Theme.LoadRule | script.js:42-50 | at load the marker is present exactly when the stored preference is exactly "light"; otherwise it is absent and the page is dark |
| Theme.ApplyName | script.js:43-49 | applying a theme's name gives an attribute that reads back as that theme |
| Theme.ToggleFlips | script.js:52-55 | the toggle maps light to dark and dark to light, leaving the attribute absent or "light" |
| Theme.ToggleTwice | script.js:52-55 | two toggles restore the attribute exactly when it was absent or "light" |
| Theme.TogglePersists | script.js:50-56 | the value stored by a toggle, loaded again, gives the attribute the toggle applied |
| Theme.ThemeController.constructor | script.js:41-42 | the controller starts from the given root attribute, storage and read/write availability, with no click listener yet |
| Theme.ThemeController.Load | script.js:42-57 | storage is unchanged; if reading throws, the load leaves the attribute and the click listener is not installed; otherwise the attribute follows the load rule, so it is absent or "light", and the listener is installed |
| Theme.ThemeController.Toggle | script.js:51-57 | without the listener a click changes nothing; with it the attribute becomes the toggled attribute, and the storage then maps the theme key to the new theme's name unless the write throws; with the listener the attribute stays absent or "light", and the next click restores the attribute from before this one |
| Nav.ClassToggle | script.js:19 | the token is present afterwards exactly when it was absent, and every other class is kept |
| Nav.ToggleClick | script.js:18-21 | the toggle button's click handler on the state; specified by `Nav.ToggleNegates` and `Nav.ToggleTwice` |
| Nav.LinkClick | script.js:23-26 | a navigation link's click handler on the state; specified by `Nav.LinkClickCloses` |
| Nav.ToggleNegates | script.js:18-21 | a toggle click negates `open`, keeps every other class, and sets `aria-expanded` to "true"/"false" matching the new state |
| Nav.ToggleTwice | script.js:18-21 | two toggle clicks restore the classes, and restore the whole state exactly when `aria-expanded` already matched the menu |
| Nav.LinkClickCloses | script.js:23-26 | a link click leaves the menu closed with `aria-expanded` "false" whatever the state before, keeps other classes, and a second link click changes nothing |
| Nav.MobileNav.constructor | script.js:5-17 | the menu starts from the given classes and attribute |
| Nav.MobileNav.ClickToggle | script.js:18-21 | the new state is `ToggleClick` of the old: `open` negated and mirrored into `aria-expanded` |
| Nav.MobileNav.ClickLink | script.js:23-26 | the new state is `LinkClick` of the old: closed, with `aria-expanded` "false" |

## Left out

- Footer year (script.js:12-14): it reads the system clock.
- Header shadow on scroll (script.js:29-38): a single `scrollY > 8` comparison on a browser value. `lastY` is written but never read.
- Visibility observer and `load` fallback (script.js:103-117): these are event dispatch. Their one modellable consequence, the pass running more than once, is covered by `Stats.PassIdempotent` and `Stats.NoRequestsAfterPass`.
- Frame scheduling (`requestAnimationFrame`, `performance.now`, script.js:68-80): only the arithmetic of one frame is modelled. Which frames run, and when, is the browser's business.
- CountUp.FrameValue: times and values are exact reals, not doubles. `Math.pow` is written as a product, and `Math.round`'s negative-zero result is not distinguished.
- CountUp.FrameValueBounds: it requires a non-negative elapsed time. The source does not clamp `t` below 0, so a frame timestamp earlier than the start would show a negative value. That case is not modelled.
- `toLocaleString` (script.js:65): it depends on the locale, so it is the `format` parameter.
- Stats.Parse: the target is the exact integer the digits spell. `Number` rounds targets above 2^53 to a double, and ECMAScript lets engines approximate beyond 20 significant digits. The model keeps the exact value, passes it to `format`, and applies the `Number.isFinite` cut-off at the exact round-to-nearest bound.
- Stats.RunPass: elements are values in an array, not shared DOM nodes (a `querySelectorAll` list has no repeated node). Element attributes other than the text and `data-animated` are not modelled.
- `el.textContent || ''` (script.js:88): an element's text content is never null, so it is modelled as a string.
- Text.IsTrimmable: characters are Unicode scalar values, while JavaScript strings hold UTF-16 code units. Every trimmable character and every digit lies in the Basic Multilingual Plane, so trimming and filtering agree.
- Element lookups (script.js:3-9): a missing element just means that feature is not installed. The classes model the case where the elements are present. The unused `contactForm` lookup is not modelled.
- Nav.ClassToggle: the class list is a set, so token order in `classList` is not modelled.
- Theme.ThemeController: whether `getItem` and `setItem` throw is fixed per page as two flags. Storage whose availability changes between calls is not modelled.
