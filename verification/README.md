# Portfolio page scripts, modelled in Dafny

This project models the decision logic inside the single script of a
one-page portfolio site (`script-1.js`). The browser plumbing is left out.
Layout reads, scroll offsets and attribute values become parameters. Each
event handler becomes a pure function over small immutable records.

- `Navigation` (navigation.dfy): `handleActiveNav` picks the current section
  and highlights the nav links. It also covers the navbar's `scrolled` flag,
  the mobile-menu toggle and the link-click handler of `initNavigation`.
- `Parallax` (parallax.dfy): `parallaxScroll` moves the elements whose
  section is in view. The `ticking` guard coalesces scroll events into at
  most one queued animation frame.
- `ContactForm` (contact_form.dfy): `validateForm`, including the email
  regular expression. Also the submit handler's effect on the button, the
  fields and the message region.
- `ImageFallback` (image_fallback.dfy): the file-name extraction and the
  placeholder lookup of `initImageFallbacks`, for the initial pass and for
  the `error` listener.
- `Strings` (strings.dfy): ECMAScript whitespace, `trim()` and
  `startsWith`. `Options` (options.dfy): an optional value.

Where the source and its prose description disagree, the model follows the
source, with one exception. The image handlers `InitImage` and
`OnLoadError` use the corrected placeholder lookup described under
"## Findings". `InitSrcAsWritten` and `ErrorSrcAsWritten` give the values
the code assigns, and state exactly where the two differ.

- When no section covers the probe position, `currentSection` is `""`. A
  link whose `href` is exactly `"#"` then matches `` `#${currentSection}` ``
  and becomes active. So "no link is active" holds only when no link has
  that href.
- The submit handler sets `disabled = false` in `finally`. It does not
  restore the saved value. The button ends up exactly as it started only
  if it was enabled to begin with (`ContactForm.ButtonRestored`).

## Model

| member | source | states |
|---|---|---|
| Navigation.CurrentFrom | script-1.js:103-110 | The `forEach` overwrite loop yields the id of the last covering section, or the initial value when none covers |
| Navigation.CurrentSection | script-1.js:100-110 | The current id is the last section in document order with `top <= scrollY + 100 < top + height`, and `""` when there is none |
| Navigation.Anchor | script-1.js:114 | The href template is `#` followed by exactly the current id |
| Navigation.Highlight | script-1.js:112-117 | Every link keeps its href, and is active iff its href equals `"#" + current`, whatever its earlier flag |
| Navigation.HandleActiveNav | script-1.js:96-118 | The highlight pass keeps the link list and every href as they were |
| Navigation.AtMostOneActive | script-1.js:112-117 | If hrefs are distinct, no two links are active after highlighting |
| Navigation.CoveredSectionHighlighted | script-1.js:100-117 | If section k is the last covering one, a link is active iff its href is `"#" + id(k)` |
| Navigation.ExactlyOneActive | script-1.js:100-117 | If hrefs are distinct and a link points at the last covering section, that link is the only active one |
| Navigation.UncoveredOnlyBareHash | script-1.js:100-117 | If no section covers the probe, a link is active iff its href is exactly `"#"` |
| Navigation.HighlightForgetsPrevious | script-1.js:112-117 | The result does not depend on the links' previous active flags |
| Navigation.IsScrolled | script-1.js:79-83 | The navbar flag is set iff the offset is at least 101, and an offset of exactly 100 clears it |
| Navigation.OnScroll | script-1.js:75-89 | A scroll sets `scrolled` iff the offset exceeds 100 and re-highlights the links for that offset; the menu flags are unchanged |
| Navigation.Toggle | script-1.js:44-47 | Menu and toggle flags both flip, and nothing else changes |
| Navigation.ToggleTwiceRestores | script-1.js:44-47 | Two toggles restore the original state |
| Navigation.FindTarget | script-1.js:55-56 | Returns the first section whose `#id` equals the href, or none when no section matches |
| Navigation.ClickLink | script-1.js:51-70 | A click always closes menu and toggle; a scroll to `top - 70` of the first matching section is issued iff such a section exists |
| Navigation.HandlersKeepInSync | script-1.js:44-89 | Toggle, click and scroll keep the menu and toggle flags equal if they were equal |
| Parallax.Speed | script-1.js:141 | The speed is the `data-speed` value when present and 0.5 otherwise |
| Parallax.YOffset | script-1.js:151 | The offset `-(scrolled - top) * speed` is zero iff the page is scrolled exactly to the section top or the speed is zero, and negative once a positive-speed element's section top has been scrolled past |
| Parallax.UpdateLayer | script-1.js:140-154 | One element's update changes neither its section nor its speed |
| Parallax.ParallaxScroll | script-1.js:137-156 | An element is updated iff it has a section that is in view; its offset is then `-(scrolled - top) * speed`; every other element keeps its previous offset |
| Parallax.ParallaxScrollIdempotent | script-1.js:137-156 | A second update at the same scroll position changes nothing |
| Parallax.OffsetIndependentOfHistory | script-1.js:145-153 | For an in-view element, the offset depends only on the section's top and the speed |
| Parallax.DefaultSpeedExample | script-1.js:141-153 | Scrolled to 150 over a section at 100 with the default speed, the offset is -25 |
| Parallax.Init | script-1.js:159-171 | Initialisation runs one update with nothing queued and `ticking` false |
| Parallax.OnScroll | script-1.js:160-168 | A scroll while `ticking` is set changes nothing; otherwise it queues one frame and sets `ticking` |
| Parallax.OnFrame | script-1.js:162-165 | A queued frame runs the update and then clears `ticking`; with none queued, nothing happens |
| Parallax.Step | script-1.js:160-168 | A scroll event never moves an element and queues at most one frame; a frame never queues one |
| Parallax.Run | script-1.js:160-168 | An event sequence queues at most one frame per event, and a sequence of scrolls alone never moves an element |
| Parallax.StepKeepsGuard | script-1.js:159-168 | Each event keeps the invariant: `ticking` holds iff exactly one frame is queued, and never more than one is |
| Parallax.RunKeepsGuard | script-1.js:159-168 | Any event sequence keeps that invariant |
| Parallax.AtMostOneFramePending | script-1.js:159-171 | From initialisation on, at most one frame is ever pending |
| Parallax.ScrollBurstCoalesces | script-1.js:160-168 | Any burst of scroll events leaves exactly one frame queued and the elements untouched |
| Strings.SkipBlanks | script-1.js:282-285 | Returns the first non-whitespace index at or after i, and everything skipped is whitespace |
| Strings.BackOverBlanks | script-1.js:282-285 | Returns the end of the last non-whitespace character, and everything passed over is whitespace |
| Strings.TrimBounds | script-1.js:282-285 | `trim()` keeps a range with only whitespace outside it and non-whitespace at both of its edges; an empty range means the string is blank |
| Strings.Trim | script-1.js:282-285 | The trim is empty iff the string is blank; otherwise it starts and ends with non-whitespace |
| Strings.TrimOfTrimmed | script-1.js:282-285 | A string with non-whitespace at both ends is its own trim |
| Strings.TrimIdempotent | script-1.js:282-285 | Trimming twice is the same as trimming once |
| Strings.TrimIgnoresPadding | script-1.js:282-285 | Whitespace added on either side does not change the trim |
| ContactForm.IndexOf | script-1.js:279 | Returns the first position of a character, or none iff the character is absent |
| ContactForm.IsEmail | script-1.js:279-283 | A string the email test accepts has at least five characters and contains both `@` and `.` |
| ContactForm.EmailTestMatchesPattern | script-1.js:279-283 | The direct test accepts exactly the strings that `^[^\s@]+@[^\s@]+\.[^\s@]+$` matches: one `@`, no whitespace, a non-empty local part, and a domain with an inner `.` |
| ContactForm.ValidateForm | script-1.js:278-287 | An accepted form has an untrimmed name, subject and message at least as long as their minimums and an email containing `@` |
| ContactForm.ValidateFormMeaning | script-1.js:278-287 | `validateForm` accepts iff trimmed name >= 2, the untrimmed email matches the pattern, trimmed subject >= 3 and trimmed message >= 10 |
| ContactForm.PaddingIrrelevantExceptEmail | script-1.js:281-286 | Whitespace around name, subject and message never changes the verdict; leading or trailing whitespace on the email always fails it |
| ContactForm.ValidExample | script-1.js:278-287 | `{Al, a@b.co, Hi!, 1234567890}` is accepted |
| ContactForm.ShortNameExample | script-1.js:282 | A one-letter name is rejected |
| ContactForm.NoAtExample | script-1.js:279-283 | An email without `@` is rejected |
| ContactForm.BeginSubmit | script-1.js:233-243 | Invalid data shows the error message and leaves button and fields as they are; valid data saves the button's label, disables the button and shows the busy label |
| ContactForm.FinishSubmit | script-1.js:263-274 | On both outcomes the label is restored and the button enabled; only success resets the fields and shows the success message |
| ContactForm.Submit | script-1.js:222-275 | Invalid data leaves the button and fields untouched; otherwise the button ends enabled with its original label, and the fields are reset only on success |
| ContactForm.ButtonRestored | script-1.js:239-243 | After a completed submission of an enabled button, or a rejected one, the button equals its pre-submission state |
| ContactForm.OverlappingSubmissionsKeepBusyLabel | script-1.js:240-243 | A second valid submission that starts while the first is sending saves the busy label, and both finishing leaves that label in place |
| ImageFallback.UnsplashUrl | script-1.js:314-321 | Every placeholder URL starts with `https://` |
| Strings.StartsWith | script-1.js:338 | `startsWith` holds iff the string is the prefix followed by the rest of the string |
| ImageFallback.Filename | script-1.js:326 | `split('/').pop()` is the longest suffix without `/`: the whole src when it has no `/`, and "" when it ends in one |
| ImageFallback.FilenameOfPath | script-1.js:326 | A path `dir/name` yields `name` |
| ImageFallback.FilenameBare | script-1.js:326 | A src without `/` is its own file name |
| ImageFallback.PlaceholderProperty | script-1.js:314-321 | The object lookup finds an own URL iff the name is mapped, and an inherited member iff the name is unmapped and an `Object.prototype` member |
| ImageFallback.ResolveAsWritten | script-1.js:339 | `placeholders[filename]` with the default as fallback yields a built-in member's text iff the name is an `Object.prototype` member, and otherwise an `https://` URL |
| ImageFallback.AsWrittenInheritedName | script-1.js:339 | As written, the file name `toString` gets a built-in function's text as its src rather than a URL |
| ImageFallback.Resolve | script-1.js:329-339 | The intended lookup gives the mapped placeholder for a mapped name and the default otherwise, always an `https://` URL |
| ImageFallback.ResolveMatchesAsWritten | script-1.js:329-339 | The intended lookup agrees with the code on every name that is not an inherited member, and gives the default on those |
| ImageFallback.InitImage | script-1.js:325-340 | The listener captures the file name; a src starting with `http` is kept, and any other src is replaced at once by the lookup of its file name |
| ImageFallback.OnLoadError | script-1.js:328-335 | On error, the src becomes the lookup of the captured file name |
| ImageFallback.InitSrcAsWritten | script-1.js:325-340 | The initial pass as written assigns what `InitImage` does, except that a local src whose file name is an inherited member gets that member's text |
| ImageFallback.ErrorSrcAsWritten | script-1.js:328-335 | The error listener as written assigns what `OnLoadError` does, except that a captured inherited-member name gets that member's text |
| ImageFallback.InitLeavesHttpSrc | script-1.js:337-340 | After initialisation every image's src starts with `http` |
| ImageFallback.ErrorAfterLocalInitIsStable | script-1.js:328-340 | For a local image, a load error of its placeholder changes nothing |
| ImageFallback.RemoteImageFallsBackOnError | script-1.js:328-340 | An `http` src is kept until an error, and then becomes the lookup of the name taken from the original src |
| ImageFallback.MappedLocalName | script-1.js:337-340 | A bare mapped name such as `weather-app.jpg` resolves to its placeholder before any error |
| ImageFallback.UnmappedLocalPath | script-1.js:337-340 | A local path whose file name is unmapped resolves to the default placeholder |

## Left out

- Event-listener registration, `querySelector*`, `DOMContentLoaded` and `if (!form) return`: browser wiring; the model takes sections, links, layers, form values and images as parameters.
- `window.scrollTo`'s smooth scrolling: the model records only the requested offset.
- Navigation.ClickLink: `document.querySelector(href)` is modelled only as a lookup of `#id` among the sections. An href that is not a valid selector makes it throw before the menu closes. Examples are a bare `#`, or `#` followed by an id that starts with a digit. This case is not modelled.
- Navigation.CurrentSection: a section without an `id` attribute contributes `null`, which would match an href of `#null`. The model takes every section to have a string id.
- The scroll-reveal `IntersectionObserver` (lines 183-204): its threshold and margin semantics belong to the browser, and the handler only adds a class.
- Timers: the 1500 ms simulated send becomes a caller-chosen `SendOutcome`. The 5000 ms auto-hide of the message is not modelled; it resets only the message's class, not its text. `debounce` is not modelled either.
- The commented-out `fetch`, `console.error`, `scrollToTop`, `getScrollPercentage` (floating-point division that may divide by zero), the unused `lastScroll` variable and the `module.exports` block.
- Parallax.Speed: `data-speed` is read as a string and coerced by `*`. A non-numeric value gives `NaN`. The model takes the speed as an exact real and does not model IEEE rounding or the `translate3d` string.
- Scroll offsets and layout values are integers. `pageYOffset` can be fractional on some displays.
- ContactForm.ValidateFormMeaning: lengths are counted in Unicode scalar values. JavaScript's `.length` counts UTF-16 code units, so the two differ for characters outside the Basic Multilingual Plane.
- ImageFallback.InitImage, ImageFallback.OnLoadError: these use the corrected lookup `Resolve` from "## Findings", not the code's `placeholders[filename]`. For a file name that is an `Object.prototype` member, such as `toString` or `constructor`, the code assigns that member's text instead of the default placeholder (`InitSrcAsWritten`, `ErrorSrcAsWritten`). `ImageFallback.InitLeavesHttpSrc`, `ImageFallback.RemoteImageFallsBackOnError` and `ImageFallback.UnmappedLocalPath` therefore hold of the corrected handlers only, and fail for the code on those names.
- ImageFallback.InitImage: an image without a `src` attribute makes `src.split` throw; the model takes every image to have one. The browser may retry a failing placeholder, and the model treats that as the same assignment again.

## Findings

| source | as written | input that shows it | evidently intended | confidence | as-written member | corrected member |
|---|---|---|---|---|---|---|
| script-1.js:329-339 | `placeholders[filename]` on a plain object literal also finds members inherited from `Object.prototype`; they are truthy, so they are assigned to `img.src` | an image `src` of `toString` (or `img/constructor`, `__proto__`, ...) | unmapped names get the default placeholder, as the comment at line 332 says | medium, not executed | ImageFallback.ResolveAsWritten, ImageFallback.AsWrittenInheritedName | ImageFallback.Resolve, ImageFallback.ResolveMatchesAsWritten |
