# Portfolio page behaviour, modelled in Dafny

This project models the logic inside the portfolio site's page script,
`js/main.js`. It covers the logic that can be stated without a browser.
The DOM is replaced by plain values:

- scroll offsets and section bounds are integers;
- sections are a sequence of `(id, top, height)`;
- navigation links are a sequence of `(href, active)`;
- form fields and stored settings are optional strings;
- an IntersectionObserver is a set of observed elements plus the log of elements whose effect has run.

Modules, one per behaviour of the script:

- `Counter` (`counter.dfy`): the count-up of the hero statistics. The step is `ceil(target / 40)`, and the last tick clamps to the target and clears the interval.
- `ActiveNav` (`active_nav.dfy`): `updateActiveNav`. The reading position is `scrollY + 150`, a section contains it when `top <= pos < top + height`, and the last matching section wins.
- `ScrollEffects` (`scroll_effects.dfy`): the three `scroll` listeners together (header style, active link, back-to-top button), plus the header update run on load.
- `FireOnce` (`fire_once.dfy`): the counter and reveal observers. Each one unobserves an element on its first intersection.
- `Email` (`email.dfy`): `isValidEmail`. It is written as a scan and proved equal to the regular expression read as a decomposition.
- `ContactForm` (`contact_form.dfy`): the order of checks in the submit handler, and the mail it produces.
- `Theme` (`theme.dfy`): `getPreferredTheme`, `setTheme`, the toggle and the system-preference listener.
- `Optional` (`optional.dfy`): the `Option` type for values that may be `null`.

Two behaviours of the code as written are made explicit:

- `FireOnce.RepeatedHitFiresTwice` shows that the callback itself never checks whether an element is still observed. A single batch with two intersecting entries for the same element therefore fires it twice. Fire-once (`FireOnce.RespondKeepsFireOnce`) holds for batches with at most one intersecting entry per element.
- `Theme.SystemChangeIgnoredAfterLoad` shows that loading the page always stores a non-empty theme. After that, the `prefers-color-scheme` listener never changes the theme, as long as nothing outside this page writes or removes the stored `theme`.

## Model

| member | source | states |
|---|---|---|
| Counter.Increment | js/main.js:137 | the step is the ceiling of `target / 40`: `40 * (inc - 1) < target <= 40 * inc`; it is positive exactly when the target is |
| Counter.Run | js/main.js:141-149 | from any running total, the k-th tick adds k steps; only the last tick clears the interval; every earlier tick shows its total, which is below the target; the last tick shows exactly the target, having reached or passed it |
| Counter.Animate | js/main.js:135-149 | the animation started at 0 ends by showing the target and clearing the interval, which no earlier tick does; a non-positive target stops on the first tick; a positive one takes `n` ticks with `(n - 1) * step < target <= n * step` |
| Counter.Displayed | js/main.js:141-148 | the displayed values are `k * step` for every tick but the last, each below the target, and the last is the target; a non-positive target shows only itself |
| Counter.DisplayedBounded | js/main.js:142-148 | no displayed value exceeds the target, and the values strictly increase |
| Counter.DisplayedIsExpected | js/main.js:135-149 | the displayed values equal an independent description: `step, 2*step, ..., (n-1)*step, target` with `n = ceil(target / step)`, or just the target when it is not positive |
| Counter.HundredTakesThirtyFourTicks | js/main.js:137-148 | a target of 100 has step 3, shows 3 first and 99 on tick 33, and on tick 34 reaches 102 and shows 100 |
| ActiveNav.MarkLinks | js/main.js:96-101 | the inner loop keeps every link's href and leaves a link active exactly when its href is the anchor, whatever was active before |
| ActiveNav.SweepSpec | js/main.js:88-103 | the loop over sections leaves the links alone when no section contains the position; otherwise the result is the marking for the last containing section |
| ActiveNav.CurrentSection | js/main.js:90-95 | the section under the reading position is absent exactly when no section contains it; otherwise it is the last containing section in document order |
| ActiveNav.UpdateActiveNav | js/main.js:87-104 | hrefs are kept; with no containing section nothing changes; otherwise exactly the links whose href is `#` plus the last containing section's id are active, and none is active if no link has that href |
| ActiveNav.UpdateRendersCurrentSection | js/main.js:87-104 | the update equals first computing the current section, then marking its links (or changing nothing) |
| ActiveNav.UpdateIdempotent | js/main.js:87-104 | a second update at the same offset changes nothing |
| ActiveNav.UpdateKeepsAtMostOneActive | js/main.js:95-101 | with distinct hrefs, if at most one link was active, at most one is active after an update |
| ScrollEffects.OnScroll | js/main.js:74-118 | after a scroll event the header is styled exactly when the offset exceeds 50 and the button is shown exactly when it exceeds 400; the button shown implies the header styled; the links are those `updateActiveNav` leaves at that offset, with their hrefs kept |
| ScrollEffects.OnLoad | js/main.js:74-83 | on load only the header flag is set from the offset; the button and links are untouched |
| ScrollEffects.OnScrollIdempotent | js/main.js:74-118 | two scroll events at the same offset leave the page as one does |
| ScrollEffects.FlagsForgetPriorState | js/main.js:74-116 | the header and button flags after a scroll event do not depend on the flags before it |
| ScrollEffects.AtTopOfPage | js/main.js:74-116 | at offset 0 the header is plain and the button hidden, and the links change only if some section covers position 150 |
| FireOnce.Observe | js/main.js:156 | observing a set of elements watches exactly that set with nothing fired yet, a valid watcher that accounts for every element |
| FireOnce.ObserveReveal | js/main.js:177-200 | the reveal observer watches exactly the elements matching a reveal selector together with those already carrying `fade-in`, and nothing has fired yet |
| FireOnce.RespondFiresHits | js/main.js:189-195 | a batch appends the elements of its intersecting entries, in order, to those already fired, and stops observing exactly them |
| FireOnce.RespondKeepsFireOnce | js/main.js:131-153 | a batch of entries for observed elements, with at most one intersecting entry per element, keeps each element fired at most once, never fired while still observed, and accounts for every element originally observed |
| FireOnce.FiredStaysFired | js/main.js:191-193 | an element once fired (made `visible`) stays among the fired elements after any batch |
| FireOnce.FiredNeverRedelivered | js/main.js:151 | no batch the browser can deliver mentions an element that has already fired; this rests on the browser reporting only observed elements |
| FireOnce.RepeatedHitFiresTwice | js/main.js:131-153 | a batch with entries intersecting, leaving and intersecting again for one element fires it twice |
| Email.IsValidEmail | js/main.js:240-242 | the scan accepts a string exactly when it splits as plain run, `@`, plain run, `.`, plain run, where a plain run is non-empty and holds neither whitespace (as the regular expression's `\s` defines it) nor `@` |
| Email.ScanMatchesPattern | js/main.js:241 | the pattern holds iff the string has no whitespace, exactly one `@`, something before it, and after it a `.` with a character on each side |
| Email.AcceptsShortAddress | js/main.js:241 | `a@b.co` is accepted |
| Email.AcceptsDottedAddress | js/main.js:241 | `x.y@m.e.io` is accepted |
| Email.RejectsExamples | js/main.js:241 | addresses missing a part, with two `@`, or with a space are rejected |
| ContactForm.Submit | js/main.js:207-237 | a missing or empty name, email or message gives the required-fields error, whatever the email; otherwise an address not matching the pattern gives the email error; a mail is produced, a success notice shown and the form reset exactly when both checks pass; the mail goes to the site owner, its subject falls back to `Portfolio Contact`, and its body ends with the message |
| ContactForm.BlankNamePasses | js/main.js:217 | the required check tests for emptiness only, so a name of spaces passes |
| ContactForm.MissingFieldWins | js/main.js:217-225 | a missing field is reported even when the email is malformed as well |
| Theme.PreferredTheme | js/main.js:21-25 | the preferred theme is the stored value when it is non-empty, otherwise `dark` exactly when the system prefers dark, else `light` |
| Theme.Load | js/main.js:27-33 | after load the attribute equals the stored value, which is a non-empty theme: the stored one if there was one, else the system's |
| Theme.Toggled | js/main.js:37-38 | the toggle target is always `light` or `dark`, and is `dark` exactly when the current attribute is `light` |
| Theme.OnToggleClick | js/main.js:35-40 | a click sets the attribute to the toggle target of the current attribute, leaves attribute and storage equal and non-empty, and changes a `light` or `dark` theme |
| Theme.OnSystemChange | js/main.js:43-47 | a system change does nothing while a non-empty theme is stored; otherwise the system theme is set and stored |
| Theme.ToggleTwice | js/main.js:36-39 | two clicks return `light` or `dark` to itself and take any other value to `dark` |
| Theme.ReplayKeepsSynced | js/main.js:27-47 | any run of clicks and system changes keeps attribute and storage equal and non-empty |
| Theme.SystemChangeIgnoredAfterLoad | js/main.js:21-47 | after load and any run of later events, a system change leaves the theme unchanged |

## Left out

- DOM access (`querySelectorAll`, `classList`, `textContent`, `getAttribute`, element geometry) is replaced by the values above. Handlers that assume an element exists (the header, the back-to-top button) are modelled as if it does.
- IntersectionObserver geometry (thresholds 0.5 and 0.1, the `-50px` root margin) and the timing of callbacks belong to the browser. Which elements intersect arrives as the batch of entries.
- FireOnce.RespondKeepsFireOnce: assumes at most one intersecting entry per element in one batch, because the callback does not itself guarantee fire-once for repeated entries (see `FireOnce.RepeatedHitFiresTwice`).
- Timer timing is not modelled. `stepTime = 1200 / (target / increment)` is a floating-point delay, and the 55 ms, 400 ms, 600 ms and 4000 ms delays are wall-clock. Only the order of ticks is modelled.
- `parseInt` of a missing or non-numeric `data-count` gives `NaN`. The target is taken to be an integer.
- Counter.Run: counts with unbounded integers, so it does not model the loss of precision of JavaScript numbers beyond 2^53. Targets that large do not occur in the page.
- ScrollEffects.OnScroll: takes `scrollY` as an integer. On high-density screens `scrollY` can be fractional, and the thresholds then compare a fractional value.
- `localStorage`, `matchMedia` and the change listener's registration are I/O. The stored value is read as an input at load, and afterwards only this page writes it. The system preference is an input. A failing `setItem` is not modelled.
- Theme.SystemChangeIgnoredAfterLoad: holds only while nothing outside this page touches the stored `theme`. `localStorage` is shared by every tab of the site and can be cleared while the page is open. A toggle in another tab rewrites it without changing this tab's `data-theme`. Clearing site data makes the system listener follow the preference again.
- Theme.ReplayKeepsSynced: same limit. Attribute and storage stay equal only under this page's own clicks and system changes, not under writes from other tabs or a cleared storage.
- `encodeURIComponent`, the `mailto:` URL, setting `window.location.href`, `contactForm.reset()` itself, and `showFormMessage`'s styling, colours and fade-out timers are left out. The model keeps the notice text and kind, the unencoded mail, and whether the form is reset.
- Smooth scrolling, the back-to-top click, the mobile-menu toggles, the Escape-key handler and the typing and cursor-blink effect are left out. They are event-to-style mappings with no state beyond what the event says.
