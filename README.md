# Landing-page script: rate limiters, form validator and input hints

`script.js` enhances a single marketing page. Almost all of it registers
browser listeners and changes styles; three small pieces have behaviour that
can be stated exactly, and this project models those:

- **`debounce` and `throttle`** (`Debounce`, `Throttle`, `Timing`). Each
  wrapper keeps one captured variable: `timeout` for debounce, `inThrottle`
  for throttle. Each wrapper is a class with that variable as a field and one
  method per event: a call through the wrapper (`Call`) and the expiry of its
  timer (`TimerFires`). A ghost trace `executed` records what the wrapped
  function received. Pure functions `Step` and `Run` give the same state
  machine on values. The lemmas about `Run` state the promises: debounce
  coalesces a burst into one run with the last call's arguments, and throttle
  runs the first call of a burst and drops the rest.
- **`FormOptimizer.checkValidity` and the trim step of `validateInput`**
  (`Text`, `Validation`). The two regular expressions are predicates of the
  same shape as the patterns. Each is proved equivalent to a structural
  description of the values it accepts. Whitespace is the exact ECMAScript
  WhiteSpace and LineTerminator set, which both `trim` and `\s` use.
- **`FormOptimizer.optimizeInputs`** (`Inputs`). This is the `forEach` loop
  that sets `autocomplete` and `inputmode` on email and tel fields. It is a
  method over a sequence of element objects, proved against the function
  `Optimized`.

Where the code and a prose description of it differ, the model follows the
code. Debounce does not pass on the receiver (`this`): its `later` closure
calls `func(...args)` as a plain call. So the debounce trace records argument
lists only, while the throttle trace records receiver and arguments
(`func.apply(context, args)`).

## Model

| member | source | states |
|---|---|---|
| `Text.LeadingWhitespace` | script.js:358 | the length of the whitespace prefix that `trim` removes: everything before it is whitespace, and the next character is not |
| `Text.TrailingWhitespace` | script.js:358 | the length of the whitespace suffix that `trim` removes: everything after the cut is whitespace, and the character before it is not |
| `Text.Trim` | script.js:358 | the trimmed value is the slice right after the leading whitespace; what is cut at the end is all whitespace; the result neither starts nor ends with whitespace |
| `Text.TrimEmpty` | script.js:358 | the trimmed value is empty exactly when the raw value is all whitespace |
| `Text.TrimSplit` | script.js:358 | every value is whitespace, then its trimmed core, then whitespace |
| `Text.TrimPadded` | script.js:358 | reference characterisation of trim: whitespace + trimmed core + whitespace trims to that core |
| `Text.TrimIdempotent` | script.js:358 | trimming an already trimmed value changes nothing |
| `Text.TrimIgnoresPadding` | script.js:358 | extra whitespace around a value does not change what it trims to |
| `Text.CountOfConcat` | script.js:378 | the '@' count of a concatenation is the sum of the counts (used for "exactly one '@'") |
| `Text.CountOfZero` | script.js:378 | a character is counted zero times exactly when it does not occur |
| `Validation.OnlyAt` | script.js:378 | when the value has exactly one '@' and it is at index i, no other index holds '@' |
| `Validation.OneAt` | script.js:378 | an '@' at index i and none elsewhere give an '@' count of one |
| `Validation.PlainRunAt` | script.js:378 | every character of a `[^\s@]+` run is neither whitespace nor '@' |
| `Validation.PlainRunFrom` | script.js:378 | a non-empty stretch free of whitespace and '@' matches `[^\s@]+` |
| `Validation.EmailPatternShaped` | script.js:378 | a value matched by the email pattern has no whitespace, exactly one '@', a non-empty local part, and a domain with an inner '.' |
| `Validation.ShapedEmailPattern` | script.js:378 | every value of that shape is matched by the email pattern |
| `Validation.EmailPatternIsShape` | script.js:378 | the email pattern accepts a value if and only if it has that shape |
| `Validation.DigitCountAll` | script.js:380 | a value made only of digits has as many digits as characters |
| `Validation.TelPatternShape` | script.js:380 | the tel pattern accepts a value iff, after an optional '+', it is 1 to 16 ASCII digits and the first is not '0'; an accepted value has at most 17 characters and 1 to 16 digits |
| `Validation.RequiredBlankInvalid` | script.js:358-374 | a required field whose raw value is all whitespace (empty after trim) fails validation, whatever its type |
| `Validation.OtherKindsValid` | script.js:374-382 | a field whose type is neither email nor tel is valid iff it is not both required and empty |
| `Validation.EmailRule` | script.js:374-378 | an email field is valid iff its value is email-shaped, whether required or not; an empty email field is invalid even when optional |
| `Validation.TelRule` | script.js:374-380 | a tel field is valid iff its value is '+'? followed by 1 to 16 digits with no leading zero, whether required or not |
| `Validation.ValidateIgnoresPadding` | script.js:357-359 | whitespace around the raw value never changes the outcome of `validateInput` |
| `Timing.ReplayAppend` | script.js:14-37 | for either wrapper, handling two event sequences one after the other is handling their concatenation |
| `Debounce.BurstLeavesLastPending` | script.js:21-22 | calls never run `func`; after a burst exactly one run is pending, holding the last call's arguments |
| `Debounce.QuietRunsPending` | script.js:17-20 | timer expiries with no calls between them run the pending invocation once at most, and then nothing |
| `Debounce.LastCallWins` | script.js:15-22 | after any history, a call followed by timer expiries runs `func` exactly once more, with that call's arguments, and leaves nothing pending |
| `Debounce.BurstRunsOnce` | script.js:21-22 | a burst of n >= 1 calls and then the timer runs `func` exactly once, with the last call's arguments |
| `Debounce.ExecutionsPerFire` | script.js:17-22 | earlier runs are never undone; `func` runs at most once per timer expiry |
| `Debounce.ExecutedArgsWereCalled` | script.js:16-19 | every argument list `func` runs with was passed by some call (or was already pending) |
| `Debounce.SeparatedCallsRunTwice` | script.js:14-23 | two calls separated by a timer expiry run `func` twice, in call order |
| `Debounce.Debouncer.constructor` | script.js:15 | a new wrapper has no pending timer and has run nothing |
| `Debounce.Debouncer.Call` | script.js:16-22 | a call replaces the pending timer with one for its own arguments and runs nothing (`Step` on a call) |
| `Debounce.Debouncer.TimerFires` | script.js:17-19 | the expiry runs `func` once with the pending arguments and clears the timer (`Step` on an expiry) |
| `Throttle.CooldownDropsBurst` | script.js:31 | calls during the cooldown change nothing: not run, not queued |
| `Throttle.BurstRunsFirst` | script.js:31-35 | starting ready, a burst runs `func` once, at once, with the first call's receiver and arguments, and starts the cooldown |
| `Throttle.Resumes` | script.js:34 | the cooldown's end runs nothing (no trailing edge), and the next call runs again |
| `Throttle.AtMostOncePerCooldown` | script.js:26-37 | runs plus the "ready" token never exceed their starting value plus the number of timer expiries: at most one run per cooldown |
| `Throttle.ExecutedWereCalled` | script.js:28-33 | earlier runs are never undone; every new run carries the receiver and arguments of one of the calls |
| `Throttle.Throttler.constructor` | script.js:27 | a new wrapper is ready (the undefined flag reads as false) and has run nothing |
| `Throttle.Throttler.Call` | script.js:28-35 | when ready, the call runs `func` with its receiver and arguments and starts the cooldown; during the cooldown it changes nothing |
| `Throttle.Throttler.TimerFires` | script.js:34 | the expiry clears the cooldown and runs nothing |
| `Inputs.OptimizedByKind` | script.js:391-402 | email fields get autocomplete and inputmode "email"; tel fields get "tel" for both; other types are unchanged; no other attribute changes |
| `Inputs.OptimizedIdempotent` | script.js:389-403 | applying the mapping twice equals applying it once |
| `Inputs.OptimizeInput` | script.js:389-403 | the `forEach` body sets exactly the attributes `Optimized` gives for the element's type |
| `Inputs.OptimizeInputs` | script.js:386-404 | after the loop, every element's attributes are `Optimized` of its type and its old attributes |

## Left out

- The `wait` and `limit` delays and real time: `setTimeout` and `clearTimeout` become the explicit `TimerFires` event. A delay only decides when that event happens. So "spaced less than the delay apart" means "no expiry in between". The browser clamps a negative delay to zero; that is not modelled.
- What the wrapped function does, and its exceptions: the model records only what it received.
- The DOM side of `validateInput` (border colour and the `error` class, script.js:361-367). Also the listener wiring in `addValidation` (script.js:343-355) and the `querySelectorAll` lookups. `OptimizeInputs` takes the matched elements as a sequence.
- `input.type` and `hasAttribute('required')` are parameters (`kind`, `required`). Reading them from the element is not modelled.
- `AnimationObserver`, `SmoothScroll`, `CTATracker`, `ScrollProgress`, `PerformanceMonitor`, `MobileOptimizer`, `ErrorHandler` and the injected stylesheet: DOM, analytics, timing and logging glue with no logic beyond lookups and style changes. `ScrollProgress` divides floating-point numbers (and can divide by zero). Only its use of `throttle` matters here.
- General regular-expression matching: the two patterns the validator uses are written as dedicated predicates.
