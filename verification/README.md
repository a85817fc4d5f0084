# Krosh page script: form validation, scroll highlighting, cart badge and counters

A Dafny model of the four pieces of the Krosh product-showcase page script
(`script.js`) whose behaviour can be stated precisely. The DOM is replaced by
plain records and small classes:

- **Contact-form validator** (`FormValidation`). A form control is a `Field`
  object. Its value, `type` attribute and `required` flag are fixed. It carries
  its `is-invalid` class and the list of `.invalid-feedback` elements that
  directly follow it. `Field.Validate` is `validateField`: it drops the old
  decoration, then runs the required check and the email check, and each
  check attaches its message when it fails. The email pattern
  `^[^\s@]+@[^\s@]+\.[^\s@]+$` is written as a string predicate, `IsEmail`.
  It is proved equal to a literal reading of the pattern and to its plain
  description: no whitespace, exactly one `@`, a non-empty local part, and a
  domain with a `.` that is neither its first nor its last character.
  `ValidateForm` is `validateForm`: a loop over the form's controls that
  validates every required one, with no short-circuit. `OnSubmit` is the
  synchronous part of the submit handler.
- **Navigation** (`Navigation`). `Navbar.OnScroll` sets the `scrolled` class
  from the 50-pixel threshold. `NavMenu.OnScroll` is the highlighter: it loops
  over the `section[id]` elements in document order. Each section whose band
  `[top, top + height)` holds `scrollTop + 100` clears every link's `active`
  class and then marks the links whose `href` is `#` followed by its id. So the
  last covering section wins, and when no section covers the point nothing
  changes.
- **Cart badge** (`Cart`). Each add-to-cart click writes `parseInt(text) + 1`
  back to the badge. An unparsable text becomes `NaN`, and stays `NaN`.
- **Counter ramp** (`Counter`). `AnimateCounter` is `animateCounter`. The
  target is the number spelled by the digit characters of the text. Each
  interval tick is one loop iteration that adds `target / 40`, clamps to the
  target and stops there. It shows the floor of the value, with a `+` when the
  element's current text has one. The method returns the texts shown, tick by
  tick, and the arithmetic is exact (`real`).
- **Text primitives** (`Text`). These are `trim`, the `\s` class, the
  digit filter, `parseInt` (sign, `0x` prefix, longest digit prefix, `NaN`)
  and `String(n)`. They use one explicit whitespace predicate: the ECMAScript
  WhiteSpace and LineTerminator code points.

The visibility observer (`script.js:243-260`) never calls `unobserve`, so a
statistic scrolled out of view and back starts `animateCounter` again on
whatever text it shows at that moment, while any earlier timer keeps running.
The model covers one run. `Counter.LabelTarget` shows that a run restarted on
a finished counter reaches the same target. A restart in mid-ramp does not:
after one tick of the ramp to `500+` the element shows `12+`, and the new run
ramps to 12 (`Counter.RestartMidRamp`). The later timer also finishes later,
so `12+` is what stays on the element. This is a likely defect of the page
script, read from its text and not observed.

## Model

| member | source | states |
|---|---|---|
| `Text.LeadingSpaceSpec` | script.js:297 | the run `trim` removes at the start is all whitespace and stops at a character that is not whitespace |
| `Text.TrailingSpaceSpec` | script.js:297 | the run `trim` removes at the end is all whitespace and stops at a character that is not whitespace |
| `Text.Trim` | script.js:297 | the trimmed value neither starts nor ends with whitespace, and it is empty exactly when the value is all whitespace |
| `Text.TrimIsInfix` | script.js:297 | trimming keeps a contiguous piece of the value, with only whitespace on both sides of it |
| `Text.NatToString` | script.js:368-373 | the displayed number is a non-empty string of decimal digits, with no leading zero unless it is 0 itself |
| `Text.NatToStringRoundTrip` | script.js:368-373 | the decimal text of `n` reads back as `n` |
| `Text.DigitPrefixSpec` | script.js:169 | the digits `parseInt` reads are the longest prefix of digits of the radix |
| `Text.TrimKeeps` | script.js:297 | a value with no whitespace at either end is left as it is by `trim` |
| `Text.ParseInt` | script.js:169 | `parseInt` gives `NaN` exactly when, after the leading whitespace and one sign, the text is `0x` or `0X` not followed by a hexadecimal digit, or otherwise does not start with a decimal digit (both directions) |
| `Text.ParseIntSkipsWhitespace` | script.js:169 | whitespace in front of the text does not change what `parseInt` reads |
| `Text.ParseIntSign` | script.js:169 | a `+` before an unsigned text reads the same value and a `-` reads its negation, `NaN` staying `NaN` |
| `Text.ParseIntHex` | script.js:169 | after `0x` or `0X` the digits are read in radix 16 |
| `Text.ParseIntIgnoresTail` | script.js:169 | reading stops at the first character that is not a digit, unless that is the `x` of a `0x` prefix |
| `Text.ParseIntOfDigits` | script.js:356 | `parseInt` of a digit string is its decimal value; a digit string never takes the hexadecimal path |
| `Text.ParseIntRoundTrip` | script.js:169-170 | `parseInt` reads back the text `String(i)` writes, for every integer, negative ones included |
| `Text.KeepDigits` | script.js:356 | the filtered text holds decimal digits only and is no longer than the original |
| `Text.KeepDigitsNonEmpty` | script.js:356 | the filtered text is non-empty exactly when the original text has a digit |
| `Text.KeepDigitsAppend` | script.js:356 | filtering a concatenation filters each part |
| `Text.KeepDigitsOfDigits` | script.js:356 | a digit string passes the filter unchanged |
| `FormValidation.IsEmail` | script.js:313-314 | the email test: some `@` has a non-empty run of characters other than whitespace and `@` before it, and a run of such characters holding a `.` that is neither its first nor its last character after it |
| `FormValidation.EmailTestIsPattern` | script.js:313-314 | the string predicate accepts exactly the strings that `^[^\s@]+@[^\s@]+\.[^\s@]+$` matches, read as splits into its five parts (both directions) |
| `FormValidation.EmailTestInWords` | script.js:313-314 | an address passes exactly when it has no whitespace, exactly one `@`, a non-empty part before the `@`, and a `.` strictly inside the part after it (both directions) |
| `FormValidation.EmailSplit` | script.js:313 | around an `@`, both sides are free of whitespace and `@` exactly when the whole string has no whitespace and only that one `@` |
| `FormValidation.EmailExamples` | script.js:313-314 | `a@b.co` passes the email test and `not-an-email` fails it |
| `FormValidation.FieldExamples` | script.js:296-321 | a required `email` field holding `not-an-email` gets "Please enter a valid email address", one holding `a@b.co` gets no message, and a blank one gets "This field is required" |
| `FormValidation.FieldError` | script.js:296-321 | a required blank field gets "This field is required"; a blank optional field passes whatever its type; a non-blank field fails, with "Please enter a valid email address", exactly when its type is `email` and its trimmed value fails the email test |
| `FormValidation.Notes` | script.js:323-325 | an error leaves exactly one feedback element, the error's message, and no error leaves none |
| `FormValidation.Field.ShowError` | script.js:323-326 | `showFieldError` marks the field invalid and inserts the message as the nearest following element |
| `FormValidation.Field.Validate` | script.js:296-321 | the result is true exactly when the field passes; `is-invalid` is set exactly when it is false; the one old feedback element is replaced by at most one message; a consistently decorated field stays consistent |
| `FormValidation.ValidateTwice` | script.js:301-320 | on a consistently decorated field a second validation returns the same result and leaves the same state as the first |
| `FormValidation.ValidateForm` | script.js:284-294 | the result is true exactly when every required control passes; every required control is freshly decorated, even after a failure; controls that are not required are left untouched |
| `FormValidation.OnSubmit` | script.js:205-217 | a form that validates puts the button into its disabled sending state; a form that fails blocks the submission and leaves the button as it was; every required control is freshly decorated and controls that are not required are left untouched |
| `Navigation.Navbar.OnScroll` | script.js:127-135 | after any scroll the navbar has `scrolled` exactly when `scrollTop > 50`, whatever it had before, so repeating the event changes nothing |
| `Navigation.LastCovering` | script.js:139-149 | no index is returned exactly when no section's half-open band holds the position; otherwise the index is of a covering section and no later section covers the position |
| `Navigation.Highlighted` | script.js:147-148 | a link is active exactly when its `href` is `#` followed by the section id |
| `Navigation.AfterScroll` | script.js:138-151 | when no section's band holds `scrollTop + 100` the links keep their flags; otherwise they are `Highlighted` for the section that holds it with no later section holding it |
| `Navigation.AfterScrollStep` | script.js:140-149 | one more section in document order replaces the flags when it covers the position and leaves the earlier outcome otherwise |
| `Navigation.AfterScrollIdempotent` | script.js:138-151 | repeating a scroll to the same position leaves the links as the first scroll left them |
| `Navigation.ThreeSectionScenario` | script.js:138-151 | with three stacked sections and the look-ahead point inside the second, only the link to the second section is active |
| `Navigation.NavMenu.ClearAll` | script.js:147 | every link loses `active` |
| `Navigation.NavMenu.Mark` | script.js:148 | the links targeting the section gain `active`; the others keep their class |
| `Navigation.NavMenu.OnScroll` | script.js:138-151 | the links end as `Highlighted` for the last section covering `scrollTop + 100`; when no section covers it they are unchanged |
| `Cart.IncrementCounts` | script.js:168-170 | a badge showing `n` shows `n + 1` after a click |
| `Cart.NotANumberSticks` | script.js:169-170 | a badge showing `NaN` still shows `NaN` after a click |
| `Cart.Increment` | script.js:168-170 | an unparsable badge text becomes `NaN`; otherwise the new text reads back as one more than the old one |
| `Cart.CartBadge.OnAddToCart` | script.js:168-170 | the badge text becomes `parseInt` of the old text plus one, or `NaN` when the old text does not parse |
| `Counter.TargetIsParseInt` | script.js:356 | the target is the value `parseInt` gives for the digit characters of the text |
| `Counter.RampShape` | script.js:357-367 | the shown values never decrease, stay below the target until the last tick, and the last one equals the target |
| `Counter.Ramp` | script.js:357-373 | the ramp shows at least one value and its last value is the target |
| `Counter.RestartMidRamp` | script.js:243-260 | after one tick of the ramp to `500+` the element shows `12+`, whose digits spell a target of 12 |
| `Counter.LabelPlus` | script.js:369-371 | a shown text carries a `+` exactly when the counter's text did |
| `Counter.LabelTarget` | script.js:356-373 | the digits of a shown text spell its value, so a restarted run on the final text ramps to the same target |
| `Counter.FloorOfQuotient` | script.js:368 | the floor of `x / 40` in the reals is the integer quotient |
| `Counter.TickBelowTarget` | script.js:361-368 | before tick 40 of a non-zero ramp the value is below the target, so the timer keeps running, and its floor is the ramp's value |
| `Counter.TickStep` | script.js:358-362 | adding `target / 40` to `k * target / 40` gives `(k + 1) * target / 40` |
| `Counter.AnimateCounter` | script.js:355-375 | the texts shown are, tick by tick, the ramp's values with the `+` marker when the text had one: forty ticks ending exactly at the target, or one tick showing 0 for a zero target, after which the timer stops |

## Left out

- Image fallback and the canvas placeholder (script.js:13-82): random URLs, the Canvas API and `toDataURL` are foreign calls.
- Stagger delays, parallax, the random delays of the floating kittens and the `easeInOutQuart` easing (script.js:85-110, 266-275, 459-467, 493-496): presentational floating-point arithmetic.
- Smooth scrolling, notification banners, floating hearts, the quick-view modal, the loading screen, the typewriter, touch and keyboard handlers and the console banner (script.js:113-124, 328-353, 377-456, 470-608): DOM construction, timers and library calls with nothing to state.
- The visibility observer (script.js:237-261): it is browser intersection reporting. It is not part of this model beyond the restart remark above.
- Timers: the 2-second simulated submission, the form reset and the button resets (script.js:179-183, 219-226) are not modelled. A counter tick is one loop iteration, not a timer callback.
- The add-to-cart button's label and class swap and the cart icon's bounce (script.js:163-165, 172-183): class toggles undone by a timer.
- Counter.AnimateCounter: uses exact arithmetic; IEEE-754 rounding in the accumulation of `target / 40` is not modelled.
- Counter.AnimateCounter: requires a digit in the text. With no digit, `parseInt` gives `NaN`, the stop test never succeeds, and the interval runs forever showing `NaN`.
- Text.ParseInt: reads numbers exactly. Double-precision rounding of long numerals, and exponent notation in `String(n)` past 1e21, are not modelled.
- FormValidation.Field: the value is a constant of the field. The user's typing between validations is outside the model.
- Navigation: scroll positions, offsets and heights are exact reals, supplied by the caller in place of jQuery's `scrollTop`, `offset` and `outerHeight`.
