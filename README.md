# Portfolio page script: a verified model

This project models the decision rules inside `assets/js/main.js`, the one
script of a static portfolio site. The script's outside world is the DOM, the
browser, storage and the network. Inside its event handlers sit five groups
of small rules, each in its own Dafny module, on top of a helper module for
the string primitives they use:

- `Text` (the helper): `trim`, `split(/\s+/)` and `length` counted in UTF-16
  code units. The whitespace class and the line-terminator class are passed
  in as a `CharSets` value.
- `Filters`: the project filter. Each filter button carries a key, and each
  project card carries a list of tags. A click marks the clicked button
  `active` and shows exactly the cards whose `data-tags` hold that key. The
  key `"all"` shows every card.
- `ContactForm`: the three field rules (name, email, message), the per-field
  update of the error line and `aria-invalid`, and the check on submit. That
  check stops at the first invalid field and decides whether the form is sent.
- `Theming`: the `light` class on `body` plus one storage slot,
  `"portfolio:theme"`. There are three operations: apply a theme, initialise
  the theme at page load, and toggle it.
- `Navigation`: the mobile menu's `open` class, which `aria-expanded` mirrors,
  and the href guard of the smooth-scroll links.
- `HeaderShadow`: `clamp` and the rule "shadow on when scrolled past 8".

`Wrappers` holds an `Option` type. It stands for a DOM read that may return
nothing.

The code's own form is kept in two ways. Pure rules are functions. Handlers
that write state are methods: over arrays of DOM records (cards, buttons,
form fields), or on small classes (`ThemeStore`, `NavMenu`, `SiteHeader`).
Each method is specified against the pure functions, so the properties are
proved about the functions.

Some non-obvious facts proved here:
- `split(/\s+/)` can yield an empty piece. It does so exactly when the tag text
  is empty, or starts or ends with whitespace (`Text.SplitEmpty`). A key that
  is not empty and not "all" shows a card exactly when the key is a
  whitespace-delimited word of the tag text (`Text.SplitWords`, `Filters.Shows`).
- The email regex `.+@.+\..+` is unanchored. It matches exactly when some
  substring without line terminators reads x@y.z, with x, y and z non-empty
  (`ContactForm.EmailTestMatchesPattern`).
- For n >= 1, "the trimmed length is at least n" is the same as "two
  non-space characters span at least n UTF-16 code units, first to last
  inclusive" (`Text.TrimLength`). A single character above U+FFFF is two code
  units, so it passes the name rule (`ContactForm.ExampleSurrogatePair`).

Behaviour of the code that the model keeps as it is:
- There is no sync of the filter with a URL query parameter, no
  reveal-on-scroll animation, and no handling of storage errors.
- On submit, `every` stops at the first field that fails, so the fields
  after it are not validated (`ContactForm.PreValidate`,
  `ContactForm.ExampleStopsAtName`).
- `applyTheme` and `initTheme` store or relay any non-empty string, not only
  `"light"` or `"dark"`.

## Model

| member | source | states |
|---|---|---|
| `Text.TrimStart` | assets/js/main.js:96 | The result is a suffix of the input, everything cut off is whitespace, and the result does not start with whitespace |
| `Text.TrimEnd` | assets/js/main.js:96 | The result is a prefix of the input, everything cut off is whitespace, and the result does not end with whitespace |
| `Text.Utf16Units` | assets/js/main.js:96 | The code units of a range of k characters number between k and 2k |
| `Text.Utf16Length` | assets/js/main.js:96 | `length` of a string of k characters is between k and 2k code units |
| `Text.Utf16UnitsSplit` | assets/js/main.js:96 | Counting code units adds up over adjacent ranges |
| `Text.Utf16LengthBasic` | assets/js/main.js:96 | A string with no character above U+FFFF has as many code units as characters |
| `Text.TrimLength` | assets/js/main.js:96-99 | For n >= 1: the trimmed length in code units is at least n iff the input has non-space characters at positions i <= j whose range i..j, both included, is at least n code units long |
| `Text.Split` | assets/js/main.js:76 | `split(/\s+/)` returns at least one piece, and no piece contains whitespace |
| `Text.SplitWords` | assets/js/main.js:76-77 | A non-empty string is one of the pieces iff it is a whitespace-free run of the text, bounded on each side by whitespace or an end of the text |
| `Text.SplitEmpty` | assets/js/main.js:76-77 | "" is one of the pieces iff the text is empty, or starts or ends with whitespace |
| `Filters.Shows` | assets/js/main.js:76-77 | Key "all" always shows the card; any other non-empty key shows it iff the key is a delimited word of `data-tags` (a missing attribute read as ""); the key "" shows it iff the tag text is empty or starts or ends with whitespace |
| `Filters.MissingTagsShowOnlyForAll` | assets/js/main.js:76-77 | A card without `data-tags` is shown by a non-empty key iff the key is "all" |
| `Filters.FilterKey` | assets/js/main.js:85 | The applied key is never "": it is `data-filter` when that is present and non-empty, otherwise "all" |
| `Filters.SetActive` | assets/js/main.js:69-71 | Afterwards exactly the clicked button is active; no button's key changes |
| `Filters.ApplyFilter` | assets/js/main.js:73-80 | Each card's displayed flag becomes `Shows(key, its own tags)`; tags are unchanged |
| `Filters.FilterClick` | assets/js/main.js:83-86 | A click activates exactly the clicked button and filters every card by the button's key, which is never "" |
| `Filters.ExampleSplit` | assets/js/main.js:76 | The tag text "web  ui" splits into ["web", "ui"]; the double space yields no empty piece |
| `Filters.ExampleTagsShown` | assets/js/main.js:76-77 | With tag text "web  ui", the keys "web" and "ui" show the card |
| `Filters.ExampleTagsHidden` | assets/js/main.js:76-77 | With tag text "web  ui", the prefix "we" and the phrase "web ui" do not show the card |
| `ContactForm.EmailTestMatchesPattern` | assets/js/main.js:97 | The position-based test holds iff some line-terminator-free substring reads x@y.z with x, y, z non-empty |
| `ContactForm.NameRule` | assets/js/main.js:96 | Passes iff the trimmed value is at least 2 UTF-16 code units long; otherwise fails with "Please enter your name" |
| `ContactForm.EmailRule` | assets/js/main.js:97 | Passes iff the unanchored pattern `.+@.+\..+` occurs in the value; otherwise fails with "Please enter a valid email" |
| `ContactForm.MessageRule` | assets/js/main.js:98-99 | Passes iff the trimmed value is at least 10 UTF-16 code units long; otherwise fails with "Please enter at least 10 characters" |
| `ContactForm.Check` | assets/js/main.js:95-100 | Only the names "name", "email" and "message" have a rule, and every failure message is non-empty |
| `ContactForm.ValidatedMeaning` | assets/js/main.js:108-120 | A field with no rule passes and is left untouched. With a rule, it passes iff `aria-invalid` becomes "false", and then the error line (if any) becomes "". On failure, `aria-invalid` is "true" and the error line shows the rule's message. Name and value never change |
| `ContactForm.ShowError` | assets/js/main.js:102-106 | Only the targeted field changes: its error line, when present, shows the message, and `aria-invalid` is "true" iff the message is non-empty |
| `ContactForm.ValidateField` | assets/js/main.js:108-120 | Returns whether the field passes (missing value read as ""); the field becomes its validated state and no other field changes |
| `ContactForm.FirstFailure` | assets/js/main.js:135 | The index of the first failing field, or the field count: every field before it passes, and the field at it fails |
| `ContactForm.PreValidate` | assets/js/main.js:134-136 | Sends iff every field passes. Fields up to and including the first failure are validated; later fields keep their previous state |
| `ContactForm.ExampleRulesFail` | assets/js/main.js:95-100 | "A", "bad" and "short" fail the name, email and message rules with their messages |
| `ContactForm.ExampleRulesPass` | assets/js/main.js:95-100 | "Al", "a@b.co" and "this is long enough" pass the name, email and message rules |
| `ContactForm.ExampleNameFieldFails` | assets/js/main.js:108-120 | A name field holding "A" fails; validating it shows the name message and sets `aria-invalid` to "true" |
| `ContactForm.ExampleSurrogatePair` | assets/js/main.js:96 | The one-character value U+1F600 passes the name rule, since it is two code units |
| `ContactForm.ExampleStopsAtName` | assets/js/main.js:134-136 | When the first field is a name field holding "A", the check stops at index 0 whatever follows; nothing is sent |
| `Theming.ModeName` | assets/js/main.js:160 | The stored mode is "light" iff the flag is set, and is never "" |
| `Theming.InitialMode` | assets/js/main.js:24-31 | The mode is never "". It is the stored string when that is non-empty, otherwise "light" or "dark" by the preference |
| `Theming.ReloadAfterApply` | assets/js/main.js:16-31 | After `applyTheme(m)`, the next load starts from m when m is non-empty, and from the preference when m is "" |
| `Theming.InitIsStable` | assets/js/main.js:24-31 | The next load picks up the mode that `initTheme` stored, whatever the preference is then |
| `Theming.ReloadAfterToggle` | assets/js/main.js:24-31 | After a toggle, the next load shows the flag the toggle set |
| `Theming.ThemeStore.ApplyTheme` | assets/js/main.js:16-23 | `light` is set iff the mode is "light"; the mode is stored verbatim under "portfolio:theme"; no other storage key changes |
| `Theming.ThemeStore.InitTheme` | assets/js/main.js:24-31 | Applies `InitialMode` of the old storage, so a non-empty stored mode is kept and the preference decides otherwise |
| `Theming.ThemeStore.Toggle` | assets/js/main.js:158-161 | Flips `light`, returns the new flag, and stores "light" iff the flag is now set |
| `Theming.ToggleTwice` | assets/js/main.js:158-161 | Two toggles restore the flag |
| `Theming.ReloadAfterApplyTheme` | assets/js/main.js:16-31 | A fresh page that loads after `applyTheme(m)`, for non-empty m, shows the same flag whatever its preference |
| `Navigation.NavMenu.ToggleClick` | assets/js/main.js:36-39 | Flips `open`, and `aria-expanded` becomes "true" or "false" to match |
| `Navigation.NavMenu.LinkClick` | assets/js/main.js:40-45 | Closes the menu and sets `aria-expanded` to "false" |
| `Navigation.ScrollTarget` | assets/js/main.js:52-53 | The handler goes on iff the href is present and at least 2 UTF-16 code units long, so the "" and "#" tests are subsumed |
| `Navigation.HashTarget` | assets/js/main.js:50-53 | For an href starting with "#", the handler goes on iff the href has at least one character after the "#" |
| `HeaderShadow.Clamp` | assets/js/main.js:12 | The result is at most max. For min <= max it is at least min, and it equals the value when the value is already in range |
| `HeaderShadow.ShadowOn` | assets/js/main.js:169-174 | `clamp(y, 0, 60) > 8` holds iff y > 8 |
| `HeaderShadow.SiteHeader.OnScroll` | assets/js/main.js:168-175 | After a scroll event, the shadow is on iff the scroll offset is greater than 8 |

The remaining functions have no contract of their own. They are the
reference definitions the contracts above are stated in:
- `Text.Trim`
- `ContactForm.EmailTest`
- `ContactForm.Validators`, the `validators` object as a table from field
  name and value to an optional verdict
- `ContactForm.Passes`
- `ContactForm.WithError`, the model of `showError`
- `ContactForm.Validated`, a field after `validateField`
- `ContactForm.ValueOf`
- `HeaderShadow.ScrollOffset`, `window.scrollY || scrollTop`

## Left out

- DOM querying, element-existence guards and listener registration
  (main.js:4-9, 34-35, 50-51, 64-67, 82, 87, 91-93, 122-132, 156-158, 165-167,
  176-187). These are wiring. The input handler (122-130) only calls
  `validateField` on `INPUT` and `TEXTAREA` targets, which is
  `ContactForm.ValidateField`.
- The network submission: `FormData`, `fetch`, the JSON body, `alert` and
  `form.reset()` (main.js:138-151). The model stops at the decision to send.
- `scrollIntoView`, `history.pushState` and `document.querySelector(targetId)`
  (main.js:54-58). These are browser calls; only the href guard is modelled.
- `matchMedia` and `localStorage` as APIs. The preference is a boolean
  parameter, and storage is a `map<string, string>` field.
- The copyright year, `new Date().getFullYear()` (main.js:189). It reads the
  clock.
- The CSS text of the box shadow. Only whether it is on is modelled.
- Fractional `scrollY`. Scroll offsets are integers.
- The exact Unicode sets used by `trim`, `\s` and `.`. They are the
  `CharSets` parameter. `Text.Conforming` states the few ASCII facts that the
  example lemmas use.
- Unpaired surrogates. A Dafny `char` is a Unicode scalar value, so a string
  holding a lone surrogate code unit has no counterpart here. Every other
  string is modelled, with each character above U+FFFF counted as two code
  units.
- `ContactForm.ShowError`: assumes each input has its own `.error` element
  under its parent (main.js:103). Inputs that share a parent also share one
  `.error` element, and there the error line of one field would overwrite
  another's. The model gives every field its own error line.
- General regular expressions. Only the one email pattern is modelled.
- The lookup `validators[name]` follows JavaScript's prototype chain. An
  inherited name such as `toString` or `constructor` would find a function
  there. The model gives a rule only to the three own keys.
- DOM node identity. Cards, buttons and form fields are records in arrays, so
  a node cannot appear twice, and `b === btn` is comparison by index.
- `style.display` is a flag: "" is displayed and "none" is hidden.
  `aria-invalid`, `aria-expanded` and the error text are modelled as strings.
