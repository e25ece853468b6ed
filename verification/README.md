# Obsidian Reality site script: a Dafny model

`js/main.js` drives the pages of the Obsidian Reality site. This project
models its decision logic with the DOM taken away:

- **Form validation.** `validateField` trims a field's value. It then applies
  three rules in order: the required check, the e-mail check and the phone
  check. The first rule that fails decides the message. `isValidEmail` and
  `isValidPhone` are anchored regular expressions. `handleFormSubmit`
  validates every field and proceeds only when all of them are valid.
- **Active link.** `initActiveLink` takes the page name from the URL path. It
  clears and re-sets the `active` marker on every navigation link, bubbles
  the marker up to a dropdown's first link (except on `home2.html`) and then
  applies a special case for `home2.html`. The model is a pure function from
  the path, the links in document order and the markers the page starts
  with, to the set of links left active.
- **Mobile menu.** `initNavigation` attaches three click handlers: the toggle
  button's, each menu link's and the document's. They act on two things:
  whether `.nav-menu` is open, and the glyph shown on `.menu-toggle`. The
  model is a state machine over those two fields, driven by where a click
  lands.

Files:

- `text.dfy` (module `Text`): JavaScript whitespace, `trim`, `split`/`join`
  and counting.
- `pattern.dfy` (module `Pattern`): the regular-expression fragment both
  recognisers use. A pattern is a sequence of pieces, each a character class
  repeated a bounded number of times. A match is an existential over the
  split points between pieces. The module also gives generic bounds on a
  match's length and on how many characters of a given kind it holds.
- `email.dfy` and `phone.dfy`: the two recognisers, and what they accept
  stated without the expression.
- `validation.dfy`: `validateField` and the decision in `handleFormSubmit`.
- `active_link.dfy`: `initActiveLink`.
- `navigation.dfy`: the menu.

What the model establishes:

- The current page is never empty. So the test `currentPage === ''` at
  js/main.js:62 can never hold, and the test at js/main.js:63 implies the
  plain equality before it.
- The `home2.html` special case at js/main.js:80-86 never changes the
  outcome.

The expression at js/main.js:171 allows at most two separators, so a number
written "+1-555-123-4567" is rejected; `Phone.RejectsThreeSeparators` proves
it.

## Model

| member | source | states |
|---|---|---|
| Text.Trim | js/main.js:131 | The result is the input with its leading and trailing JavaScript whitespace removed: a slice whose neighbours outside it are all whitespace and whose own ends are not. It is empty exactly when the input is all whitespace. |
| Text.Split | js/main.js:52 | `split` always yields at least one part, and no part contains the separator. |
| Text.JoinSplit | js/main.js:52 | Joining the parts of `split` with the same separator gives back the original string. |
| Text.SplitJoin | js/main.js:52 | Splitting the join of separator-free parts gives back exactly those parts. |
| Email.EmailCharacterization | js/main.js:165-168 | `isValidEmail` accepts exactly the strings that have no whitespace, exactly one '@' with something before it, and after the '@' a '.' that is neither the first nor the last character of the domain. |
| Email.EmailExamples | js/main.js:165-168 | "a@b.co" is accepted; "a@b" and "a@@b.co" are rejected. |
| Phone.PhoneCharset | js/main.js:170-173 | An accepted phone number uses only digits, '+', '(', ')', '-', '.' and whitespace. |
| Phone.PlusOnlyFirst | js/main.js:171 | In an accepted phone number, '+' can only be the first character. |
| Phone.PhoneLength | js/main.js:171 | An accepted phone number is 3 to 24 characters long. |
| Phone.PhoneDigitCount | js/main.js:171 | An accepted phone number holds 3 to 17 digits. |
| Phone.PhoneSeparatorCount | js/main.js:171 | An accepted phone number holds at most two separators ('-', '.' or whitespace). |
| Phone.GroupedNumber | js/main.js:171 | Every number of the form digits (1-4), optional separator, digits (1-4), optional separator, digits (1-9) is accepted. |
| Phone.PunctuatedNumber | js/main.js:171 | Every number of the form optional '+', then twice an optional '(', digits (1-4), an optional ')' and an optional separator, then digits (1-9), is accepted. |
| Phone.AcceptsParenthesisedNumber | js/main.js:170-173 | "(555) 123-4567" is accepted. |
| Phone.AcceptsInternationalNumber | js/main.js:170-173 | "+44 20 79460958" is accepted. |
| Phone.DigitsOnlyAccepted | js/main.js:171 | Every string of 3 to 17 digits is accepted. |
| Phone.RejectsForeignChar | js/main.js:171 | A string holding a character outside the phone character set is rejected. |
| Phone.RejectsManySeparators | js/main.js:171 | A string holding more than two separators is rejected. |
| Phone.RejectsThreeSeparatorsAt | js/main.js:171 | A string with separators at three positions is rejected. |
| Phone.AcceptsLocalNumber | js/main.js:170-173 | "555-123-4567" is accepted. |
| Phone.RejectsLetters | js/main.js:170-173 | "abc" is rejected. |
| Phone.RejectsThreeSeparators | js/main.js:170-173 | "+1-555-123-4567" is rejected. |
| Validation.FirstFailure | js/main.js:145-154 | The result is none exactly when no rule of the chain rejects the field. Otherwise it is a rule that rejects the field, and no earlier rule of the chain rejects it. |
| Validation.ValidateField | js/main.js:130-163 | A required field whose value is blank after trimming gets "This field is required", whatever its name. A blank field that is not required is valid, even one named email or phone. A field is valid exactly when no rule of the chain rejects it. The e-mail message is given exactly when the field is not required-and-blank, is named "email", is not blank, and its trimmed value is not a well-formed address. A field named neither email nor phone is valid exactly when it is not required-and-blank. |
| Validation.FirstFailingRuleWins | js/main.js:142-154 | The verdict is the message of the first rule of the chain (required, e-mail, phone) that rejects the field, and valid when none does. |
| Validation.ValidPhoneField | js/main.js:151-154 | A phone field that validates with something in it holds 3 to 24 characters, 3 to 17 digits and at most two separators, with a '+' only in front. |
| Validation.HandleFormSubmit | js/main.js:182-193 | Every field is validated, with no short cut after the first failure, and each verdict is that field's own. The form proceeds exactly when every verdict is valid. |
| ActiveLink.CurrentPage | js/main.js:52 | The page name is never empty and holds no '/'. It is "index.html" for an empty path or one ending in '/', and otherwise it is what follows the path's last '/'. |
| ActiveLink.SegmentAfterSlash | js/main.js:52 | What follows the last '/' of a path is its last segment, and it is empty exactly when the path ends in '/'. |
| ActiveLink.CurrentPageAfterSlash | js/main.js:52 | When nothing after a '/' is itself a '/', the page name is everything after it. |
| ActiveLink.CurrentPageOfRoot | js/main.js:52 | The paths "" and "/" both name "index.html". |
| ActiveLink.CurrentPageOfFile | js/main.js:52 | "/site/about.html" names "about.html". |
| ActiveLink.MatchIsEquality | js/main.js:61-63 | The three-way test is equivalent to the link's `href` equalling the current page, which is never "". |
| ActiveLink.FirstWithHref | js/main.js:82 | The lookup finds the first link with the given `href`, and none when no link has it. |
| ActiveLink.VisitAll | js/main.js:55-78 | Take the markers as they stand after the pass has visited the first k links. Running the rest of the clear-then-set pass from there gives the expected set, whatever markers the page started with. |
| ActiveLink.InitActiveLink | js/main.js:51-87 | Assume every dropdown's first link comes before its other links. The active links are then exactly those whose `href` is the current page, plus the first link of each dropdown holding one of them unless the page is "home2.html". The markers the page started with do not matter. |
| ActiveLink.OverrideIsRedundant | js/main.js:80-86 | The "home2.html" special case leaves the active set unchanged. |
| ActiveLink.SecondHomeMarksOnlyItself | js/main.js:55-86 | On "home2.html" a link ends active exactly when its `href` is "home2.html". |
| ActiveLink.DropdownItemExample | js/main.js:61-76 | In a menu whose "Home" dropdown holds "home.html" and "home2.html", the page "home.html" marks its own link and the dropdown's first link. |
| ActiveLink.DropdownPageExample | js/main.js:51-87 | On that menu, the path "/home.html" with the home link initially marked ends with exactly the dropdown's first link and the "home.html" link active. |
| ActiveLink.SecondHomeExample | js/main.js:70-75 | On that menu, the page "home2.html" marks only its own link. |
| ActiveLink.SecondHomePageExample | js/main.js:51-87 | On that menu, the path "/home2.html" ends with only the "home2.html" link active. |
| Navigation.Click | js/main.js:20-46 | A click keeps the glyph in step with the open flag, and puts it in step after any click that is not inside the menu. A click on the toggle flips the open flag. A click on a menu link or outside the menu leaves it closed with '☰'. A click elsewhere inside the menu changes nothing. |
| Navigation.ToggleTwice | js/main.js:20-29 | Two clicks on the toggle restore the open flag, and restore the whole state when the glyph was in step. |
| Navigation.RunKeepsSync | js/main.js:20-46 | Once the glyph is in step with the open flag, it stays in step whatever sequence of clicks follows. |
| Navigation.RunWithoutClosing | js/main.js:20-37 | With no link click and no outside click, the menu ends open exactly when it started open and was toggled an even number of times, or started closed and was toggled an odd number of times. |
| Navigation.RunAfterClosing | js/main.js:31-46 | After a link click or an outside click, earlier clicks no longer matter: the outcome is that of the later clicks from a closed menu. |

## Left out

- `initAnimations` (js/main.js:90-108): it relies on the browser's IntersectionObserver, viewport geometry and a fractional threshold.
- The `setTimeout` delays and auto-hide timers of `handleFormSubmit`: this is timing, not sequential logic. The model stops at the decision to proceed.
- DOM writes: the error element's text and `show` class, the border colour, the submit button's `innerHTML` and `disabled`, the success and error messages, and `form.reset()`. The model returns the verdicts that drive them.
- `FormData`: it is built but never used.
- `initSmoothScroll`, the logo redirect and the `data-original-text` capture and restore: browser navigation and page plumbing with no decision logic.
- When `.menu-toggle` or `.nav-menu` is missing, `initNavigation` attaches nothing. The model assumes both are present.
- Where a click lands is an input (toggle, menu link, elsewhere inside the menu, outside). The DOM's `contains` test and the toggle's `stopPropagation` are modelled by how `Navigation.Click` combines the handlers.
- Strings are sequences of Unicode scalar values, not UTF-16 code units. `\s` and `trim` use the same whitespace set, which is stated once as `Text.IsSpace`.
- ActiveLink.InitActiveLink: requires that each dropdown's first link comes first in document order. `querySelector('a')` inside the dropdown returns that link, so this holds for any page. It also requires that the initial markers name links of the list.
- A dropdown is identified by the index of its first link. Nested dropdowns are not modelled.
