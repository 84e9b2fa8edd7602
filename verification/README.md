# Portfolio page script: validation, mailto link, navigation and drawer

A Dafny model of the logic inside `app.js`, the script of a single-page
portfolio site. The browser is abstracted away and four pieces are kept:

- **Validation** (`validation.dfy`): `validateField` and `isValidEmail`. A
  field's trimmed value is checked in a fixed order. It must not be empty,
  an `email` field must match `^[^\s@]+@[^\s@]+\.[^\s@]+$`, and a `message`
  field must be at least ten UTF-16 code units long. The model also covers
  what the field's error element then shows, and `clearFieldError`. The
  regular expression is modelled twice. `MatchesEmailPattern` is a
  declarative reading of the pattern. `IsValidEmail` is a plain string test:
  exactly one `@`, no white space, a non-empty local part, and a domain with
  an inner `.`. The two are proved to accept the same strings.
- **Contact form** (`contact_form.dfy`): `handleFormSubmit`. All four fields
  are checked without stopping at the first failure. Only a fully valid form
  produces the `mailto:` link, and only then is the form reset. The link is
  read back by its delimiters: the query ends at the first `#` (section 3.5
  of RFC 3986), and section 2 of RFC 6068 splits the rest into addresses,
  `?`, and `&`-separated `hfname=hfvalue` fields. This reading shows when
  the link's fields come back as they were put in and when a raw delimiter
  cuts the body short.
- **Navigation** (`navigation.dfy`): `showPage` over a map from page element
  ids to "displayed", and `updateActiveNavLink` over the elements it looks
  at: the menu links, whether or not they carry `data-page`, and every
  element carrying `data-page`.
- **Mobile menu** (`mobile_menu.dfy`): `toggleMobileMenu` and
  `closeMobileMenu` over the drawer's `hidden` class, the toggle button's
  `active` class and the body's `overflow` style.
- **Site** (`site.dfy`): the event handlers wired by `initPageNavigation`
  and `initMobileMenu`, composed into one state machine. It shows that a
  click is a single navigation, and that from the loaded page on at most one
  page is displayed.
- `text.dfy` holds the string primitives: ECMAScript white space, `trim`,
  UTF-16 `length`, counting, searching and splitting. `wrappers.dfy` holds
  `Option`.

Two behaviours of the code are easy to misread:

- **An unknown page key is not a no-op.** `showPage` hides every page before
  it looks the key up (app.js:71-96). An unknown key therefore leaves no
  page displayed, and the page shown before is not kept (`Site.Navigate`,
  `Site.UnknownKeyAfterProjects`).
- **The body is not percent-encoded** (app.js:221). Only the subject goes
  through `encodeURIComponent` (app.js:222). The raw field values are
  interpolated into the body, so a raw `&` or `#` in any field cuts the body
  header short when the link is read back
  (`ContactForm.RawDelimiterCutsBody`).

## Model

| member | source | states |
|---|---|---|
| `Text.Trim` | app.js:239 | the result has no white space at either end, is no longer than the input, and is empty exactly when the input is all white space |
| `Text.TrimIgnoresPadding` | app.js:239 | white space added at either end does not change the trimmed value |
| `Text.Utf16Length` | app.js:256 | `length` lies between the number of characters and twice that, and equals it exactly when no character lies outside the Basic Multilingual Plane; one character counts one code unit inside that plane and two (a surrogate pair) outside it |
| `Text.Utf16LengthAppend` | app.js:256 | the code units of two strings joined are the sum of their code units, so with the one-character counts `length` is fixed for every string |
| `Validation.Validate` | app.js:237-259 | a verdict is valid exactly when it carries no message, so an invalid verdict carries exactly one message |
| `Validation.ValidateRules` | app.js:239-259 | a blank value always gets the required message, whatever the field, so that rule runs first; an email field is valid iff its trimmed value is non-empty and matches the email pattern; a message field is valid iff its trimmed value is at least ten code units long; any other field is valid iff it is non-blank; a non-blank failure carries its own field's message |
| `Validation.ValidIffSatisfies` | app.js:242-259 | a verdict passes exactly when the field satisfies its rule, which is stated with no order of checks |
| `Validation.RequiredMessageOf` | app.js:246-248 | for a field name starting with a lower-case letter, the required message is that letter in upper case, the rest of the name unchanged, then ` is required` |
| `Validation.NameRequiredMessage` | app.js:247 | the required message of the `name` field is `Name is required` |
| `Validation.MatchesEmailPattern` | app.js:288 | a match is at least five characters long (`x@y.z`) and neither starts nor ends with white space or `@` |
| `Validation.IsValidEmail` | app.js:287-290 | an accepted address is at least five characters long, holds an `@`, and has no white space at either end |
| `Validation.EmailCheckMatchesPattern` | app.js:287-290 | the plain string test accepts exactly the strings the regular expression matches as a whole |
| `Validation.ValidEmailMatchesPattern` | app.js:287-290 | exactly one `@`, no white space, a non-empty local part and an inner dot in the domain together give a match of the pattern |
| `Validation.PatternMatchIsValidEmail` | app.js:287-290 | every match of the pattern has exactly one `@`, no white space, a non-empty local part and an inner dot in the domain |
| `Validation.ValidateIgnoresPadding` | app.js:239 | white space added at either end never changes a verdict |
| `Validation.ShowVerdict` | app.js:261-272 | a missing error element changes nothing; for a valid verdict the element is emptied, hidden and unflagged; for an invalid one it shows the verdict's message and flags the field |
| `Validation.ClearFieldError` | app.js:277-285 | typing hides the error and unflags the field only when the value is not blank, and it never changes the error text |
| `Validation.DisplayedErrorMatchesVerdict` | app.js:242-272 | after a check the element shows text exactly when the field is invalid, and that text is one of the three messages |
| `Validation.BlankNameIsRequired` | app.js:245-249 | a name of spaces only is refused with `Name is required` |
| `Validation.NotAnEmailIsRefused` | app.js:250-254 | `not-an-email` is refused with the email message |
| `Validation.NineLetterMessageIsRefused` | app.js:255-259 | a nine-character message is refused with the length message |
| `Validation.ShortAddressMatches` | app.js:288 | `a@b.co` matches the email pattern |
| `Validation.PaddedAddressTrims` | app.js:239 | trimming ` a@b.co ` gives `a@b.co` |
| `Validation.PaddedAddressIsAccepted` | app.js:250-254 | ` a@b.co ` in the email field is accepted |
| `ContactForm.ValidateFields` | app.js:209-217 | one verdict per field, in order, each from its own field; the flag is true exactly when every verdict passed, so an early failure does not stop later fields being checked |
| `ContactForm.VerdictsPassIffAcceptable` | app.js:208-219 | four verdicts taken in the order of the field list all pass exactly when the form meets the rules |
| `ContactForm.FieldRulesInOrder` | app.js:210 | verdicts that follow each field's rule, in the order `name`, `email`, `subject`, `message`, all pass exactly when every field satisfies its rule |
| `ContactForm.AcceptableByField` | app.js:245-259 | a form meets the rules iff the name and subject are non-blank, the trimmed address matches the email pattern, and the trimmed message is at least ten code units long |
| `ContactForm.HandleSubmit` | app.js:197-235 | every field gets its verdict; a link is produced exactly when all four pass, which is exactly when the form meets the rules; a link is always the documented string and comes with a reset form; without a link the form is untouched |
| `ContactForm.Body` | app.js:221 | the body holds an `&`, or a `#`, exactly when one of the four raw fields does: the labels and line breaks add neither |
| `ContactForm.MailtoLink` | app.js:222 | the link is the scheme, the recipient as its only address, `?`, and a query of a `subject` field with the encoded subject followed by a `body` field with the raw body |
| `ContactForm.ReadsBack` | app.js:222 | a link to an address without `?` or `#` whose subject and body hold no `&` and no `#` reads back as that address with a `subject` and a `body` header carrying them unchanged |
| `ContactForm.LinkReadsBack` | app.js:221-222 | when neither the encoded subject nor the body holds `&` or `#`, the submitted link reads back as the recipient with exactly the encoded subject and the composed body |
| `ContactForm.RawDelimiterCutsBody` | app.js:221-222 | when any raw field puts an `&` or a `#` into the body, no header of the read-back link is the body, so the link never reads back as intended |
| `ContactForm.BodyKeepsRawValues` | app.js:221 | the body starts with `Name: ` and the raw name, and ends with the raw message, neither trimmed nor encoded |
| `Navigation.HideAll` | app.js:70-74 | every page is kept and none is displayed |
| `Navigation.ShowPage` | app.js:67-97 | the set of page elements is unchanged; if `<key>-page` exists, it alone is displayed; otherwise no page is displayed |
| `Navigation.ShowPageLastWins` | app.js:67-97 | the display before a `showPage` has no effect on the display after it |
| `Navigation.ShowPageIdempotent` | app.js:67-97 | showing the same page twice is the same as showing it once |
| `Navigation.ClearNavLinks` | app.js:100-103 | every menu link loses `active`; nothing else changes |
| `Navigation.MarkMatching` | app.js:105-111 | exactly the menu links targeting the key gain `active`; other elements keep their state |
| `Navigation.UpdateActiveNavLink` | app.js:99-112 | a menu link is active afterwards iff its `data-page` is the key; any other element is left exactly as it was |
| `Navigation.UpdateLastWins` | app.js:99-112 | only the last update decides which links are active |
| `Navigation.UpdateIdempotent` | app.js:99-112 | updating twice with the same key is the same as once |
| `Navigation.ActiveGroupIsKeyGroup` | app.js:99-112 | the active menu links are exactly those targeting the key |
| `Navigation.OtherGroupsInactive` | app.js:99-112 | no menu link targeting another key is active |
| `MobileMenu.Toggle` | app.js:159-163 | both classes flip, and afterwards scrolling is locked exactly when the drawer is open |
| `MobileMenu.Close` | app.js:165-171 | closing hides the drawer, deactivates the button and sets overflow to `auto` from any state; without the markup there is nothing to close |
| `MobileMenu.CloseIdempotent` | app.js:165-171 | closing again changes nothing |
| `MobileMenu.OnMenuClick` | app.js:145-149 | a click on the backdrop closes the drawer, a click on anything inside it changes nothing, and either way a consistent drawer stays consistent |
| `MobileMenu.OnResize` | app.js:152-156 | a width above 768 pixels closes the drawer, any other width changes nothing, and either way a consistent drawer stays consistent |
| `MobileMenu.ToggleTwice` | app.js:159-163 | toggling twice restores both classes, and restores the whole state once overflow matches the drawer |
| `MobileMenu.HandlersKeepConsistent` | app.js:159-171 | toggle and close keep the button active exactly while the drawer is open, and never leave scrolling locked behind a closed drawer |
| `Site.Navigate` | app.js:33-36 | the page elements are kept, and so is every link with its target and menu class; an element outside the menus is left exactly as it was; `<key>-page` alone is displayed if it exists and no page otherwise; exactly the menu links targeting the key are active; the drawer is untouched |
| `Site.Init` | app.js:22-24 | on load the home page alone is displayed when it exists, exactly the menu links targeting `home` are active, every link keeps its target and class, elements outside the menus are untouched, and so is the drawer |
| `Site.MenuLinkListener` | app.js:28-38 | a menu link with a non-empty `data-page` navigates to it (as `Site.Navigate` states, elements outside the menus untouched) and closes the drawer; without one it changes nothing |
| `Site.DataPageListener` | app.js:55-64 | an element with a non-empty `data-page` navigates to it (as `Site.Navigate` states, elements outside the menus untouched) and leaves the drawer alone; an empty one changes nothing |
| `Site.ClickHome` | app.js:42-51 | the page-title link navigates to `home` (as `Site.Navigate` states, elements outside the menus untouched) and closes the drawer; without that link nothing happens |
| `Site.ClickTrigger` | app.js:27-65 | a click keeps the page elements and the title link, keeps every link with its target and menu class, and leaves every element outside the menus exactly as it was; a mobile menu link always closes the drawer, and an element outside the menus never touches it |
| `Site.ClickIsOneNavigation` | app.js:27-65 | however many listeners fire, a click navigates once: a menu link navigates and closes the drawer, any other element with a non-empty `data-page` only navigates, and anything else changes nothing |
| `Site.StepKeepsInvariant` | app.js:125-171 | every user event the script handles (a click on a link, the title link, the toggle or the drawer, a resize, and the Escape key of app.js:558-563) keeps at most one page displayed and the drawer consistent |
| `Site.RunKeepsInvariant` | app.js:22-24 | from the loaded page on, whatever the user does, at most one page is ever displayed and scrolling is never left locked behind a closed drawer |
| `Site.UnknownKeyAfterProjects` | app.js:67-97 | after `about` then `projects`, only `projects-page` is displayed; navigating on to `bogus` leaves none displayed instead of keeping `projects-page` |

## Left out

- The DOM itself is abstracted. `classList`, `style`, `getAttribute` and the
  query selectors are reduced to the flags and maps above. `window.scrollTo`,
  `window.open`, `console` and the success popup (app.js:292-320) are side
  effects with no state the model needs.
- `encodeURIComponent` is a parameter of the link functions, with no
  properties assumed. `contactForm.reset()` is taken to empty every field,
  since the markup is not part of this model.
- Timers are left out. The animation cascade of `triggerPageAnimations`
  (app.js:114-121) is not modelled.
- Site.RunKeepsInvariant: assumes the drawer starts consistent, with the
  toggle button `active` exactly when the menu lacks `hidden`, and
  scrolling not locked behind a hidden menu. The script sets no initial
  classes, so this is an assumption about the page's markup.
- Site.ClickTrigger: the 100 ms delayed `closeMobileMenu` of a mobile link
  (app.js:138-142) is modelled as an immediate second close. This agrees
  with the script only when no other event arrives within those 100 ms. If
  the toggle button is clicked inside that window, the script reopens the
  drawer and the delayed close then shuts it, so it ends closed. The model
  closes first and toggles after, so it ends open.
- These are presentational glue with no state worth proving things about:
  `initScrollAnimations` and the timeline animation (app.js:324-350,
  app.js:583-601), the decorative popups (app.js:352-529), `debounce` and the
  navbar opacity handler (app.js:533-555), and the external-link listener
  (app.js:575-580).
- The Escape key's listener (app.js:558-573) is modelled as closing the
  drawer. Its removal of the success popup is left out with the popup.
- Text.Capitalise: `toUpperCase` is modelled for ASCII letters only. The four
  field names it is applied to are lower-case ASCII.
- Strings are sequences of Unicode scalar values, so unpaired UTF-16
  surrogates cannot be written down. `Text.Utf16Length` counts two code units
  for every character outside the Basic Multilingual Plane, as JavaScript's
  `length` does.
- `getElementById(key + '-page')` is assumed to find only `.page` elements.
  A key naming some other element with that id would display that element
  without hiding it first. Such markup is outside the model.
- The selector `[data-page="${pageId}"]` is taken to match by plain string
  equality. A key containing a quote or backslash would make the selector
  malformed, and this is not modelled.
- An element carrying both `nav-link` and `mobile-nav-link` is not modelled.
  Each trigger has one kind.
- A form missing one of the four fields is not modelled: `validateField`
  is then called on `null` and throws at its first line (app.js:238).
- A field without a `name` attribute is not modelled. Its name is `null`.
  A blank value then throws at `fieldName.charAt` (app.js:247). A
  non-blank value passes every check, since `null` equals neither `email`
  nor `message` (app.js:251, app.js:256).
- ContactForm.LinkReadsBack: the link is read back by its delimiters only.
  The query ends at the first `#`, and the rest splits at `?`, `&` and `=`.
  Percent-decoding is not modelled. The character limits of RFC 6068 are not
  checked either: section 2 allows only some characters in a field, and a
  `%` must start a valid escape. The body the script builds holds raw
  spaces (its labels have them), so the link it opens never conforms to
  RFC 6068 strictly. Mail clients accept it by the delimiter reading modelled here.
