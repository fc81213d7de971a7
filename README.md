# KushalWeb page logic, modelled in Dafny

KushalWeb is a single-page site: a chatbot, a feedback form, an about page and a toy
login/register flow, all kept in the browser's local storage. Its one script,
`Assets/script.js`, is mostly DOM plumbing. This project models the logic inside it that can
be stated without a browser:

- `Escape`: `escapeHTML`, the replacement of `& < > " '` by character references. Its partner
  is a decoder `Unescape`.
- `Chars`: JavaScript's `\s` and `\d` classes and `String.prototype.trim`. Every form handler
  trims its fields before checking them.
- `Validate`: the email regular expression `/^[^\s@]+@[^\s@]+\.[^\s@]+$/` (used by the
  feedback and register forms) and the mobile rule (strip every non-digit, then
  `/^\d{7,15}$/`). The regular expression is stated as the split it matches
  (`MatchesEmailPattern`). The executable check `IsValidEmail` says "no white space, one `@`,
  something before it, a `.` inside the part after it". They are proved equal.
- `Router`: the `renderSection` switch from location hash to view, and `setActiveNav`, which
  highlights the nav links whose `href` equals `hash || '#home'`.
- `Records`: users, feedback entries and the session as values. Each of the feedback, register,
  login and logout handlers is a transition on a snapshot of storage, and the lemmas relate
  several handler runs.
- `Store`: a `LocalStore` class whose fields are the three storage keys. Its methods do the
  handlers' read-modify-write on raw (untrimmed) input, and each method's postcondition ties
  the new fields to the `Records` transition.

Storage is in memory: the users and feedback keys are sequences. The session key is missing,
holds a user, or holds text that does not parse, and `getCurrentUser` treats the last like
the first.

The model keeps one quirk of the source. Registration stores escaped fields
(`Assets/script.js:372`). The duplicate-email check (`:367`) and login (`:333`) compare the
raw trimmed input with those stored values. As a result:

- Stored emails stay unique only for emails free of `& < > " '`.
- The same email holding any of `& < > " '` (an apostrophe, say) registers any number of times.
- A user whose email or mobile holds one of `< > " '` never logs in by typing the same input again; only typing the escaped form of that field (`o&#39;n@x.y` for `o'n@x.y`) succeeds.

The lemmas `RegisterKeepsEmailsUnique`, `SpecialEmailRegistersTwice`, `MarkupLoginFails` and
`SpecialLoginMissesNewRecord` state this. The duplicate check at `Assets/script.js:367` is meant to refuse a second
registration of an email. As written, it does so only for emails free of `& < > " '`, and the
model follows the code.

## Model

| member | source | states |
|---|---|---|
| Chars.TrimStart | Assets/script.js:206-208 | the result is the suffix of the input after its leading white space, and starts with a non-space |
| Chars.TrimEnd | Assets/script.js:206-208 | the result is the prefix of the input before its trailing white space, and ends with a non-space |
| Chars.Trim | Assets/script.js:206-208 | `trim` never lengthens its input, and the result is empty or starts and ends with a non-space |
| Chars.TrimIsInnerSlice | Assets/script.js:347-349 | `trim` returns a contiguous slice with no white space at either end, and everything it cut off was white space |
| Chars.TrimEmptyIffBlank | Assets/script.js:210 | a field is empty after trimming exactly when it held only white space, so blank fields fail the "required" check |
| Chars.TrimIdempotent | Assets/script.js:329-330 | trimming an already trimmed value changes nothing |
| Escape.EscapeChar | Assets/script.js:158-159 | each of the five specials maps to a reference starting with `&`; every other character maps to itself; no output holds `< > " '` |
| Escape.EscapeHtml | Assets/script.js:157-161 | the output is at least as long as the input and contains none of `< > " '` |
| Escape.UnescapeReference | Assets/script.js:158-159 | each of the five references decodes to the character it replaced |
| Escape.UnescapeStep | Assets/script.js:158-159 | decoding consumes exactly one character's replacement |
| Escape.UnescapeEscape | Assets/script.js:157-161 | decoding the five references recovers the input exactly |
| Escape.EscapeInjective | Assets/script.js:157-161 | two inputs with the same escaped form are equal |
| Escape.EscapedAmpersandsStartReferences | Assets/script.js:157-161 | every `&` in the output begins one of `&amp;`, `&lt;`, `&gt;`, `&quot;`, `&#39;` |
| Escape.EscapeHtmlIsEscapedText | Assets/script.js:157-161 | every output holds none of `< > " '` and each of its `&` opens a reference |
| Escape.EscapeFixedPoint | Assets/script.js:157-161 | escaping leaves a string unchanged exactly when it has none of the five specials |
| Escape.EscapeGrowsOnSpecial | Assets/script.js:157-161 | an input holding a special gets strictly longer |
| Escape.EscapeHasAmpersandIffSpecial | Assets/script.js:157-161 | the output holds `&` exactly when the input held one of the five specials |
| Escape.EscapeTwiceIffNoSpecials | Assets/script.js:157-161 | escaping twice equals escaping once exactly for special-free inputs, so `escapeHTML` is not idempotent |
| Escape.AmpersandEscapedTwice | Assets/script.js:157-161 | `&` escapes to `&amp;` and then to `&amp;amp;` |
| Validate.MatchesEmailPattern | Assets/script.js:215 | `/^[^\s@]+@[^\s@]+\.[^\s@]+$/` as a split into local part, `@`, domain label, `.` and suffix; anything it matches has at least five characters |
| Validate.IsValidEmail | Assets/script.js:356 | the four-part check; anything it accepts has no white space and at least five characters |
| Validate.IndexOf | Assets/script.js:215 | the position of the first occurrence, or the length when there is none |
| Validate.CountOne | Assets/script.js:215 | a character occurs exactly once iff its first occurrence exists and no other position holds it |
| Validate.CountZero | Assets/script.js:215 | a character occurs zero times iff no position holds it |
| Validate.EmailCheckSound | Assets/script.js:215 | every string the four-part check accepts matches the email pattern |
| Validate.EmailCheckComplete | Assets/script.js:356 | every string the email pattern matches passes the four-part check |
| Validate.EmailCheckMatchesPattern | Assets/script.js:215 | the check accepts exactly the strings `/^[^\s@]+@[^\s@]+\.[^\s@]+$/` matches: no white space, one `@`, a non-empty part before it, and a `.` neither first nor last in the part after it |
| Validate.Digits | Assets/script.js:361 | `replace(/\D/g, '')` keeps only ASCII digits and never lengthens the input |
| Validate.DigitsAppend | Assets/script.js:361 | stripping non-digits distributes over concatenation |
| Validate.DigitsOfDigits | Assets/script.js:361 | a string of digits is kept whole |
| Validate.DigitsOfNonDigits | Assets/script.js:361 | a string without digits strips to nothing |
| Validate.IsValidMobile | Assets/script.js:361 | `/^\d{7,15}$/` on the digits of the input; anything it accepts has at least seven characters |
| Validate.DigitsLength | Assets/script.js:361 | `replace(/\D/g, '')` keeps as many characters as the input has ASCII digits, counted digit by digit |
| Validate.MobileIsDigitCount | Assets/script.js:361 | the mobile check holds exactly when the input has 7 to 15 ASCII digits, counted independently of the stripping |
| Validate.MobileIgnoresNonDigits | Assets/script.js:361 | inserting non-digit characters anywhere never changes the mobile verdict |
| Validate.PlainDigitsAccepted | Assets/script.js:361 | a plain run of 7 to 15 digits is accepted |
| Router.HashOf | Assets/script.js:37-48 | each view has a route hash beginning with `#` |
| Router.ViewFor | Assets/script.js:35-52 | the switch: any view other than home is selected only by its own hash |
| Router.ActiveHref | Assets/script.js:53 | `hash` or else `'#home'` is never empty |
| Router.ViewForHashOf | Assets/script.js:36-52 | each view's own hash renders that view |
| Router.HashOfViewFor | Assets/script.js:36-52 | a hash renders its own view iff it is one of the four route hashes; `''` and unknown hashes render home |
| Router.SetActiveNav | Assets/script.js:30-34 | afterwards link `i` is active exactly when its href equals the given hash |
| Router.RenderSection | Assets/script.js:35-54 | returns the view the switch selects and highlights exactly the links whose href is `hash` or else `'#home'` |
| Router.HighlightAgreesWithView | Assets/script.js:30-54 | with nav links on route hashes, a highlighted link names the view shown, and an unknown hash shows home with no link highlighted |
| Records.CurrentUser | Assets/script.js:382-388 | a user exactly when the session key holds a readable record; missing or unreadable means no user |
| Records.RenderAuth | Assets/script.js:275-300 | the welcome panel exactly when a user is signed in, showing that user; the login and register forms otherwise |
| Records.FindFirst | Assets/script.js:333 | `find`: the index of a matching record with no match before it, or none when no record matches |
| Records.Reverse | Assets/script.js:237 | `reverse`: same length, element `k` is element `n-1-k` of the input |
| Records.LoadFeedbacks | Assets/script.js:235-246 | the placeholder iff nothing is stored; otherwise all entries, newest first |
| Records.EscapedFeedback | Assets/script.js:220-225 | the stored entry: name, email and message are escaped text that decodes back to the input; the date is kept as given |
| Records.EscapedUser | Assets/script.js:372 | the stored user: name, email and mobile are escaped text that decodes back to the input |
| Records.FeedbackError | Assets/script.js:210-219 | "All fields are required." iff a field is empty; otherwise "Invalid email address." iff the email check fails; otherwise no error |
| Records.SubmitFeedbackStep | Assets/script.js:204-233 | on failure storage is unchanged; on success exactly one escaped entry is appended after the untouched earlier ones; users and session never change |
| Records.RegisterError | Assets/script.js:351-371 | the checks in order (empty field, email, mobile, duplicate), each message exactly when the earlier checks pass and its own fails; the duplicate check compares the raw email with stored values |
| Records.RegisterStep | Assets/script.js:345-379 | on failure users and session are unchanged; on success one escaped record is appended and becomes the session; feedback never changes |
| Records.LoginStep | Assets/script.js:327-343 | success iff some record matches both email and mobile; the session becomes the first such record; on failure "Invalid credentials." and nothing changes |
| Records.LogoutStep | Assets/script.js:304-307 | the session is removed, the auth view shows the forms, users and feedback stay |
| Records.FeedbackKeepsInvariants | Assets/script.js:220-228 | feedback submission keeps "the session is a stored user" and "every stored field is escaped text" (no `< > " '`, each `&` opens a reference) |
| Records.RegisterKeepsInvariants | Assets/script.js:372-375 | registration keeps both invariants: the new session is the stored record, and every stored field is escaped text (no `< > " '`, each `&` opens a reference) |
| Records.LoginKeepsInvariants | Assets/script.js:333-335 | login keeps both invariants: the session is set to a stored record |
| Records.LogoutKeepsInvariants | Assets/script.js:305 | logout leaves no session and keeps every stored field escaped text |
| Records.ReverseSnoc | Assets/script.js:237 | reversing a list with one entry appended puts that entry first |
| Records.FeedbackShownNewestFirst | Assets/script.js:227-237 | after a successful submission the new entry is listed first, above the earlier ones in their previous order |
| Records.ThreeEntriesListedReversed | Assets/script.js:227-237 | entries submitted A, B, C are listed C, B, A |
| Records.RegisterFreshSucceeds | Assets/script.js:345-379 | a well-formed registration whose email is not stored verbatim succeeds and shows the welcome panel for the escaped record |
| Records.RegisterKeepsEmailsUnique | Assets/script.js:366-373 | registering an email free of `& < > " '` keeps stored emails unique |
| Records.RegisterTwiceRefused | Assets/script.js:366-371 | a second registration of the same special-free email fails, with "Email already registered." once name and mobile are valid |
| Records.MarkupEmailNeverDuplicate | Assets/script.js:367 | an email holding one of `< > " '` is never found by the duplicate check, since stored emails are escaped |
| Records.SpecialEmailRegistersTwice | Assets/script.js:367-373 | once an email holding any of `& < > " '` has registered, the same registration succeeds again and the stored emails are then no longer unique |
| Records.LoginAfterRegister | Assets/script.js:333 | after registering with a special-free email and mobile, logging in with the same input succeeds with the new record as session |
| Records.MarkupLoginFails | Assets/script.js:333 | input whose email or mobile holds one of `< > " '` never matches a stored record |
| Records.SpecialLoginMissesNewRecord | Assets/script.js:333-372 | when the email or mobile holds any of `& < > " '`, the record just stored never matches the same input at login, so a successful login right after registering selects some other record |
| Store.LocalStore.constructor | Assets/script.js:226 | fresh storage holds no users, no feedback and no session |
| Store.LocalStore.GetCurrentUser | Assets/script.js:382-388 | a user exactly when the session key holds a readable record |
| Store.LocalStore.LoadFeedbacks | Assets/script.js:235-246 | reads the stored entries and lists them newest first |
| Store.LocalStore.SubmitFeedback | Assets/script.js:204-233 | trims the fields and runs `SubmitFeedbackStep` on storage; users and session unchanged; on failure feedback unchanged; on success one entry appended |
| Store.LocalStore.Register | Assets/script.js:345-379 | trims the fields and runs `RegisterStep` on storage; on failure nothing changes; on success the escaped record is appended and is the current user |
| Store.LocalStore.Login | Assets/script.js:327-343 | trims the fields and runs `LoginStep` on storage; users and feedback unchanged; on failure the session is unchanged |
| Store.LocalStore.Logout | Assets/script.js:304-307 | removes the session key, after which there is no current user |

## Left out

- The theme controller (`Assets/script.js:10-27`): it toggles a CSS class, swaps logo images and persists the choice; it has no logic beyond a two-state toggle.
- The chatbot (`Assets/script.js:94-118`, `163-186`): an asynchronous network call; with the placeholder key it always returns a fixed sentence.
- The form attributes `required` and `type="email"` (`Assets/script.js:194-196`, `288-289`, `294-296`): a browser refuses empty fields and some malformed emails (for example ones with `<`, `>` or `"`) before a handler runs. The handlers are modelled on every input, so the `Markup*` and `SpecialEmailRegistersTwice` lemmas are facts about the handlers, not about what a browser lets through.
- DOM rendering: the `innerHTML` templates, event wiring, Login/Register tab toggling, textarea autosize and scrolling; these are presentation, not logic. `RenderAuth` and `LoadFeedbacks` model only which panel or which list is shown.
- The static About view, and the empty `THEMES` list with its theme buttons.
- `setTimeout(renderAuth, 800)`: only delays re-rendering, after storage is already written.
- `new Date().toLocaleString()`: depends on the clock and locale, so the date is a parameter.
- `JSON.parse` of the users and feedback keys: a corrupt value there throws and aborts the handler, which is not modelled; both keys are sequences of well-formed records.
- The nav links' `href` values live in the page markup, which is not part of this model. `SetActiveNav` takes them as a parameter, and `HighlightAgreesWithView` assumes they are the four route hashes.
- Strings are sequences of Unicode characters, not UTF-16 code units. Every character the checks name is in the Basic Multilingual Plane, so no verdict depends on the difference.
- The handlers are attached only while the matching view is on screen (login and register only when signed out, logout only when signed in). The transitions do not require that state, and they behave the same in every state.
