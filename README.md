# StudyRoom authentication forms, modelled in Dafny

This project models the two authentication pages of the StudyRoom web front
end: the sign-in page and the sign-up page. Each page keeps a state object of
text fields and a matching object of error flags and reacts to the user's
events. The model covers:

- the client-side validation of the username, the password and the email;
- the rule that flags the first empty field and asks the page to focus it;
- the duplicate-username check;
- the email verification flow: send a code, open the dialog, resend, submit
  the code, with a five-minute countdown;
- the fixed order of checks before the join request;
- on sign-in, the extraction of the access token from the `Authorization`
  header of the login reply.

Files and modules:

- `validators.dfy`, module `Validators`. The three regular expressions of the
  sign-up page. The username and password checks are one-pass scans over the
  characters. The email check splits the address at its first `@` and tests
  the two pieces. Each check is proved equal to a declarative description of
  the strings its expression accepts. For the email there are also the properties an accepted address
  always has.
- `forms.dfy`, module `Forms`. `Option`, and `FirstEmpty`, the rule both pages
  use to choose the first empty field, with its lemmas.
- `sign_in.dfy`, module `SignIn`. JavaScript's `split` on one character and its
  inverse, the token extraction, and the class `SignInPage`.
- `sign_up.dfy`, module `SignUp`. `SignUpVerdict`, the checks of the sign-up
  button as a function, and the class `SignUpPage`.

How the page state is modelled. Each page is a class whose fields are the
React state variables. The state objects indexed by field name become
`map<Field, string>` and `map<Field, bool>`. Each event handler is a method
that updates those fields at once and in order, because React's batching is
not modelled. Each `useEffect` that watches a field is a method of its own.
`Edit(field, value)` is one keystroke: the `onChangeInput` handler, then the
effect watching that field, which runs only when the value changed. The effect
watching `isCertifyOpen` clears the code and its error flag. It is folded into
the two handlers that flip that flag: `OnToggleCertifyModal`, and
`OnSendCertifyNumber` when it closes an open dialog.

What the code does as written, all kept in the model:

- `onSignUp` stops on `isDuplicated` only when it is true. A username that was
  never checked, or that was edited after a check (editing resets
  `isDuplicated` to null), passes the gate (`SignUpSubmitsIff`).
- `onSignUp` ignores the error flags. A password that fails the password check
  can still be sent.
- The dialog's close button calls the same toggle handler. Closing the dialog
  therefore validates the email again, requests another code and restarts the
  countdown.
- On sign-in, the two emptiness checks after `checkEmptyInputAndFocus` can
  never fire. `SignInPage.OnSignIn` proves this with `assert false` in that
  branch.

External inputs are parameters. The server's reply to each request is an
argument of the handler: `DuplicateReply`, `VerifyReply`, `JoinReply`, and
`LoginReply`, which carries the `Authorization` header. Alerts, the field the
page asks to focus, navigation, the requests sent and the stored cookie are returned as
outcome values (`Outcome`, `SignInOutcome`). The countdown is a number of
seconds left, at most 300, with a running flag. `Tick` is one second passing.

## Model

| member | source | states |
|---|---|---|
| Validators.ScanUsernameMeaning | src/pages/auth/sign-up/SignUp.tsx:164 | the username scan with its two "seen" flags accepts exactly when every character is in `[a-z0-9]` and a lowercase letter and a digit were seen, before or in the rest |
| Validators.UsernameOk | src/pages/auth/sign-up/SignUp.tsx:164-165 | the username check accepts exactly the strings of 3 to 16 characters, all in `[a-z0-9]`, with at least one lowercase letter and at least one digit |
| Validators.ScanPasswordMeaning | src/pages/auth/sign-up/SignUp.tsx:88-89 | the password scan accepts exactly when no character is a line terminator and each of the four lookahead classes was seen, before or in the rest |
| Validators.PasswordOk | src/pages/auth/sign-up/SignUp.tsx:88-92 | the password check accepts exactly the strings of 8 to 16 characters, none a line terminator, with a lowercase letter, an uppercase letter, a digit and one of `@#$%^&+=!` |
| Validators.WordTailMeaning | src/pages/auth/sign-up/SignUp.tsx:231 | `([-_\.]?[0-9a-zA-Z])*` matches exactly the strings of alphanumerics and separators with no two separators in a row that are empty or end in an alphanumeric |
| Validators.IsWordIff | src/pages/auth/sign-up/SignUp.tsx:231 | `[0-9a-zA-Z]([-_\.]?[0-9a-zA-Z])*` matches exactly the alphanumeric runs joined by single `-`, `_` or `.` |
| Validators.EmailOk | src/pages/auth/sign-up/SignUp.tsx:229-232 | both directions: the email check accepts exactly the addresses that split as word, `@`, word, `.`, two or three letters |
| Validators.DomainSplits | src/pages/auth/sign-up/SignUp.tsx:231 | a word before an `@` and a domain after it split the address there and at the dot before its two or three final letters |
| Validators.PartsAtFirstAt | src/pages/auth/sign-up/SignUp.tsx:231 | in an address of that shape the `@` between the two words is the first `@`, and what follows it is a domain, so splitting at the first `@` loses no match |
| Validators.EmailOkShape | src/pages/auth/sign-up/SignUp.tsx:229-235 | an accepted address has exactly one `@`, starts with an alphanumeric, never has two separators in a row, and ends in `.` and two or three letters |
| Validators.EmailOkAccepts | src/pages/auth/sign-up/SignUp.tsx:231 | conversely, local word + `@` + domain word + `.` + two or three letters is always accepted |
| Forms.FirstEmpty | src/pages/auth/sign-up/SignUp.tsx:283-290 | a field the search returns is one of the listed fields, is not skipped, and is empty |
| Forms.FirstEmptyNoneIff | src/pages/auth/sign-up/SignUp.tsx:283-290 | the first-empty search finds nothing exactly when no field it looks at is empty |
| Forms.FirstEmptySomeIsFirst | src/pages/auth/sign-in/SignIn.tsx:116-121 | a field the search finds is the earliest field it looks at that is empty |
| Forms.FirstEmptySuffix | src/pages/auth/sign-in/SignIn.tsx:116-122 | passing a field that is not empty does not change the answer: the loop invariant of both `checkEmptyInputAndFocus` loops |
| SignIn.Split | src/pages/auth/sign-in/SignIn.tsx:90 | `split(' ')` always gives at least one piece |
| SignIn.SplitJoin | src/pages/auth/sign-in/SignIn.tsx:90 | joining the pieces of `split` with the separator gives the header back, and no piece contains the separator |
| SignIn.SplitAfter | src/pages/auth/sign-in/SignIn.tsx:90 | a leading run without the separator, followed by the separator, is split off as the first piece |
| SignIn.SplitWhole | src/pages/auth/sign-in/SignIn.tsx:90 | a string without the separator splits into itself alone |
| SignIn.AccessToken | src/pages/auth/sign-in/SignIn.tsx:90-91 | a missing header gives no token, and a token that is given is non-empty and has no space |
| SignIn.TokenAtExtracted | src/pages/auth/sign-in/SignIn.tsx:90-91 | a non-empty run between the header's first space and the next space (or the end) is the extracted token |
| SignIn.ExtractedTokenAt | src/pages/auth/sign-in/SignIn.tsx:90-91 | an extracted token is that run: the second space-separated piece of the header |
| SignIn.AccessTokenIff | src/pages/auth/sign-in/SignIn.tsx:90-103 | both directions: the header yields token `t` exactly when `t` is non-empty and is the header's second piece; otherwise the login fails |
| SignIn.NoSpaceNoToken | src/pages/auth/sign-in/SignIn.tsx:90-91 | a header with no space gives no token, so the login fails |
| SignIn.SignInEmptyRule | src/pages/auth/sign-in/SignIn.tsx:115-124 | the rule fires exactly when the username or the password is empty; it picks the username if that is empty, otherwise the password |
| SignIn.SignInPage.constructor | src/pages/auth/sign-in/SignIn.tsx:21-30 | initial state: both fields empty, both flags false |
| SignIn.SignInPage.OnChangeInput | src/pages/auth/sign-in/SignIn.tsx:54-58 | only the named field changes, to the typed value; the error flags do not change |
| SignIn.SignInPage.DisappearError | src/pages/auth/sign-in/SignIn.tsx:43-51 | the named field's flag is cleared exactly when that field is non-empty; nothing else changes |
| SignIn.SignInPage.Edit | src/pages/auth/sign-in/SignIn.tsx:34-40 | a keystroke sets the field, and clears its flag when the value changed and is non-empty |
| SignIn.SignInPage.CheckEmptyInputAndFocus | src/pages/auth/sign-in/SignIn.tsx:115-124 | returns true exactly when a field is empty; the first empty field in the order username, password is the only flag raised and is the field the page asks to focus |
| SignIn.SignInPage.OnSignIn | src/pages/auth/sign-in/SignIn.tsx:61-107 | no request while a field is empty, and then exactly one flag is raised; otherwise the login request carries the typed username and password, a missing or empty token means login failure and no cookie, a token means cookie `accessToken` with maxAge 36000, and a thrown request means nothing happens |
| SignUp.FirstEmptyNoneIffFilled | src/pages/auth/sign-up/SignUp.tsx:282-291 | `checkEmptyInputAndFocus` finds an empty field exactly when a field other than the code is empty |
| SignUp.FirstEmptyIsFirst | src/pages/auth/sign-up/SignUp.tsx:282-291 | the field it flags is empty and is not the code, and every field before it in the order username, password, passwordCheck, email, name, birth, gender has a value |
| SignUp.SignUpVerdict | src/pages/auth/sign-up/SignUp.tsx:299-316 | each refusal names a check that really fails: a missing field is a field other than the code that is empty, a mismatch means password and passwordCheck differ, a duplicate means the username is known to be taken, and "not verified" means the email was not verified |
| SignUp.SignUpSubmitsIff | src/pages/auth/sign-up/SignUp.tsx:294-317 | the join request is sent exactly when all non-code fields are filled, password equals passwordCheck, `isDuplicated` is not true and the email is verified |
| SignUp.SignUpVerdictOrder | src/pages/auth/sign-up/SignUp.tsx:299-316 | the checks run in the order empty field, mismatch, taken username, unverified email, and the first failing check is the one reported |
| SignUp.SignUpPage.constructor | src/pages/auth/sign-up/SignUp.tsx:40-79 | initial state: all fields empty, no flag raised, duplicate status unknown, not verified, dialog closed, countdown at 300 seconds and stopped |
| SignUp.SignUpPage.OnChangeInput | src/pages/auth/sign-up/SignUp.tsx:153-157 | only the named field changes, to the typed value; all other state is unchanged |
| SignUp.SignUpPage.DisappearError | src/pages/auth/sign-up/SignUp.tsx:138-150 | a non-empty field has its flag cleared, and for the username the duplicate status goes back to unknown; an empty field changes nothing |
| SignUp.SignUpPage.ValidatePassword | src/pages/auth/sign-up/SignUp.tsx:86-95 | only a non-empty password has its flag recomputed, and the new flag is the negation of the password check |
| SignUp.SignUpPage.ComparePasswordCheck | src/pages/auth/sign-up/SignUp.tsx:98-109 | a non-empty passwordCheck is flagged exactly when it differs from the password; an empty one leaves the flag unchanged |
| SignUp.SignUpPage.Edit | src/pages/auth/sign-up/SignUp.tsx:81-129 | a keystroke sets the field and, only when the value changed and is non-empty, runs the effect watching that field: revalidate the password, compare the confirmation, or clear the field's flag (for the username, also reset the duplicate status) |
| SignUp.SignUpPage.ResetCodeInput | src/pages/auth/sign-up/SignUp.tsx:132-135 | the code becomes empty and its flag false; nothing else changes |
| SignUp.SignUpPage.RestartTimer | src/pages/auth/sign-up/SignUp.tsx:196-200 | the countdown is back at 300 seconds and running |
| SignUp.SignUpPage.Tick | src/pages/auth/sign-up/SignUp.tsx:66-72 | a running countdown loses one second and stops at zero; a stopped one does not move |
| SignUp.SignUpPage.OnCheckDuplicatedId | src/pages/auth/sign-up/SignUp.tsx:162-193 | a username the check rejects raises the username flag and sends nothing; otherwise the username is sent, and the answer sets the duplicate status to taken or free with its message; a failed request changes nothing and shows the username rule only on a parse error |
| SignUp.SignUpPage.OnCertifyEmail | src/pages/auth/sign-up/SignUp.tsx:203-217 | the countdown restarts and a code is requested for the current email |
| SignUp.SignUpPage.OnResendCertifyEmail | src/pages/auth/sign-up/SignUp.tsx:220-225 | the resend message is shown, the countdown is back at 300 and running, and a code is requested |
| SignUp.SignUpPage.OnToggleCertifyModal | src/pages/auth/sign-up/SignUp.tsx:228-240 | an invalid email raises only the email flag; a valid one requests a code, restarts the countdown, flips the dialog, and resets the code field |
| SignUp.SignUpPage.OnSendCertifyNumber | src/pages/auth/sign-up/SignUp.tsx:243-279 | at 0:00 only the expiry message; an empty code raises the code flag; otherwise the code is sent, and on acceptance the dialog closes, the code flag clears, the email is verified and the countdown stops, while a rejection or an exception raises the code flag |
| SignUp.SignUpPage.CheckEmptyInputAndFocus | src/pages/auth/sign-up/SignUp.tsx:282-291 | returns true exactly when `FirstEmpty` finds a field; that field alone gets its flag raised and is the field the page asks to focus; nothing else changes |
| SignUp.SignUpPage.OnSignUp | src/pages/auth/sign-up/SignUp.tsx:294-338 | follows `SignUpVerdict`: each failing check has its own effect (flag and a request to focus the field, or its own message) and sends nothing; when all pass, the join request carries the six profile fields, and only a completed request shows "joined" and navigates to `/sign-in` |

## Left out

- Rendering is not modelled: the JSX, the CSS classes, and the `Input`,
  `Button`, `Select` and `Modal` components. This includes the `disabled`
  attributes. The verify button is disabled at 0:00, but `OnSendCertifyNumber`
  checks the countdown itself. The email input is disabled once the email is
  verified, so a user cannot type there, but `Edit(Email, …)` is still allowed.
- `fetch` and `response.json()` are not modelled. Each reply is a parameter.
  A JSON answer other than a boolean is not modelled: truthy values count as
  true.
- Side effects are outcome values only. `alert` is an `Alert` tag, not the
  Korean message text. The `focus` field is the field the page asks to focus
  with `document.getElementById(field)?.focus()`, and `navigate` is a path. `setCookie` is a `Cookie` value. `console.log` and `console.warn` are
  dropped.
- `onSignInKakao` is not modelled. It only sets `window.location.href`, a
  browser redirect with no state or logic in it.
- The back buttons (`navigate(-1)`, and the link to the sign-up page) are not
  modelled. They are navigation only.
- `react-timer-hook` and `Date` are not modelled. The countdown is a whole
  number of seconds with a running flag, and `Tick` is one second passing.
  Minutes and seconds are not split: "0:00" is `remaining == 0`.
- React scheduling is not modelled: batching, render timing, and the stale
  closure in `disappearError`, which copies the error object it saw at render
  time. Updates are applied at once and in order.
- Whether that focus request finds an element is not modelled. The lookup
  needs an element whose `id` is the field name. Neither input of the sign-in
  page has an `id`, and neither does the gender `Select` of the sign-up page,
  so for those three fields the lookup finds nothing and no element is
  focused. The other sign-up inputs are given their `id` explicitly.
- The effects that run on mount are not modelled. They do nothing on the
  initial state.
- SignUp.SignUpPage.OnCheckDuplicatedId, SignUp.SignUpPage.OnSendCertifyNumber,
  SignUp.SignUpPage.OnSignUp and SignIn.SignInPage.OnSignIn take a request and
  its awaited reply as one step, so no other event can happen in between. In
  the browser other events do run while a request is out. For example, an edit
  of the username can reset `isDuplicated` to null before a late reply sets it
  to free. The countdown can also reach 0:00 while a code is being checked.
  Those interleavings are not modelled.
- Only single state transitions are modelled. No lemma runs several events in
  a row.
- The educational-background field is commented out in the source and is not
  modelled.
- Lengths are counted in Unicode scalar values, as Dafny strings count them.
  JavaScript counts UTF-16 code units. The username check accepts only ASCII
  characters, so its length bound means the same in both. For the password's
  `.{8,16}`, a character outside the Basic Multilingual Plane counts once here
  and twice in the browser. A lone surrogate can be part of a JavaScript string
  and is matched by `.`, but it cannot be a Dafny `char`, so it is not modelled.
- The email expression's `/i` flag is not modelled. Both letter cases are
  already in every class, so it does not change which addresses match.
