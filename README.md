# Sign-up form validation of `UserViewModel`

This project models the validation core of the Combine tutorial app's sign-up
form: the view-model `UserViewModel` that watches three text fields (username,
password, password again), classifies them, shows an inline message under each
field and enables the "Create Account" button when the form is valid.

The model has three modules, one per layer of the source:

- `Validation` (`validation.dfy`): the pure parts. `ClassifyUsername` is the
  username classifier (`isUsernameValid`). `ClassifyPasswords` is the password-pair
  classifier (`PasswordStatus`) with its four ordered checks. `IsStrong` and
  `Contains` are the strength pattern
  `^(?=.*[a-z])(?=.*[$@$#!%*?&]).{6,}$`, written as explicit character-class scans.
  The special class lists `$` twice; inside a character class that changes
  nothing, so the class is the set `$ @ # ! % * ? &`.
  `UsernameMessage` and `PasswordMessage` give the fixed inline message for each status.
- `Pipeline` (`pipeline.dfy`): the view-model as a value `ViewState`. It holds
  the fields the view binds to and the memory the Combine subscriptions keep
  between events: the last name `removeDuplicates` let through, whether each
  `dropFirst` has fired, and the latest status on each side of the form's
  `CombineLatest`. There is one step function per event: an edit of a text field,
  or a debounced value settling. The lemmas here state what each event does. They
  also prove an invariant of every reachable state: the form flag is the
  conjunction of the latest statuses, and each inline message is either empty
  (with its flag false) or the message of the latest status of its field. Further lemmas cover trace
  properties: the first settled value (at launch, the defaults) is never shown; re-settling the same name
  changes nothing; re-settling the same pair changes nothing once the first pair
  has been dropped; and several name edits followed by one settle classify and
  deliver only the last name typed.
- `ViewModel` (`view_model.dfy`): the class `UserViewModel`, whose fields change
  in place. Each method is proved to move the object's `State()` exactly as the
  matching `Pipeline` step moves the value. The constructor, the three `Edit*`
  methods and the two `Settle*` methods also establish or keep the invariant;
  the stage methods `AssignFormValid`, `ShowUsernameStatus` and
  `ShowPasswordStatus` run in the middle of a settle and promise only the step.

Debounce is modelled as "a settle method is called": `SettleUsername` and
`SettlePasswords` stand for the moment the 0.8 s quiet period ends. They process
whatever the fields hold at that moment. Typing only writes the bound field.

Behaviour of the code that the model keeps as written:

- The username is not trimmed, so `"    "` is `valid`: the closure at
  `Shared/ContentView.swift:119-120` tests `isEmpty` and `count` on the raw name.
- The password length check `count <= 6` comes before the equality check. So
  `("abc123", "zzz")` is `notStrongEnough`, not `repeatedPasswordWrong`. The
  effective minimum password length is 7, which makes the pattern's own `{6,}`
  bound redundant (`StrengthLengthBoundRedundant`).
- The strength test is written twice, joined by `&&`. That is the same as one
  test, and the model evaluates it once.
- Subscribing in `init()` makes each `@Published` publisher emit its current
  value at once, so 0.8 s after launch each debounce delivers the defaults. In
  the model that delivery is an ordinary settle: a launch trace starts with
  `[UsernameSettled, PasswordsSettled]`, and those default values are what the
  `dropFirst`s eat. The first name the user types and lets settle is shown,
  unless it is the empty default that `removeDuplicates` stops
  (`LaunchValuesAreTheDroppedOnes`).
- `dropFirst` drops the first value each validator receives after deduplication,
  whatever that value is. The form subscription has no `dropFirst`. So after the
  first username and the first password pair settle, `isFormValid` can already be
  true while no inline message is shown (`FormValidBeforeAnyMessage`).
- Only the username is deduplicated. Settling the same password pair again does
  show its message once: that is the first value past `dropFirst`. After that,
  re-settling changes nothing (`FirstPasswordResettleIsShown`,
  `PasswordResettleIsIdempotent`).

## Model

| member | source | states |
|---|---|---|
| `Validation.ClassifyUsername` | Shared/ContentView.swift:118-122 | `isEmpty` exactly for the empty name, `tooShort` exactly for lengths 1 to 3, `valid` exactly for length above 3, with no trimming |
| `Validation.UsernameExamples` | Shared/ContentView.swift:118-122 | `""` is `isEmpty`, `"ab"` is `tooShort`, `"abcd"` and four blanks are `valid` |
| `Validation.Contains` | Shared/ContentView.swift:103 | a lookahead `(?=.*[class])` holds exactly when some character of the input is in the class |
| `Validation.IsStrong` | Shared/ContentView.swift:103 | the strength pattern holds exactly when the input has a lowercase `a`-`z`, one of `$ @ # ! % * ? &`, and at least six characters |
| `Validation.ClassifyPasswords` | Shared/ContentView.swift:153-165 | `empty` exactly when both are empty; `repeatedPasswordWrong` exactly when the first is longer than 6 and they differ; `valid` exactly when they are equal, at least 7 long, and contain a lowercase letter and a special character; `notStrongEnough` in every other case |
| `Validation.UnequalPasswordsIgnoreStrength` | Shared/ContentView.swift:157-159 | for unequal pairs the status depends only on the first password's length and is `notStrongEnough` or `repeatedPasswordWrong`; the content is never consulted |
| `Validation.StrengthLengthBoundRedundant` | Shared/ContentView.swift:157-162 | once the first password is longer than 6, the strength test reduces to the two character-class lookaheads |
| `Validation.PasswordExamples` | Shared/ContentView.swift:153-165 | `("", "x")`, `("abc123", "zzz")`, `("abc123", "abc123")` and `("abcdefg", "abcdefg")` are `notStrongEnough`; `("abc123!", "abc124!")` is `repeatedPasswordWrong`; `("abc123!", "abc123!")` is `valid` |
| `Validation.UsernameMessage` | Shared/ContentView.swift:131-144 | each username status has its fixed, non-empty message |
| `Validation.PasswordMessage` | Shared/ContentView.swift:173-189 | each password status has its fixed, non-empty message |
| `Validation.MessagesDetermineStatus` | Shared/ContentView.swift:131-189 | distinct statuses have distinct messages, so the shown text identifies the status |
| `Pipeline.Init` | Shared/ContentView.swift:90-111 | the launch state has empty messages and all flags false, and satisfies the invariant |
| `Pipeline.EmitForm` | Shared/ContentView.swift:193-203 | the form flag is written only once both statuses exist, and then equals their conjunction; nothing else changes |
| `Pipeline.EditName` | Shared/ContentView.swift:18 | typing a name changes only the bound `user` |
| `Pipeline.EditPassword` | Shared/ContentView.swift:22 | typing a password changes only `password` |
| `Pipeline.EditPasswordAgain` | Shared/ContentView.swift:23 | typing the repeat changes only `passwordAgain` |
| `Pipeline.ShowUsernameStatus` | Shared/ContentView.swift:127-147 | the validator's first status is dropped; each later one sets `isUserValid` to "status is valid" and the status's message, and nothing else |
| `Pipeline.ShowPasswordStatus` | Shared/ContentView.swift:169-191 | the validator's first status is dropped; each later one sets `isPasswordValid` to "status is valid" and the status's message, and nothing else |
| `Pipeline.SettleUsername` | Shared/ContentView.swift:114-147 | a settled name equal to the previous one changes nothing; a new one reaches the form side, where `isFormValid` becomes the conjunction once a password status exists; it is shown unless it is the first; the text fields and the password side are unchanged |
| `Pipeline.SettlePasswords` | Shared/ContentView.swift:150-191 | every settled pair reaches the form side, where `isFormValid` becomes the conjunction once a username status exists; it is shown unless it is the first; the text fields and the username side are unchanged |
| `Pipeline.ApplyPreservesInvariant` | Shared/ContentView.swift:127-203 | every event keeps the invariant: flag equals conjunction, each message is empty or that of its latest status, drop flags match the pipeline memory |
| `Pipeline.SettleUsernameKeepsInvariant` | Shared/ContentView.swift:114-147 | a settled username keeps the invariant |
| `Pipeline.SettlePasswordsKeepsInvariant` | Shared/ContentView.swift:150-191 | a settled password pair keeps the invariant |
| `Pipeline.RunPreservesInvariant` | Shared/ContentView.swift:127-203 | any sequence of events keeps the invariant |
| `Pipeline.FormValidIsConjunction` | Shared/ContentView.swift:193-203 | after any events from launch, `isFormValid` is true exactly when the latest username and password statuses are both `valid`, and each message is either empty with its flag false, or is the message of its latest status with the flag saying whether that status is `valid` |
| `Pipeline.FormInvalidatedOnRegression` | Shared/ContentView.swift:193-203 | a new username or a password pair whose status is not `valid` makes `isFormValid` false at once |
| `Pipeline.UsernameResettleIsSuppressed` | Shared/ContentView.swift:114-117 | settling the same username twice equals settling it once |
| `Pipeline.PasswordResettleIsIdempotent` | Shared/ContentView.swift:150-152 | once the first password value has been dropped, settling the same pair again leaves the state unchanged |
| `Pipeline.FirstPasswordResettleIsShown` | Shared/ContentView.swift:169-171 | with no deduplication, re-settling the very first pair does change the state: it is the first value shown |
| `Pipeline.RunAppend` | Shared/ContentView.swift:114-203 | running two event sequences in turn equals running their concatenation |
| `Pipeline.EditsBeforeSettleCollapse` | Shared/ContentView.swift:114-116 | several name edits followed by one settle equal one settle of the last name typed: only that value is classified and delivered |
| `Pipeline.NoUsernameMessageBeforeSecondSettle` | Shared/ContentView.swift:127-129 | with at most one username settle, no username message or valid flag is shown |
| `Pipeline.NoPasswordMessageBeforeSecondSettle` | Shared/ContentView.swift:169-171 | with at most one password settle, no password message or valid flag is shown |
| `Pipeline.FormValidBeforeAnyMessage` | Shared/ContentView.swift:199-203 | after the first settled name and pair, the form flag already reports both statuses while both messages are empty |
| `Pipeline.LaunchValuesAreTheDroppedOnes` | Shared/ContentView.swift:107-129 | after the launch deliveries of the defaults and one edit of the name, settling shows that name's message and flag when it is not empty, and nothing when it is; no password message is shown |
| `ViewModel.UserViewModel.constructor` | Shared/ContentView.swift:107-111 | the new object is in the launch state and valid |
| `ViewModel.UserViewModel.EditName` | Shared/ContentView.swift:18 | moves the object as `Pipeline.EditName` and keeps it valid |
| `ViewModel.UserViewModel.EditPassword` | Shared/ContentView.swift:22 | moves the object as `Pipeline.EditPassword` and keeps it valid |
| `ViewModel.UserViewModel.EditPasswordAgain` | Shared/ContentView.swift:23 | moves the object as `Pipeline.EditPasswordAgain` and keeps it valid |
| `ViewModel.UserViewModel.AssignFormValid` | Shared/ContentView.swift:199-203 | updates `isFormValid` in place as `Pipeline.EmitForm` |
| `ViewModel.UserViewModel.ShowUsernameStatus` | Shared/ContentView.swift:127-147 | updates the username flag and message in place as `Pipeline.ShowUsernameStatus` |
| `ViewModel.UserViewModel.ShowPasswordStatus` | Shared/ContentView.swift:169-191 | updates the password flag and message in place as `Pipeline.ShowPasswordStatus` |
| `ViewModel.UserViewModel.SettleUsername` | Shared/ContentView.swift:114-147 | moves the object as `Pipeline.SettleUsername` and keeps it valid |
| `ViewModel.UserViewModel.SettlePasswords` | Shared/ContentView.swift:150-191 | moves the object as `Pipeline.SettlePasswords` and keeps it valid |

## Left out

- The SwiftUI view code (`ContentView.body`, colours, the button, previews) is UI layout with no logic.
- `Shared/SwiftUIView.swift` is not part of this model. Its network fetch is commented out, and its alert types are UI constants with no behaviour.
- Debounce timing on `RunLoop.main`, `receive(on:)`, `CombineLatest` scheduling and `AnyCancellable` storage are time and concurrency plumbing. A settle method call stands for one debounced delivery.
- The username validator (`Shared/ContentView.swift:128`) and the form (`Shared/ContentView.swift:194`) each build their own debounced, deduplicated `user` chain (`Shared/ContentView.swift:114-117`). The two password chains (`Shared/ContentView.swift:150-152`) are debounced but not deduplicated. Each pair of chains sees the same values at the same times, so the model keeps one deduplication memory and delivers each settle to the validator and to the form. It does not model the chains of a pair running at different times.
- The regular-expression engine is replaced by explicit character-class scans. Input is assumed to be single-line: ICU's `.` does not match line terminators, and a text field yields none.
- Swift `String.count` counts grapheme clusters, and Swift string equality is canonical equivalence. The model uses sequence length and element-wise equality on `seq<char>`.
