/** The state of `UserViewModel` as a value, and what each event does to
    it. The fields the view shows are kept beside the memory the Combine
    pipelines hold between events: the last value `removeDuplicates`
    passed, whether each `dropFirst` has already dropped its value, and
    the latest status on each side of the form's `CombineLatest`.

    Debounce is not timed here: a `...Settled` event stands for the
    moment the debounced value is delivered, and processes whatever the
    text fields hold at that moment. Typing (`...Edited`) only changes
    the bound field. The username validator and the form each build
    their own debounced, deduplicated chain on `user`; the two password
    chains are debounced but not deduplicated. Each pair of chains sees
    the same values at the same times, so one settled event and one
    deduplication memory serve both. */
module Pipeline {
  import opened Validation

  datatype Option<T> = None | Some(value: T)

  datatype ViewState = ViewState(
    // what the form binds to and shows
    user: User,
    inlineErrorForUsername: string,
    isUserValid: bool,
    password: string,
    passwordAgain: string,
    inlineErrorForPassword: string,
    isPasswordValid: bool,
    isFormValid: bool,
    // pipeline memory
    lastSettledUser: Option<User>,      // removeDuplicates on the username
    usernameDropped: bool,              // dropFirst of the username validator has fired
    passwordDropped: bool,              // dropFirst of the password validator has fired
    latestUsernameStatus: Option<UsernameStatus>,  // CombineLatest, username side
    latestPasswordStatus: Option<PasswordStatus>   // CombineLatest, password side
  )

  datatype Event =
    | NameEdited(name: string)
    | PasswordEdited(password: string)
    | PasswordAgainEdited(password: string)
    | UsernameSettled
    | PasswordsSettled

  /** What the view shows under the username field agrees with the
      last settled name: nothing yet, or that name's message and flag. */
  ghost predicate UsernameShown(s: ViewState)
  {
    (s.inlineErrorForUsername == "" && !s.isUserValid)
    || (s.lastSettledUser.Some?
        && s.inlineErrorForUsername == UsernameMessage(ClassifyUsername(s.lastSettledUser.value))
        && s.isUserValid == (ClassifyUsername(s.lastSettledUser.value) == UsernameStatus.Valid))
  }

  /** What the view shows under the password fields agrees with the
      last settled pair: nothing yet, or that pair's message and flag. */
  ghost predicate PasswordShown(s: ViewState)
  {
    (s.inlineErrorForPassword == "" && !s.isPasswordValid)
    || (s.latestPasswordStatus.Some?
        && s.inlineErrorForPassword == PasswordMessage(s.latestPasswordStatus.value)
        && s.isPasswordValid == (s.latestPasswordStatus.value == PasswordStatus.Valid))
  }

  /** The invariant every reachable state keeps. */
  ghost predicate Invariant(s: ViewState)
  {
    && s.usernameDropped == s.lastSettledUser.Some?
    && s.latestUsernameStatus == (if s.lastSettledUser.Some? then Some(ClassifyUsername(s.lastSettledUser.value)) else None)
    && s.passwordDropped == s.latestPasswordStatus.Some?
    && s.isFormValid == (s.latestUsernameStatus == Some(UsernameStatus.Valid)
                         && s.latestPasswordStatus == Some(PasswordStatus.Valid))
    && UsernameShown(s)
    && PasswordShown(s)
  }

  /** The view-model right after `init()`: every field at its declared
      default, no pipeline has emitted. Subscribing makes each field's
      publisher emit its current value at once, so a launch trace starts
      with `[UsernameSettled, PasswordsSettled]` delivering the defaults;
      those are the values the `dropFirst`s eat. */
  function Init(): (s: ViewState)
    ensures Invariant(s)
    ensures s.inlineErrorForUsername == "" && s.inlineErrorForPassword == ""
    ensures !s.isUserValid && !s.isPasswordValid && !s.isFormValid
  {
    ViewState(User(""), "", false, "", "", "", false, false, None, false, false, None, None)
  }

  /** The form subscription's `CombineLatest`: it emits only once both
      sides have a status, and then writes their conjunction. */
  function EmitForm(s: ViewState): (t: ViewState)
    ensures t == s.(isFormValid := t.isFormValid)
    ensures s.latestUsernameStatus.Some? && s.latestPasswordStatus.Some? ==>
              t.isFormValid == (s.latestUsernameStatus.value == UsernameStatus.Valid
                                && s.latestPasswordStatus.value == PasswordStatus.Valid)
    ensures s.latestUsernameStatus.None? || s.latestPasswordStatus.None? ==> t == s
  {
    match (s.latestUsernameStatus, s.latestPasswordStatus)
    case (Some(u), Some(p)) => s.(isFormValid := u == UsernameStatus.Valid && p == PasswordStatus.Valid)
    case _ => s
  }

  /** Typing into the username field: only the bound `user` changes; no
      status is derived until the value settles. */
  function EditName(s: ViewState, name: string): (t: ViewState)
    ensures t.user.name == name
    ensures t.(user := s.user) == s
  {
    s.(user := User(name))
  }

  function EditPassword(s: ViewState, p: string): (t: ViewState)
    ensures t.password == p
    ensures t.(password := s.password) == s
  {
    s.(password := p)
  }

  function EditPasswordAgain(s: ViewState, p2: string): (t: ViewState)
    ensures t.passwordAgain == p2
    ensures t.(passwordAgain := s.passwordAgain) == s
  {
    s.(passwordAgain := p2)
  }

  /** The sink of the username validator: its first value is dropped;
      every later one sets the validity flag and the inline message. */
  function ShowUsernameStatus(s: ViewState, status: UsernameStatus): (t: ViewState)
    ensures !s.usernameDropped ==> t == s.(usernameDropped := true)
    ensures s.usernameDropped ==>
              t == s.(isUserValid := t.isUserValid, inlineErrorForUsername := t.inlineErrorForUsername)
              && (t.isUserValid <==> status == UsernameStatus.Valid)
              && t.inlineErrorForUsername == UsernameMessage(status)
  {
    if !s.usernameDropped then s.(usernameDropped := true)
    else s.(isUserValid := status == UsernameStatus.Valid,
            inlineErrorForUsername := UsernameMessage(status))
  }

  /** The sink of the password validator: its first value is dropped;
      every later one sets the validity flag and the inline message. */
  function ShowPasswordStatus(s: ViewState, status: PasswordStatus): (t: ViewState)
    ensures !s.passwordDropped ==> t == s.(passwordDropped := true)
    ensures s.passwordDropped ==>
              t == s.(isPasswordValid := t.isPasswordValid, inlineErrorForPassword := t.inlineErrorForPassword)
              && (t.isPasswordValid <==> status == PasswordStatus.Valid)
              && t.inlineErrorForPassword == PasswordMessage(status)
  {
    if !s.passwordDropped then s.(passwordDropped := true)
    else s.(isPasswordValid := status == PasswordStatus.Valid,
            inlineErrorForPassword := PasswordMessage(status))
  }

  /** The debounced username arrives. A value equal to the previously
      settled one is suppressed; otherwise it is classified, the form
      side takes the new status, and the validator either drops it (its
      first value) or shows the status's flag and message. */
  function SettleUsername(s: ViewState): (t: ViewState)
    // the text fields are untouched
    ensures t.user == s.user
    ensures t.password == s.password && t.passwordAgain == s.passwordAgain
    ensures t.inlineErrorForPassword == s.inlineErrorForPassword && t.isPasswordValid == s.isPasswordValid
    ensures t.passwordDropped == s.passwordDropped && t.latestPasswordStatus == s.latestPasswordStatus
    // duplicates are suppressed
    ensures s.lastSettledUser == Some(s.user) ==> t == s
    // a new value reaches the form side without any drop
    ensures s.lastSettledUser != Some(s.user) ==>
              t.lastSettledUser == Some(s.user)
              && t.latestUsernameStatus == Some(ClassifyUsername(s.user))
              && t.usernameDropped
              && t.isFormValid == (if s.latestPasswordStatus.Some?
                                   then ClassifyUsername(s.user) == UsernameStatus.Valid
                                        && s.latestPasswordStatus.value == PasswordStatus.Valid
                                   else s.isFormValid)
    // the first value is hidden from the view
    ensures !s.usernameDropped ==>
              t.inlineErrorForUsername == s.inlineErrorForUsername && t.isUserValid == s.isUserValid
    // later new values are shown
    ensures s.usernameDropped && s.lastSettledUser != Some(s.user) ==>
              t.isUserValid == (ClassifyUsername(s.user) == UsernameStatus.Valid)
              && t.inlineErrorForUsername == UsernameMessage(ClassifyUsername(s.user))
  {
    if s.lastSettledUser == Some(s.user) then s
    else
      var status := ClassifyUsername(s.user);
      var formSide := EmitForm(s.(lastSettledUser := Some(s.user), latestUsernameStatus := Some(status)));
      ShowUsernameStatus(formSide, status)
  }

  /** The debounced password pair arrives. There is no deduplication:
      every settled pair is classified, the form side takes the status,
      and the validator drops its first value and shows every later one. */
  function SettlePasswords(s: ViewState): (t: ViewState)
    // the text fields are untouched
    ensures t.user == s.user && t.password == s.password && t.passwordAgain == s.passwordAgain
    ensures t.lastSettledUser == s.lastSettledUser
    ensures t.inlineErrorForUsername == s.inlineErrorForUsername && t.isUserValid == s.isUserValid
    ensures t.usernameDropped == s.usernameDropped && t.latestUsernameStatus == s.latestUsernameStatus
    // the form side always takes the new status
    ensures t.latestPasswordStatus == Some(ClassifyPasswords(s.password, s.passwordAgain))
    ensures t.passwordDropped
    ensures t.isFormValid == (if s.latestUsernameStatus.Some?
                              then s.latestUsernameStatus.value == UsernameStatus.Valid
                                   && ClassifyPasswords(s.password, s.passwordAgain) == PasswordStatus.Valid
                              else s.isFormValid)
    // the first value is hidden from the view
    ensures !s.passwordDropped ==>
              t.inlineErrorForPassword == s.inlineErrorForPassword && t.isPasswordValid == s.isPasswordValid
    // later values are shown
    ensures s.passwordDropped ==>
              t.isPasswordValid == (ClassifyPasswords(s.password, s.passwordAgain) == PasswordStatus.Valid)
              && t.inlineErrorForPassword == PasswordMessage(ClassifyPasswords(s.password, s.passwordAgain))
  {
    var status := ClassifyPasswords(s.password, s.passwordAgain);
    var formSide := EmitForm(s.(latestPasswordStatus := Some(status)));
    ShowPasswordStatus(formSide, status)
  }

  function Apply(s: ViewState, e: Event): ViewState
  {
    match e
    case NameEdited(name) => EditName(s, name)
    case PasswordEdited(p) => EditPassword(s, p)
    case PasswordAgainEdited(p2) => EditPasswordAgain(s, p2)
    case UsernameSettled => SettleUsername(s)
    case PasswordsSettled => SettlePasswords(s)
  }

  /** The state after the events `es`, in order. */
  function Run(s: ViewState, es: seq<Event>): ViewState
    decreases |es|
  {
    if es == [] then s else Run(Apply(s, es[0]), es[1..])
  }

  // ---------------------------------------------------------------------
  // Properties of the state machine
  // ---------------------------------------------------------------------

  /** Every event keeps the invariant. */
  lemma ApplyPreservesInvariant(s: ViewState, e: Event)
    requires Invariant(s)
    ensures Invariant(Apply(s, e))
  {
  }

  /** The two settle steps on their own, as the object's methods use them. */
  lemma SettleUsernameKeepsInvariant(s: ViewState)
    requires Invariant(s)
    ensures Invariant(SettleUsername(s))
  {
  }

  lemma SettlePasswordsKeepsInvariant(s: ViewState)
    requires Invariant(s)
    ensures Invariant(SettlePasswords(s))
  {
  }

  lemma {:induction false} RunPreservesInvariant(s: ViewState, es: seq<Event>)
    requires Invariant(s)
    ensures Invariant(Run(s, es))
    decreases |es|
  {
    if es != [] {
      ApplyPreservesInvariant(s, es[0]);
      RunPreservesInvariant(Apply(s, es[0]), es[1..]);
    }
  }

  /** After any sequence of events from launch, the form is valid exactly
      when the latest username and password statuses are both valid, and
      each inline message is either empty with its flag false, or is the
      message of the latest status of its field with the flag saying
      whether that status is valid. */
  lemma FormValidIsConjunction(es: seq<Event>)
    ensures var s := Run(Init(), es);
      && s.isFormValid == (s.latestUsernameStatus == Some(UsernameStatus.Valid)
                           && s.latestPasswordStatus == Some(PasswordStatus.Valid))
      && UsernameShown(s) && PasswordShown(s)
  {
    RunPreservesInvariant(Init(), es);
  }

  /** The form flag drops as soon as either field settles on a status
      that is not valid; no dropFirst delays this. */
  lemma FormInvalidatedOnRegression(s: ViewState)
    requires Invariant(s)
    ensures (s.lastSettledUser != Some(s.user) && ClassifyUsername(s.user) != UsernameStatus.Valid)
              ==> !SettleUsername(s).isFormValid
    ensures (ClassifyPasswords(s.password, s.passwordAgain) != PasswordStatus.Valid)
              ==> !SettlePasswords(s).isFormValid
  {
  }

  /** Settling the same username twice is the same as settling it once. */
  lemma UsernameResettleIsSuppressed(s: ViewState)
    ensures SettleUsername(SettleUsername(s)) == SettleUsername(s)
  {
  }

  /** Re-delivering the same password pair changes nothing, but only
      once the validator's first value has been dropped: the second
      delivery of the very first pair is the one that gets shown. */
  lemma PasswordResettleIsIdempotent(s: ViewState)
    requires s.passwordDropped
    ensures SettlePasswords(SettlePasswords(s)) == SettlePasswords(s)
  {
  }

  /** Without deduplication, re-delivering the very first pair is not
      idempotent: the second delivery is the first one shown. */
  lemma FirstPasswordResettleIsShown(s: ViewState)
    requires !s.passwordDropped && s.inlineErrorForPassword == ""
    ensures SettlePasswords(SettlePasswords(s)) != SettlePasswords(s)
  {
  }

  /** Running two event sequences one after the other is running their
      concatenation. */
  lemma {:induction false} RunAppend(s: ViewState, a: seq<Event>, b: seq<Event>)
    ensures Run(s, a + b) == Run(Run(s, a), b)
    decreases |a|
  {
    if a != [] {
      assert (a + b)[0] == a[0] && (a + b)[1..] == a[1..] + b;
      RunAppend(Apply(s, a[0]), a[1..], b);
    } else {
      assert a + b == b;
    }
  }

  /** Debounce: typing several times and then letting the value settle
      classifies and delivers only the last name typed. */
  lemma {:induction false} EditsBeforeSettleCollapse(s: ViewState, es: seq<Event>)
    requires es != [] && forall i :: 0 <= i < |es| ==> es[i].NameEdited?
    ensures Run(s, es) == EditName(s, es[|es| - 1].name)
    ensures Run(s, es + [UsernameSettled]) == SettleUsername(EditName(s, es[|es| - 1].name))
    decreases |es|
  {
    if |es| > 1 {
      var rest := es[1..];
      assert rest[|rest| - 1] == es[|es| - 1];
      EditsBeforeSettleCollapse(Apply(s, es[0]), rest);
    }
    RunAppend(s, es, [UsernameSettled]);
    assert Run(Run(s, es), [UsernameSettled]) == Run(SettleUsername(Run(s, es)), []);
  }

  /** With at most one username settle, nothing has been shown for the
      username yet: the single settled value is the one dropFirst eats. */
  lemma {:induction false} NoUsernameMessageBeforeSecondSettle(s: ViewState, es: seq<Event>)
    requires s.inlineErrorForUsername == "" && !s.isUserValid
    requires multiset(es)[UsernameSettled] == 0
             || (multiset(es)[UsernameSettled] == 1 && !s.usernameDropped)
    ensures Run(s, es).inlineErrorForUsername == "" && !Run(s, es).isUserValid
    decreases |es|
  {
    if es != [] {
      assert es == [es[0]] + es[1..];
      assert multiset(es) == multiset([es[0]]) + multiset(es[1..]);
      var t := Apply(s, es[0]);
      if es[0] == UsernameSettled {
        assert t.inlineErrorForUsername == "" && !t.isUserValid;
        assert multiset(es[1..])[UsernameSettled] == 0;
      }
      NoUsernameMessageBeforeSecondSettle(t, es[1..]);
    }
  }

  /** With at most one password settle, nothing has been shown for the
      passwords yet. */
  lemma {:induction false} NoPasswordMessageBeforeSecondSettle(s: ViewState, es: seq<Event>)
    requires s.inlineErrorForPassword == "" && !s.isPasswordValid
    requires multiset(es)[PasswordsSettled] == 0
             || (multiset(es)[PasswordsSettled] == 1 && !s.passwordDropped)
    ensures Run(s, es).inlineErrorForPassword == "" && !Run(s, es).isPasswordValid
    decreases |es|
  {
    if es != [] {
      assert es == [es[0]] + es[1..];
      assert multiset(es) == multiset([es[0]]) + multiset(es[1..]);
      var t := Apply(s, es[0]);
      if es[0] == PasswordsSettled {
        assert multiset(es[1..])[PasswordsSettled] == 0;
      }
      NoPasswordMessageBeforeSecondSettle(t, es[1..]);
    }
  }

  /** The form pipeline has no dropFirst: right after the first settled
      username and the first settled pair, the form flag already reports
      both statuses (so the button can enable) while neither field shows
      a message yet. */
  lemma FormValidBeforeAnyMessage(name: string, p: string, p2: string)
    ensures var s := Run(Init(), [NameEdited(name), UsernameSettled,
                                  PasswordEdited(p), PasswordAgainEdited(p2),
                                  PasswordsSettled]);
      && s.isFormValid == (ClassifyUsername(User(name)) == UsernameStatus.Valid
                           && ClassifyPasswords(p, p2) == PasswordStatus.Valid)
      && s.inlineErrorForUsername == "" && s.inlineErrorForPassword == ""
      && !s.isUserValid && !s.isPasswordValid
  {
    var es := [NameEdited(name), UsernameSettled,
               PasswordEdited(p), PasswordAgainEdited(p2), PasswordsSettled];
    var s1 := EditName(Init(), name);
    var s2 := SettleUsername(s1);
    var s3 := EditPassword(s2, p);
    var s4 := EditPasswordAgain(s3, p2);
    calc {
      Run(Init(), es);
      Run(s1, es[1..]);
      Run(s2, es[2..]);
      Run(s3, es[3..]);
      Run(s4, es[4..]);
      Run(SettlePasswords(s4), es[5..]);
    }
  }

  /** At launch the debounces deliver the default values, which the
      `dropFirst`s eat; so the first name the user types and lets settle
      is shown, unless it equals the default empty name, which
      `removeDuplicates` stops. */
  lemma LaunchValuesAreTheDroppedOnes(name: string)
    ensures var s := Run(Init(), [UsernameSettled, PasswordsSettled,
                                  NameEdited(name), UsernameSettled]);
      && (name != "" ==>
            s.inlineErrorForUsername == UsernameMessage(ClassifyUsername(User(name)))
            && s.isUserValid == (ClassifyUsername(User(name)) == UsernameStatus.Valid))
      && (name == "" ==> s.inlineErrorForUsername == "" && !s.isUserValid)
      && s.inlineErrorForPassword == "" && !s.isPasswordValid
  {
    var es := [UsernameSettled, PasswordsSettled, NameEdited(name), UsernameSettled];
    var s1 := SettleUsername(Init());
    var s2 := SettlePasswords(s1);
    var s3 := EditName(s2, name);
    calc {
      Run(Init(), es);
      Run(s1, es[1..]);
      Run(s2, es[2..]);
      Run(s3, es[3..]);
      Run(SettleUsername(s3), es[4..]);
    }
  }
}
