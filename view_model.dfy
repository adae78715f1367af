/** `UserViewModel` as an object whose fields change in place on each
    event. Each method is proved to move the object exactly as the
    corresponding step of `Pipeline` moves its value. The constructor,
    the `Edit*` methods and the `Settle*` methods also keep the pipeline
    invariant; the stage methods used inside a settle do not promise it.
    The properties of the steps are proved in `Pipeline`. */
module ViewModel {
  import opened Validation
  import opened Pipeline

  class UserViewModel {
    // user property validation
    var user: User
    var inlineErrorForUsername: string
    var isUserValid: bool

    // password property validation
    var password: string
    var passwordAgain: string
    var inlineErrorForPassword: string
    var isPasswordValid: bool

    // form validation
    var isFormValid: bool

    // memory kept by the subscriptions between events
    var lastSettledUser: Option<User>
    var usernameDropped: bool
    var passwordDropped: bool
    var latestUsernameStatus: Option<UsernameStatus>
    var latestPasswordStatus: Option<PasswordStatus>

    /** The object's fields as a `Pipeline.ViewState` value. */
    function State(): ViewState
      reads this
    {
      ViewState(user, inlineErrorForUsername, isUserValid,
                password, passwordAgain, inlineErrorForPassword, isPasswordValid,
                isFormValid,
                lastSettledUser, usernameDropped, passwordDropped,
                latestUsernameStatus, latestPasswordStatus)
    }

    ghost predicate Valid()
      reads this
    {
      Invariant(State())
    }

    /** `init()`: defaults everywhere, and the three subscriptions are
        in place but have not emitted. */
    constructor ()
      ensures State() == Init()
      ensures Valid()
    {
      user := User("");
      inlineErrorForUsername := "";
      isUserValid := false;
      password := "";
      passwordAgain := "";
      inlineErrorForPassword := "";
      isPasswordValid := false;
      isFormValid := false;
      lastSettledUser := None;
      usernameDropped := false;
      passwordDropped := false;
      latestUsernameStatus := None;
      latestPasswordStatus := None;
    }

    /** The username text field writes `user.name`. */
    method EditName(name: string)
      requires Valid()
      modifies this
      ensures State() == Pipeline.EditName(old(State()), name)
      ensures Valid()
    {
      user := User(name);
    }

    /** The first password text field writes `password`. */
    method EditPassword(p: string)
      requires Valid()
      modifies this
      ensures State() == Pipeline.EditPassword(old(State()), p)
      ensures Valid()
    {
      password := p;
    }

    /** The second password text field writes `passwordAgain`. */
    method EditPasswordAgain(p2: string)
      requires Valid()
      modifies this
      ensures State() == Pipeline.EditPasswordAgain(old(State()), p2)
      ensures Valid()
    {
      passwordAgain := p2;
    }

    /** The form subscription receives a status from either side. */
    method AssignFormValid()
      modifies this
      ensures State() == EmitForm(old(State()))
    {
      if latestUsernameStatus.Some? && latestPasswordStatus.Some? {
        isFormValid := latestUsernameStatus.value == UsernameStatus.Valid
                       && latestPasswordStatus.value == PasswordStatus.Valid;
      }
    }

    /** The username validator's sink (`userValidator`): behind
        `dropFirst`, a status sets `isUserValid` and the message. */
    method ShowUsernameStatus(status: UsernameStatus)
      modifies this
      ensures State() == Pipeline.ShowUsernameStatus(old(State()), status)
    {
      if !usernameDropped {
        usernameDropped := true;
      } else {
        isUserValid := status == UsernameStatus.Valid;
        inlineErrorForUsername := UsernameMessage(status);
      }
    }

    /** The password validator's sink (`passwordValidator`): behind
        `dropFirst`, a status sets `isPasswordValid` and the message. */
    method ShowPasswordStatus(status: PasswordStatus)
      modifies this
      ensures State() == Pipeline.ShowPasswordStatus(old(State()), status)
    {
      if !passwordDropped {
        passwordDropped := true;
      } else {
        isPasswordValid := status == PasswordStatus.Valid;
        inlineErrorForPassword := PasswordMessage(status);
      }
    }

    /** The debounced username is delivered to the validator and form
        subscriptions; `removeDuplicates` stops a repeated name. */
    method SettleUsername()
      requires Valid()
      modifies this
      ensures State() == Pipeline.SettleUsername(old(State()))
      ensures Valid()
    {
      ghost var before := State();
      var settled := user;
      if lastSettledUser != Some(settled) {
        var status := ClassifyUsername(settled);
        lastSettledUser, latestUsernameStatus := Some(settled), Some(status);
        AssignFormValid();
        ShowUsernameStatus(status);
      }
      SettleUsernameKeepsInvariant(before);
    }

    /** The debounced password pair is delivered to the validator and
        form subscriptions. */
    method SettlePasswords()
      requires Valid()
      modifies this
      ensures State() == Pipeline.SettlePasswords(old(State()))
      ensures Valid()
    {
      ghost var before := State();
      var status := ClassifyPasswords(password, passwordAgain);
      latestPasswordStatus := Some(status);
      AssignFormValid();
      ShowPasswordStatus(status);
      SettlePasswordsKeepsInvariant(before);
    }
  }
}
