/**
  The password-reset view: ask for a reset link, wait for the auth
  service's recovery notification, then set a new password.
 */
module ForgotPassword {
  import opened Outcomes

  datatype ResetState = ResetState(
    email: string,
    password: string,
    confirmPassword: string,
    loading: bool,
    errorMsg: string,
    isShow: bool,          // the new-password form is up
    isShowMessage: bool)   // the "reset email sent" panel is up

  /** The view as it mounts. */
  const Initial := ResetState("", "", "", false, "", false, false)

  const MismatchMessage := "password not matched"
  const RecoveryEvent := "PASSWORD_RECOVERY"
  const LoginRoute := "/login"

  /** Requests sent to the auth service. */
  datatype AuthCall = SendResetEmail(email: string, redirectTo: string) | UpdatePassword(password: string) | SignOut

  /** The next state, the calls issued in order, and where the view navigated, if anywhere. */
  datatype Step = Step(state: ResetState, calls: seq<AuthCall>, navigateTo: Option<string>)

  /** The three panels the view can show. */
  datatype Screen = EmailForm | ConfirmationPanel | NewPasswordForm

  function ScreenOf(st: ResetState): (s: Screen)
    ensures s == NewPasswordForm <==> st.isShow
    ensures s == ConfirmationPanel <==> !st.isShow && st.isShowMessage
    ensures s == EmailForm <==> !st.isShow && !st.isShowMessage
  {
    if st.isShow then NewPasswordForm
    else if st.isShowMessage then ConfirmationPanel
    else EmailForm
  }

  /** Typing the email: the field changes and the error is cleared. */
  function EditEmail(st: ResetState, value: string): (r: ResetState)
    ensures r.email == value && r.errorMsg == ""
    ensures r.(email := st.email, errorMsg := st.errorMsg) == st
  {
    st.(email := value, errorMsg := "")
  }

  /** Typing the new password: the field changes and the error is cleared. */
  function EditPassword(st: ResetState, value: string): (r: ResetState)
    ensures r.password == value && r.errorMsg == ""
    ensures r.(password := st.password, errorMsg := st.errorMsg) == st
  {
    st.(password := value, errorMsg := "")
  }

  /** Typing the confirmation: the field changes and the error is cleared. */
  function EditConfirm(st: ResetState, value: string): (r: ResetState)
    ensures r.confirmPassword == value && r.errorMsg == ""
    ensures r.(confirmPassword := st.confirmPassword, errorMsg := st.errorMsg) == st
  {
    st.(confirmPassword := value, errorMsg := "")
  }

  /**
    Send the reset link to the typed email, asking the mail to lead back to
    this view on `origin`. Success brings up the confirmation panel, an
    error shows its message; either way the form is released.
   */
  function SendLink(st: ResetState, origin: string, sent: Result<Unit>): (r: Step)
    ensures r.calls == [SendResetEmail(st.email, origin + "/forgot-password")]
    ensures r.navigateTo == None
    ensures !r.state.loading
    ensures sent.Ok? ==> r.state.isShowMessage && r.state.errorMsg == st.errorMsg
    ensures sent.Err? ==> r.state.errorMsg == sent.message && r.state.isShowMessage == st.isShowMessage
    ensures r.state.(loading := st.loading, errorMsg := st.errorMsg, isShowMessage := st.isShowMessage) == st
  {
    var next := match sent
      case Ok(_) => st.(isShowMessage := true)
      case Err(msg) => st.(errorMsg := msg);
    Step(next.(loading := false), [SendResetEmail(st.email, origin + "/forgot-password")], None)
  }

  /** A notification from the auth service: only the recovery event switches to the new-password form. */
  function OnAuthEvent(st: ResetState, event: string): (r: ResetState)
    ensures event == RecoveryEvent ==> ScreenOf(r) == NewPasswordForm && !r.isShowMessage
    ensures event == RecoveryEvent ==> r.(isShow := st.isShow, isShowMessage := st.isShowMessage) == st
    ensures event != RecoveryEvent ==> r == st
  {
    if event == RecoveryEvent then st.(isShowMessage := false, isShow := true) else st
  }

  /**
    Save the new password. Differing entries are refused locally without a
    call. Otherwise the password is sent; on success the user is signed out
    and sent to the sign-in route, on error the message shows on the form.
   */
  function SubmitNewPassword(st: ResetState, updated: Result<Unit>): (r: Step)
    ensures !r.state.loading
    ensures st.password != st.confirmPassword ==>
              r.calls == [] && r.navigateTo == None && r.state == st.(errorMsg := MismatchMessage, loading := false)
    ensures st.password == st.confirmPassword && updated.Ok? ==>
              r.calls == [UpdatePassword(st.password), SignOut] && r.navigateTo == Some(LoginRoute)
              && r.state == st.(loading := false)
    ensures st.password == st.confirmPassword && updated.Err? ==>
              r.calls == [UpdatePassword(st.password)] && r.navigateTo == None
              && r.state == st.(errorMsg := updated.message, loading := false)
  {
    if st.password != st.confirmPassword then
      Step(st.(errorMsg := MismatchMessage, loading := false), [], None)
    else
      match updated
      case Err(msg) => Step(st.(errorMsg := msg, loading := false), [UpdatePassword(st.password)], None)
      case Ok(_) => Step(st.(loading := false), [UpdatePassword(st.password), SignOut], Some(LoginRoute))
  }

  /** The server hears about a new password exactly when the two entries are equal. */
  lemma ServerContactedIffEqual(st: ResetState, updated: Result<Unit>)
    ensures SubmitNewPassword(st, updated).calls != [] <==> st.password == st.confirmPassword
    ensures SubmitNewPassword(st, updated).navigateTo == Some(LoginRoute) <==> st.password == st.confirmPassword && updated.Ok?
  {
  }

  /** Everything that can happen to the view. */
  datatype Event =
    | TypeEmail(value: string)
    | TypePassword(value: string)
    | TypeConfirm(value: string)
    | Send(origin: string, sent: Result<Unit>)
    | Notify(event: string)
    | Save(updated: Result<Unit>)

  function Apply(st: ResetState, e: Event): ResetState {
    match e
    case TypeEmail(v) => EditEmail(st, v)
    case TypePassword(v) => EditPassword(st, v)
    case TypeConfirm(v) => EditConfirm(st, v)
    case Send(origin, sent) => SendLink(st, origin, sent).state
    case Notify(name) => OnAuthEvent(st, name)
    case Save(updated) => SubmitNewPassword(st, updated).state
  }

  function Run(st: ResetState, events: seq<Event>): ResetState
    decreases |events|
  {
    if events == [] then st else Run(Apply(st, events[0]), events[1..])
  }

  /**
    Nothing the view does hides the new-password form once it is up, and
    every handler leaves the form released.
   */
  lemma {:induction false} NewPasswordFormStays(st: ResetState, events: seq<Event>)
    requires st.isShow && !st.loading
    ensures ScreenOf(Run(st, events)) == NewPasswordForm
    ensures !Run(st, events).loading
    decreases |events|
  {
    if events != [] {
      NewPasswordFormStays(Apply(st, events[0]), events[1..]);
    }
  }

  /** Once the confirmation panel is up, only the recovery event takes it down. */
  lemma {:induction false} ConfirmationPanelStays(st: ResetState, events: seq<Event>)
    requires ScreenOf(st) == ConfirmationPanel
    requires forall k :: 0 <= k < |events| ==> events[k] != Notify(RecoveryEvent)
    ensures ScreenOf(Run(st, events)) == ConfirmationPanel
    decreases |events|
  {
    if events != [] {
      ConfirmationPanelStays(Apply(st, events[0]), events[1..]);
    }
  }

  /** The happy path: send the link, follow it, enter matching passwords, land on sign-in. */
  lemma ResetScenario(origin: string, pw: string)
    ensures
      var s1 := SendLink(EditEmail(Initial, "a@b.c"), origin, Ok(())).state;
      var s2 := OnAuthEvent(s1, RecoveryEvent);
      var s3 := EditConfirm(EditPassword(s2, pw), pw);
      && ScreenOf(s1) == ConfirmationPanel
      && ScreenOf(s2) == NewPasswordForm
      && SubmitNewPassword(s3, Ok(())).calls == [UpdatePassword(pw), SignOut]
      && SubmitNewPassword(s3, Ok(())).navigateTo == Some(LoginRoute)
  {
  }
}
