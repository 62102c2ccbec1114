/**
  The login dialog (`LoginModal`): a form whose submission is answered by the
  remote login endpoint. The dialog's open flag belongs to whichever view shows
  it, its error message to the dialog itself, and a successful login writes the
  shared session store. The HTTP exchange is an abstract input.
 */
module LoginGate {
  import opened Common
  import Auth

  /** The `user` object of a successful login response; `_id` may be absent. */
  datatype ServerUser = ServerUser(id: Option<Auth.UserId>, username: string)

  /**
    How a login request ends: an ok response carrying the user, a non-ok
    response whose body's `error` field may be absent, or an exception (the
    request rejected, or a body that could not be read as expected).
   */
  datatype LoginResponse = Accepted(user: ServerUser) | Refused(error: Option<string>) | Failed

  datatype GateState = GateState(isOpen: bool, error: Option<string>, session: Auth.Session)

  /** The message shown when the login request throws. */
  const GenericError: string := "Error en la autenticación. Inténtalo de nuevo."

  /** What the dialog draws when it is shown: the error line only for a non-empty message. */
  datatype ModalView = ModalView(errorLine: Option<string>)

  /** The `userData` the dialog hands to the store: `userId` is the server's `_id`. */
  function ToUserData(u: ServerUser): (d: Auth.UserData)
    ensures d.userId == u.id && d.username == u.username
  {
    Auth.UserData(u.id, u.username)
  }

  /**
    `handleLogin`: the error is cleared before the request. An accepted login
    stores the user in the session and closes the dialog; a refused one shows
    the server's error and keeps the dialog and session as they were; a failed
    one shows the generic message instead.
   */
  function HandleLogin(st: GateState, resp: LoginResponse): (r: GateState)
    ensures resp.Accepted? ==>
              && r.session == Auth.Login(st.session, ToUserData(resp.user))
              && r.session.isAuthenticated && r.session.userId == resp.user.id
              && !r.isOpen && r.error.None?
    ensures resp.Refused? ==>
              r.session == st.session && r.isOpen == st.isOpen && r.error == resp.error
    ensures resp.Failed? ==>
              r.session == st.session && r.isOpen == st.isOpen && r.error == Some(GenericError)
  {
    var cleared := st.(error := None);
    match resp
    case Accepted(u) =>
      var loggedIn := cleared.(session := Auth.Login(cleared.session, ToUserData(u)));
      loggedIn.(isOpen := false)
    case Refused(e) => cleared.(error := e)
    case Failed => cleared.(error := Some(GenericError))
  }

  /** `handleOverlayClick`: closes only when the overlay itself was the target. */
  function HandleOverlayClick(st: GateState, targetIsOverlay: bool): (r: GateState)
    ensures r.session == st.session && r.error == st.error
    ensures r.isOpen <==> st.isOpen && !targetIsOverlay
  {
    if targetIsOverlay then st.(isOpen := false) else st
  }

  /** The close button: `onClose` without touching the session or the message. */
  function Close(st: GateState): (r: GateState)
    ensures !r.isOpen && r.session == st.session && r.error == st.error
  {
    st.(isOpen := false)
  }

  /** A view asks for authentication: the dialog opens, keeping its last message. */
  function Open(st: GateState): (r: GateState)
    ensures r.isOpen && r.session == st.session && r.error == st.error
  {
    st.(isOpen := true)
  }

  /** Rendering: nothing while closed; the error line only for a truthy message. */
  function Render(st: GateState): (v: Option<ModalView>)
    ensures v.None? <==> !st.isOpen
    ensures v.Some? ==> (v.value.errorLine.Some? <==> TruthyOpt(st.error))
    ensures v.Some? && v.value.errorLine.Some? ==> v.value.errorLine == st.error
  {
    if !st.isOpen then None
    else if TruthyOpt(st.error) then Some(ModalView(st.error))
    else Some(ModalView(None))
  }

  /** Whatever message was showing before an attempt has no influence on its outcome. */
  lemma PriorErrorIrrelevant(st: GateState, e: Option<string>, resp: LoginResponse)
    ensures HandleLogin(st.(error := e), resp) == HandleLogin(st, resp)
  {
  }

  /** A login attempt never logs anyone out, and only an accepted one changes the session. */
  lemma SessionChangesOnlyOnAccept(st: GateState, resp: LoginResponse)
    ensures HandleLogin(st, resp).session != st.session ==> resp.Accepted?
    ensures st.session.isAuthenticated ==> HandleLogin(st, resp).session.isAuthenticated
  {
  }

  /** After an accepted login the dialog renders nothing. */
  lemma AcceptedHidesDialog(st: GateState, u: ServerUser)
    ensures Render(HandleLogin(st, Accepted(u))) == None
  {
  }

  /** When the server sends an id, the dialog keeps the session store consistent. */
  lemma HandleLoginKeepsConsistent(st: GateState, resp: LoginResponse)
    requires Auth.Consistent(st.session)
    requires resp.Accepted? ==> resp.user.id.Some?
    ensures Auth.Consistent(HandleLogin(st, resp).session)
  {
  }
}
