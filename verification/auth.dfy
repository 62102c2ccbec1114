/**
  The session store (`AuthProvider`): an in-memory record of whether someone
  is logged in and which user it is, changed only by `login` and `logout`.
 */
module Auth {
  import opened Common

  /** The server's `_id` of a user. */
  type UserId = string

  /** What `login` is called with; only `userId` is read. */
  datatype UserData = UserData(userId: Option<UserId>, username: string)

  datatype Session = Session(isAuthenticated: bool, userId: Option<UserId>)

  /** The session every page load starts with: logged out, no user. */
  const Initial: Session := Session(false, None)

  /** The invariant the rest of the client relies on: a user id is known exactly when logged in. */
  predicate Consistent(s: Session) {
    s.isAuthenticated <==> s.userId.Some?
  }

  /**
    `login(userData)`: marks the session authenticated and takes the user id
    from `userData`, whatever the previous session was. No validation is done,
    so a missing id yields an authenticated session without a user.
   */
  function Login(s: Session, u: UserData): (r: Session)
    ensures r.isAuthenticated
    ensures r.userId == u.userId
    ensures Consistent(r) <==> u.userId.Some?
  {
    Session(true, u.userId)
  }

  /** `logout()`: back to the initial session from any state. */
  function Logout(s: Session): (r: Session)
    ensures r == Initial
    ensures Consistent(r)
  {
    Session(false, None)
  }

  /** The two operations consumers can invoke on the store. */
  datatype Event = LogIn(user: UserData) | LogOut

  function Step(s: Session, e: Event): (r: Session) {
    match e
    case LogIn(u) => Login(s, u)
    case LogOut => Logout(s)
  }

  /** The session after a sequence of operations, applied first to last. */
  function Run(s: Session, events: seq<Event>): (r: Session)
    decreases |events|
  {
    if events == [] then s else Run(Step(s, events[0]), events[1..])
  }

  /** Every `login` in `events` is given a user id. */
  predicate LoginsCarryId(events: seq<Event>) {
    forall i :: 0 <= i < |events| && events[i].LogIn? ==> events[i].user.userId.Some?
  }

  /** Running `a + b` is running `a` and then `b`. */
  lemma {:induction false} RunAppend(s: Session, a: seq<Event>, b: seq<Event>)
    ensures Run(s, a + b) == Run(Run(s, a), b)
    decreases |a|
  {
    if a == [] {
      assert a + b == b;
    } else {
      assert (a + b)[0] == a[0];
      assert (a + b)[1..] == a[1..] + b;
      RunAppend(Step(s, a[0]), a[1..], b);
    }
  }

  /** Logging out is idempotent. */
  lemma LogoutIdempotent(s: Session)
    ensures Logout(Logout(s)) == Logout(s)
  {
  }

  /** Whatever sequence of operations came before, a final `logout` returns to the initial session. */
  lemma {:induction false} EndsLoggedOut(s: Session, events: seq<Event>)
    ensures Run(s, events + [LogOut]) == Initial
  {
    RunAppend(s, events, [LogOut]);
  }

  /** `login` then `logout` is exactly the initial session. */
  lemma LoginThenLogout(u: UserData)
    ensures Logout(Login(Initial, u)) == Initial
  {
  }

  /**
    If `login` is only ever called with a user id, then every reachable session
    is consistent: authenticated exactly when a user id is held.
   */
  lemma {:induction false} ReachableConsistent(s: Session, events: seq<Event>)
    requires Consistent(s)
    requires LoginsCarryId(events)
    ensures Consistent(Run(s, events))
    decreases |events|
  {
    if events != [] {
      assert events[0].LogIn? ==> events[0].user.userId.Some?;
      assert LoginsCarryId(events[1..]) by {
        forall i | 0 <= i < |events[1..]| && events[1..][i].LogIn?
          ensures events[1..][i].user.userId.Some?
        {
          assert events[1..][i] == events[i + 1];
        }
      }
      ReachableConsistent(Step(s, events[0]), events[1..]);
    }
  }

  /** The precondition above is needed: one `login` without an id breaks the invariant. */
  lemma LoginWithoutIdBreaksInvariant(s: Session, name: string)
    ensures !Consistent(Run(s, [LogIn(UserData(None, name))]))
  {
    assert [LogIn(UserData(None, name))][1..] == [];
  }
}
