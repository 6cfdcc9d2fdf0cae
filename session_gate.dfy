/** The two request guards that wrap every gameplay route, and the form
    handler that stores the shared passphrase in the session. A guard never
    fails: it either admits the request or substitutes another page for it. */
module SessionGate {
  import opened QuestTypes
  import opened Registry

  /** The cookie-backed session; each key may be absent. */
  datatype Session = Session(passphrase: Option<string>, username: Option<string>, password: Option<string>)

  /** The pages rendered in place of a requested one. */
  datatype Page =
    | PassphrasePage(incorrect: bool)
    | UserPage(empty: bool, incorrect: bool)

  datatype Gate = Admit | Substitute(page: Page)

  /** The passphrase guard: admits iff the session holds the configured
      passphrase; otherwise shows the passphrase form. */
  function PassphraseGuard(session: Session, configured: string): (g: Gate)
    ensures g == Admit <==> session.passphrase == Some(configured)
    ensures g != Admit ==> g == Substitute(PassphrasePage(false))
  {
    if session.passphrase.None? || session.passphrase.value != configured then
      Substitute(PassphrasePage(false))
    else
      Admit
  }

  /** The credential guard, re-run on every request: admits iff the session
      holds a username and a password, that player exists, and the stored
      password (of the first row with that name) equals the session's. */
  function Authenticate(session: Session, users: seq<User>): (g: Gate)
    ensures g != Admit ==> g == Substitute(UserPage(false, false))
    ensures g == Admit ==>
              && session.username.Some? && session.password.Some?
              && exists u :: u in users && u.username == session.username.value
                                        && u.password == session.password.value
    ensures UniqueUsernames(users) && session.username.Some? && session.password.Some? ==>
              (g == Admit <==> exists u :: u in users && u.username == session.username.value
                                                      && u.password == session.password.value)
  {
    if session.username.None? || session.password.None? then
      Substitute(UserPage(false, false))
    else
      match FindUser(users, session.username.value)
      case None => Substitute(UserPage(false, false))
      case Some(u) =>
        if session.password.value != u.password then
          Substitute(UserPage(false, false))
        else
          assert UniqueUsernames(users) ==>
            forall v | v in users && v.username == session.username.value :: v == u by {
            if UniqueUsernames(users) {
              forall v | v in users && v.username == session.username.value ensures v == u {
                FindUserUnique(users, v);
              }
            }
          }
          Admit
  }

  /** Both guards as the routes apply them, the passphrase guard outermost: the
      passphrase form wins over the login form, and an admitted request always
      belongs to a registered player whose credentials match. */
  function Guard(session: Session, configured: string, users: seq<User>): (g: Gate)
    ensures g == Admit <==> PassphraseGuard(session, configured) == Admit && Authenticate(session, users) == Admit
    ensures PassphraseGuard(session, configured) != Admit ==> g == Substitute(PassphrasePage(false))
    ensures PassphraseGuard(session, configured) == Admit ==> g == Authenticate(session, users)
    ensures g == Admit ==> session.username.Some? && GetMoleId(users, session.username.value).Some?
  {
    if PassphraseGuard(session, configured) != Admit then PassphraseGuard(session, configured)
    else Authenticate(session, users)
  }

  /** The passphrase form handler: a wrong passphrase shows the form again,
      marked incorrect, and leaves the session alone; the right one is stored in
      the session and the login form is shown. */
  function CheckPassphrase(session: Session, submitted: string, configured: string): (r: (Page, Session))
    ensures submitted != configured ==> r == (PassphrasePage(true), session)
    ensures submitted == configured ==> r.0 == UserPage(false, false)
    ensures submitted == configured ==> PassphraseGuard(r.1, configured) == Admit
    ensures r.1.username == session.username && r.1.password == session.password
  {
    if submitted != configured then (PassphrasePage(true), session)
    else (UserPage(false, false), session.(passphrase := Some(configured)))
  }

  /** Passing the passphrase form opens the passphrase guard and leaves the
      credential guard's verdict as it was. */
  lemma CheckPassphraseOpensGuard(session: Session, submitted: string, configured: string, users: seq<User>)
    requires submitted == configured
    ensures Guard(CheckPassphrase(session, submitted, configured).1, configured, users) == Authenticate(session, users)
  {
    var s' := CheckPassphrase(session, submitted, configured).1;
    assert Authenticate(s', users) == Authenticate(session, users);
  }
}
