/**
 * The global session store: one mutable field holding the signed-in user's session, or
 * `null` before sign-in. Both setters replace the field as a whole.
 */
module SessionStore {
  import opened Options

  /** `SessionData`: three strings, none of them validated by the store. */
  datatype Session = Session(name: string, email: string, role: string)

  class Store {
    var session: Option<Session>

    /** The store starts with a `null` session. */
    constructor ()
      ensures session == None
    {
      session := None;
    }

    /** `setSession(s)`: the whole session becomes `s`; no field of the old one survives. */
    method SetSession(s: Option<Session>)
      modifies this
      ensures session == s
    {
      session := s;
    }

    /** `clearSession()`: the session becomes `null`. */
    method ClearSession()
      modifies this
      ensures session == None
    {
      session := None;
    }
  }

  /** `setSession(null)` leaves a store in the state `clearSession()` leaves another in. */
  method SetNullIsClear(a: Store, b: Store)
    modifies a, b
    ensures a.session == b.session == None
  {
    a.SetSession(None);
    b.ClearSession();
  }

  /** Any session, whatever its role, is stored as given and read back unchanged. */
  method StoresAnyRole(store: Store, name: string, email: string, role: string) returns (read: Option<Session>)
    modifies store
    ensures read == Some(Session(name, email, role))
  {
    store.SetSession(Some(Session(name, email, role)));
    read := store.session;
  }
}
