/** The signed-in user (`src/core/store/auth.ts`). */
module AuthStore {
  import opened Wrappers

  /** The claims of the session token, as the client keeps them. */
  datatype AuthUser = AuthUser(sub: string, email: string, name: string, avatarUrl: Option<string>, iat: int, exp: int)

  /** `useAuthStore`. */
  class Store {
    var user: Option<AuthUser>
    var loading: bool

    /** Nobody is known yet and the session is being looked up. */
    constructor ()
      ensures user == None && loading
    {
      user, loading := None, true;
    }

    /** `setUser`: setting the user, or `null`, always ends loading. */
    method SetUser(u: Option<AuthUser>)
      modifies this
      ensures user == u && !loading
    {
      user, loading := u, false;
    }

    method SetLoading(value: bool)
      modifies this
      ensures loading == value && user == old(user)
    {
      loading := value;
    }

    /** `clearUser`: signed out, and no longer loading. */
    method ClearUser()
      modifies this
      ensures user == None && !loading
    {
      user, loading := None, false;
    }
  }
}
