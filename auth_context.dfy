/**
 * The session manager (src/context/AuthContext.jsx): the current `user`, the
 * `loading` flag, and the browser's persisted `userId` slot, changed by
 * signup, login, logout and the silent restore at start-up.
 */
module AuthContext {
  import opened DocumentStore
  import opened UserService

  class AuthProvider {
    /** The `users` collection the account repository works on. */
    const accounts: Collection<User>
    /** `user` state: the logged-in account, `None` for null. */
    var user: Option<Doc<User>>
    /** `loading` state: true until the start-up restore has finished. */
    var loading: bool
    /** `localStorage` entry `"userId"`: survives page reloads. */
    var storedUserId: Option<Id>

    /** A fresh provider on a page load: nobody logged in yet, still loading, the slot as persisted. */
    constructor (accounts: Collection<User>, persisted: Option<Id>)
      ensures this.accounts == accounts
      ensures user == None && loading && storedUserId == persisted
    {
      this.accounts := accounts;
      user := None;
      loading := true;
      storedUserId := persisted;
    }

    /** `isAdmin`: a non-null user whose stored flag is exactly `true`. */
    function IsAdmin(): (r: bool)
      reads this
    {
      user.Some? && user.value.data.isAdmin == Some(true)
    }

    /** `{!loading && children}`: the application renders only once loading is over. */
    function RendersChildren(): (r: bool)
      reads this
    {
      !loading
    }

    /**
     * `signup`: a successful registration logs the new account in and persists
     * its id; a failure propagates and changes neither. A new account is never
     * an administrator.
     */
    method Signup(email: string, password: string, pseudo: string, now: string, fault: bool)
      returns (r: Result<Doc<User>>)
      requires accounts.Valid()
      modifies this`user, this`storedUserId, accounts
      ensures accounts.Valid()
      ensures r.Failure? <==> fault || old(EmailInUse(accounts, email))
      ensures r.Failure? ==> r.error == if fault then StoreFailure else DuplicateEmail
      ensures r.Failure? ==> user == old(user) && storedUserId == old(storedUserId)
      ensures r.Failure? ==> accounts.docs == old(accounts.docs) && accounts.nextId == old(accounts.nextId)
      ensures r.Success? ==> r.value == Doc(old(accounts.nextId), NewAccount(email, password, pseudo, now))
      ensures r.Success? ==> accounts.docs == old(accounts.docs)[r.value.id := r.value.data]
      ensures r.Success? ==> accounts.nextId == old(accounts.nextId) + 1
      ensures r.Success? ==> user == Some(r.value) && storedUserId == Some(r.value.id) && !IsAdmin()
    {
      r := RegisterUser(accounts, email, password, pseudo, now, fault);
      if r.Success? {
        user := Some(r.value);
        storedUserId := Some(r.value.id);
      }
    }

    /**
     * `login`: a matching account becomes the user and its id is persisted; a
     * failure propagates with no state change. The accounts are only read.
     */
    method Login(email: string, password: string, fault: bool) returns (r: Result<Doc<User>>)
      requires accounts.Valid()
      modifies this`user, this`storedUserId
      ensures r == LoginUser(accounts, email, password, fault)
      ensures r.Failure? ==> user == old(user) && storedUserId == old(storedUserId)
      ensures r.Success? ==> user == Some(r.value) && storedUserId == Some(r.value.id)
      ensures r.Success? ==> r.value.data.email == email && r.value.data.password == password
    {
      r := LoginUser(accounts, email, password, fault);
      if r.Success? {
        user := Some(r.value);
        storedUserId := Some(r.value.id);
      }
    }

    /** `logout`: no user, no persisted id, hence no administrator. */
    method Logout()
      modifies this`user, this`storedUserId
      ensures user == None && storedUserId == None && !IsAdmin()
    {
      user := None;
      storedUserId := None;
    }

    /**
     * `checkSession`: a persisted id that resolves becomes the user; one that
     * does not resolve is removed and the user is left alone; without a
     * persisted id nothing is looked up. Loading ends in every case.
     */
    method CheckSession(fault: bool)
      modifies this`user, this`storedUserId, this`loading
      ensures !loading && RendersChildren()
      ensures old(storedUserId).None? ==> user == old(user) && storedUserId == None
      ensures old(storedUserId).Some? && GetUserById(accounts, old(storedUserId).value, fault).Some? ==>
                user == GetUserById(accounts, old(storedUserId).value, fault) && storedUserId == old(storedUserId)
      ensures old(storedUserId).Some? && GetUserById(accounts, old(storedUserId).value, fault).None? ==>
                user == old(user) && storedUserId == None
    {
      if storedUserId.Some? {
        var found := GetUserById(accounts, storedUserId.value, fault);
        if found.Some? {
          user := found;
        } else {
          storedUserId := None;
        }
      }
      loading := false;
    }
  }

  /**
   * A signup survives a reload: a provider started from the slot the signup
   * wrote restores the same account (when the lookup does not fail).
   */
  method SignupThenReload(accounts: Collection<User>, email: string, password: string, pseudo: string, now: string)
    returns (restored: Option<Doc<User>>, signedUp: Result<Doc<User>>)
    requires accounts.Valid()
    modifies accounts
    ensures signedUp.Success? ==> restored == Some(signedUp.value)
    ensures signedUp.Failure? ==> restored == None
  {
    var first := new AuthProvider(accounts, None);
    first.CheckSession(false);
    signedUp := first.Signup(email, password, pseudo, now, false);
    var second := new AuthProvider(accounts, first.storedUserId);
    second.CheckSession(false);
    restored := second.user;
  }
}
