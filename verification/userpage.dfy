/**
 * The users page and the active user. The browser's `localStorage` entry is
 * a parameter (`stored`); a request the page sends is applied to the store
 * by the server's handler.
 */
module UserPage {
  import opened Common
  import Strings
  import Server

  /** `localStorage.getItem('currentUser') || 'Guest'`: an unset or empty entry reads as "Guest". */
  function CurrentUser(stored: Option<string>): (r: string)
    ensures r != []
    ensures stored.Some? && stored.value != [] ==> r == stored.value
    ensures stored.None? || stored == Some([]) ==> r == "Guest"
  {
    if stored.Some? && stored.value != [] then stored.value else "Guest"
  }

  /** The store and the `localStorage` entry after a user action, and whether the page warned. */
  datatype Outcome = Outcome(store: Server.Store, stored: Option<string>, warned: bool)

  /**
   * Submitting the add-user form: a name that is empty once trimmed sends
   * nothing and changes nothing; otherwise the trimmed name is added (an
   * existing one stays as it is) and becomes the active user.
   */
  function SubmitAddUser(s: Server.Store, stored: Option<string>, input: string): (r: Outcome)
    ensures (forall i :: 0 <= i < |input| ==> Strings.IsWhite(input[i])) ==> r == Outcome(s, stored, false)
    ensures (exists i :: 0 <= i < |input| && !Strings.IsWhite(input[i])) ==>
              && r.store.users == s.users + {Strings.Trim(input)}
              && r.store == s.(users := r.store.users)
              && CurrentUser(r.stored) == Strings.Trim(input)
              && !r.warned
  {
    var name := Strings.Trim(input);
    if name == [] then Outcome(s, stored, false)
    else Outcome(Server.PostUser(s, name).store, Some(name), false)
  }

  /**
   * Clicking Delete on user `u`: the active user is refused with a warning
   * and no request; any other name is deleted on the server (a no-op when
   * absent) and the active user stays.
   */
  function ClickDeleteUser(s: Server.Store, stored: Option<string>, u: string): (r: Outcome)
    ensures u == CurrentUser(stored) <==> r.warned
    ensures r.warned ==> r.store == s && r.stored == stored
    ensures !r.warned ==> r.store.users == s.users - {u} && u !in r.store.users
                          && r.store == s.(users := r.store.users) && r.stored == stored
    ensures CurrentUser(stored) in s.users ==> CurrentUser(r.stored) in r.store.users
  {
    if u == CurrentUser(stored) then Outcome(s, stored, true)
    else Outcome(Server.DeleteUser(s, u).store, stored, false)
  }
}
