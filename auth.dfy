/** The demo session: at most one member id, set and cleared without any
    credential check. */
module Auth {
  import opened Wrappers

  class AuthService {
    /** The `memberId` signal; `None` is `null`. */
    var memberId: Option<int>

    /** A fresh session is logged out. */
    constructor ()
      ensures memberId == None
      ensures !IsLoggedIn()
    {
      memberId := None;
    }

    /** `login`: the session holds `id`, whatever it held before. */
    method Login(id: int)
      modifies this
      ensures memberId == Some(id)
      ensures IsLoggedIn()
    {
      memberId := Some(id);
    }

    /** `logout`: the session is empty. */
    method Logout()
      modifies this
      ensures memberId == None
      ensures !IsLoggedIn()
    {
      memberId := None;
    }

    /** `isLoggedIn`: a member id is held, whichever it is (0 included). */
    predicate IsLoggedIn(): (loggedIn: bool)
      reads this
      ensures loggedIn <==> memberId != None
    {
      memberId.Some?
    }
  }

  /** The workflows' `!this.memberId()` guard read the other way round: the
      session id is truthy, so neither `null` nor 0. */
  function SessionMember(memberId: Option<int>): (r: Option<int>)
    ensures r.Some? <==> memberId.Some? && memberId.value != 0
    ensures r.Some? ==> r == memberId
  {
    if memberId.Some? && memberId.value != 0 then memberId else None
  }
}
