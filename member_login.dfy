/** The member directory's login: a chosen member id becomes the session
    member when that member exists and is active. */
module MemberLogin {
  import opened Wrappers
  import opened Seqs
  import opened Models
  import opened Auth
  import opened Members

  const InvalidOrInactive := "Invalid or inactive member"

  /** The form's one control, required and at least 1. */
  datatype LoginForm = LoginForm(memberId: Option<int>)

  /** What a login leads to: every control marked touched (invalid form),
      the `invalidMember` error set on the form, or navigation to the
      redirect target once the session is set. */
  datatype Outcome = Touched | InvalidMember | Redirected(url: string)

  /** `redirect$`: the `redirect` query parameter, or the book list. */
  function RedirectTarget(redirect: Option<string>): (url: string)
    ensures redirect.None? ==> url == "/books"
    ensures redirect.Some? ==> url == redirect.value
  {
    redirect.GetOr("/books")
  }

  /** `Validators.required` and `Validators.min(1)`. */
  predicate FormValid(form: LoginForm): (valid: bool)
    ensures valid <==> form.memberId != None && form.memberId.value >= 1
  {
    form.memberId.Some? && form.memberId.value >= 1
  }

  /** `login`: the guard on the form, `getById`, the active check, then
      `auth.login` and navigation. Only an existing, active member changes
      the session, and then to that member's id. */
  function LoginEffect(members: seq<Member>, session: Option<int>, form: LoginForm, redirectTo: string)
    : (r: (Outcome, Option<int>))
    ensures !FormValid(form) ==> r == (Touched, session)
    ensures r.0.Redirected? <==>
              FormValid(form) && exists i :: FirstWithId(members, form.memberId.value, i) && members[i].isActive
    ensures r.0.Redirected? ==> r.0.url == redirectTo && r.1 == form.memberId
    ensures !r.0.Redirected? ==> r.1 == session
    ensures FormValid(form) && (forall m <- members :: m.id != form.memberId.value) ==>
              r.0 == InvalidMember
    ensures forall i ::
              FormValid(form) && FirstWithId(members, form.memberId.value, i) && !members[i].isActive ==>
              r.0 == InvalidMember
  {
    if !FormValid(form) then (Touched, session)
    else
      var id := form.memberId.value;
      match Find(members, Members.HasId(id))
      case None => (InvalidMember, session)
      case Some(member) =>
        if !member.isActive then (InvalidMember, session)
        else (Redirected(redirectTo), Some(member.id))
  }

  /** `login`, step by step over the injected services. */
  method Login(memberService: MemberService, auth: AuthService, form: LoginForm, redirectTo: string)
    returns (outcome: Outcome)
    modifies auth
    ensures (outcome, auth.memberId) == LoginEffect(memberService.members, old(auth.memberId), form, redirectTo)
    ensures outcome.Redirected? ==> auth.IsLoggedIn()
  {
    if !FormValid(form) {
      return Touched;
    }
    var memberId := form.memberId.value;
    var member := memberService.GetById(memberId);
    if member.None? || !member.value.isActive {
      return InvalidMember;
    }
    auth.Login(member.value.id);
    outcome := Redirected(redirectTo);
  }
}
