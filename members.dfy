/** The member store: one cached array of members, read whole or by id,
    grown by `create` and rewritten by `update`. */
module Members {
  import opened Wrappers
  import opened Seqs
  import opened Models

  const MemberNotFound := "Member not found"

  /** The predicate `m => m.id === id` the store searches with. */
  function HasId(id: int): Member -> bool
  {
    (m: Member) => m.id == id
  }

  /** `i` is the first position of `members` whose member has id `id`. */
  ghost predicate FirstWithId(members: seq<Member>, id: int, i: int)
  {
    0 <= i < |members| && members[i].id == id && forall j :: 0 <= j < i ==> members[j].id != id
  }

  /** `members.findIndex(m => m.id === id)`. */
  function IndexOf(members: seq<Member>, id: int): (r: Option<nat>)
    ensures r.Some? ==> FirstWithId(members, id, r.value)
    ensures r.None? <==> forall m <- members :: m.id != id
    ensures forall i :: FirstWithId(members, id, i) ==> r == Some(i)
  {
    var r := FindIndex(members, HasId(id));
    assert r.Some? ==> FirstMatch(members, HasId(id), r.value);
    r
  }

  /** Some member has id `id` exactly when there is a first such position. */
  lemma FirstWithIdExists(members: seq<Member>, id: int)
    ensures (exists m <- members :: m.id == id) <==> (exists i :: FirstWithId(members, id, i))
  {
    if IndexOf(members, id).Some? {
      assert FirstWithId(members, id, IndexOf(members, id).value);
    }
  }

  /** `{ ...m, ...p, id }`: the patch's properties win, the id is the argument's. */
  function Patched(m: Member, p: MemberPatch, id: int): (r: Member)
    ensures r.id == id
    ensures r.name == (if p.name.Some? then p.name.value else m.name)
    ensures r.email == (if p.email.Some? then p.email.value else m.email)
    ensures r.phone == (if p.phone.Some? then p.phone.value else m.phone)
    ensures r.membershipDate == (if p.membershipDate.Some? then p.membershipDate.value else m.membershipDate)
    ensures r.isActive == (if p.isActive.Some? then p.isActive.value else m.isActive)
  {
    Member(id, p.name.GetOr(m.name), p.email.GetOr(m.email), p.phone.GetOr(m.phone),
           p.membershipDate.GetOr(m.membershipDate), p.isActive.GetOr(m.isActive))
  }

  /** `create`: the draft receives the next free id and is appended. */
  function CreateMember(members: seq<Member>, draft: Member): (r: Change<Member>)
    ensures r.record == draft.(id := r.record.id)
    ensures forall m <- members :: m.id < r.record.id
    ensures members == [] ==> r.record.id == 1
    ensures r.record.id == NextId(members, MemberId)
    ensures r.items == members + [r.record]
  {
    var created := draft.(id := NextId(members, MemberId));
    Change(members + [created], created)
  }

  /** `update`: fails when no member has the id; otherwise the first member
      with that id is replaced by the patched member, and nothing else changes. */
  function UpdateMember(members: seq<Member>, id: int, patch: MemberPatch): (r: Result<Change<Member>>)
    ensures r.Err? <==> forall m <- members :: m.id != id
    ensures r.Err? ==> r.error == MemberNotFound
    ensures forall i :: FirstWithId(members, id, i) ==>
              var u := Patched(members[i], patch, id); r == Ok(Change(members[i := u], u))
  {
    match IndexOf(members, id)
    case None => Err(MemberNotFound)
    case Some(i) =>
      var updated := Patched(members[i], patch, id);
      Ok(Change(members[i := updated], updated))
  }

  /** `create` keeps ids increasing. */
  lemma CreateKeepsIdsIncreasing(members: seq<Member>, draft: Member)
    requires IncreasingIds(members, MemberId)
    ensures IncreasingIds(CreateMember(members, draft).items, MemberId)
  {
    AppendNextIdKeepsIncreasing(members, MemberId, CreateMember(members, draft).record);
  }

  /** `create` keeps ids unique. */
  lemma CreateKeepsIdsUnique(members: seq<Member>, draft: Member)
    requires UniqueIds(members, MemberId)
    ensures UniqueIds(CreateMember(members, draft).items, MemberId)
  {
    AppendNextIdKeepsUnique(members, MemberId, CreateMember(members, draft).record);
  }

  /** `update` keeps ids unique. */
  lemma UpdateKeepsIdsUnique(members: seq<Member>, id: int, patch: MemberPatch)
    requires UniqueIds(members, MemberId)
    ensures UpdateMember(members, id, patch).Ok? ==> UniqueIds(UpdateMember(members, id, patch).value.items, MemberId)
  {
    match IndexOf(members, id)
    case None =>
    case Some(i) => ReplaceSameIdKeepsUnique(members, MemberId, i, UpdateMember(members, id, patch).value.record);
  }

  /** The cached member array behind `MemberService`. */
  class MemberService {
    var members: seq<Member>

    /** The store after its first load, with `seed` as the fixture. */
    constructor (seed: seq<Member>)
      ensures members == seed
    {
      members := seed;
    }

    /** `getAll`: a copy of the current members. */
    method GetAll() returns (r: seq<Member>)
      ensures r == members
    {
      r := members;
    }

    /** `getById`: the first member with the id, if any. */
    function GetById(id: int): (r: Option<Member>)
      reads this
      ensures r.None? <==> forall m <- members :: m.id != id
      ensures forall i :: FirstWithId(members, id, i) ==> r == Some(members[i])
    {
      Find(members, HasId(id))
    }

    method Create(draft: Member) returns (created: Member)
      modifies this
      ensures members == CreateMember(old(members), draft).items
      ensures created == CreateMember(old(members), draft).record
    {
      var nextId := NextId(members, MemberId);
      created := draft.(id := nextId);
      members := members + [created];
    }

    method Update(id: int, patch: MemberPatch) returns (r: Result<Member>)
      modifies this
      ensures Publishes(UpdateMember(old(members), id, patch), old(members), members, r)
    {
      var idx := FindIndex(members, HasId(id));
      assert idx == IndexOf(members, id);
      if idx.None? {
        return Err(MemberNotFound);
      }
      var updated := Patched(members[idx.value], patch, id);
      members := members[idx.value := updated];
      r := Ok(updated);
    }
  }
}
