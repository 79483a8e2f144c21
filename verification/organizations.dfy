/** The organization service: a two-level hierarchy (root organizations and
    their direct children) kept in a table, the parent checks of create and
    update, and the lookups the access checks are built on. */
module Organizations {
  import opened Domain
  import OrgScope

  datatype Org = Org(id: int, name: string, parent: Option<int>)

  datatype CreateOrgDto = CreateOrgDto(name: string, parentId: Option<int>)

  /** `parentId` of an update: absent (undefined), null, or a number. */
  datatype ParentPatch = Keep | Clear | SetTo(id: int)

  datatype UpdateOrgDto = UpdateOrgDto(name: Option<string>, parentId: ParentPatch)

  /** JavaScript truthiness of an optional id: absent, null and 0 are falsy. */
  predicate Truthy(p: Option<int>) {
    p.Some? && p.value != 0
  }

  predicate UniqueIds(orgs: seq<Org>) {
    forall i, j | 0 <= i < |orgs| && 0 <= j < |orgs| && i != j :: orgs[i].id != orgs[j].id
  }

  /** At most two levels: the parent of any organization is itself a root. */
  predicate NoGrandchildren(orgs: seq<Org>) {
    forall i, j | 0 <= i < |orgs| && 0 <= j < |orgs| && orgs[i].parent == Some(orgs[j].id) ::
      orgs[j].parent.None?
  }

  /** Position of the row with the given id (the first one, if several). */
  function Position(orgs: seq<Org>, id: int): (r: Option<nat>)
    ensures r.Some? ==> r.value < |orgs| && orgs[r.value].id == id
    ensures r.None? <==> forall k | 0 <= k < |orgs| :: orgs[k].id != id
  {
    if orgs == [] then None
    else if orgs[0].id == id then Some(0)
    else match Position(orgs[1..], id)
      case None => None
      case Some(k) => Some(k + 1)
  }

  /** findOne: the organization with that id, or NotFound. */
  function FindOne(orgs: seq<Org>, id: int): (r: Result<Org>)
    ensures r.Ok? <==> exists k :: 0 <= k < |orgs| && orgs[k].id == id
    ensures r.Ok? ==> r.value in orgs && r.value.id == id
    ensures r.Err? ==> r.error == NotFound
  {
    match Position(orgs, id)
    case None => Err(NotFound)
    case Some(k) => Ok(orgs[k])
  }

  /** The `children` relation of an organization, in table order. */
  function Children(orgs: seq<Org>, id: int): (r: seq<Org>)
    ensures forall o :: o in r <==> o in orgs && o.parent == Some(id)
    ensures |r| <= |orgs|
  {
    if orgs == [] then []
    else (if orgs[0].parent == Some(id) then [orgs[0]] else []) + Children(orgs[1..], id)
  }

  /** isDirectChild(parentId, childId): `child?.parent?.id === parentId`. */
  function IsDirectChild(orgs: seq<Org>, parentId: int, childId: int): bool {
    match Position(orgs, childId)
    case None => false
    case Some(k) => orgs[k].parent == Some(parentId)
  }

  /** With unique ids, isDirectChild holds iff the child exists and its parent is `parentId`. */
  lemma IsDirectChildIff(orgs: seq<Org>, parentId: int, childId: int)
    requires UniqueIds(orgs)
    ensures IsDirectChild(orgs, parentId, childId) <==>
            exists k :: 0 <= k < |orgs| && orgs[k].id == childId && orgs[k].parent == Some(parentId)
  {
    if k :| 0 <= k < |orgs| && orgs[k].id == childId && orgs[k].parent == Some(parentId) {
      assert Position(orgs, childId) == Some(k);
    }
  }

  /** checkOrgAccess: the scope policy with isDirectChild as the oracle. */
  function CheckOrgAccess(orgs: seq<Org>, role: Role, userOrgId: int, targetOrgId: int): bool {
    OrgScope.IsOrgWithinScope(role, userOrgId, targetOrgId,
      Some((p: int, c: int) => IsDirectChild(orgs, p, c)))
  }

  /** getAccessibleOrgs: Owner gets every organization; Admin gets its own
      followed by its direct children; every other role gets its own only. A
      missing own organization is NotFound (except for Owner). */
  function GetAccessibleOrgs(orgs: seq<Org>, role: Role, userOrgId: int): (r: Result<seq<Org>>)
    ensures role.Owner? ==> r == Ok(orgs)
    ensures !role.Owner? ==> (r.Err? <==> forall k | 0 <= k < |orgs| :: orgs[k].id != userOrgId)
    ensures !role.Owner? && r.Ok? ==> |r.value| >= 1 && r.value[0] in orgs && r.value[0].id == userOrgId
    ensures role.Admin? && r.Ok? ==>
      forall o :: o in r.value[1..] <==> o in orgs && o.parent == Some(userOrgId)
    ensures !role.Owner? && !role.Admin? && r.Ok? ==> |r.value| == 1
    ensures r.Err? ==> r == Err(NotFound)
  {
    if role.Owner? then Ok(orgs)
    else match FindOne(orgs, userOrgId)
      case Err(e) => Err(e)
      case Ok(own) => if role.Admin? then Ok([own] + Children(orgs, userOrgId)) else Ok([own])
  }

  /** For the three roles, the single-target check and the listing agree on
      every existing target: the target is allowed iff it is listed. */
  lemma AccessAgreesWithListing(orgs: seq<Org>, role: Role, userOrgId: int, t: nat)
    requires UniqueIds(orgs)
    requires !role.Other?
    requires t < |orgs|
    requires GetAccessibleOrgs(orgs, role, userOrgId).Ok?
    ensures CheckOrgAccess(orgs, role, userOrgId, orgs[t].id) <==>
            orgs[t] in GetAccessibleOrgs(orgs, role, userOrgId).value
  {
    var listed := GetAccessibleOrgs(orgs, role, userOrgId).value;
    var target := orgs[t];
    if role.Admin? {
      assert Position(orgs, target.id) == Some(t);
      assert listed == [listed[0]] + listed[1..];
      if target.id == userOrgId {
        assert target == listed[0];
      }
      if target in listed && target.id != userOrgId {
        assert target in listed[1..];
      }
    } else if role.Viewer? {
      if target.id == userOrgId {
        assert target == listed[0];
      }
    }
  }

  /** A role outside the three is refused by the single-target check but still
      gets its own organization from the listing (it falls into the last branch). */
  lemma UnknownRoleStillListsOwnOrg()
    ensures var orgs := [Org(1, "a", None)];
            && !CheckOrgAccess(orgs, Other("guest"), 1, 1)
            && GetAccessibleOrgs(orgs, Other("guest"), 1) == Ok(orgs)
  {
  }

  /** The parent checks shared by create and update: the parent must exist and
      be a root. */
  function CheckParent(orgs: seq<Org>, parentId: int): (r: Option<BadRequestReason>)
    ensures r == None <==> exists k :: 0 <= k < |orgs| && orgs[k].id == parentId && FindOne(orgs, parentId).value.parent.None?
    ensures r == Some(ParentNotFound) <==> forall k | 0 <= k < |orgs| :: orgs[k].id != parentId
  {
    match FindOne(orgs, parentId)
    case Err(_) => Some(ParentNotFound)
    case Ok(p) => if p.parent.Some? then Some(DepthExceeded) else None
  }

  /** A concrete update the service accepts although it breaks the two-level
      rule: org 1 has child 2, and org 1 is re-parented under root 3, making 2 a
      grandchild. Update never checks the re-parented org's own children. */
  lemma UpdateCanCreateGrandchild()
    ensures var orgs := [Org(1, "a", None), Org(2, "b", Some(1)), Org(3, "c", None)];
            && NoGrandchildren(orgs)
            && CheckParent(orgs, 3) == None && 3 != 1
            && !NoGrandchildren(orgs[0 := orgs[0].(parent := Some(3))])
  {
    var orgs := [Org(1, "a", None), Org(2, "b", Some(1)), Org(3, "c", None)];
    assert Position(orgs, 3) == Some(2) by {
      assert orgs[1..][1..] == [Org(3, "c", None)];
    }
    var after := orgs[0 := orgs[0].(parent := Some(3))];
    assert after[1].parent == Some(after[0].id) && after[0].parent.Some?;
  }

  /** Replacing one organization by one with the same id whose parent (if
      any) is known keeps the ids unique and every parent known. */
  lemma ReplaceKeepsParentsKnown(orgs: seq<Org>, m: nat, org: Org)
    requires m < |orgs| && org.id == orgs[m].id
    requires forall k | 0 <= k < |orgs| && orgs[k].parent.Some? ::
      exists j :: 0 <= j < |orgs| && orgs[j].id == orgs[k].parent.value
    requires org.parent.Some? ==> exists j :: 0 <= j < |orgs| && orgs[j].id == org.parent.value
    ensures var after := orgs[m := org];
            && (forall k | 0 <= k < |orgs| :: after[k].id == orgs[k].id)
            && (UniqueIds(orgs) ==> UniqueIds(after))
            && (forall k | 0 <= k < |after| && after[k].parent.Some? ::
                  exists j :: 0 <= j < |after| && after[j].id == after[k].parent.value)
  {
    var after := orgs[m := org];
    forall k | 0 <= k < |after| && after[k].parent.Some?
      ensures exists j :: 0 <= j < |after| && after[j].id == after[k].parent.value
    {
      var j :| 0 <= j < |orgs| && orgs[j].id == after[k].parent.value;
      assert after[j].id == orgs[j].id;
    }
  }

  class OrganizationsService {
    var orgs: seq<Org>
    /** The next value of the auto-increment primary key (ids start at 1). */
    var nextId: int

    ghost predicate Valid()
      reads this
    {
      && 0 < nextId
      && UniqueIds(orgs)
      && (forall k | 0 <= k < |orgs| :: 0 < orgs[k].id < nextId)
      && (forall k | 0 <= k < |orgs| && orgs[k].parent.Some? ::
            exists j :: 0 <= j < |orgs| && orgs[j].id == orgs[k].parent.value)
    }

    constructor ()
      ensures Valid() && orgs == [] && nextId == 1
    {
      orgs := [];
      nextId := 1;
    }

    /** create: a truthy parentId must name an existing root; otherwise the
        organization is a root. Only a successful create saves a row. */
    method Create(dto: CreateOrgDto) returns (r: Result<Org>)
      requires Valid()
      modifies this
      ensures Valid()
      ensures Truthy(dto.parentId) && CheckParent(old(orgs), dto.parentId.value).Some? ==>
                r == Err(BadRequest(CheckParent(old(orgs), dto.parentId.value).value))
                && orgs == old(orgs) && nextId == old(nextId)
      ensures !(Truthy(dto.parentId) && CheckParent(old(orgs), dto.parentId.value).Some?) ==>
                && r == Ok(Org(old(nextId), dto.name, if Truthy(dto.parentId) then dto.parentId else None))
                && orgs == old(orgs) + [r.value] && nextId == old(nextId) + 1
      ensures NoGrandchildren(old(orgs)) ==> NoGrandchildren(orgs)
    {
      if Truthy(dto.parentId) {
        var problem := CheckParent(orgs, dto.parentId.value);
        if problem.Some? {
          return Err(BadRequest(problem.value));
        }
      }
      var org := Org(nextId, dto.name, if Truthy(dto.parentId) then dto.parentId else None);
      ghost var before := orgs;
      orgs := orgs + [org];
      nextId := nextId + 1;
      r := Ok(org);
      assert forall k | 0 <= k < |before| :: orgs[k] == before[k];
      if NoGrandchildren(before) {
        forall i, j | 0 <= i < |orgs| && 0 <= j < |orgs| && orgs[i].parent == Some(orgs[j].id)
          ensures orgs[j].parent.None?
        {
          if j < |before| && i == |before| {
            assert FindOne(before, dto.parentId.value).value == before[j];
          }
        }
      }
    }

    /** update: NotFound for an unknown id; a truthy parentId must name an
        existing root other than the organization itself (checked in that
        order); a null or falsy parentId clears the parent, an absent one keeps
        it; the name changes only when it is a non-empty string. */
    method Update(id: int, dto: UpdateOrgDto) returns (r: Result<Org>)
      requires Valid()
      modifies this
      ensures Valid()
      ensures nextId == old(nextId)
      ensures Position(old(orgs), id).None? ==> r == Err(NotFound) && orgs == old(orgs)
      ensures Position(old(orgs), id).Some? && dto.parentId.SetTo? && dto.parentId.id != 0 ==>
        var problem := CheckParent(old(orgs), dto.parentId.id);
        && (problem.Some? ==> r == Err(BadRequest(problem.value)) && orgs == old(orgs))
        && (problem.None? && dto.parentId.id == id ==> r == Err(BadRequest(SelfParent)) && orgs == old(orgs))
      ensures r.Ok? ==>
        var m := Position(old(orgs), id).value;
        var org := old(orgs)[m];
        && r.value == Org(id,
                          if dto.name.Some? && dto.name.value != "" then dto.name.value else org.name,
                          match dto.parentId
                          case Keep => org.parent
                          case Clear => None
                          case SetTo(p) => if p != 0 then Some(p) else None)
        && orgs == old(orgs)[m := r.value]
      ensures r.Err? ==> orgs == old(orgs)
      ensures var rejected := dto.parentId.SetTo? && dto.parentId.id != 0 &&
                              (CheckParent(old(orgs), dto.parentId.id).Some? || dto.parentId.id == id);
              Position(old(orgs), id).Some? && !rejected ==> r.Ok?
    {
      var m := Position(orgs, id);
      if m.None? {
        return Err(NotFound);
      }
      var org := orgs[m.value];
      match dto.parentId {
        case Keep =>
        case Clear =>
          org := org.(parent := None);
        case SetTo(p) =>
          if p != 0 {
            var problem := CheckParent(orgs, p);
            if problem.Some? {
              return Err(BadRequest(problem.value));
            }
            if p == id {
              return Err(BadRequest(SelfParent));
            }
            org := org.(parent := Some(p));
          } else {
            org := org.(parent := None);
          }
      }
      if dto.name.Some? && dto.name.value != "" {
        org := org.(name := dto.name.value);
      }
      ghost var before := orgs;
      orgs := orgs[m.value := org];
      r := Ok(org);
      if org.parent.Some? && dto.parentId.SetTo? {
        var j := Position(before, dto.parentId.id).value;
        assert before[j].id == org.parent.value;
      }
      ReplaceKeepsParentsKnown(before, m.value, org);
    }
  }
}
