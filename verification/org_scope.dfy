/** The organization-scope policy: whether a caller with a role in one
    organization may act on a target organization. The direct-child lookup is
    injected and optional. */
module OrgScope {
  import opened Domain

  /** isOrgWithinScope; `isChild` is the optional `isChildOrgFn(parentId, childId)`. */
  function IsOrgWithinScope(role: Role, userOrgId: int, targetOrgId: int,
                            isChild: Option<(int, int) -> bool>): bool
  {
    match role
    case Owner => true
    case Admin =>
      if targetOrgId == userOrgId then true
      else (match isChild
        case Some(f) => f(userOrgId, targetOrgId)
        case None => false)
    case Viewer => targetOrgId == userOrgId
    case Other(_) => false
  }

  lemma OwnerReachesEveryOrg(userOrgId: int, targetOrgId: int, isChild: Option<(int, int) -> bool>)
    ensures IsOrgWithinScope(Owner, userOrgId, targetOrgId, isChild)
  {
  }

  /** An Admin reaches its own org whatever the oracle says (it is not consulted). */
  lemma AdminOwnOrgIgnoresOracle(userOrgId: int, isChild: Option<(int, int) -> bool>)
    ensures IsOrgWithinScope(Admin, userOrgId, userOrgId, isChild)
  {
  }

  /** For another org, an Admin gets exactly the oracle's answer for
      (parent = own org, child = target), and is refused without an oracle. */
  lemma AdminOtherOrgAsksOracle(userOrgId: int, targetOrgId: int, isChild: Option<(int, int) -> bool>)
    requires targetOrgId != userOrgId
    ensures IsOrgWithinScope(Admin, userOrgId, targetOrgId, isChild) ==
            (isChild.Some? && isChild.value(userOrgId, targetOrgId))
  {
  }

  lemma ViewerOnlyOwnOrg(userOrgId: int, targetOrgId: int, isChild: Option<(int, int) -> bool>)
    ensures IsOrgWithinScope(Viewer, userOrgId, targetOrgId, isChild) <==> targetOrgId == userOrgId
  {
  }

  /** Any role outside the three is refused (fail closed). */
  lemma UnknownRoleRefused(name: string, userOrgId: int, targetOrgId: int, isChild: Option<(int, int) -> bool>)
    ensures !IsOrgWithinScope(Other(name), userOrgId, targetOrgId, isChild)
  {
  }

  /** The roles are nested: whatever a Viewer reaches an Admin reaches, and
      whatever an Admin reaches an Owner reaches. */
  lemma ScopesAreNested(userOrgId: int, targetOrgId: int, isChild: Option<(int, int) -> bool>)
    ensures IsOrgWithinScope(Viewer, userOrgId, targetOrgId, isChild) ==>
            IsOrgWithinScope(Admin, userOrgId, targetOrgId, isChild)
    ensures IsOrgWithinScope(Admin, userOrgId, targetOrgId, isChild) ==>
            IsOrgWithinScope(Owner, userOrgId, targetOrgId, isChild)
  {
  }
}
