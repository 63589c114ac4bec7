/** The records of models.py and the role predicates of its `User` class. */
module Models {
  import opened Basics

  /** A `datetime`, abstracted to a point of a totally ordered time line. */
  type Instant = int

  const RoleAdmin: string := "admin"
  const RoleModerator: string := "moderator"
  const RoleAuditor: string := "auditor"
  const Roles: seq<string> := [RoleAdmin, RoleModerator, RoleAuditor]

  /** An operator account of the manager (not a Plex user). The password hash is
      not modelled. */
  datatype User = User(username: string, role: string)

  /** A freshly created account: the `role` column defaults to the auditor role,
      which may look at everything and change nothing. */
  function NewUser(username: string): (u: User)
    ensures u.username == username && IsAuditor(u)
    ensures !IsAdmin(u) && !IsModerator(u)
    ensures !CanManageUsers(u) && !CanEditSettings(u) && !CanEditLibraries(u) && !CanSyncPlex(u)
  {
    User(username, RoleAuditor)
  }

  predicate HasRole(u: User, role: string) {
    u.role == role
  }

  predicate IsAdmin(u: User) {
    u.role == RoleAdmin
  }

  /** Moderators and admins. */
  predicate IsModerator(u: User) {
    u.role in [RoleAdmin, RoleModerator]
  }

  /** Every account whose role is one of the three known roles. */
  predicate IsAuditor(u: User) {
    u.role in Roles
  }

  predicate CanManageUsers(u: User) {
    IsAdmin(u)
  }

  predicate CanEditLibraries(u: User) {
    IsModerator(u)
  }

  predicate CanSyncPlex(u: User) {
    IsModerator(u)
  }

  predicate CanEditSettings(u: User) {
    IsAdmin(u)
  }

  /** The roles form a chain: admin, then moderator, then auditor. */
  lemma RoleChain(u: User)
    ensures IsAdmin(u) <==> HasRole(u, RoleAdmin)
    ensures IsModerator(u) <==> HasRole(u, RoleAdmin) || HasRole(u, RoleModerator)
    ensures IsAuditor(u) <==> HasRole(u, RoleAdmin) || HasRole(u, RoleModerator) || HasRole(u, RoleAuditor)
    ensures IsAdmin(u) ==> IsModerator(u)
    ensures IsModerator(u) ==> IsAuditor(u)
  {
  }

  /** The capabilities are the two upper levels of the chain. */
  lemma CapabilitiesFollowRoles(u: User)
    ensures CanManageUsers(u) <==> IsAdmin(u)
    ensures CanEditSettings(u) <==> IsAdmin(u)
    ensures CanEditLibraries(u) <==> IsModerator(u)
    ensures CanSyncPlex(u) <==> IsModerator(u)
  {
  }

  /** An auditor is neither admin nor moderator and holds no capability; a
      moderator may edit libraries and sync, but not manage users or settings. */
  lemma RolePrivileges(u: User)
    ensures HasRole(u, RoleAuditor) ==>
      IsAuditor(u) && !IsModerator(u) && !IsAdmin(u) &&
      !CanManageUsers(u) && !CanEditSettings(u) && !CanEditLibraries(u) && !CanSyncPlex(u)
    ensures HasRole(u, RoleModerator) ==>
      IsModerator(u) && !IsAdmin(u) && CanEditLibraries(u) && CanSyncPlex(u) &&
      !CanManageUsers(u) && !CanEditSettings(u)
    ensures HasRole(u, RoleAdmin) ==>
      CanManageUsers(u) && CanEditSettings(u) && CanEditLibraries(u) && CanSyncPlex(u)
  {
  }

  /** A row of the `plex_user` table: a Plex friend known to the manager. */
  datatype PlexUser = PlexUser(id: nat, plexId: string, username: string, email: string, thumb: string)

  /** A row of the `library` table: a section of the Plex server. */
  datatype Library = Library(id: nat, plexKey: string, title: string, kind: string)

  /** A row of the `share` table: the sharing rule for one (user, library) pair.
      The row's own primary key is never read by the core and is not modelled. */
  datatype Share = Share(userId: nat, libraryId: nat, start: Option<Instant>, expiry: Option<Instant>, isActive: bool)
}
