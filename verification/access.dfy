/**
 The access resolver: the caller's role in a vault and the read and write
 decisions on a credential, computed from the vault's owner column, the
 membership table and the active share rows. Alongside it, the role lattice
 the decisions are meant to follow, and the lemmas tying the two together.
 */
module Access {
  import opened Wrappers
  import opened Schema

  /**
   The `rol` column of one row of `gc_bovedas LEFT JOIN gc_boveda_miembro`:
   `CASE WHEN owner = uid THEN 'DUENO' ELSE bm.rol END`. A NULL owner never
   equals the caller, so the membership column decides.
   */
  function RoleColumn(vault: Vault, member: Option<Role>, u: UserId): Option<Role> {
    if vault.owner == Some(u) then Some(Dueno) else member
  }

  /** The result rows of the role query for vault `v` and caller `u`: none when the vault is missing. */
  function RoleRows(db: Db, v: VaultId, u: UserId): seq<Option<Role>> {
    if v !in db.vaults then []
    else [RoleColumn(db.vaults[v], if (v, u) in db.members then Some(db.members[(v, u)]) else None, u)]
  }

  /**
   The caller's role in a vault (`rows[0]?.rol || null`): `Dueno` for the
   recorded owner whatever membership row exists, otherwise the role of the
   caller's membership row, otherwise none. A membership row may itself carry
   `Dueno`.
   */
  function VaultRole(db: Db, v: VaultId, u: UserId): (r: Option<Role>)
    ensures v in db.vaults && db.vaults[v].owner == Some(u) ==> r == Some(Dueno)
    ensures v in db.vaults && db.vaults[v].owner != Some(u) && (v, u) in db.members ==> r == Some(db.members[(v, u)])
    ensures r.None? <==> v !in db.vaults || (db.vaults[v].owner != Some(u) && (v, u) !in db.members)
  {
    var rows := RoleRows(db, v, u);
    if |rows| == 0 then None else rows[0]
  }

  /** The role column of the caller's ACTIVA share row (`SELECT rol ... AND estado = 'ACTIVA'`). */
  function ActiveShareRole(db: Db, c: CredId, u: UserId): Option<ShareRole> {
    if (c, u) in db.shares && db.shares[(c, u)].status == Activa then Some(db.shares[(c, u)].role) else None
  }

  predicate HasActiveShare(db: Db, c: CredId, u: UserId) {
    (c, u) in db.shares && db.shares[(c, u)].status == Activa
  }

  /** `tieneLecturaCredencial`: no access to a missing credential; any vault role reads; else an ACTIVA share of either role. */
  function CanRead(db: Db, c: CredId, u: UserId): (ok: bool)
    ensures c !in db.creds ==> !ok
    ensures c in db.creds && VaultRole(db, db.creds[c].vault, u).Some? ==> ok
    ensures c in db.creds && VaultRole(db, db.creds[c].vault, u).None? ==> (ok <==> HasActiveShare(db, c, u))
  {
    if c !in db.creds then false
    else if VaultRole(db, db.creds[c].vault, u).Some? then true
    else ActiveShareRole(db, c, u).Some?
  }

  /** The vault roles that edit: `DUENO`, `ADMIN`, `EDITOR`. */
  predicate EditsVault(r: Option<Role>) {
    r == Some(Dueno) || r == Some(Admin) || r == Some(Editor)
  }

  /** The vault roles that manage the vault and its shares: `DUENO`, `ADMIN`. */
  predicate ManagesVault(r: Option<Role>) {
    r == Some(Dueno) || r == Some(Admin)
  }

  /** `tieneEscrituraCredencial`: an editing vault role, or an ACTIVA share whose role is `EDITOR`. */
  function CanWrite(db: Db, c: CredId, u: UserId): (ok: bool)
    ensures ok <==> c in db.creds
                    && (EditsVault(VaultRole(db, db.creds[c].vault, u))
                        || (HasActiveShare(db, c, u) && db.shares[(c, u)].role == Editor))
  {
    if c !in db.creds then false
    else
      var rol := VaultRole(db, db.creds[c].vault, u);
      if rol == Some(Dueno) || rol == Some(Admin) || rol == Some(Editor) then true
      else ActiveShareRole(db, c, u) == Some(Editor)
  }

  // ---------------------------------------------------------------------------
  // The role lattice: what each role and each share is meant to allow.

  datatype Permission = View | Modify | CreateIn | Manage | Grant

  function Rank(r: Role): nat {
    match r
    case Dueno => 4
    case Admin => 3
    case Editor => 2
    case Lector => 1
  }

  /** Every vault role views; from `Editor` up it modifies and creates; from `Admin` up it manages and grants shares. */
  function RolePermissions(r: Role): set<Permission> {
    {View}
    + (if Rank(r) >= Rank(Editor) then {Modify, CreateIn} else {})
    + (if Rank(r) >= Rank(Admin) then {Manage, Grant} else {})
  }

  /** A share views, and an `Editor` share also modifies; no share manages or grants. */
  function SharePermissions(r: ShareRole): set<Permission> {
    {View} + (if r == Editor then {Modify} else {})
  }

  /** What the caller may do with one credential: its vault role's permissions joined with its active share's. */
  function CredentialPermissions(db: Db, c: CredId, u: UserId): set<Permission> {
    if c !in db.creds then {}
    else
      (match VaultRole(db, db.creds[c].vault, u)
       case None => {}
       case Some(r) => RolePermissions(r))
      + (match ActiveShareRole(db, c, u)
         case None => {}
         case Some(s) => SharePermissions(s))
  }

  /** A stronger role allows everything a weaker one does. */
  lemma RolePermissionsMonotone(a: Role, b: Role)
    requires Rank(a) <= Rank(b)
    ensures RolePermissions(a) <= RolePermissions(b)
  {
  }

  /** The read decision is exactly the lattice's `View`. */
  lemma CanReadIsView(db: Db, c: CredId, u: UserId)
    ensures CanRead(db, c, u) <==> View in CredentialPermissions(db, c, u)
  {
  }

  /** The write decision is exactly the lattice's `Modify`. */
  lemma CanWriteIsModify(db: Db, c: CredId, u: UserId)
    ensures CanWrite(db, c, u) <==> Modify in CredentialPermissions(db, c, u)
  {
  }

  /** Creating in a vault needs `CreateIn`; managing the vault or its shares needs `Manage` and `Grant`. */
  lemma VaultGatesAreLattice(r: Role)
    ensures EditsVault(Some(r)) <==> CreateIn in RolePermissions(r)
    ensures ManagesVault(Some(r)) <==> Manage in RolePermissions(r)
    ensures ManagesVault(Some(r)) <==> Grant in RolePermissions(r)
  {
  }

  /** Write access implies read access, for every credential and user. */
  lemma {:induction false} WriteImpliesRead(db: Db, c: CredId, u: UserId)
    ensures CanWrite(db, c, u) ==> CanRead(db, c, u)
  {
    CanWriteIsModify(db, c, u);
    CanReadIsView(db, c, u);
  }

  /** Only the vault role can grant shares: no share ever contributes `Grant`. */
  lemma GrantComesFromVaultRole(db: Db, c: CredId, u: UserId)
    requires Grant in CredentialPermissions(db, c, u)
    ensures c in db.creds && ManagesVault(VaultRole(db, db.creds[c].vault, u))
  {
  }

  /** Without a vault role, a `REVOCADA` share (or no share) grants neither read nor write. */
  lemma RevokedShareGrantsNothing(db: Db, c: CredId, u: UserId)
    requires c in db.creds && VaultRole(db, db.creds[c].vault, u).None?
    requires (c, u) !in db.shares || db.shares[(c, u)].status == Revocada
    ensures !CanRead(db, c, u) && !CanWrite(db, c, u)
  {
  }

  /** Without an editing vault role, an ACTIVA `LECTOR` share reads but never writes. */
  lemma ReaderShareNeverWrites(db: Db, c: CredId, u: UserId)
    requires c in db.creds && !EditsVault(VaultRole(db, db.creds[c].vault, u))
    requires (c, u) in db.shares && db.shares[(c, u)] == Share(Lector, Activa)
    ensures CanRead(db, c, u) && !CanWrite(db, c, u)
  {
  }

  /** A vault `LECTOR` with an ACTIVA `EDITOR` share writes that credential. */
  lemma ReaderMemberWithEditorShareWrites(db: Db, c: CredId, u: UserId)
    requires c in db.creds && VaultRole(db, db.creds[c].vault, u) == Some(Lector)
    requires (c, u) in db.shares && db.shares[(c, u)] == Share(Editor, Activa)
    ensures CanWrite(db, c, u)
  {
  }

  /** The owner column dominates: the owner is `Dueno` whatever its own membership row says. */
  lemma OwnerDominatesMembership(db: Db, v: VaultId, u: UserId, r: Role)
    requires v in db.vaults && db.vaults[v].owner == Some(u)
    ensures VaultRole(db.(members := db.members[(v, u) := r]), v, u) == Some(Dueno)
  {
  }

  /** A non-owner membership row carrying `Dueno` resolves to `Dueno`, as the member validator allows. */
  lemma MemberRowMayCarryDueno(db: Db, v: VaultId, u: UserId)
    requires v in db.vaults && db.vaults[v].owner != Some(u)
    ensures VaultRole(db.(members := db.members[(v, u) := Dueno]), v, u) == Some(Dueno)
  {
  }
}
