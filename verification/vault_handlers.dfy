/**
 The vault handlers (`controllers/gc-bovedas.js`). Each one resolves the
 caller's role in the target vault and, when the role is not `Dueno` or
 `Admin`, answers 403 without touching the state.
 */
module VaultHandlers {
  import opened Wrappers
  import opened Schema
  import opened Access
  import opened Http
  import VaultStore

  /** The body of `POST /bovedas`. */
  datatype NewVault = NewVault(name: string, kind: Option<VaultKind>, key: Option<Blob>, keyIv: Option<Blob>)

  /** `listarMisBovedas`: no role check, no side effect; the caller's vaults by name. */
  function ListMyVaults(db: Db, uid: UserId): (o: Outcome)
    ensures o.status == Ok && o.db == db
    ensures o.payload.VaultList?
    ensures forall row :: row in o.payload.vaults <==> row.id in db.vaults && row.vault == db.vaults[row.id] && VaultRole(db, row.id, uid).Some?
  {
    Outcome(Ok, VaultList(VaultStore.ListMine(db, uid)), db)
  }

  /** `crearBoveda`: inserts a vault owned by the caller and answers 201 with it. */
  function CreateVault(db: Db, uid: UserId, b: NewVault): (o: Outcome)
    ensures o.status == Created
    ensures o.db.vaults.Keys == db.vaults.Keys + {db.nextVault}
    ensures o.payload == VaultBody(Some(o.db.vaults[db.nextVault]))
    ensures uid != 0 ==> VaultRole(o.db, db.nextVault, uid) == Some(Dueno)
    ensures o.db.members == db.members && o.db.creds == db.creds && o.db.shares == db.shares
    ensures o.db == VaultStore.Create(db, uid, b.name, b.kind, b.key, b.keyIv).1
  {
    var (id, db') := VaultStore.Create(db, uid, b.name, b.kind, b.key, b.keyIv);
    Outcome(Created, VaultBody(VaultStore.Get(db', id)), db')
  }

  /** The gate of every management handler: the caller's role is `Dueno` or `Admin`. */
  predicate Manages(db: Db, v: VaultId, uid: UserId) {
    ManagesVault(VaultRole(db, v, uid))
  }

  /** `actualizarBoveda`: 403 unless the caller manages the vault; else the falsy-keeps update, answered with the vault. */
  function UpdateVault(db: Db, uid: UserId, v: VaultId, f: VaultStore.VaultFields): (o: Outcome)
    ensures o.status == Forbidden <==> !Manages(db, v, uid)
    ensures o.status == Forbidden ==> o.db == db
    ensures o.status != Forbidden ==> o.status == Ok && o.db == VaultStore.Update(db, v, f)
    ensures o.status != Forbidden ==> o.payload == VaultBody(Some(o.db.vaults[v])) && o.db.vaults[v].owner == db.vaults[v].owner
  {
    if !Manages(db, v, uid) then Refuse(db, Forbidden, "Sin permiso para actualizar la bóveda")
    else
      var db' := VaultStore.Update(db, v, f);
      Outcome(Ok, VaultBody(VaultStore.Get(db', v)), db')
  }

  /** `eliminarBoveda`: 403 unless the caller manages the vault; else the vault row is deleted. */
  function DeleteVault(db: Db, uid: UserId, v: VaultId): (o: Outcome)
    ensures o.status == Forbidden <==> !Manages(db, v, uid)
    ensures o.status == Forbidden ==> o.db == db
    ensures o.status != Forbidden ==> o.status == Ok && o.db == VaultStore.Delete(db, v) && v !in o.db.vaults
  {
    if !Manages(db, v, uid) then Refuse(db, Forbidden, "Sin permiso para eliminar la bóveda")
    else Outcome(Ok, Done, VaultStore.Delete(db, v))
  }

  /** `listarMiembros`: 403 unless the caller manages the vault; never changes the state. */
  function ListMembers(db: Db, uid: UserId, v: VaultId): (o: Outcome)
    ensures o.db == db
    ensures o.status == Forbidden <==> !Manages(db, v, uid)
    ensures o.status != Forbidden ==> o.status == Ok && o.payload == MemberList(VaultStore.ListMembers(db, v))
  {
    if !Manages(db, v, uid) then Refuse(db, Forbidden, "Sin permiso para listar miembros")
    else Outcome(Ok, MemberList(VaultStore.ListMembers(db, v)), db)
  }

  /** `agregarMiembro`: 403 unless the caller manages the vault; else upserts the row, `Lector` when no role is given. */
  function AddMember(db: Db, uid: UserId, v: VaultId, user: UserId, role: Option<Role>): (o: Outcome)
    ensures o.status == Forbidden <==> !Manages(db, v, uid)
    ensures o.status == Forbidden ==> o.db == db
    ensures o.status != Forbidden ==> o.status == Created
    ensures o.status != Forbidden ==> o.db == VaultStore.AddMember(db, v, user, if role.Some? then role.value else Lector)
    ensures o.status != Forbidden ==> o.payload == MemberList(VaultStore.ListMembers(o.db, v))
  {
    if !Manages(db, v, uid) then Refuse(db, Forbidden, "Sin permiso para agregar miembros")
    else
      var db' := VaultStore.AddMember(db, v, user, role.GetOr(Lector));
      Outcome(Created, MemberList(VaultStore.ListMembers(db', v)), db')
  }

  /** `eliminarMiembro`: 403 unless the caller manages the vault; else deletes the (v, user) row. */
  function RemoveMember(db: Db, uid: UserId, v: VaultId, user: UserId): (o: Outcome)
    ensures o.status == Forbidden <==> !Manages(db, v, uid)
    ensures o.status == Forbidden ==> o.db == db
    ensures o.status != Forbidden ==> o.status == Ok && o.db == VaultStore.RemoveMember(db, v, user)
  {
    if !Manages(db, v, uid) then Refuse(db, Forbidden, "Sin permiso para eliminar miembros")
    else Outcome(Ok, Done, VaultStore.RemoveMember(db, v, user))
  }

  /** The owner keeps `Dueno` through any member removal, by whoever it is made. */
  lemma RemovalNeverDemotesOwner(db: Db, uid: UserId, v: VaultId, user: UserId, owner: UserId)
    requires v in db.vaults && db.vaults[v].owner == Some(owner)
    ensures VaultRole(RemoveMember(db, uid, v, user).db, v, owner) == Some(Dueno)
  {
    VaultStore.RemoveMemberKeepsOwner(db, v, user, owner);
  }

  /** A vault `Editor` or `Lector`, or an outsider, can neither change nor list the vault's management data. */
  lemma NonManagersAreRefused(db: Db, uid: UserId, v: VaultId, user: UserId, role: Option<Role>, f: VaultStore.VaultFields)
    requires VaultRole(db, v, uid) !in {Some(Dueno), Some(Admin)}
    ensures UpdateVault(db, uid, v, f) == Refuse(db, Forbidden, "Sin permiso para actualizar la bóveda")
    ensures DeleteVault(db, uid, v).status == Forbidden && DeleteVault(db, uid, v).db == db
    ensures ListMembers(db, uid, v).status == Forbidden
    ensures AddMember(db, uid, v, user, role).status == Forbidden && AddMember(db, uid, v, user, role).db == db
    ensures RemoveMember(db, uid, v, user).status == Forbidden && RemoveMember(db, uid, v, user).db == db
  {
  }
}
