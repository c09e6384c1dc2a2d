/**
 The vault store (`GcBoveda`): vault rows and vault membership rows. None of
 these operations checks permissions; the handlers do that first.
 */
module VaultStore {
  import opened Wrappers
  import opened Schema
  import opened Ordering
  import opened Access

  /** A `SELECT b.*` row: the vault with its identifier. */
  datatype VaultRow = VaultRow(id: VaultId, vault: Vault)

  /** A membership row joined with the member's user name and e-mail. */
  datatype MemberRow = MemberRow(vault: VaultId, user: UserId, role: Role, username: string, email: string)

  /** The fields `actualizar` accepts; each may be absent. */
  datatype VaultFields = VaultFields(name: Option<string>, kind: Option<VaultKind>, key: Option<Blob>, keyIv: Option<Blob>)

  function VaultRowName(row: VaultRow): string {
    row.vault.name
  }

  function MemberRowName(row: MemberRow): string {
    row.username
  }

  /**
   `crear`: inserts a vault under the next auto-increment id. A falsy owner id
   is stored as NULL, an absent type as `PERSONAL`, an absent or empty key or
   IV as NULL. Returns the new id with the new state; nothing else changes.
   */
  function Create(db: Db, owner: UserId, name: string, kind: Option<VaultKind>, key: Option<Blob>, keyIv: Option<Blob>)
    : (r: (VaultId, Db))
    ensures r.0 == db.nextVault && r.1.nextVault == db.nextVault + 1
    ensures r.0 in r.1.vaults && r.1.vaults.Keys == db.vaults.Keys + {r.0}
    ensures owner != 0 ==> r.1.vaults[r.0].owner == Some(owner)
    ensures owner == 0 ==> r.1.vaults[r.0].owner.None?
    ensures r.1.vaults[r.0].name == name
    ensures r.1.vaults[r.0].kind == (if kind.Some? then kind.value else Personal)
    ensures Truthy(key) ==> r.1.vaults[r.0].key == key
    ensures !Truthy(key) ==> r.1.vaults[r.0].key.None?
    ensures Truthy(keyIv) ==> r.1.vaults[r.0].keyIv == keyIv
    ensures !Truthy(keyIv) ==> r.1.vaults[r.0].keyIv.None?
    ensures forall v :: v in db.vaults && v != r.0 ==> r.1.vaults[v] == db.vaults[v]
    ensures r.1 == db.(vaults := r.1.vaults, nextVault := r.1.nextVault)
  {
    var id := db.nextVault;
    var vault := Vault(if owner == 0 then None else Some(owner), name, kind.GetOr(Personal), TextOrNull(key), TextOrNull(keyIv));
    (id, db.(vaults := db.vaults[id := vault], nextVault := id + 1))
  }

  /**
   `actualizar`: `COALESCE(x || null, column)` on the name, type, key and IV.
   A truthy value replaces the column, a falsy or absent one keeps it; the
   owner and every other row are untouched, and a missing vault is a no-op.
   */
  function Update(db: Db, v: VaultId, f: VaultFields): (r: Db)
    ensures v !in db.vaults ==> r == db
    ensures r == db.(vaults := r.vaults) && r.vaults.Keys == db.vaults.Keys
    ensures forall w :: w in db.vaults && w != v ==> r.vaults[w] == db.vaults[w]
    ensures v in db.vaults ==> r.vaults[v].owner == db.vaults[v].owner
    ensures v in db.vaults && Truthy(f.name) ==> r.vaults[v].name == f.name.value
    ensures v in db.vaults && !Truthy(f.name) ==> r.vaults[v].name == db.vaults[v].name
    ensures v in db.vaults ==> r.vaults[v].kind == (if f.kind.Some? then f.kind.value else db.vaults[v].kind)
    ensures v in db.vaults && Truthy(f.key) ==> r.vaults[v].key == f.key
    ensures v in db.vaults && !Truthy(f.key) ==> r.vaults[v].key == db.vaults[v].key
    ensures v in db.vaults && Truthy(f.keyIv) ==> r.vaults[v].keyIv == f.keyIv
    ensures v in db.vaults && !Truthy(f.keyIv) ==> r.vaults[v].keyIv == db.vaults[v].keyIv
  {
    if v !in db.vaults then db
    else
      var prior := db.vaults[v];
      var name := TextOrNull(f.name);
      var updated := Vault(
        prior.owner,
        if name.Some? then name.value else prior.name,
        f.kind.GetOr(prior.kind),
        Coalesce(TextOrNull(f.key), prior.key),
        Coalesce(TextOrNull(f.keyIv), prior.keyIv));
      db.(vaults := db.vaults[v := updated])
  }

  /** `eliminar`: deletes the vault row only (cascades of the schema are not modelled). */
  function Delete(db: Db, v: VaultId): (r: Db)
    ensures v !in r.vaults && r.vaults.Keys == db.vaults.Keys - {v}
    ensures forall w :: w in r.vaults ==> r.vaults[w] == db.vaults[w]
    ensures r == db.(vaults := r.vaults)
  {
    db.(vaults := db.vaults - {v})
  }

  /** `obtenerPorId`: the vault row, or null. */
  function Get(db: Db, v: VaultId): (r: Option<Vault>)
    ensures r.Some? <==> v in db.vaults
    ensures r.Some? ==> r.value == db.vaults[v]
  {
    if v in db.vaults then Some(db.vaults[v]) else None
  }

  /** The vaults `u` owns or holds a membership row in. */
  predicate Visible(db: Db, v: VaultId, u: UserId)
    requires v in db.vaults
  {
    db.vaults[v].owner == Some(u) || (v, u) in db.members
  }

  function VaultRowOf(id: VaultId, vault: Vault): VaultRow {
    VaultRow(id, vault)
  }

  function VaultRowId(row: VaultRow): nat {
    row.id
  }

  /**
   `listarMiBovedas`: `SELECT DISTINCT` the vaults `u` owns or is a member of,
   ordered by name; each such vault appears exactly once.
   */
  function ListMine(db: Db, u: UserId): (r: seq<VaultRow>)
    ensures forall row :: row in r <==> row.id in db.vaults && row.vault == db.vaults[row.id] && Visible(db, row.id, u)
    ensures Distinct(r)
    ensures Sorted(r, ByText(VaultRowName))
  {
    var keep := set v | v in db.vaults && Visible(db, v, u);
    ByTextIsTotalPreorder(VaultRowName);
    Select(db.vaults, keep, VaultRowOf, VaultRowId, ByText(VaultRowName))
  }

  /** `row` is the (v, user) membership row joined with an existing user. */
  predicate IsMemberRow(db: Db, v: VaultId, row: MemberRow) {
    && row.vault == v && (v, row.user) in db.members && row.user in db.users
    && row.role == db.members[(v, row.user)]
    && row.username == db.users[row.user].username && row.email == db.users[row.user].email
  }

  /** `gc_boveda_miembro INNER JOIN usuarios` restricted to vault `v`, keyed by user. */
  function MembersOf(db: Db, v: VaultId): (m: map<UserId, (Role, User)>)
    ensures forall x :: x in m <==> (v, x) in db.members && x in db.users
    ensures forall x :: x in m ==> m[x] == (db.members[(v, x)], db.users[x])
  {
    var ids := set k | k in db.members && k.0 == v && k.1 in db.users :: k.1;
    assert forall x :: (v, x) in db.members && x in db.users ==> x in ids by {
      forall x | (v, x) in db.members && x in db.users ensures x in ids {
        var k := (v, x);
        assert k in db.members && k.0 == v && k.1 in db.users;
      }
    }
    map x | x in ids :: (db.members[(v, x)], db.users[x])
  }

  function MemberRowId(row: MemberRow): nat {
    row.user
  }

  /**
   `listarMiembros`: the membership rows of `v` joined with their users,
   ordered by user name. The owner appears only through a row of its own.
   */
  function ListMembers(db: Db, v: VaultId): (r: seq<MemberRow>)
    ensures forall row :: row in r <==> IsMemberRow(db, v, row)
    ensures Distinct(r)
    ensures Sorted(r, ByText(MemberRowName))
  {
    var m := MembersOf(db, v);
    var f := (u: nat, p: (Role, User)) => MemberRow(v, u, p.0, p.1.username, p.1.email);
    ByTextIsTotalPreorder(MemberRowName);
    Select(m, m.Keys, f, MemberRowId, ByText(MemberRowName))
  }

  /**
   `agregarMiembro`: `INSERT ... ON DUPLICATE KEY UPDATE rol`: afterwards the
   one row for (v, u) carries `role`; every other row is unchanged.
   */
  function AddMember(db: Db, v: VaultId, u: UserId, role: Role): (r: Db)
    ensures (v, u) in r.members && r.members[(v, u)] == role
    ensures r.members.Keys == db.members.Keys + {(v, u)}
    ensures forall k :: k in db.members && k != (v, u) ==> r.members[k] == db.members[k]
    ensures r == db.(members := r.members)
  {
    db.(members := db.members[(v, u) := role])
  }

  /** `eliminarMiembro`: deletes the (v, u) row, if any; every other row is unchanged. */
  function RemoveMember(db: Db, v: VaultId, u: UserId): (r: Db)
    ensures (v, u) !in r.members && r.members.Keys == db.members.Keys - {(v, u)}
    ensures forall k :: k in r.members ==> r.members[k] == db.members[k]
    ensures r == db.(members := r.members)
  {
    db.(members := db.members - {(v, u)})
  }

  // ---------------------------------------------------------------------------
  // Properties relating the store to the access resolver.

  /** The creator of a vault is its `Dueno`; when the state is valid, nobody else has a role in it. */
  lemma CreatorIsDueno(db: Db, owner: UserId, name: string, kind: Option<VaultKind>, key: Option<Blob>, keyIv: Option<Blob>, other: UserId)
    requires Valid(db) && owner != 0 && other != owner
    ensures var (id, db') := Create(db, owner, name, kind, key, keyIv);
            VaultRole(db', id, owner) == Some(Dueno) && VaultRole(db', id, other).None?
  {
    var (id, db') := Create(db, owner, name, kind, key, keyIv);
    assert (id, other) !in db.members;
  }

  /** Updating a vault never changes anyone's role in any vault. */
  lemma UpdateKeepsRoles(db: Db, v: VaultId, f: VaultFields, w: VaultId, u: UserId)
    ensures VaultRole(Update(db, v, f), w, u) == VaultRole(db, w, u)
  {
  }

  /** Applying the same update twice is the same as applying it once. */
  lemma UpdateIdempotent(db: Db, v: VaultId, f: VaultFields)
    ensures Update(Update(db, v, f), v, f) == Update(db, v, f)
  {
  }

  /** An update whose every field is falsy changes nothing. */
  lemma FalsyUpdateIsNoOp(db: Db, v: VaultId, f: VaultFields)
    requires !Truthy(f.name) && f.kind.None? && !Truthy(f.key) && !Truthy(f.keyIv)
    ensures Update(db, v, f) == db
  {
    if v in db.vaults {
      assert Update(db, v, f).vaults[v] == db.vaults[v];
      assert Update(db, v, f).vaults == db.vaults;
    }
  }

  /** After deleting a vault it is absent and every user's role in it is none. */
  lemma DeleteRevokesAllRoles(db: Db, v: VaultId, u: UserId)
    ensures Get(Delete(db, v), v).None?
    ensures VaultRole(Delete(db, v), v, u).None?
  {
  }

  /** A vault is listed for `u` exactly when `u` has a role in it. */
  lemma ListedIffHasRole(db: Db, u: UserId, v: VaultId)
    requires v in db.vaults
    ensures VaultRow(v, db.vaults[v]) in ListMine(db, u) <==> VaultRole(db, v, u).Some?
  {
  }

  /** Re-adding a member with the role it already has changes nothing. */
  lemma AddSameRoleIsNoOp(db: Db, v: VaultId, u: UserId)
    requires (v, u) in db.members
    ensures AddMember(db, v, u, db.members[(v, u)]) == db
  {
  }

  /** Adding twice leaves the second role in the one (v, u) row; adding the same role twice equals adding it once. */
  lemma AddMemberTwice(db: Db, v: VaultId, u: UserId, first: Role, second: Role)
    ensures AddMember(AddMember(db, v, u, first), v, u, second) == AddMember(db, v, u, second)
  {
  }

  /** Removing any membership row, the owner's own stray row included, leaves the owner `Dueno`. */
  lemma RemoveMemberKeepsOwner(db: Db, v: VaultId, x: UserId, owner: UserId)
    requires v in db.vaults && db.vaults[v].owner == Some(owner)
    ensures VaultRole(RemoveMember(db, v, x), v, owner) == Some(Dueno)
  {
  }

  /** Removing (v, x) changes only `x`'s role in `v`; adding (v, x) likewise. */
  lemma MembershipChangesAreLocal(db: Db, v: VaultId, x: UserId, role: Role, w: VaultId, u: UserId)
    requires (w, u) != (v, x)
    ensures VaultRole(RemoveMember(db, v, x), w, u) == VaultRole(db, w, u)
    ensures VaultRole(AddMember(db, v, x, role), w, u) == VaultRole(db, w, u)
  {
  }

  /** The owner appears among the members only through a membership row of its own. */
  lemma OwnerListedOnlyWithRow(db: Db, v: VaultId, row: MemberRow)
    requires row in ListMembers(db, v)
    ensures (v, row.user) in db.members
  {
  }
}
