/**
 The relational state of the password vault: vaults and their memberships,
 credentials with their shares, tag and folder links, attachments and the
 rotation history, together with the user, tag and folder tables the listings
 join against. Ciphertexts and their IVs are opaque text.
 */
module Schema {
  import opened Wrappers

  type UserId = nat
  type VaultId = nat
  type CredId = nat
  type TagId = nat
  type FolderId = nat
  type AttachmentId = nat
  type HistoryId = nat

  /** Ciphertext, IV or other encoded payload, passed through unchanged. */
  type Blob = string

  /** Vault roles, strongest first. */
  datatype Role = Dueno | Admin | Editor | Lector

  /** The roles a credential can be shared with. */
  type ShareRole = r: Role | r == Editor || r == Lector witness Lector

  datatype ShareStatus = Activa | Revocada

  datatype VaultKind = Personal | Compartida

  datatype Breach = Ninguna | Sospecha | Confirmada

  /** A `gc_bovedas` row; `owner` is NULL when it was stored from a falsy user id. */
  datatype Vault = Vault(
    owner: Option<UserId>,
    name: string,
    kind: VaultKind,
    key: Option<Blob>,
    keyIv: Option<Blob>)

  /** A `gc_credenciales` row. */
  datatype Credential = Credential(
    vault: VaultId,
    title: string,
    account: Option<string>,
    url: Option<string>,
    secret: Blob,
    secretIv: Blob,
    notes: Option<Blob>,
    notesIv: Option<Blob>,
    totp: Option<Blob>,
    totpIv: Option<Blob>,
    score: Option<int>,
    breach: Breach,
    expires: Option<string>)

  /** A `gc_credencial_compartida` row, keyed by (credential, user). */
  datatype Share = Share(role: ShareRole, status: ShareStatus)

  /** A `gc_adjuntos_credencial` row; `created` is the insertion time stamp. */
  datatype Attachment = Attachment(
    cred: CredId,
    fileName: string,
    mime: Option<string>,
    content: Blob,
    contentIv: Blob,
    size: Option<int>,
    created: int)

  /** A `gc_historial_contrasenas_item` row; `data` stands for its other columns. */
  datatype HistoryEntry = HistoryEntry(cred: CredId, rotated: int, data: Blob)

  datatype User = User(username: string, email: string)

  datatype Tag = Tag(name: string)

  datatype Folder = Folder(name: string)

  /**
   The whole database. The `next*` counters are the auto-increment values the
   next insert into the vault, credential and attachment tables receives.
   */
  datatype Db = Db(
    users: map<UserId, User>,
    tags: map<TagId, Tag>,
    folders: map<FolderId, Folder>,
    vaults: map<VaultId, Vault>,
    members: map<(VaultId, UserId), Role>,
    creds: map<CredId, Credential>,
    shares: map<(CredId, UserId), Share>,
    tagLinks: set<(CredId, TagId)>,
    folderLinks: set<(CredId, FolderId)>,
    attachments: map<AttachmentId, Attachment>,
    history: map<HistoryId, HistoryEntry>,
    nextVault: VaultId,
    nextCred: CredId,
    nextAttachment: AttachmentId)

  /**
   What every reachable state satisfies: auto-increment counters lie above
   every key they issued, rows that refer to a vault or credential refer to one
   that was issued, and no credential records a security score of 0 (the
   stores write a 0 score as NULL).
   */
  ghost predicate Valid(db: Db) {
    && (forall v :: v in db.vaults ==> v < db.nextVault)
    && (forall k :: k in db.members ==> k.0 < db.nextVault)
    && (forall c :: c in db.creds ==> c < db.nextCred && db.creds[c].score != Some(0))
    && (forall k :: k in db.shares ==> k.0 < db.nextCred)
    && (forall k :: k in db.tagLinks ==> k.0 < db.nextCred)
    && (forall k :: k in db.folderLinks ==> k.0 < db.nextCred)
    && (forall a :: a in db.attachments ==> a < db.nextAttachment && db.attachments[a].cred < db.nextCred)
  }

  /** A text value JavaScript treats as true: present and not empty. */
  predicate Truthy(x: Option<string>) {
    x.Some? && x.value != ""
  }

  /** JavaScript `x || null` on a text value: absent and empty both give NULL. */
  function TextOrNull(x: Option<string>): Option<string> {
    if Truthy(x) then x else None
  }

  /** JavaScript `x || null` on a number: absent and 0 both give NULL. */
  function NumberOrNull(x: Option<int>): Option<int> {
    if TruthyNumber(x) then x else None
  }

  /** The column `x || null` stores on insert: the text when truthy, NULL otherwise. */
  predicate StoredOrNull(column: Option<string>, x: Option<string>) {
    (Truthy(x) ==> column == x) && (!Truthy(x) ==> column.None?)
  }

  /** The nullable column `COALESCE(x || null, column)` leaves: the text when truthy, the prior value otherwise. */
  predicate UpdatedOrKept(column: Option<string>, x: Option<string>, prior: Option<string>) {
    if Truthy(x) then column == x else column == prior
  }

  /** A number JavaScript treats as true: present and not 0. */
  predicate TruthyNumber(x: Option<int>) {
    x.Some? && x.value != 0
  }

  /** SQL `COALESCE(x, column)` on a nullable column. */
  function Coalesce<T>(x: Option<T>, column: Option<T>): Option<T> {
    if x.Some? then x else column
  }
}
