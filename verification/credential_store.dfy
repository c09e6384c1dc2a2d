/**
 The credential store (`GcCredencial`): credentials, their tag and folder
 links, shares, attachments and rotation history. None of these operations
 checks permissions; the handlers do that first.
 */
module CredentialStore {
  import opened Wrappers
  import opened Schema
  import opened Ordering
  import opened Access

  /** The body `crear` inserts; the id, title, secret and its IV are required by the route. */
  datatype NewCredential = NewCredential(
    vault: VaultId,
    title: string,
    account: Option<string>,
    url: Option<string>,
    secret: Blob,
    secretIv: Blob,
    notes: Option<Blob>,
    notesIv: Option<Blob>,
    totp: Option<Blob>,
    totpIv: Option<Blob>,
    score: Option<int>,
    breach: Option<Breach>,
    expires: Option<string>)

  /** The body `actualizar` applies; every field may be absent. */
  datatype CredentialFields = CredentialFields(
    vault: Option<VaultId>,
    title: Option<string>,
    account: Option<string>,
    url: Option<string>,
    secret: Option<Blob>,
    secretIv: Option<Blob>,
    notes: Option<Blob>,
    notesIv: Option<Blob>,
    totp: Option<Blob>,
    totpIv: Option<Blob>,
    score: Option<int>,
    breach: Option<Breach>,
    expires: Option<string>)

  /** The body `agregarAdjunto` inserts. */
  datatype NewAttachment = NewAttachment(
    cred: CredId,
    fileName: string,
    mime: Option<string>,
    content: Blob,
    contentIv: Blob,
    size: Option<int>)

  datatype CredentialRow = CredentialRow(id: CredId, cred: Credential)
  datatype TagRow = TagRow(id: TagId, tag: Tag)
  datatype FolderRow = FolderRow(id: FolderId, folder: Folder)
  datatype ShareRow = ShareRow(cred: CredId, user: UserId, role: ShareRole, status: ShareStatus, username: string, email: string)
  datatype AttachmentRow = AttachmentRow(id: AttachmentId, attachment: Attachment)
  /** The columns `listarAdjuntos` selects: metadata only, never the content or its IV. */
  datatype AttachmentMeta = AttachmentMeta(id: AttachmentId, fileName: string, mime: Option<string>, size: Option<int>, created: int)
  datatype HistoryRow = HistoryRow(id: HistoryId, entry: HistoryEntry)

  /** One page of a listing together with the count of the whole listing. */
  datatype PageOf<T> = PageOf(items: seq<T>, total: nat)

  // ---------------------------------------------------------------------------
  // Credentials

  /**
   `crear`: inserts under the next auto-increment id. Optional text columns
   store NULL when falsy, a 0 or absent score stores NULL, and an absent
   breach state stores `NINGUNA`.
   */
  function Create(db: Db, b: NewCredential): (r: (CredId, Db))
    ensures r.0 == db.nextCred && r.1.nextCred == db.nextCred + 1
    ensures r.0 in r.1.creds && r.1.creds.Keys == db.creds.Keys + {r.0}
    ensures forall c :: c in db.creds && c != r.0 ==> r.1.creds[c] == db.creds[c]
    ensures r.1 == db.(creds := r.1.creds, nextCred := r.1.nextCred)
    ensures var s := r.1.creds[r.0];
            && s.vault == b.vault && s.title == b.title && s.secret == b.secret && s.secretIv == b.secretIv
            && StoredOrNull(s.account, b.account) && StoredOrNull(s.url, b.url)
            && StoredOrNull(s.notes, b.notes) && StoredOrNull(s.notesIv, b.notesIv)
            && StoredOrNull(s.totp, b.totp) && StoredOrNull(s.totpIv, b.totpIv)
            && StoredOrNull(s.expires, b.expires)
            && (TruthyNumber(b.score) ==> s.score == b.score)
            && (!TruthyNumber(b.score) ==> s.score.None?)
            && s.breach == (if b.breach.Some? then b.breach.value else Ninguna)
  {
    var id := db.nextCred;
    var stored := Credential(
      b.vault, b.title, TextOrNull(b.account), TextOrNull(b.url), b.secret, b.secretIv,
      TextOrNull(b.notes), TextOrNull(b.notesIv), TextOrNull(b.totp), TextOrNull(b.totpIv),
      NumberOrNull(b.score), b.breach.GetOr(Ninguna), TextOrNull(b.expires));
    (id, db.(creds := db.creds[id := stored], nextCred := id + 1))
  }

  function TextOr(x: Option<string>, prior: string): string {
    if Truthy(x) then x.value else prior
  }

  /**
   `actualizar`: every column is `COALESCE(x || null, column)`. A truthy value
   replaces the column; an absent, empty, 0 (score, vault id) value keeps it,
   so a score can never be set to 0. The vault id may change. A missing
   credential is a no-op.
   */
  function Update(db: Db, c: CredId, f: CredentialFields): (r: Db)
    ensures c !in db.creds ==> r == db
    ensures r == db.(creds := r.creds) && r.creds.Keys == db.creds.Keys
    ensures forall d :: d in db.creds && d != c ==> r.creds[d] == db.creds[d]
    ensures c in db.creds ==>
            var s, p := r.creds[c], db.creds[c];
            && s.vault == (if f.vault.Some? && f.vault.value != 0 then f.vault.value else p.vault)
            && s.title == (if Truthy(f.title) then f.title.value else p.title)
            && s.secret == (if Truthy(f.secret) then f.secret.value else p.secret)
            && s.secretIv == (if Truthy(f.secretIv) then f.secretIv.value else p.secretIv)
            && UpdatedOrKept(s.account, f.account, p.account) && UpdatedOrKept(s.url, f.url, p.url)
            && UpdatedOrKept(s.notes, f.notes, p.notes) && UpdatedOrKept(s.notesIv, f.notesIv, p.notesIv)
            && UpdatedOrKept(s.totp, f.totp, p.totp) && UpdatedOrKept(s.totpIv, f.totpIv, p.totpIv)
            && UpdatedOrKept(s.expires, f.expires, p.expires)
            && s.score == (if TruthyNumber(f.score) then f.score else p.score)
            && s.breach == (if f.breach.Some? then f.breach.value else p.breach)
  {
    if c !in db.creds then db
    else
      var p := db.creds[c];
      var vault := if f.vault.Some? && f.vault.value != 0 then f.vault.value else p.vault;
      var s := Credential(
        vault, TextOr(f.title, p.title),
        Coalesce(TextOrNull(f.account), p.account), Coalesce(TextOrNull(f.url), p.url),
        TextOr(f.secret, p.secret), TextOr(f.secretIv, p.secretIv),
        Coalesce(TextOrNull(f.notes), p.notes), Coalesce(TextOrNull(f.notesIv), p.notesIv),
        Coalesce(TextOrNull(f.totp), p.totp), Coalesce(TextOrNull(f.totpIv), p.totpIv),
        Coalesce(NumberOrNull(f.score), p.score), f.breach.GetOr(p.breach),
        Coalesce(TextOrNull(f.expires), p.expires));
      db.(creds := db.creds[c := s])
  }

  /** `eliminar`: deletes the credential row only (cascades of the schema are not modelled). */
  function Delete(db: Db, c: CredId): (r: Db)
    ensures c !in r.creds && r.creds.Keys == db.creds.Keys - {c}
    ensures forall d :: d in r.creds ==> r.creds[d] == db.creds[d]
    ensures r == db.(creds := r.creds)
  {
    db.(creds := db.creds - {c})
  }

  /** `obtenerPorId`: the credential row, or null. */
  function Get(db: Db, c: CredId): (r: Option<Credential>)
    ensures r.Some? <==> c in db.creds
    ensures r.Some? ==> r.value == db.creds[c]
  {
    if c in db.creds then Some(db.creds[c]) else None
  }

  function CredentialRowOf(id: nat, cred: Credential): CredentialRow {
    CredentialRow(id, cred)
  }

  function CredentialRowId(row: CredentialRow): nat {
    row.id
  }

  function CredentialRowTitle(row: CredentialRow): string {
    row.cred.title
  }

  /** `text` contains `q` as a contiguous piece (the `LIKE '%q%'` filter, without wildcards). */
  predicate Contains(text: string, q: string)
    decreases |text|
  {
    q <= text || (|text| > 0 && Contains(text[1..], q))
  }

  /** The ids of the credentials of vault `v` passing `keep` (the `WHERE` clause). */
  function IdsWhere(db: Db, v: VaultId, keep: Credential -> bool): (s: set<CredId>)
    ensures forall c :: c in s <==> c in db.creds && db.creds[c].vault == v && keep(db.creds[c])
  {
    set c | c in db.creds && db.creds[c].vault == v && keep(db.creds[c])
  }

  /** Every credential of vault `v` passing `keep`, ordered by title: the unpaged listing. */
  function CredentialsWhere(db: Db, v: VaultId, keep: Credential -> bool): (r: seq<CredentialRow>)
    ensures forall row :: row in r <==> row.id in db.creds && row.cred == db.creds[row.id] && row.cred.vault == v && keep(row.cred)
    ensures Distinct(r)
    ensures Sorted(r, ByText(CredentialRowTitle))
    ensures |r| == |IdsWhere(db, v, keep)|
  {
    var ids := IdsWhere(db, v, keep);
    assert ids * db.creds.Keys == ids;
    ByTextIsTotalPreorder(CredentialRowTitle);
    Select(db.creds, ids, CredentialRowOf, CredentialRowId, ByText(CredentialRowTitle))
  }

  function AnyCredential(c: Credential): bool {
    true
  }

  function UrlContains(q: string): Credential -> bool {
    (c: Credential) => c.url.Some? && Contains(c.url.value, q)
  }

  /**
   `listarPorBoveda`: page `page` (from 1) of `limit` credentials of the vault
   in title order, at offset `(page - 1) * limit`, with the vault's full count.
   */
  function ListByVault(db: Db, v: VaultId, page: nat, limit: nat): (r: PageOf<CredentialRow>)
    requires page >= 1
    ensures |r.items| <= limit
    ensures r.items == Page(CredentialsWhere(db, v, AnyCredential), PageOffset(page, limit), limit)
    ensures r.total == |IdsWhere(db, v, AnyCredential)|
  {
    var all := CredentialsWhere(db, v, AnyCredential);
    PageOf(Page(all, PageOffset(page, limit), limit), |all|)
  }

  /**
   `buscarPorUrl`: like `ListByVault`, restricted to credentials whose URL
   contains `q`; a NULL URL never matches.
   */
  function SearchByUrl(db: Db, v: VaultId, q: string, page: nat, limit: nat): (r: PageOf<CredentialRow>)
    requires page >= 1
    ensures |r.items| <= limit
    ensures r.items == Page(CredentialsWhere(db, v, UrlContains(q)), PageOffset(page, limit), limit)
    ensures r.total == |IdsWhere(db, v, UrlContains(q))|
  {
    var all := CredentialsWhere(db, v, UrlContains(q));
    PageOf(Page(all, PageOffset(page, limit), limit), |all|)
  }

  // ---------------------------------------------------------------------------
  // Tags and folders

  /** `asignarEtiqueta`: an idempotent set insert of the (credential, tag) link. */
  function AssignTag(db: Db, c: CredId, t: TagId): (r: Db)
    ensures r.tagLinks == db.tagLinks + {(c, t)}
    ensures r == db.(tagLinks := r.tagLinks)
  {
    db.(tagLinks := db.tagLinks + {(c, t)})
  }

  /** `quitarEtiqueta`: removes exactly the (credential, tag) link. */
  function UnassignTag(db: Db, c: CredId, t: TagId): (r: Db)
    ensures r.tagLinks == db.tagLinks - {(c, t)}
    ensures r == db.(tagLinks := r.tagLinks)
  {
    db.(tagLinks := db.tagLinks - {(c, t)})
  }

  function TagRowOf(id: nat, tag: Tag): TagRow {
    TagRow(id, tag)
  }

  function TagRowId(row: TagRow): nat {
    row.id
  }

  function TagRowName(row: TagRow): string {
    row.tag.name
  }

  /** `listarEtiquetas`: the tags linked to `c` that exist, ordered by name. */
  function ListTags(db: Db, c: CredId): (r: seq<TagRow>)
    ensures forall row :: row in r <==> (c, row.id) in db.tagLinks && row.id in db.tags && row.tag == db.tags[row.id]
    ensures Distinct(r)
    ensures Sorted(r, ByText(TagRowName))
  {
    var ids := set k | k in db.tagLinks && k.0 == c :: k.1;
    assert forall t :: (c, t) in db.tagLinks ==> t in ids by {
      forall t | (c, t) in db.tagLinks ensures t in ids {
        var k := (c, t);
        assert k in db.tagLinks && k.0 == c;
      }
    }
    ByTextIsTotalPreorder(TagRowName);
    Select(db.tags, ids, TagRowOf, TagRowId, ByText(TagRowName))
  }

  /** `asignarCarpeta`: an idempotent set insert of the (credential, folder) link. */
  function AssignFolder(db: Db, c: CredId, f: FolderId): (r: Db)
    ensures r.folderLinks == db.folderLinks + {(c, f)}
    ensures r == db.(folderLinks := r.folderLinks)
  {
    db.(folderLinks := db.folderLinks + {(c, f)})
  }

  /** `quitarCarpeta`: removes exactly the (credential, folder) link. */
  function UnassignFolder(db: Db, c: CredId, f: FolderId): (r: Db)
    ensures r.folderLinks == db.folderLinks - {(c, f)}
    ensures r == db.(folderLinks := r.folderLinks)
  {
    db.(folderLinks := db.folderLinks - {(c, f)})
  }

  function FolderRowOf(id: nat, folder: Folder): FolderRow {
    FolderRow(id, folder)
  }

  function FolderRowId(row: FolderRow): nat {
    row.id
  }

  function FolderRowName(row: FolderRow): string {
    row.folder.name
  }

  /** `listarCarpetas`: the folders linked to `c` that exist, ordered by name. */
  function ListFolders(db: Db, c: CredId): (r: seq<FolderRow>)
    ensures forall row :: row in r <==> (c, row.id) in db.folderLinks && row.id in db.folders && row.folder == db.folders[row.id]
    ensures Distinct(r)
    ensures Sorted(r, ByText(FolderRowName))
  {
    var ids := set k | k in db.folderLinks && k.0 == c :: k.1;
    assert forall f :: (c, f) in db.folderLinks ==> f in ids by {
      forall f | (c, f) in db.folderLinks ensures f in ids {
        var k := (c, f);
        assert k in db.folderLinks && k.0 == c;
      }
    }
    ByTextIsTotalPreorder(FolderRowName);
    Select(db.folders, ids, FolderRowOf, FolderRowId, ByText(FolderRowName))
  }

  // ---------------------------------------------------------------------------
  // Shares

  /**
   `compartir`: `INSERT ... ON DUPLICATE KEY UPDATE rol, estado = 'ACTIVA'`.
   Whatever the prior state, the one (c, u) row then carries `role` and is
   ACTIVA; every other row is unchanged.
   */
  function Share(db: Db, c: CredId, u: UserId, role: ShareRole): (r: Db)
    ensures (c, u) in r.shares && r.shares[(c, u)] == Schema.Share(role, Activa)
    ensures r.shares.Keys == db.shares.Keys + {(c, u)}
    ensures forall k :: k in db.shares && k != (c, u) ==> r.shares[k] == db.shares[k]
    ensures r == db.(shares := r.shares)
  {
    db.(shares := db.shares[(c, u) := Schema.Share(role, Activa)])
  }

  /**
   `revocarComparticion`: an `UPDATE` of the status to REVOCADA. The row and
   its role stay; without a row nothing happens and no row is created.
   */
  function Revoke(db: Db, c: CredId, u: UserId): (r: Db)
    ensures r.shares.Keys == db.shares.Keys
    ensures (c, u) in db.shares ==> r.shares[(c, u)] == Schema.Share(db.shares[(c, u)].role, Revocada)
    ensures (c, u) !in db.shares ==> r == db
    ensures forall k :: k in db.shares && k != (c, u) ==> r.shares[k] == db.shares[k]
    ensures r == db.(shares := r.shares)
  {
    if (c, u) in db.shares then db.(shares := db.shares[(c, u) := db.shares[(c, u)].(status := Revocada)])
    else db
  }

  /** `row` is the (c, user) share row joined with an existing user, whatever its status. */
  predicate IsShareRow(db: Db, c: CredId, row: ShareRow) {
    && row.cred == c && (c, row.user) in db.shares && row.user in db.users
    && row.role == db.shares[(c, row.user)].role && row.status == db.shares[(c, row.user)].status
    && row.username == db.users[row.user].username && row.email == db.users[row.user].email
  }

  /** `gc_credencial_compartida INNER JOIN usuarios` restricted to credential `c`, keyed by user. */
  function SharesOf(db: Db, c: CredId): (m: map<UserId, (Schema.Share, User)>)
    ensures forall x :: x in m <==> (c, x) in db.shares && x in db.users
    ensures forall x :: x in m ==> m[x] == (db.shares[(c, x)], db.users[x])
  {
    var ids := set k | k in db.shares && k.0 == c && k.1 in db.users :: k.1;
    assert forall x :: (c, x) in db.shares && x in db.users ==> x in ids by {
      forall x | (c, x) in db.shares && x in db.users ensures x in ids {
        var k := (c, x);
        assert k in db.shares && k.0 == c && k.1 in db.users;
      }
    }
    map x | x in ids :: (db.shares[(c, x)], db.users[x])
  }

  function ShareRowId(row: ShareRow): nat {
    row.user
  }

  function ShareRowName(row: ShareRow): string {
    row.username
  }

  /** `listarCompartidos`: every share row of `c`, REVOCADA ones included, ordered by user name. */
  function ListShares(db: Db, c: CredId): (r: seq<ShareRow>)
    ensures forall row :: row in r <==> IsShareRow(db, c, row)
    ensures Distinct(r)
    ensures Sorted(r, ByText(ShareRowName))
  {
    var m := SharesOf(db, c);
    var f := (u: nat, p: (Schema.Share, User)) => ShareRow(c, u, p.0.role, p.0.status, p.1.username, p.1.email);
    ByTextIsTotalPreorder(ShareRowName);
    Select(m, m.Keys, f, ShareRowId, ByText(ShareRowName))
  }

  // ---------------------------------------------------------------------------
  // Attachments

  /** `agregarAdjunto`: inserts under the next id, stamped `now`; an empty MIME type and a 0 or absent size store NULL. */
  function AddAttachment(db: Db, a: NewAttachment, now: int): (r: (AttachmentId, Db))
    ensures r.0 == db.nextAttachment && r.1.nextAttachment == db.nextAttachment + 1
    ensures r.0 in r.1.attachments && r.1.attachments.Keys == db.attachments.Keys + {r.0}
    ensures forall x :: x in db.attachments && x != r.0 ==> r.1.attachments[x] == db.attachments[x]
    ensures r.1 == db.(attachments := r.1.attachments, nextAttachment := r.1.nextAttachment)
    ensures var s := r.1.attachments[r.0];
            && s.cred == a.cred && s.fileName == a.fileName && s.content == a.content && s.contentIv == a.contentIv
            && StoredOrNull(s.mime, a.mime) && s.created == now
            && (TruthyNumber(a.size) ==> s.size == a.size) && (!TruthyNumber(a.size) ==> s.size.None?)
  {
    var id := db.nextAttachment;
    var s := Attachment(a.cred, a.fileName, TextOrNull(a.mime), a.content, a.contentIv, NumberOrNull(a.size), now);
    (id, db.(attachments := db.attachments[id := s], nextAttachment := id + 1))
  }

  function MetaOf(id: nat, a: Attachment): AttachmentMeta {
    AttachmentMeta(id, a.fileName, a.mime, a.size, a.created)
  }

  function MetaId(m: AttachmentMeta): nat {
    m.id
  }

  function MetaCreated(m: AttachmentMeta): int {
    m.created
  }

  /** `listarAdjuntos`: the metadata of every attachment of `c`, newest first. */
  function ListAttachments(db: Db, c: CredId): (r: seq<AttachmentMeta>)
    ensures forall m :: m in r <==>
      m.id in db.attachments && db.attachments[m.id].cred == c && m == MetaOf(m.id, db.attachments[m.id])
    ensures Distinct(r)
    ensures Sorted(r, NewestFirst(MetaCreated))
  {
    var ids := set x | x in db.attachments && db.attachments[x].cred == c;
    NewestFirstIsTotalPreorder(MetaCreated);
    Select(db.attachments, ids, MetaOf, MetaId, NewestFirst(MetaCreated))
  }

  /** `obtenerAdjunto`: the whole attachment row by its own id, whatever credential it belongs to. */
  function GetAttachment(db: Db, a: AttachmentId): (r: Option<AttachmentRow>)
    ensures r.Some? <==> a in db.attachments
    ensures r.Some? ==> r.value == AttachmentRow(a, db.attachments[a])
  {
    if a in db.attachments then Some(AttachmentRow(a, db.attachments[a])) else None
  }

  /** `eliminarAdjunto`: deletes the attachment row by its own id. */
  function DeleteAttachment(db: Db, a: AttachmentId): (r: Db)
    ensures r.attachments.Keys == db.attachments.Keys - {a}
    ensures forall x :: x in r.attachments ==> r.attachments[x] == db.attachments[x]
    ensures r == db.(attachments := r.attachments)
  {
    db.(attachments := db.attachments - {a})
  }

  // ---------------------------------------------------------------------------
  // History

  function HistoryRowOf(id: nat, e: HistoryEntry): HistoryRow {
    HistoryRow(id, e)
  }

  function HistoryRowId(row: HistoryRow): nat {
    row.id
  }

  function HistoryRowRotated(row: HistoryRow): int {
    row.entry.rotated
  }

  /** The ids of the history entries of `c`. */
  function HistoryIds(db: Db, c: CredId): (s: set<HistoryId>)
    ensures forall h :: h in s <==> h in db.history && db.history[h].cred == c
  {
    set h | h in db.history && db.history[h].cred == c
  }

  /** Every history entry of `c`, most recent rotation first: the unpaged listing. */
  function HistoryOf(db: Db, c: CredId): (r: seq<HistoryRow>)
    ensures forall row :: row in r <==> row.id in db.history && row.entry == db.history[row.id] && row.entry.cred == c
    ensures Distinct(r)
    ensures Sorted(r, NewestFirst(HistoryRowRotated))
    ensures |r| == |HistoryIds(db, c)|
  {
    var ids := HistoryIds(db, c);
    assert ids * db.history.Keys == ids;
    NewestFirstIsTotalPreorder(HistoryRowRotated);
    Select(db.history, ids, HistoryRowOf, HistoryRowId, NewestFirst(HistoryRowRotated))
  }

  /** `listarHistorial`: page `page` of `limit` entries at offset `(page - 1) * limit`, with the full count. */
  function ListHistory(db: Db, c: CredId, page: nat, limit: nat): (r: PageOf<HistoryRow>)
    requires page >= 1
    ensures |r.items| <= limit
    ensures r.items == Page(HistoryOf(db, c), PageOffset(page, limit), limit)
    ensures r.total == |HistoryIds(db, c)|
  {
    var all := HistoryOf(db, c);
    PageOf(Page(all, PageOffset(page, limit), limit), |all|)
  }

  // ---------------------------------------------------------------------------
  // Properties of the store and of its interplay with the access resolver.

  /** A created credential never records a 0 score, and an update never introduces one. */
  lemma ScoreNeverZero(db: Db, b: NewCredential, c: CredId, f: CredentialFields)
    requires c in db.creds && db.creds[c].score != Some(0)
    ensures var (id, db') := Create(db, b); db'.creds[id].score != Some(0)
    ensures Update(db, c, f).creds[c].score != Some(0)
  {
  }

  /** Supplying a score of 0 keeps the old score: `puntaje_seguridad` cannot be set to 0. */
  lemma ZeroScoreKeepsOldScore(db: Db, c: CredId, f: CredentialFields)
    requires c in db.creds && f.score == Some(0)
    ensures Update(db, c, f).creds[c].score == db.creds[c].score
  {
  }

  /** An update with every field falsy changes nothing. */
  lemma FalsyUpdateIsNoOp(db: Db, c: CredId, f: CredentialFields)
    requires (f.vault.None? || f.vault == Some(0)) && !Truthy(f.title) && !Truthy(f.account) && !Truthy(f.url)
    requires !Truthy(f.secret) && !Truthy(f.secretIv) && !Truthy(f.notes) && !Truthy(f.notesIv)
    requires !Truthy(f.totp) && !Truthy(f.totpIv) && !TruthyNumber(f.score) && f.breach.None? && !Truthy(f.expires)
    ensures Update(db, c, f) == db
  {
    if c in db.creds {
      assert Update(db, c, f).creds[c] == db.creds[c];
      assert Update(db, c, f).creds == db.creds;
    }
  }

  /** Applying the same update twice is the same as applying it once. */
  lemma UpdateIdempotent(db: Db, c: CredId, f: CredentialFields)
    ensures Update(Update(db, c, f), c, f) == Update(db, c, f)
  {
  }

  /**
   An update may move a credential to another vault; then a member of the old
   vault without a role in the new one and without a share loses all access.
   */
  lemma {:induction false} UpdateMayMoveOutOfVault(db: Db, c: CredId, f: CredentialFields, u: UserId)
    requires c in db.creds && f.vault.Some? && f.vault.value != 0
    requires VaultRole(db, f.vault.value, u).None? && !HasActiveShare(db, c, u)
    ensures Update(db, c, f).creds[c].vault == f.vault.value
    ensures !CanRead(Update(db, c, f), c, u)
  {
    var db' := Update(db, c, f);
    assert db'.vaults == db.vaults && db'.members == db.members && db'.shares == db.shares;
    assert VaultRole(db', f.vault.value, u) == VaultRole(db, f.vault.value, u);
  }

  /** A deleted credential can no longer be read or written by anyone. */
  lemma DeleteRevokesAccess(db: Db, c: CredId, u: UserId)
    ensures Get(Delete(db, c), c).None?
    ensures !CanRead(Delete(db, c), c, u) && !CanWrite(Delete(db, c), c, u)
  {
  }

  /** Row `i` of the vault's full listing is on exactly one page: item `Slot(i)` of page `PageNumber(i)`. */
  lemma {:induction false} EveryCredentialOnItsPage(db: Db, v: VaultId, limit: nat, i: nat)
    requires limit >= 1 && i < |CredentialsWhere(db, v, AnyCredential)|
    ensures PageNumber(i, limit) >= 1
    ensures var p := ListByVault(db, v, PageNumber(i, limit), limit).items;
            Slot(i, limit) < |p| && p[Slot(i, limit)] == CredentialsWhere(db, v, AnyCredential)[i]
  {
    EveryRowOnItsPage(CredentialsWhere(db, v, AnyCredential), limit, i);
  }

  /** The reported total does not depend on the page asked for. */
  lemma TotalIndependentOfPage(db: Db, v: VaultId, p1: nat, l1: nat, p2: nat, l2: nat)
    requires p1 >= 1 && p2 >= 1
    ensures ListByVault(db, v, p1, l1).total == ListByVault(db, v, p2, l2).total
  {
  }

  /** Every search hit is a credential of the vault whose URL contains the term. */
  lemma SearchHitsMatch(db: Db, v: VaultId, q: string, page: nat, limit: nat, row: CredentialRow)
    requires page >= 1 && row in SearchByUrl(db, v, q, page, limit).items
    ensures row.id in db.creds && row.cred == db.creds[row.id] && row.cred.vault == v
    ensures row.cred.url.Some? && Contains(row.cred.url.value, q)
  {
  }

  /** Assigning a tag twice yields the same links as once; unassigning then removes exactly that link. */
  lemma TagLinksIdempotent(db: Db, c: CredId, t: TagId)
    ensures AssignTag(AssignTag(db, c, t), c, t) == AssignTag(db, c, t)
    ensures UnassignTag(AssignTag(db, c, t), c, t).tagLinks == db.tagLinks - {(c, t)}
    ensures AssignTag(db, c, t).tagLinks - db.tagLinks <= {(c, t)}
  {
  }

  /** Assigning a folder twice yields the same links as once; unassigning then removes exactly that link. */
  lemma FolderLinksIdempotent(db: Db, c: CredId, f: FolderId)
    ensures AssignFolder(AssignFolder(db, c, f), c, f) == AssignFolder(db, c, f)
    ensures UnassignFolder(AssignFolder(db, c, f), c, f).folderLinks == db.folderLinks - {(c, f)}
    ensures AssignFolder(db, c, f).folderLinks - db.folderLinks <= {(c, f)}
  {
  }

  /** The share state machine: revoking keeps the role, and re-sharing a revoked row is the same as sharing afresh. */
  lemma ShareLifecycle(db: Db, c: CredId, u: UserId, first: ShareRole, again: ShareRole)
    ensures Revoke(Share(db, c, u, first), c, u).shares[(c, u)] == Schema.Share(first, Revocada)
    ensures Share(Revoke(db, c, u), c, u, again) == Share(db, c, u, again)
    ensures Revoke(Revoke(db, c, u), c, u) == Revoke(db, c, u)
  {
    var r := Revoke(db, c, u);
    assert Share(r, c, u, again).shares == Share(db, c, u, again).shares;
  }

  /** After sharing, the user reads the credential, and writes it exactly when the share or the vault role edits. */
  lemma ShareGrantsAccess(db: Db, c: CredId, u: UserId, role: ShareRole)
    requires c in db.creds
    ensures CanRead(Share(db, c, u, role), c, u)
    ensures CanWrite(Share(db, c, u, role), c, u) <==> role == Editor || EditsVault(VaultRole(db, db.creds[c].vault, u))
  {
    var db' := Share(db, c, u, role);
    assert VaultRole(db', db.creds[c].vault, u) == VaultRole(db, db.creds[c].vault, u);
  }

  /** After revoking, only the vault role is left to grant access. */
  lemma RevokeWithdrawsShareAccess(db: Db, c: CredId, u: UserId)
    requires c in db.creds
    ensures CanRead(Revoke(db, c, u), c, u) <==> VaultRole(db, db.creds[c].vault, u).Some?
    ensures CanWrite(Revoke(db, c, u), c, u) <==> EditsVault(VaultRole(db, db.creds[c].vault, u))
  {
    var db' := Revoke(db, c, u);
    assert VaultRole(db', db.creds[c].vault, u) == VaultRole(db, db.creds[c].vault, u);
  }

  /** Sharing or revoking (c, u) leaves every other pair's access as it was. */
  lemma SharingIsLocal(db: Db, c: CredId, u: UserId, role: ShareRole, d: CredId, w: UserId)
    requires (d, w) != (c, u)
    ensures CanRead(Share(db, c, u, role), d, w) == CanRead(db, d, w)
    ensures CanWrite(Share(db, c, u, role), d, w) == CanWrite(db, d, w)
    ensures CanRead(Revoke(db, c, u), d, w) == CanRead(db, d, w)
    ensures CanWrite(Revoke(db, c, u), d, w) == CanWrite(db, d, w)
  {
  }

  /** Revoked shares stay visible in the share listing, with their role. */
  lemma RevokedShareStillListed(db: Db, c: CredId, u: UserId)
    requires (c, u) in db.shares && u in db.users
    ensures ShareRow(c, u, db.shares[(c, u)].role, Revocada, db.users[u].username, db.users[u].email)
            in ListShares(Revoke(db, c, u), c)
  {
  }
}
