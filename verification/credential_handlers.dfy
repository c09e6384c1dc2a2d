/**
 The credential handlers (`controllers/gc-credenciales.js`). Reads are gated
 by `CanRead`, changes by `CanWrite`, creation by an editing vault role, and
 sharing by a managing role in the credential's vault, checked after the
 credential is found. A refusal never touches the state.
 */
module CredentialHandlers {
  import opened Wrappers
  import opened Schema
  import opened Ordering
  import opened Access
  import opened Http
  import Store = CredentialStore

  /** The body of `POST /credenciales/:id/adjuntos`, its content still as the client sent it. */
  datatype AttachmentUpload = AttachmentUpload(fileName: string, mime: Option<string>, content: Blob, contentIv: Blob, size: Option<int>)

  // ---------------------------------------------------------------------------
  // Credentials

  /** `listarPorBoveda`: 403 without a vault role; else page `pagina` (default 1) of `limite` (default 20) rows and the total. */
  function ListByVault(db: Db, uid: UserId, v: VaultId, pagina: Option<int>, limite: Option<int>): (o: Outcome)
    requires InRange(pagina, 1, 1000) && InRange(limite, 1, 100)
    ensures o.db == db
    ensures o.status == Forbidden <==> VaultRole(db, v, uid).None?
    ensures o.status != Forbidden ==> o.status == Ok && o.payload.CredentialPage?
    ensures o.status != Forbidden ==>
      var page := NumberOr(pagina, 1); var limit := NumberOr(limite, 20);
      && 1 <= page && 1 <= limit <= 100 && (pagina.None? ==> page == 1) && (limite.None? ==> limit == 20)
      && o.payload.credentials == Store.ListByVault(db, v, page, limit)
  {
    if VaultRole(db, v, uid).None? then Refuse(db, Forbidden, "Sin acceso a la bóveda")
    else Outcome(Ok, CredentialPage(Store.ListByVault(db, v, NumberOr(pagina, 1), NumberOr(limite, 20))), db)
  }

  /** `buscarPorUrl`: 403 without a vault role; else a page of the vault's credentials whose URL contains `q` (absent: ""). */
  function SearchByUrl(db: Db, uid: UserId, v: VaultId, q: Option<string>, pagina: Option<int>, limite: Option<int>): (o: Outcome)
    requires InRange(pagina, 1, 1000) && InRange(limite, 1, 100)
    ensures o.db == db
    ensures o.status == Forbidden <==> VaultRole(db, v, uid).None?
    ensures o.status != Forbidden ==> o.status == Ok && o.payload.CredentialPage?
    ensures o.status != Forbidden ==>
      o.payload.credentials == Store.SearchByUrl(db, v, q.GetOr(""), NumberOr(pagina, 1), NumberOr(limite, 20))
  {
    if VaultRole(db, v, uid).None? then Refuse(db, Forbidden, "Sin acceso a la bóveda")
    else Outcome(Ok, CredentialPage(Store.SearchByUrl(db, v, q.GetOr(""), NumberOr(pagina, 1), NumberOr(limite, 20))), db)
  }

  /** `obtener`: the read check comes first, so a missing credential answers 403; the 404 branch is never taken. */
  function GetCredential(db: Db, uid: UserId, c: CredId): (o: Outcome)
    ensures o.db == db
    ensures o.status == Forbidden <==> !CanRead(db, c, uid)
    ensures c !in db.creds ==> o.status == Forbidden
    ensures o.status != NotFound
    ensures o.status != Forbidden ==> o.status == Ok && o.payload == CredentialBody(Some(db.creds[c]))
  {
    if !CanRead(db, c, uid) then Refuse(db, Forbidden, "Sin permiso para ver la credencial")
    else
      var cred := Store.Get(db, c);
      if cred.None? then Refuse(db, NotFound, "No encontrada")
      else Outcome(Ok, CredentialBody(cred), db)
  }

  /** `crear`: 403 unless the caller edits the target vault; else 201 with the new row. */
  function CreateCredential(db: Db, uid: UserId, b: Store.NewCredential): (o: Outcome)
    ensures o.status == Forbidden <==> !EditsVault(VaultRole(db, b.vault, uid))
    ensures o.status == Forbidden ==> o.db == db
    ensures o.status != Forbidden ==> o.status == Created && o.db == Store.Create(db, b).1
    ensures o.status != Forbidden ==>
      && o.db.creds.Keys == db.creds.Keys + {db.nextCred}
      && o.payload == CredentialBody(Some(o.db.creds[db.nextCred]))
      && o.db.creds[db.nextCred].vault == b.vault
  {
    if !EditsVault(VaultRole(db, b.vault, uid)) then Refuse(db, Forbidden, "Sin permiso para crear en la bóveda")
    else
      var (id, db') := Store.Create(db, b);
      Outcome(Created, CredentialBody(Store.Get(db', id)), db')
  }

  /** `actualizar`: 403 without write access; else the falsy-keeps update, answered with the row. */
  function UpdateCredential(db: Db, uid: UserId, c: CredId, f: Store.CredentialFields): (o: Outcome)
    ensures o.status == Forbidden <==> !CanWrite(db, c, uid)
    ensures o.status == Forbidden ==> o.db == db
    ensures o.status != Forbidden ==>
      o.status == Ok && o.db == Store.Update(db, c, f) && o.payload == CredentialBody(Some(o.db.creds[c]))
  {
    if !CanWrite(db, c, uid) then Refuse(db, Forbidden, "Sin permiso para actualizar la credencial")
    else
      var db' := Store.Update(db, c, f);
      Outcome(Ok, CredentialBody(Store.Get(db', c)), db')
  }

  /** `eliminar`: 403 without write access; else the row is deleted. */
  function DeleteCredential(db: Db, uid: UserId, c: CredId): (o: Outcome)
    ensures o.status == Forbidden <==> !CanWrite(db, c, uid)
    ensures o.status == Forbidden ==> o.db == db
    ensures o.status != Forbidden ==> o.status == Ok && o.db == Store.Delete(db, c) && c !in o.db.creds
  {
    if !CanWrite(db, c, uid) then Refuse(db, Forbidden, "Sin permiso para eliminar la credencial")
    else Outcome(Ok, Done, Store.Delete(db, c))
  }

  // ---------------------------------------------------------------------------
  // Tags and folders

  /** `listarEtiquetas`: 403 without read access; else the credential's tags by name. */
  function ListTags(db: Db, uid: UserId, c: CredId): (o: Outcome)
    ensures o.db == db
    ensures o.status == Forbidden <==> !CanRead(db, c, uid)
    ensures o.status != Forbidden ==> o.status == Ok && o.payload == TagList(Store.ListTags(db, c))
  {
    if !CanRead(db, c, uid) then Refuse(db, Forbidden, "Sin permiso")
    else Outcome(Ok, TagList(Store.ListTags(db, c)), db)
  }

  /** `asignarEtiqueta`: 403 without write access; else links the tag and answers 201 with the tag list. */
  function AssignTag(db: Db, uid: UserId, c: CredId, t: TagId): (o: Outcome)
    ensures o.status == Forbidden <==> !CanWrite(db, c, uid)
    ensures o.status == Forbidden ==> o.db == db
    ensures o.status != Forbidden ==>
      o.status == Created && o.db == Store.AssignTag(db, c, t) && o.payload == TagList(Store.ListTags(o.db, c))
  {
    if !CanWrite(db, c, uid) then Refuse(db, Forbidden, "Sin permiso")
    else
      var db' := Store.AssignTag(db, c, t);
      Outcome(Created, TagList(Store.ListTags(db', c)), db')
  }

  /** `quitarEtiqueta`: 403 without write access; else unlinks the tag. */
  function UnassignTag(db: Db, uid: UserId, c: CredId, t: TagId): (o: Outcome)
    ensures o.status == Forbidden <==> !CanWrite(db, c, uid)
    ensures o.status == Forbidden ==> o.db == db
    ensures o.status != Forbidden ==> o.status == Ok && o.db == Store.UnassignTag(db, c, t)
  {
    if !CanWrite(db, c, uid) then Refuse(db, Forbidden, "Sin permiso")
    else Outcome(Ok, Done, Store.UnassignTag(db, c, t))
  }

  /** `listarCarpetas`: 403 without read access; else the credential's folders by name. */
  function ListFolders(db: Db, uid: UserId, c: CredId): (o: Outcome)
    ensures o.db == db
    ensures o.status == Forbidden <==> !CanRead(db, c, uid)
    ensures o.status != Forbidden ==> o.status == Ok && o.payload == FolderList(Store.ListFolders(db, c))
  {
    if !CanRead(db, c, uid) then Refuse(db, Forbidden, "Sin permiso")
    else Outcome(Ok, FolderList(Store.ListFolders(db, c)), db)
  }

  /** `asignarCarpeta`: 403 without write access; else links the folder and answers 201 with the folder list. */
  function AssignFolder(db: Db, uid: UserId, c: CredId, f: FolderId): (o: Outcome)
    ensures o.status == Forbidden <==> !CanWrite(db, c, uid)
    ensures o.status == Forbidden ==> o.db == db
    ensures o.status != Forbidden ==>
      o.status == Created && o.db == Store.AssignFolder(db, c, f) && o.payload == FolderList(Store.ListFolders(o.db, c))
  {
    if !CanWrite(db, c, uid) then Refuse(db, Forbidden, "Sin permiso")
    else
      var db' := Store.AssignFolder(db, c, f);
      Outcome(Created, FolderList(Store.ListFolders(db', c)), db')
  }

  /** `quitarCarpeta`: 403 without write access; else unlinks the folder. */
  function UnassignFolder(db: Db, uid: UserId, c: CredId, f: FolderId): (o: Outcome)
    ensures o.status == Forbidden <==> !CanWrite(db, c, uid)
    ensures o.status == Forbidden ==> o.db == db
    ensures o.status != Forbidden ==> o.status == Ok && o.db == Store.UnassignFolder(db, c, f)
  {
    if !CanWrite(db, c, uid) then Refuse(db, Forbidden, "Sin permiso")
    else Outcome(Ok, Done, Store.UnassignFolder(db, c, f))
  }

  // ---------------------------------------------------------------------------
  // Shares

  /** `listarCompartidas`: 403 without read access; else every share row of the credential, revoked ones included. */
  function ListShares(db: Db, uid: UserId, c: CredId): (o: Outcome)
    ensures o.db == db
    ensures o.status == Forbidden <==> !CanRead(db, c, uid)
    ensures o.status != Forbidden ==> o.status == Ok && o.payload == ShareList(Store.ListShares(db, c))
  {
    if !CanRead(db, c, uid) then Refuse(db, Forbidden, "Sin permiso")
    else Outcome(Ok, ShareList(Store.ListShares(db, c)), db)
  }

  /** The gate of sharing and revoking: a managing role in the vault the credential belongs to. */
  predicate ManagesCredential(db: Db, c: CredId, uid: UserId)
    requires c in db.creds
  {
    ManagesVault(VaultRole(db, db.creds[c].vault, uid))
  }

  /** `compartir`: 404 for a missing credential, then 403 unless the caller manages its vault; else an ACTIVA share (default `Lector`), 201. */
  function ShareCredential(db: Db, uid: UserId, c: CredId, user: UserId, role: Option<ShareRole>): (o: Outcome)
    ensures o.status == NotFound <==> c !in db.creds
    ensures o.status == Forbidden <==> c in db.creds && !ManagesCredential(db, c, uid)
    ensures o.status in {NotFound, Forbidden} ==> o.db == db
    ensures o.status !in {NotFound, Forbidden} ==>
      && o.status == Created
      && o.db == Store.Share(db, c, user, if role.Some? then role.value else Lector)
      && o.payload == ShareList(Store.ListShares(o.db, c))
  {
    if c !in db.creds then Refuse(db, NotFound, "No encontrada")
    else if !ManagesCredential(db, c, uid) then Refuse(db, Forbidden, "Sin permiso para compartir")
    else
      var db' := Store.Share(db, c, user, role.GetOr(Lector));
      Outcome(Created, ShareList(Store.ListShares(db', c)), db')
  }

  /** `revocarCompartida`: 404 for a missing credential, then 403 unless the caller manages its vault; else the share turns REVOCADA. */
  function RevokeShare(db: Db, uid: UserId, c: CredId, user: UserId): (o: Outcome)
    ensures o.status == NotFound <==> c !in db.creds
    ensures o.status == Forbidden <==> c in db.creds && !ManagesCredential(db, c, uid)
    ensures o.status in {NotFound, Forbidden} ==> o.db == db
    ensures o.status !in {NotFound, Forbidden} ==> o.status == Ok && o.db == Store.Revoke(db, c, user)
  {
    if c !in db.creds then Refuse(db, NotFound, "No encontrada")
    else if !ManagesCredential(db, c, uid) then Refuse(db, Forbidden, "Sin permiso para revocar")
    else Outcome(Ok, Done, Store.Revoke(db, c, user))
  }

  // ---------------------------------------------------------------------------
  // Attachments

  /** `listarAdjuntos`: 403 without read access; else the metadata of the credential's attachments, newest first. */
  function ListAttachments(db: Db, uid: UserId, c: CredId): (o: Outcome)
    ensures o.db == db
    ensures o.status == Forbidden <==> !CanRead(db, c, uid)
    ensures o.status != Forbidden ==> o.status == Ok && o.payload == AttachmentList(Store.ListAttachments(db, c))
  {
    if !CanRead(db, c, uid) then Refuse(db, Forbidden, "Sin permiso")
    else Outcome(Ok, AttachmentList(Store.ListAttachments(db, c)), db)
  }

  /** `agregarAdjunto`: 403 without write access; else stores the upload under `c`, stamped `now`, and answers 201 with it. */
  function AddAttachment(db: Db, uid: UserId, c: CredId, u: AttachmentUpload, now: int): (o: Outcome)
    ensures o.status == Forbidden <==> !CanWrite(db, c, uid)
    ensures o.status == Forbidden ==> o.db == db
    ensures o.status != Forbidden ==>
      && o.status == Created
      && o.db.attachments.Keys == db.attachments.Keys + {db.nextAttachment}
      && o.db.attachments[db.nextAttachment].cred == c
      && o.db.attachments[db.nextAttachment].created == now
      && o.payload == AttachmentBody(Some(Store.AttachmentRow(db.nextAttachment, o.db.attachments[db.nextAttachment])))
      && o.db == Store.AddAttachment(db, Store.NewAttachment(c, u.fileName, u.mime, u.content, u.contentIv, u.size), now).1
  {
    if !CanWrite(db, c, uid) then Refuse(db, Forbidden, "Sin permiso")
    else
      var (id, db') := Store.AddAttachment(db, Store.NewAttachment(c, u.fileName, u.mime, u.content, u.contentIv, u.size), now);
      Outcome(Created, AttachmentBody(Store.GetAttachment(db', id)), db')
  }

  /**
   `obtenerAdjunto` as written: the read check is on the credential of the
   path, the lookup is by the attachment id alone.
   */
  function GetAttachment(db: Db, uid: UserId, c: CredId, a: AttachmentId): (o: Outcome)
    ensures o.db == db
    ensures o.status == Forbidden <==> !CanRead(db, c, uid)
    ensures o.status == NotFound <==> CanRead(db, c, uid) && a !in db.attachments
    ensures o.status !in {Forbidden, NotFound} ==> o.status == Ok
    ensures o.status == Ok ==> o.payload == AttachmentBody(Some(Store.AttachmentRow(a, db.attachments[a])))
  {
    if !CanRead(db, c, uid) then Refuse(db, Forbidden, "Sin permiso")
    else
      var found := Store.GetAttachment(db, a);
      if found.None? then Refuse(db, NotFound, "Adjunto no encontrado")
      else Outcome(Ok, AttachmentBody(found), db)
  }

  /** `eliminarAdjunto` as written: the write check is on the credential of the path, the delete is by the attachment id alone. */
  function DeleteAttachment(db: Db, uid: UserId, c: CredId, a: AttachmentId): (o: Outcome)
    ensures o.status == Forbidden <==> !CanWrite(db, c, uid)
    ensures o.status == Forbidden ==> o.db == db
    ensures o.status != Forbidden ==> o.status == Ok && o.db == Store.DeleteAttachment(db, a)
  {
    if !CanWrite(db, c, uid) then Refuse(db, Forbidden, "Sin permiso")
    else Outcome(Ok, Done, Store.DeleteAttachment(db, a))
  }

  /** `obtenerAdjunto` confined to the credential of the path: an attachment of another credential is not found under `c`. */
  function GetAttachmentChecked(db: Db, uid: UserId, c: CredId, a: AttachmentId): (o: Outcome)
    ensures o.db == db
    ensures o.status == Forbidden <==> !CanRead(db, c, uid)
    ensures o.status == NotFound <==> CanRead(db, c, uid) && (a !in db.attachments || db.attachments[a].cred != c)
    ensures o.status !in {Forbidden, NotFound} ==> o.status == Ok
    ensures o.status == Ok ==> o.payload == AttachmentBody(Some(Store.AttachmentRow(a, db.attachments[a])))
  {
    if !CanRead(db, c, uid) then Refuse(db, Forbidden, "Sin permiso")
    else if a !in db.attachments || db.attachments[a].cred != c then Refuse(db, NotFound, "Adjunto no encontrado")
    else Outcome(Ok, AttachmentBody(Some(Store.AttachmentRow(a, db.attachments[a]))), db)
  }

  /** `eliminarAdjunto` confined to the credential of the path: only an attachment of `c` itself is deleted. */
  function DeleteAttachmentChecked(db: Db, uid: UserId, c: CredId, a: AttachmentId): (o: Outcome)
    ensures o.status == Forbidden <==> !CanWrite(db, c, uid)
    ensures o.status == Forbidden ==> o.db == db
    ensures o.status != Forbidden ==> o.status == Ok
    ensures o.status != Forbidden && a in db.attachments && db.attachments[a].cred == c ==> o.db == Store.DeleteAttachment(db, a)
    ensures o.status != Forbidden && (a !in db.attachments || db.attachments[a].cred != c) ==> o.db == db
  {
    if !CanWrite(db, c, uid) then Refuse(db, Forbidden, "Sin permiso")
    else if a in db.attachments && db.attachments[a].cred == c then Outcome(Ok, Done, Store.DeleteAttachment(db, a))
    else Outcome(Ok, Done, db)
  }

  // ---------------------------------------------------------------------------
  // History

  /** `listarHistorial`: 403 without read access; else a page (default 1, size default 50) of rotations, newest first. */
  function ListHistory(db: Db, uid: UserId, c: CredId, pagina: Option<int>, limite: Option<int>): (o: Outcome)
    requires InRange(pagina, 1, 1000) && InRange(limite, 1, 200)
    ensures o.db == db
    ensures o.status == Forbidden <==> !CanRead(db, c, uid)
    ensures o.status != Forbidden ==> o.status == Ok && o.payload.HistoryPage?
    ensures o.status != Forbidden ==>
      var limit := NumberOr(limite, 50);
      && 1 <= limit <= 200 && (limite.None? ==> limit == 50)
      && o.payload.history == Store.ListHistory(db, c, NumberOr(pagina, 1), limit)
  {
    if !CanRead(db, c, uid) then Refuse(db, Forbidden, "Sin permiso")
    else Outcome(Ok, HistoryPage(Store.ListHistory(db, c, NumberOr(pagina, 1), NumberOr(limite, 50))), db)
  }

  // ---------------------------------------------------------------------------
  // Properties of the handlers

  /** Whatever attachment the corrected read returns belongs to a credential the caller may read. */
  lemma CheckedReadStaysInCredential(db: Db, uid: UserId, c: CredId, a: AttachmentId)
    requires GetAttachmentChecked(db, uid, c, a).status == Ok
    ensures a in db.attachments && CanRead(db, db.attachments[a].cred, uid)
  {
  }

  /** Whatever attachment the corrected delete removes belongs to a credential the caller may write. */
  lemma CheckedDeleteStaysInCredential(db: Db, uid: UserId, c: CredId, a: AttachmentId)
    requires a in db.attachments && a !in DeleteAttachmentChecked(db, uid, c, a).db.attachments
    ensures CanWrite(db, db.attachments[a].cred, uid)
  {
  }

  /** The corrected read answers exactly as the written one whenever the attachment does belong to `c`. */
  lemma CheckedAgreesOnOwnAttachments(db: Db, uid: UserId, c: CredId, a: AttachmentId)
    requires a !in db.attachments || db.attachments[a].cred == c
    ensures GetAttachmentChecked(db, uid, c, a) == GetAttachment(db, uid, c, a)
    ensures DeleteAttachmentChecked(db, uid, c, a) == DeleteAttachment(db, uid, c, a)
  {
  }

  /** A small state: user 1 owns vault 0 with credential 0, user 2 owns vault 1 with credential 1, which has attachment 0. */
  function TwoOwners(): Db {
    var v0 := Vault(Some(1), "a", Personal, None, None);
    var v1 := Vault(Some(2), "b", Personal, None, None);
    var cred0 := Credential(0, "t", None, None, "s", "i", None, None, None, None, None, Ninguna, None);
    var cred1 := Credential(1, "t", None, None, "s", "i", None, None, None, None, None, Ninguna, None);
    var file := Attachment(1, "f", None, "x", "y", None, 0);
    Db(map[], map[], map[], map[0 := v0, 1 := v1], map[], map[0 := cred0, 1 := cred1], map[], {}, {},
       map[0 := file], map[], 2, 2, 1)
  }

  /**
   As written, user 1 reads and deletes the attachment of user 2's
   credential 1 by naming it under their own credential 0.
   */
  lemma AttachmentOfAnotherCredentialLeaks()
    ensures Valid(TwoOwners())
    ensures !CanRead(TwoOwners(), 1, 1) && CanWrite(TwoOwners(), 0, 1)
    ensures GetAttachment(TwoOwners(), 1, 0, 0).payload == AttachmentBody(Some(Store.AttachmentRow(0, TwoOwners().attachments[0])))
    ensures 0 !in DeleteAttachment(TwoOwners(), 1, 0, 0).db.attachments
    ensures GetAttachmentChecked(TwoOwners(), 1, 0, 0).status == NotFound
    ensures DeleteAttachmentChecked(TwoOwners(), 1, 0, 0).db == TwoOwners()
  {
    var db := TwoOwners();
    assert VaultRole(db, 0, 1) == Some(Dueno);
    assert VaultRole(db, 1, 1).None?;
  }
}
