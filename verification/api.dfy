/**
 The two mounted routers (`routes/bovedas.js`, `routes/credenciales.js`) as
 one dispatcher, the gate each route is meant to apply stated through the
 role lattice, and properties that hold for every request.
 */
module Api {
  import opened Wrappers
  import opened Schema
  import opened Access
  import opened Http
  import VaultStore
  import Store = CredentialStore
  import VaultHandlers
  import CredentialHandlers

  /** One authenticated request: the route and its parameters, the caller's uid comes separately. */
  datatype Request =
    | ListMyVaults
    | CreateVault(newVault: VaultHandlers.NewVault)
    | UpdateVault(v: VaultId, vaultFields: VaultStore.VaultFields)
    | DeleteVault(v: VaultId)
    | ListMembers(v: VaultId)
    | AddMember(v: VaultId, user: UserId, role: Option<Role>)
    | RemoveMember(v: VaultId, user: UserId)
    | ListByVault(v: VaultId, pagina: Option<int>, limite: Option<int>)
    | SearchByUrl(v: VaultId, q: Option<string>, pagina: Option<int>, limite: Option<int>)
    | GetCredential(c: CredId)
    | CreateCredential(newCred: Store.NewCredential)
    | UpdateCredential(c: CredId, credFields: Store.CredentialFields)
    | DeleteCredential(c: CredId)
    | ListTags(c: CredId)
    | AssignTag(c: CredId, tag: TagId)
    | UnassignTag(c: CredId, tag: TagId)
    | ListFolders(c: CredId)
    | AssignFolder(c: CredId, folder: FolderId)
    | UnassignFolder(c: CredId, folder: FolderId)
    | ListShares(c: CredId)
    | ShareCredential(c: CredId, user: UserId, shareRole: Option<ShareRole>)
    | RevokeShare(c: CredId, user: UserId)
    | ListAttachments(c: CredId)
    | AddAttachment(c: CredId, upload: CredentialHandlers.AttachmentUpload)
    | GetAttachment(c: CredId, attachment: AttachmentId)
    | DeleteAttachment(c: CredId, attachment: AttachmentId)
    | ListHistory(c: CredId, pagina: Option<int>, limite: Option<int>)

  /** The ranges the route validators admit for the paging parameters. */
  predicate WellFormed(req: Request) {
    match req
    case ListByVault(_, p, l) => InRange(p, 1, 1000) && InRange(l, 1, 100)
    case SearchByUrl(_, _, p, l) => InRange(p, 1, 1000) && InRange(l, 1, 100)
    case ListHistory(_, p, l) => InRange(p, 1, 1000) && InRange(l, 1, 200)
    case _ => true
  }

  /**
   Routes each request to its handler, as the two routers do; `now` is the
   clock reading an attachment is stamped with. Reading and deleting an
   attachment go to `obtenerAdjunto` and `eliminarAdjunto` as written.
   */
  function Handle(db: Db, uid: UserId, req: Request, now: int): (o: Outcome)
    requires WellFormed(req)
    ensures o.status in {Forbidden, NotFound} ==> o.db == db
  {
    match req
    case ListMyVaults => VaultHandlers.ListMyVaults(db, uid)
    case CreateVault(b) => VaultHandlers.CreateVault(db, uid, b)
    case UpdateVault(v, f) => VaultHandlers.UpdateVault(db, uid, v, f)
    case DeleteVault(v) => VaultHandlers.DeleteVault(db, uid, v)
    case ListMembers(v) => VaultHandlers.ListMembers(db, uid, v)
    case AddMember(v, user, role) => VaultHandlers.AddMember(db, uid, v, user, role)
    case RemoveMember(v, user) => VaultHandlers.RemoveMember(db, uid, v, user)
    case ListByVault(v, p, l) => CredentialHandlers.ListByVault(db, uid, v, p, l)
    case SearchByUrl(v, q, p, l) => CredentialHandlers.SearchByUrl(db, uid, v, q, p, l)
    case GetCredential(c) => CredentialHandlers.GetCredential(db, uid, c)
    case CreateCredential(b) => CredentialHandlers.CreateCredential(db, uid, b)
    case UpdateCredential(c, f) => CredentialHandlers.UpdateCredential(db, uid, c, f)
    case DeleteCredential(c) => CredentialHandlers.DeleteCredential(db, uid, c)
    case ListTags(c) => CredentialHandlers.ListTags(db, uid, c)
    case AssignTag(c, t) => CredentialHandlers.AssignTag(db, uid, c, t)
    case UnassignTag(c, t) => CredentialHandlers.UnassignTag(db, uid, c, t)
    case ListFolders(c) => CredentialHandlers.ListFolders(db, uid, c)
    case AssignFolder(c, f) => CredentialHandlers.AssignFolder(db, uid, c, f)
    case UnassignFolder(c, f) => CredentialHandlers.UnassignFolder(db, uid, c, f)
    case ListShares(c) => CredentialHandlers.ListShares(db, uid, c)
    case ShareCredential(c, user, role) => CredentialHandlers.ShareCredential(db, uid, c, user, role)
    case RevokeShare(c, user) => CredentialHandlers.RevokeShare(db, uid, c, user)
    case ListAttachments(c) => CredentialHandlers.ListAttachments(db, uid, c)
    case AddAttachment(c, u) => CredentialHandlers.AddAttachment(db, uid, c, u, now)
    case GetAttachment(c, a) => CredentialHandlers.GetAttachment(db, uid, c, a)
    case DeleteAttachment(c, a) => CredentialHandlers.DeleteAttachment(db, uid, c, a)
    case ListHistory(c, p, l) => CredentialHandlers.ListHistory(db, uid, c, p, l)
  }

  /**
   The dispatcher with the attachment routes confined to the credential of
   the path: every other request is answered exactly as by `Handle`, and the
   confined routes refuse exactly whom `Handle` refuses.
   */
  function HandleConfined(db: Db, uid: UserId, req: Request, now: int): (o: Outcome)
    requires WellFormed(req)
    ensures !req.GetAttachment? && !req.DeleteAttachment? ==> o == Handle(db, uid, req, now)
    ensures o.status == Forbidden <==> Handle(db, uid, req, now).status == Forbidden
    ensures o.status in {Forbidden, NotFound} ==> o.db == db
  {
    match req
    case GetAttachment(c, a) => CredentialHandlers.GetAttachmentChecked(db, uid, c, a)
    case DeleteAttachment(c, a) => CredentialHandlers.DeleteAttachmentChecked(db, uid, c, a)
    case _ => Handle(db, uid, req, now)
  }

  // ---------------------------------------------------------------------------
  // The route table: what permission each route asks for.

  datatype Gate =
    | Open
    | InVault(v: VaultId, need: Permission)
    | OnCredential(c: CredId, need: Permission)
    | GrantOnFound(c: CredId)

  /** Each route's gate, read off the role lattice rather than the handlers' role lists. */
  function GateOf(req: Request): Gate {
    match req
    case ListMyVaults => Open
    case CreateVault(_) => Open
    case UpdateVault(v, _) => InVault(v, Manage)
    case DeleteVault(v) => InVault(v, Manage)
    case ListMembers(v) => InVault(v, Manage)
    case AddMember(v, _, _) => InVault(v, Manage)
    case RemoveMember(v, _) => InVault(v, Manage)
    case ListByVault(v, _, _) => InVault(v, View)
    case SearchByUrl(v, _, _, _) => InVault(v, View)
    case CreateCredential(b) => InVault(b.vault, CreateIn)
    case GetCredential(c) => OnCredential(c, View)
    case ListTags(c) => OnCredential(c, View)
    case ListFolders(c) => OnCredential(c, View)
    case ListShares(c) => OnCredential(c, View)
    case ListAttachments(c) => OnCredential(c, View)
    case GetAttachment(c, _) => OnCredential(c, View)
    case ListHistory(c, _, _) => OnCredential(c, View)
    case UpdateCredential(c, _) => OnCredential(c, Modify)
    case DeleteCredential(c) => OnCredential(c, Modify)
    case AssignTag(c, _) => OnCredential(c, Modify)
    case UnassignTag(c, _) => OnCredential(c, Modify)
    case AssignFolder(c, _) => OnCredential(c, Modify)
    case UnassignFolder(c, _) => OnCredential(c, Modify)
    case AddAttachment(c, _) => OnCredential(c, Modify)
    case DeleteAttachment(c, _) => OnCredential(c, Modify)
    case ShareCredential(c, _, _) => GrantOnFound(c)
    case RevokeShare(c, _) => GrantOnFound(c)
  }

  /** Whether a gate lets the caller through; a share gate only judges a credential that exists. */
  predicate Admits(db: Db, uid: UserId, g: Gate) {
    match g
    case Open => true
    case InVault(v, p) => VaultRole(db, v, uid).Some? && p in RolePermissions(VaultRole(db, v, uid).value)
    case OnCredential(c, p) => p in CredentialPermissions(db, c, uid)
    case GrantOnFound(c) => c !in db.creds || Grant in CredentialPermissions(db, c, uid)
  }

  /** The vault gates through the lattice: `View` is any role, `CreateIn` an editing role, `Manage` a managing one. */
  lemma {:induction false} VaultGateIsRoleList(db: Db, uid: UserId, v: VaultId)
    ensures Admits(db, uid, InVault(v, View)) <==> VaultRole(db, v, uid).Some?
    ensures Admits(db, uid, InVault(v, CreateIn)) <==> EditsVault(VaultRole(db, v, uid))
    ensures Admits(db, uid, InVault(v, Manage)) <==> ManagesVault(VaultRole(db, v, uid))
  {
    if VaultRole(db, v, uid).Some? {
      VaultGatesAreLattice(VaultRole(db, v, uid).value);
    }
  }

  /** The share gate through the lattice: a found credential admits exactly a managing role in its vault. */
  lemma {:induction false} GrantGateIsManager(db: Db, uid: UserId, c: CredId)
    requires c in db.creds
    ensures Admits(db, uid, GrantOnFound(c)) <==> ManagesVault(VaultRole(db, db.creds[c].vault, uid))
  {
    if Grant in CredentialPermissions(db, c, uid) {
      GrantComesFromVaultRole(db, c, uid);
    }
  }

  /** The vault routes: 403 exactly when the route's gate refuses. */
  lemma {:induction false} VaultRoutesFollowGates(db: Db, uid: UserId, req: Request, now: int)
    requires WellFormed(req) && GateOf(req).InVault? && GateOf(req).need == Manage
    ensures Handle(db, uid, req, now).status == Forbidden <==> !Admits(db, uid, GateOf(req))
  {
    VaultGateIsRoleList(db, uid, GateOf(req).v);
  }

  /** The credential routes gated on the vault (listing, search, creation): 403 exactly when the gate refuses. */
  lemma {:induction false} InVaultRoutesFollowGates(db: Db, uid: UserId, req: Request, now: int)
    requires WellFormed(req) && GateOf(req).InVault? && GateOf(req).need != Manage
    ensures Handle(db, uid, req, now).status == Forbidden <==> !Admits(db, uid, GateOf(req))
  {
    VaultGateIsRoleList(db, uid, GateOf(req).v);
  }

  /** The credential routes that read: 403 exactly when the route's gate refuses. */
  lemma {:induction false} ReadRoutesFollowGates(db: Db, uid: UserId, req: Request, now: int)
    requires WellFormed(req) && GateOf(req).OnCredential? && GateOf(req).need == View
    ensures Handle(db, uid, req, now).status == Forbidden <==> !Admits(db, uid, GateOf(req))
  {
    CanReadIsView(db, req.c, uid);
  }

  /** The credential routes that write: 403 exactly when the route's gate refuses. */
  lemma {:induction false} WriteRoutesFollowGates(db: Db, uid: UserId, req: Request, now: int)
    requires WellFormed(req) && GateOf(req).OnCredential? && GateOf(req).need == Modify
    ensures Handle(db, uid, req, now).status == Forbidden <==> !Admits(db, uid, GateOf(req))
  {
    CanWriteIsModify(db, req.c, uid);
  }

  /** The share routes: 403 exactly when the route's gate refuses. */
  lemma {:induction false} ShareRoutesFollowGates(db: Db, uid: UserId, req: Request, now: int)
    requires WellFormed(req) && GateOf(req).GrantOnFound?
    ensures Handle(db, uid, req, now).status == Forbidden <==> !Admits(db, uid, GateOf(req))
  {
    if req.c in db.creds {
      GrantGateIsManager(db, uid, req.c);
    }
  }

  /** A request is refused with 403 exactly when its route's gate does not admit the caller. */
  lemma {:induction false} ForbiddenIffGateRefuses(db: Db, uid: UserId, req: Request, now: int)
    requires WellFormed(req)
    ensures Handle(db, uid, req, now).status == Forbidden <==> !Admits(db, uid, GateOf(req))
  {
    match GateOf(req)
    case Open =>
    case InVault(_, p) =>
      if p == Manage {
        VaultRoutesFollowGates(db, uid, req, now);
      } else {
        InVaultRoutesFollowGates(db, uid, req, now);
      }
    case OnCredential(_, p) =>
      if p == View {
        ReadRoutesFollowGates(db, uid, req, now);
      } else {
        WriteRoutesFollowGates(db, uid, req, now);
      }
    case GrantOnFound(_) => ShareRoutesFollowGates(db, uid, req, now);
  }

  /** The state changes only for a caller the route's gate admits; a 403 or 404 changes nothing. */
  lemma {:induction false} OnlyAdmittedCallersChangeState(db: Db, uid: UserId, req: Request, now: int)
    requires WellFormed(req)
    ensures Handle(db, uid, req, now).db != db ==> Admits(db, uid, GateOf(req))
    ensures Handle(db, uid, req, now).status in {Forbidden, NotFound} ==> Handle(db, uid, req, now).db == db
  {
    ForbiddenIffGateRefuses(db, uid, req, now);
  }

  /** The listing and reading routes. */
  predicate IsQuery(req: Request) {
    req.ListMyVaults? || req.ListMembers? || req.ListByVault? || req.SearchByUrl? || req.GetCredential?
    || req.ListTags? || req.ListFolders? || req.ListShares? || req.ListAttachments? || req.GetAttachment?
    || req.ListHistory?
  }

  /** Listing and reading never change the state, whoever asks. */
  lemma QueriesChangeNothing(db: Db, uid: UserId, req: Request, now: int)
    requires WellFormed(req) && IsQuery(req)
    ensures Handle(db, uid, req, now).db == db
  {
  }

  /** Through the confined dispatcher an attachment is only served under its own credential, to a caller who may read it. */
  lemma AttachmentReadStaysWithItsCredential(db: Db, uid: UserId, c: CredId, a: AttachmentId, now: int)
    ensures HandleConfined(db, uid, GetAttachment(c, a), now).status == Ok ==>
      a in db.attachments && db.attachments[a].cred == c && CanRead(db, c, uid)
  {
  }

  /** Through the confined dispatcher an attachment is only deleted under its own credential, by a caller who may write it. */
  lemma AttachmentDeleteStaysWithItsCredential(db: Db, uid: UserId, c: CredId, a: AttachmentId, now: int)
    ensures a in db.attachments && a !in HandleConfined(db, uid, DeleteAttachment(c, a), now).db.attachments ==>
      db.attachments[a].cred == c && CanWrite(db, c, uid)
  {
  }

  /**
   Through the program's own dispatcher, user 1 is served and then deletes
   the attachment of user 2's credential 1 by naming it under credential 0;
   the confined dispatcher answers 404 and deletes nothing.
   */
  lemma DispatcherLeaksAttachment(now: int)
    ensures var db := CredentialHandlers.TwoOwners();
            && db.attachments[0].cred == 1 && !CanRead(db, 1, 1)
            && Handle(db, 1, GetAttachment(0, 0), now).status == Ok
            && Handle(db, 1, GetAttachment(0, 0), now).payload == AttachmentBody(Some(Store.AttachmentRow(0, db.attachments[0])))
            && 0 !in Handle(db, 1, DeleteAttachment(0, 0), now).db.attachments
            && HandleConfined(db, 1, GetAttachment(0, 0), now).status == NotFound
            && HandleConfined(db, 1, DeleteAttachment(0, 0), now).db == db
  {
  }

  /** The confined dispatcher refuses exactly where the route table's gate refuses. */
  lemma ConfinedFollowsGates(db: Db, uid: UserId, req: Request, now: int)
    requires WellFormed(req)
    ensures HandleConfined(db, uid, req, now).status == Forbidden <==> !Admits(db, uid, GateOf(req))
  {
    ForbiddenIffGateRefuses(db, uid, req, now);
  }

  // Each state-changing handler keeps the invariant.

  lemma CreateVaultKeepsValid(db: Db, uid: UserId, b: VaultHandlers.NewVault)
    requires Valid(db)
    ensures Valid(VaultHandlers.CreateVault(db, uid, b).db)
  {
  }

  lemma UpdateVaultKeepsValid(db: Db, uid: UserId, v: VaultId, f: VaultStore.VaultFields)
    requires Valid(db)
    ensures Valid(VaultHandlers.UpdateVault(db, uid, v, f).db)
  {
  }

  lemma DeleteVaultKeepsValid(db: Db, uid: UserId, v: VaultId)
    requires Valid(db)
    ensures Valid(VaultHandlers.DeleteVault(db, uid, v).db)
  {
  }

  /** A member row is only written into a vault the caller manages, so one that exists. */
  lemma AddMemberKeepsValid(db: Db, uid: UserId, v: VaultId, user: UserId, role: Option<Role>)
    requires Valid(db)
    ensures Valid(VaultHandlers.AddMember(db, uid, v, user, role).db)
  {
  }

  lemma RemoveMemberKeepsValid(db: Db, uid: UserId, v: VaultId, user: UserId)
    requires Valid(db)
    ensures Valid(VaultHandlers.RemoveMember(db, uid, v, user).db)
  {
  }

  lemma CreateCredentialKeepsValid(db: Db, uid: UserId, b: Store.NewCredential)
    requires Valid(db)
    ensures Valid(CredentialHandlers.CreateCredential(db, uid, b).db)
  {
  }

  /** An update never stores a score of 0, since 0 is falsy and keeps the old score. */
  lemma {:induction false} UpdateCredentialKeepsValid(db: Db, uid: UserId, c: CredId, f: Store.CredentialFields)
    requires Valid(db)
    ensures Valid(CredentialHandlers.UpdateCredential(db, uid, c, f).db)
  {
    if CanWrite(db, c, uid) {
      Store.ScoreNeverZero(db, Store.NewCredential(0, "", None, None, "", "", None, None, None, None, None, None, None), c, f);
    }
  }

  lemma DeleteCredentialKeepsValid(db: Db, uid: UserId, c: CredId)
    requires Valid(db)
    ensures Valid(CredentialHandlers.DeleteCredential(db, uid, c).db)
  {
  }

  /** Linking a tag to an existing credential keeps the invariant. */
  lemma TagLinkKeepsValid(db: Db, c: CredId, t: TagId)
    requires Valid(db) && c in db.creds
    ensures Valid(Store.AssignTag(db, c, t)) && Valid(Store.UnassignTag(db, c, t))
  {
  }

  /** Linking a folder to an existing credential keeps the invariant. */
  lemma FolderLinkKeepsValid(db: Db, c: CredId, f: FolderId)
    requires Valid(db) && c in db.creds
    ensures Valid(Store.AssignFolder(db, c, f)) && Valid(Store.UnassignFolder(db, c, f))
  {
  }

  /** Tag links are only written for a credential the caller writes, so one that exists. */
  lemma {:induction false} TagRoutesKeepValid(db: Db, uid: UserId, c: CredId, t: TagId)
    requires Valid(db)
    ensures Valid(CredentialHandlers.AssignTag(db, uid, c, t).db)
    ensures Valid(CredentialHandlers.UnassignTag(db, uid, c, t).db)
  {
    if CanWrite(db, c, uid) {
      TagLinkKeepsValid(db, c, t);
    }
  }

  /** Folder links are only written for a credential the caller writes, so one that exists. */
  lemma {:induction false} FolderRoutesKeepValid(db: Db, uid: UserId, c: CredId, f: FolderId)
    requires Valid(db)
    ensures Valid(CredentialHandlers.AssignFolder(db, uid, c, f).db)
    ensures Valid(CredentialHandlers.UnassignFolder(db, uid, c, f).db)
  {
    if CanWrite(db, c, uid) {
      FolderLinkKeepsValid(db, c, f);
    }
  }

  /** Sharing or revoking on an existing credential keeps the invariant. */
  lemma ShareRowKeepsValid(db: Db, c: CredId, user: UserId, role: ShareRole)
    requires Valid(db) && c in db.creds
    ensures Valid(Store.Share(db, c, user, role)) && Valid(Store.Revoke(db, c, user))
  {
  }

  /** Share rows are only written for a credential that was found, so one below the counter. */
  lemma {:induction false} ShareRoutesKeepValid(db: Db, uid: UserId, c: CredId, user: UserId, role: Option<ShareRole>)
    requires Valid(db)
    ensures Valid(CredentialHandlers.ShareCredential(db, uid, c, user, role).db)
    ensures Valid(CredentialHandlers.RevokeShare(db, uid, c, user).db)
  {
    if c in db.creds {
      ShareRowKeepsValid(db, c, user, role.GetOr(Lector));
    }
  }

  lemma AddAttachmentKeepsValid(db: Db, uid: UserId, c: CredId, u: CredentialHandlers.AttachmentUpload, now: int)
    requires Valid(db)
    ensures Valid(CredentialHandlers.AddAttachment(db, uid, c, u, now).db)
  {
    var o := CredentialHandlers.AddAttachment(db, uid, c, u, now);
    if o.status != Forbidden {
      assert c in db.creds;
      assert o.db == db.(attachments := o.db.attachments, nextAttachment := db.nextAttachment + 1);
    }
  }

  lemma DeleteAttachmentKeepsValid(db: Db, uid: UserId, c: CredId, a: AttachmentId)
    requires Valid(db)
    ensures Valid(CredentialHandlers.DeleteAttachment(db, uid, c, a).db)
    ensures Valid(CredentialHandlers.DeleteAttachmentChecked(db, uid, c, a).db)
  {
  }

  lemma {:induction false} VaultRequestsKeepValid(db: Db, uid: UserId, req: Request, now: int)
    requires Valid(db) && (req.CreateVault? || req.UpdateVault? || req.DeleteVault? || req.AddMember? || req.RemoveMember?)
    ensures Valid(Handle(db, uid, req, now).db)
  {
    if req.CreateVault? {
      CreateVaultKeepsValid(db, uid, req.newVault);
    } else if req.UpdateVault? {
      UpdateVaultKeepsValid(db, uid, req.v, req.vaultFields);
    } else if req.DeleteVault? {
      DeleteVaultKeepsValid(db, uid, req.v);
    } else if req.AddMember? {
      AddMemberKeepsValid(db, uid, req.v, req.user, req.role);
    } else {
      RemoveMemberKeepsValid(db, uid, req.v, req.user);
    }
  }

  lemma {:induction false} CredentialRequestsKeepValid(db: Db, uid: UserId, req: Request, now: int)
    requires Valid(db) && (req.CreateCredential? || req.UpdateCredential? || req.DeleteCredential?)
    ensures Valid(Handle(db, uid, req, now).db)
  {
    if req.CreateCredential? {
      CreateCredentialKeepsValid(db, uid, req.newCred);
    } else if req.UpdateCredential? {
      UpdateCredentialKeepsValid(db, uid, req.c, req.credFields);
    } else {
      DeleteCredentialKeepsValid(db, uid, req.c);
    }
  }

  lemma {:induction false} LinkRequestsKeepValid(db: Db, uid: UserId, req: Request, now: int)
    requires Valid(db) && (req.AssignTag? || req.UnassignTag? || req.AssignFolder? || req.UnassignFolder?)
    ensures Valid(Handle(db, uid, req, now).db)
  {
    if req.AssignTag? || req.UnassignTag? {
      TagRoutesKeepValid(db, uid, req.c, req.tag);
    } else {
      FolderRoutesKeepValid(db, uid, req.c, req.folder);
    }
  }

  lemma {:induction false} ShareRequestKeepsValid(db: Db, uid: UserId, c: CredId, u: UserId, r: Option<ShareRole>, now: int)
    requires Valid(db)
    ensures Valid(Handle(db, uid, ShareCredential(c, u, r), now).db)
  {
    ShareRoutesKeepValid(db, uid, c, u, r);
  }

  lemma {:induction false} RevokeRequestKeepsValid(db: Db, uid: UserId, c: CredId, u: UserId, now: int)
    requires Valid(db)
    ensures Valid(Handle(db, uid, RevokeShare(c, u), now).db)
  {
    ShareRoutesKeepValid(db, uid, c, u, None);
  }

  lemma {:induction false} FileRequestsKeepValid(db: Db, uid: UserId, req: Request, now: int)
    requires Valid(db) && (req.AddAttachment? || req.DeleteAttachment?)
    ensures Valid(Handle(db, uid, req, now).db)
  {
    if req.AddAttachment? {
      AddAttachmentKeepsValid(db, uid, req.c, req.upload, now);
    } else {
      DeleteAttachmentKeepsValid(db, uid, req.c, req.attachment);
    }
  }

  /** Every request keeps the store's invariant: ids below their counters, links to issued credentials, no zero score. */
  lemma {:induction false} HandlePreservesValid(db: Db, uid: UserId, req: Request, now: int)
    requires WellFormed(req) && Valid(db)
    ensures Valid(Handle(db, uid, req, now).db)
  {
    if req.CreateVault? || req.UpdateVault? || req.DeleteVault? || req.AddMember? || req.RemoveMember? {
      VaultRequestsKeepValid(db, uid, req, now);
    } else if req.CreateCredential? || req.UpdateCredential? || req.DeleteCredential? {
      CredentialRequestsKeepValid(db, uid, req, now);
    } else if req.AssignTag? || req.UnassignTag? || req.AssignFolder? || req.UnassignFolder? {
      LinkRequestsKeepValid(db, uid, req, now);
    } else if req.ShareCredential? {
      ShareRequestKeepsValid(db, uid, req.c, req.user, req.shareRole, now);
    } else if req.RevokeShare? {
      RevokeRequestKeepsValid(db, uid, req.c, req.user, now);
    } else if req.AddAttachment? || req.DeleteAttachment? {
      FileRequestsKeepValid(db, uid, req, now);
    } else {
      QueriesChangeNothing(db, uid, req, now);
    }
  }

  /** The confined dispatcher keeps the invariant as well. */
  lemma {:induction false} HandleConfinedPreservesValid(db: Db, uid: UserId, req: Request, now: int)
    requires WellFormed(req) && Valid(db)
    ensures Valid(HandleConfined(db, uid, req, now).db)
  {
    if req.DeleteAttachment? {
      DeleteAttachmentKeepsValid(db, uid, req.c, req.attachment);
    } else if !req.GetAttachment? {
      HandlePreservesValid(db, uid, req, now);
    }
  }

  /**
   Deleting a vault leaves its credentials and their shares in place: a
   member of the deleted vault loses every role, while an active share on one
   of its credentials still reads it.
   */
  lemma SharesOutliveTheirVault(db: Db, uid: UserId, v: VaultId, c: CredId, u: UserId)
    requires c in db.creds && db.creds[c].vault == v && HasActiveShare(db, c, u)
    ensures var after := VaultHandlers.DeleteVault(db, uid, v).db;
            && (VaultRole(db, v, uid) in {Some(Dueno), Some(Admin)} ==> VaultRole(after, v, u).None?)
            && c in after.creds && CanRead(after, c, u)
  {
  }

  // ---------------------------------------------------------------------------
  // Scenarios

  /** A creates a vault, adds B as `Editor`, B creates a credential in it: B writes it through the vault role alone. */
  lemma {:induction false} EditorMemberWritesOwnCredential(db: Db, a: UserId, b: UserId, name: string, body: Store.NewCredential, now: int)
    requires Valid(db) && a != 0 && b != a
    ensures var v := db.nextVault;
            var o1 := Handle(db, a, CreateVault(VaultHandlers.NewVault(name, Some(Personal), None, None)), now);
            var o2 := Handle(o1.db, a, AddMember(v, b, Some(Editor)), now);
            var o3 := Handle(o2.db, b, CreateCredential(body.(vault := v)), now);
            && o1.status == Created && o2.status == Created && o3.status == Created
            && VaultRole(o3.db, v, b) == Some(Editor)
            && CanWrite(o3.db, db.nextCred, b)
            && !HasActiveShare(o3.db, db.nextCred, b)
  {
    var v := db.nextVault;
    var o1 := Handle(db, a, CreateVault(VaultHandlers.NewVault(name, Some(Personal), None, None)), now);
    assert VaultRole(o1.db, v, a) == Some(Dueno);
    var o2 := Handle(o1.db, a, AddMember(v, b, Some(Editor)), now);
    assert o2.db.vaults == o1.db.vaults;
    assert VaultRole(o2.db, v, b) == Some(Editor);
    var o3 := Handle(o2.db, b, CreateCredential(body.(vault := v)), now);
    assert o3.db.vaults == o2.db.vaults && o3.db.members == o2.db.members;
    assert (db.nextCred, b) !in db.shares;
  }

  /** A share is granted as `Editor` and then revoked: the user writes before and neither reads nor writes after. */
  lemma {:induction false} EditorShareThenRevoke(db: Db, admin: UserId, c: CredId, u: UserId)
    requires c in db.creds && VaultRole(db, db.creds[c].vault, u).None?
    requires ManagesVault(VaultRole(db, db.creds[c].vault, admin))
    ensures var o1 := CredentialHandlers.ShareCredential(db, admin, c, u, Some(Editor));
            var o2 := CredentialHandlers.RevokeShare(o1.db, admin, c, u);
            && o1.status == Created && CanWrite(o1.db, c, u)
            && o2.status == Ok && !CanRead(o2.db, c, u) && !CanWrite(o2.db, c, u)
  {
    var db1 := Store.Share(db, c, u, Editor);
    assert db1.vaults == db.vaults && db1.members == db.members && db1.creds == db.creds;
    assert VaultRole(db1, db.creds[c].vault, admin) == VaultRole(db, db.creds[c].vault, admin);
    var db2 := Store.Revoke(db1, c, u);
    assert db2.vaults == db.vaults && db2.members == db.members && db2.creds == db.creds;
    assert VaultRole(db2, db.creds[c].vault, u).None?;
    RevokedShareGrantsNothing(db2, c, u);
  }

  /** Sharing again as `Lector` after a revocation reactivates the row: the user reads and does not write. */
  lemma {:induction false} ReshareAsReader(db: Db, admin: UserId, c: CredId, u: UserId)
    requires c in db.creds && VaultRole(db, db.creds[c].vault, u).None?
    requires ManagesVault(VaultRole(db, db.creds[c].vault, admin))
    requires (c, u) in db.shares && db.shares[(c, u)].status == Revocada
    ensures var o := CredentialHandlers.ShareCredential(db, admin, c, u, Some(Lector));
            o.status == Created && CanRead(o.db, c, u) && !CanWrite(o.db, c, u)
  {
    var db1 := Store.Share(db, c, u, Lector);
    assert db1.vaults == db.vaults && db1.members == db.members && db1.creds == db.creds;
    assert VaultRole(db1, db.creds[c].vault, u).None?;
    ReaderShareNeverWrites(db1, c, u);
  }

  /** The owner shares with an outsider as `Lector`: the share is created and the role tables stay as they were. */
  lemma {:induction false} OwnerSharesAsReader(db: Db, a: UserId, x: UserId, c: CredId)
    requires c in db.creds && db.creds[c].vault in db.vaults && db.vaults[db.creds[c].vault].owner == Some(a)
    requires x != a && (db.creds[c].vault, x) !in db.members
    ensures var o := CredentialHandlers.ShareCredential(db, a, c, x, Some(Lector));
            && o.status == Created && o.db == Store.Share(db, c, x, Lector)
            && CanRead(o.db, c, x) && !CanWrite(o.db, c, x)
  {
    var v := db.creds[c].vault;
    assert VaultRole(db, v, a) == Some(Dueno);
    var db' := Store.Share(db, c, x, Lector);
    assert db'.vaults == db.vaults && db'.members == db.members && db'.creds == db.creds;
    assert VaultRole(db', v, x).None?;
    ReaderShareNeverWrites(db', c, x);
  }

  /**
   The owner shares a credential with an outsider as `Lector`: the outsider
   reads and does not write; a vault `Editor` who tries to share it is refused.
   */
  lemma {:induction false} OwnerSharesEditorCannot(db: Db, a: UserId, b: UserId, x: UserId, d: UserId, c: CredId)
    requires c in db.creds && db.creds[c].vault in db.vaults && db.vaults[db.creds[c].vault].owner == Some(a)
    requires x != a && (db.creds[c].vault, x) !in db.members
    requires b != a && (db.creds[c].vault, b) in db.members && db.members[(db.creds[c].vault, b)] == Editor
    ensures var o1 := CredentialHandlers.ShareCredential(db, a, c, x, Some(Lector));
            var o2 := CredentialHandlers.ShareCredential(o1.db, b, c, d, None);
            && o1.status == Created && CanRead(o1.db, c, x) && !CanWrite(o1.db, c, x)
            && o2.status == Forbidden && o2.db == o1.db
  {
    OwnerSharesAsReader(db, a, x, c);
    var db' := Store.Share(db, c, x, Lector);
    assert db'.vaults == db.vaults && db'.members == db.members && db'.creds == db.creds;
    assert VaultRole(db', db.creds[c].vault, b) == Some(Editor);
  }

  /** A vault `Editor`, or an `Editor` share holder, cannot share or revoke: the request is refused with 403. */
  lemma EditorsCannotGrant(db: Db, uid: UserId, c: CredId, user: UserId, role: Option<ShareRole>, now: int)
    requires c in db.creds && !ManagesVault(VaultRole(db, db.creds[c].vault, uid))
    ensures Handle(db, uid, ShareCredential(c, user, role), now).status == Forbidden
    ensures Handle(db, uid, RevokeShare(c, user), now).status == Forbidden
  {
  }

  /** A share-only user cannot list or search the vault, nor create in it. */
  lemma SharesDoNotOpenTheVault(db: Db, uid: UserId, v: VaultId, body: Store.NewCredential, now: int)
    requires VaultRole(db, v, uid).None? && body.vault == v
    ensures Handle(db, uid, ListByVault(v, None, None), now).status == Forbidden
    ensures Handle(db, uid, SearchByUrl(v, None, None, None), now).status == Forbidden
    ensures Handle(db, uid, CreateCredential(body), now).status == Forbidden
  {
  }

  /** Adding the same member twice ends as adding it once. */
  lemma {:induction false} AddMemberIsIdempotent(db: Db, uid: UserId, v: VaultId, user: UserId, role: Option<Role>, now: int)
    ensures var once := Handle(db, uid, AddMember(v, user, role), now);
            Handle(once.db, uid, AddMember(v, user, role), now).db == once.db
  {
    var once := Handle(db, uid, AddMember(v, user, role), now);
    if once.status != Forbidden {
      var r := role.GetOr(Lector);
      VaultStore.AddMemberTwice(db, v, user, r, r);
      if user != uid {
        VaultStore.MembershipChangesAreLocal(db, v, user, r, v, uid);
      }
      assert once.db == VaultStore.AddMember(db, v, user, r);
      assert (v, user) in once.db.members && once.db.members[(v, user)] == r;
      VaultStore.AddSameRoleIsNoOp(once.db, v, user);
    }
  }

  /** Access decisions read only the vault, membership, credential and share tables. */
  lemma SameTablesSameAccess(db: Db, db': Db, c: CredId, u: UserId)
    requires db'.vaults == db.vaults && db'.members == db.members && db'.creds == db.creds && db'.shares == db.shares
    ensures CanRead(db', c, u) == CanRead(db, c, u) && CanWrite(db', c, u) == CanWrite(db, c, u)
  {
  }

  /** Linking the same tag twice ends as linking it once. */
  lemma {:induction false} TagLinkIsIdempotent(db: Db, uid: UserId, c: CredId, t: TagId)
    ensures var once := CredentialHandlers.AssignTag(db, uid, c, t);
            CredentialHandlers.AssignTag(once.db, uid, c, t).db == once.db
  {
    var once := CredentialHandlers.AssignTag(db, uid, c, t);
    SameTablesSameAccess(db, once.db, c, uid);
    Store.TagLinksIdempotent(db, c, t);
  }

  /** Linking the same folder twice ends as linking it once. */
  lemma {:induction false} FolderLinkIsIdempotent(db: Db, uid: UserId, c: CredId, f: FolderId)
    ensures var once := CredentialHandlers.AssignFolder(db, uid, c, f);
            CredentialHandlers.AssignFolder(once.db, uid, c, f).db == once.db
  {
    var once := CredentialHandlers.AssignFolder(db, uid, c, f);
    SameTablesSameAccess(db, once.db, c, uid);
    Store.FolderLinksIdempotent(db, c, f);
  }
}
