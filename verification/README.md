# Password-vault authorization core, modelled in Dafny

This project models the authorization layer of the password-vault ("gestor de
credenciales") part of the `admin-bcknd` back end.

**Entities.** Users own *bóvedas* (vaults). Other users join a vault through a
membership row whose role is `DUENO`, `ADMIN`, `EDITOR` or `LECTOR`. A vault
holds *credenciales* (encrypted credentials), and each credential has:

- tags and folders;
- attachments;
- a rotation history;
- per-user *comparticiones* (shares), with role `EDITOR` or `LECTOR` and status `ACTIVA` or `REVOCADA`.

**The resolver.** Three functions decide every request:

- the role in a vault (`obtenerRolEnBoveda`);
- read access to a credential (`tieneLecturaCredencial`);
- write access to a credential (`tieneEscrituraCredencial`).

**Handlers.** Every handler of the two mounted routers is modelled:

- 7 vault handlers;
- 20 credential handlers.

Each is a pure transition from a state, a caller and a request to an
`Outcome`: an HTTP status, a JSON payload and the new state. Each reproduces
its source's order of checks and its status codes.

**Stores.** The store operations are pure functions over an immutable `Db` of
maps and sets:

- an auto-increment counter per table;
- `ON DUPLICATE KEY` upserts;
- `COALESCE(x || null, column)` updates;
- `ORDER BY` listings;
- `LIMIT`/`OFFSET` pages.

**Independent references.** The resolver and the handlers are checked against
two definitions written separately from them:

- a role lattice (`Access.RolePermissions`, `Access.CredentialPermissions`);
- a route table (`Api.GateOf`).

**Files.**

- `wrappers.dfy`: `Option`.
- `ordering.dfy`: text order, sorting, the ordered `Select` used by every listing, and paging.
- `schema.dfy`: the tables, the store invariant `Valid`, and JavaScript falsiness.
- `access.dfy`: the resolver and the role lattice.
- `vault_store.dfy`: `models/gc-boveda.js`.
- `credential_store.dfy`: `models/gc-credencial.js`.
- `http.dfy`: `Outcome`.
- `vault_handlers.dfy`: `controllers/gc-bovedas.js`.
- `credential_handlers.dfy`: `controllers/gc-credenciales.js`.
- `api.dfy`: the dispatcher as the routers wire it, a corrected dispatcher for the attachment routes, the route gates, the global properties and the scenarios.

**Two behaviours of the program worth noting:**

- `obtener` checks read access before existence. A missing credential therefore answers 403, never 404.
- `actualizar` lets a writer move a credential into any vault id, including one where the writer holds no role (`CredentialStore.UpdateMayMoveOutOfVault`).

## Model

| member | source | states |
|---|---|---|
| Access.VaultRole | controllers/gc-credenciales.js:6-16 | The owner is `Dueno` whatever membership row exists; otherwise a member's role is its row's role; no role exactly when the vault is missing or the user neither owns it nor has a row |
| Access.CanRead | controllers/gc-credenciales.js:18-28 | No read on a missing credential; any vault role reads; without one, read holds exactly when an ACTIVA share of either role exists |
| Access.CanWrite | controllers/gc-credenciales.js:30-40 | Write holds exactly when the credential exists and the vault role is `Dueno`, `Admin` or `Editor`, or an ACTIVA `Editor` share exists |
| Access.CanReadIsView | controllers/gc-credenciales.js:18-28 | The read decision equals the lattice's `View` permission, for every credential and user |
| Access.CanWriteIsModify | controllers/gc-credenciales.js:30-40 | The write decision equals the lattice's `Modify` permission, for every credential and user |
| Access.VaultGatesAreLattice | controllers/gc-credenciales.js:109-119 | The role lists the handlers test (`Dueno`/`Admin`/`Editor` to create, `Dueno`/`Admin` to manage or share) are exactly the lattice's `CreateIn`, `Manage` and `Grant` |
| Access.RolePermissionsMonotone | controllers/gc-credenciales.js:30-40 | A higher role is allowed everything a lower one is |
| Access.WriteImpliesRead | controllers/gc-credenciales.js:18-40 | Write access implies read access for every credential and user |
| Access.GrantComesFromVaultRole | controllers/gc-credenciales.js:283-289 | Only a managing vault role grants; no share contributes `Grant` |
| Access.RevokedShareGrantsNothing | controllers/gc-credenciales.js:18-40 | Without a vault role, a REVOCADA share (or none) gives neither read nor write |
| Access.ReaderShareNeverWrites | controllers/gc-credenciales.js:30-40 | Without an editing vault role, an ACTIVA `Lector` share reads and never writes |
| Access.ReaderMemberWithEditorShareWrites | controllers/gc-credenciales.js:33-39 | A vault `Lector` holding an ACTIVA `Editor` share writes that credential |
| Access.OwnerDominatesMembership | controllers/gc-credenciales.js:6-16 | Whatever row the owner has in its own vault, its role stays `Dueno` |
| Access.MemberRowMayCarryDueno | routes/bovedas.js:71 | A non-owner member row may carry `Dueno`, and then resolves to `Dueno` |
| VaultStore.Create | models/gc-boveda.js:4-20 | A new vault takes the next id; owner 0 stores NULL; type defaults to PERSONAL; falsy key and IV store NULL; no other vault changes |
| VaultStore.Update | models/gc-boveda.js:22-35 | Only name, type, key and IV change; truthy inputs replace, falsy keep; the owner never changes; a missing vault is a no-op |
| VaultStore.Delete | models/gc-boveda.js:37-41 | Exactly vault `v` disappears; other vaults and every other table are unchanged |
| VaultStore.Get | models/gc-boveda.js:43-49 | Present exactly when the vault exists, and then it is that row |
| VaultStore.ListMine | models/gc-boveda.js:74-83 | A row is listed exactly when the user owns the vault or has a member row; no duplicates; ordered by name |
| VaultStore.ListMembers | models/gc-boveda.js:86-94 | Exactly the vault's member rows joined with their users, without duplicates, ordered by user name |
| VaultStore.AddMember | models/gc-boveda.js:96-101 | Afterwards the single (v, u) row has the given role; every other row is unchanged |
| VaultStore.RemoveMember | models/gc-boveda.js:103-109 | Exactly the (v, u) row is removed; every other row is unchanged |
| VaultStore.CreatorIsDueno | controllers/gc-bovedas.js:30-41 | In a valid state, the creator of a vault is its `Dueno` and nobody else has a role in it |
| VaultStore.UpdateKeepsRoles | models/gc-boveda.js:22-35 | A vault update changes nobody's role in any vault |
| VaultStore.UpdateIdempotent | models/gc-boveda.js:22-35 | Applying the same update twice equals applying it once |
| VaultStore.FalsyUpdateIsNoOp | models/gc-boveda.js:22-35 | An update whose fields are all falsy leaves the state unchanged |
| VaultStore.DeleteRevokesAllRoles | models/gc-boveda.js:37-49 | After deleting a vault, it is absent and every user's role in it is none |
| VaultStore.ListedIffHasRole | models/gc-boveda.js:74-83 | A vault is in the user's listing exactly when the user has a role in it |
| VaultStore.AddSameRoleIsNoOp | models/gc-boveda.js:96-101 | Re-adding a member with its present role changes nothing |
| VaultStore.AddMemberTwice | models/gc-boveda.js:96-101 | Adding twice equals adding once with the second role: one row per pair |
| VaultStore.RemoveMemberKeepsOwner | controllers/gc-bovedas.js:126-137 | Removing any member row, even the owner's own, leaves the owner `Dueno` |
| VaultStore.MembershipChangesAreLocal | models/gc-boveda.js:96-109 | Adding or removing (v, x) leaves every other pair's role unchanged |
| VaultStore.OwnerListedOnlyWithRow | models/gc-boveda.js:86-94 | Whoever appears in the member listing has a membership row; the owner alone does not appear |
| CredentialStore.Create | models/gc-credencial.js:4-37 | A new credential takes the next id; falsy optional columns store NULL; a 0 score stores NULL; breach defaults to NINGUNA; nothing else changes |
| CredentialStore.Update | models/gc-credencial.js:39-73 | Every column is replaced only by a truthy value and kept otherwise, the vault id included; a missing credential is a no-op |
| CredentialStore.Delete | models/gc-credencial.js:75-81 | Exactly credential `c` disappears; nothing else changes |
| CredentialStore.Get | models/gc-credencial.js:83-89 | Present exactly when the credential exists, and then it is that row |
| CredentialStore.CredentialsWhere | models/gc-credencial.js:91-116 | Exactly the vault's credentials that satisfy the filter, without duplicates, ordered by title; as many rows as matching ids |
| CredentialStore.ListByVault | models/gc-credencial.js:91-102 | The items are the rows at offset `(pagina-1)*limite` of the title-ordered listing, at most `limite` of them; the total counts every credential of the vault |
| CredentialStore.SearchByUrl | models/gc-credencial.js:104-116 | Same page and total, over the credentials whose URL contains the term |
| CredentialStore.AssignTag | models/gc-credencial.js:119-125 | The tag link set gains exactly (c, t); nothing else changes |
| CredentialStore.UnassignTag | models/gc-credencial.js:126-132 | The tag link set loses exactly (c, t); nothing else changes |
| CredentialStore.ListTags | models/gc-credencial.js:133-139 | Exactly the existing tags linked to `c`, without duplicates, ordered by name |
| CredentialStore.AssignFolder | models/gc-credencial.js:142-148 | The folder link set gains exactly (c, f); nothing else changes |
| CredentialStore.UnassignFolder | models/gc-credencial.js:149-155 | The folder link set loses exactly (c, f); nothing else changes |
| CredentialStore.ListFolders | models/gc-credencial.js:156-162 | Exactly the existing folders linked to `c`, without duplicates, ordered by name |
| CredentialStore.Share | models/gc-credencial.js:165-171 | Afterwards the single (c, u) row is ACTIVA with the given role, whatever its status was; other rows are unchanged |
| CredentialStore.Revoke | models/gc-credencial.js:172-178 | An existing (c, u) row turns REVOCADA and keeps its role; with no row nothing changes; no row is created |
| CredentialStore.ListShares | models/gc-credencial.js:179-185 | Every share row of `c`, whatever its status, joined with its user, without duplicates, ordered by user name |
| CredentialStore.AddAttachment | models/gc-credencial.js:188-206 | A new attachment takes the next id and the caller's clock reading; an empty MIME type and a 0 size store NULL |
| CredentialStore.ListAttachments | models/gc-credencial.js:207-213 | Exactly the metadata (no content, no IV) of `c`'s attachments, newest first, without duplicates |
| CredentialStore.GetAttachment | models/gc-credencial.js:214-220 | Present exactly when the attachment id exists, whichever credential it belongs to |
| CredentialStore.DeleteAttachment | models/gc-credencial.js:221-227 | Exactly that attachment id disappears, whichever credential it belongs to |
| CredentialStore.HistoryOf | models/gc-credencial.js:230-241 | Exactly `c`'s rotation entries, newest first, without duplicates |
| CredentialStore.ListHistory | models/gc-credencial.js:230-241 | A page of `c`'s rotations at offset `(pagina-1)*limite`, at most `limite` of them, with the total count |
| CredentialStore.ScoreNeverZero | models/gc-credencial.js:21-71 | Neither creating nor updating ever stores a score of 0 |
| CredentialStore.ZeroScoreKeepsOldScore | models/gc-credencial.js:39-71 | An update with score 0 keeps the old score |
| CredentialStore.FalsyUpdateIsNoOp | models/gc-credencial.js:39-73 | An update whose fields are all falsy leaves the state unchanged |
| CredentialStore.UpdateIdempotent | models/gc-credencial.js:39-73 | Applying the same update twice equals applying it once |
| CredentialStore.UpdateMayMoveOutOfVault | models/gc-credencial.js:39-73 | An update can move a credential to another vault id, and then a user with no role there and no share loses read access |
| CredentialStore.DeleteRevokesAccess | models/gc-credencial.js:75-89 | After deletion the credential is absent and nobody reads or writes it |
| CredentialStore.EveryCredentialOnItsPage | models/gc-credencial.js:91-102 | Row `i` of the full listing is row `i mod limite` of page `i div limite + 1` |
| CredentialStore.TotalIndependentOfPage | models/gc-credencial.js:91-102 | The reported total is the same for every page and page size |
| CredentialStore.SearchHitsMatch | models/gc-credencial.js:104-116 | Every search hit belongs to the vault and its URL contains the term |
| CredentialStore.TagLinksIdempotent | models/gc-credencial.js:119-132 | Assigning a tag twice equals assigning once; assign then unassign removes exactly that link |
| CredentialStore.FolderLinksIdempotent | models/gc-credencial.js:142-155 | Assigning a folder twice equals assigning once; assign then unassign removes exactly that link |
| CredentialStore.ShareLifecycle | models/gc-credencial.js:165-178 | Revoke keeps the role; re-sharing a revoked row equals sharing afresh; revoking twice equals once |
| CredentialStore.ShareGrantsAccess | models/gc-credencial.js:165-171 | After sharing, the user reads; it writes exactly when the share or its vault role edits |
| CredentialStore.RevokeWithdrawsShareAccess | models/gc-credencial.js:172-178 | After revoking, read and write come from the vault role alone |
| CredentialStore.SharingIsLocal | models/gc-credencial.js:165-178 | Sharing or revoking (c, u) changes no other pair's access |
| CredentialStore.RevokedShareStillListed | models/gc-credencial.js:172-185 | A revoked share still appears in the listing, with its role and status REVOCADA |
| Ordering.Page | models/gc-credencial.js:91-102 | A page holds at most `limit` rows, namely the rows from `offset` on, in order |
| Ordering.EveryRowOnItsPage | models/gc-credencial.js:91-102 | With offset `(pagina-1)*limite`, every row of a listing lies on exactly the page its index determines |
| VaultHandlers.ListMyVaults | controllers/gc-bovedas.js:19-28 | No role check and no state change; the listing is exactly the vaults where the caller has a role |
| VaultHandlers.CreateVault | controllers/gc-bovedas.js:30-47 | Answers 201 with the new vault, whose `Dueno` is the caller; the new state is exactly the store's insert, so name, kind and key are stored and the rest is untouched |
| VaultHandlers.UpdateVault | controllers/gc-bovedas.js:49-71 | 403 with no change exactly when the caller is not `Dueno`/`Admin`; else the falsy-keeps update, owner kept |
| VaultHandlers.DeleteVault | controllers/gc-bovedas.js:73-88 | 403 with no change exactly when the caller is not `Dueno`/`Admin`; else the vault is gone |
| VaultHandlers.ListMembers | controllers/gc-bovedas.js:90-105 | Never changes state; 403 exactly when the caller is not `Dueno`/`Admin`; else the member listing |
| VaultHandlers.AddMember | controllers/gc-bovedas.js:107-124 | 403 with no change exactly when the caller is not `Dueno`/`Admin`; else the upsert with role `Lector` by default, 201 with the members |
| VaultHandlers.RemoveMember | controllers/gc-bovedas.js:126-142 | 403 with no change exactly when the caller is not `Dueno`/`Admin`; else the (v, user) row is removed |
| VaultHandlers.RemovalNeverDemotesOwner | controllers/gc-bovedas.js:126-137 | No removal request, by anyone, changes the owner's `Dueno` role |
| VaultHandlers.NonManagersAreRefused | controllers/gc-bovedas.js:53-134 | An `Editor`, a `Lector` or an outsider gets 403 from every management handler, with the state unchanged |
| CredentialHandlers.ListByVault | controllers/gc-credenciales.js:42-61 | Never changes state; 403 exactly without a vault role (a share is not enough); else the page with `pagina` default 1 and `limite` default 20 |
| CredentialHandlers.SearchByUrl | controllers/gc-credenciales.js:63-84 | Never changes state; 403 exactly without a vault role; else the URL search page, with an absent term read as "" |
| CredentialHandlers.GetCredential | controllers/gc-credenciales.js:86-103 | 403 exactly without read access, so a missing credential answers 403 and 404 never occurs; else the row |
| CredentialHandlers.CreateCredential | controllers/gc-credenciales.js:105-127 | 403 with no change exactly unless the caller edits the target vault; else 201 with the new row in that vault |
| CredentialHandlers.UpdateCredential | controllers/gc-credenciales.js:129-145 | 403 with no change exactly without write access; else the store update, answered with the row |
| CredentialHandlers.DeleteCredential | controllers/gc-credenciales.js:147-162 | 403 with no change exactly without write access; else the credential is gone |
| CredentialHandlers.ListTags | controllers/gc-credenciales.js:165-178 | Never changes state; 403 exactly without read access; else the tag listing |
| CredentialHandlers.AssignTag | controllers/gc-credenciales.js:180-195 | 403 with no change exactly without write access; else the link is added, 201 with the tags |
| CredentialHandlers.UnassignTag | controllers/gc-credenciales.js:197-211 | 403 with no change exactly without write access; else the link is removed |
| CredentialHandlers.ListFolders | controllers/gc-credenciales.js:214-227 | Never changes state; 403 exactly without read access; else the folder listing |
| CredentialHandlers.AssignFolder | controllers/gc-credenciales.js:229-244 | 403 with no change exactly without write access; else the link is added, 201 with the folders |
| CredentialHandlers.UnassignFolder | controllers/gc-credenciales.js:246-260 | 403 with no change exactly without write access; else the link is removed |
| CredentialHandlers.ListShares | controllers/gc-credenciales.js:263-276 | Never changes state; 403 exactly without read access; else every share row, revoked ones included |
| CredentialHandlers.ShareCredential | controllers/gc-credenciales.js:278-298 | 404 exactly for a missing credential; then 403 exactly unless `Dueno`/`Admin` of its vault; both leave the state unchanged; else an ACTIVA share, `Lector` by default, 201 |
| CredentialHandlers.RevokeShare | controllers/gc-credenciales.js:300-319 | 404 exactly for a missing credential; then 403 exactly unless `Dueno`/`Admin` of its vault; both leave the state unchanged; else the share turns REVOCADA |
| CredentialHandlers.ListAttachments | controllers/gc-credenciales.js:322-335 | Never changes state; 403 exactly without read access; else the metadata listing |
| CredentialHandlers.AddAttachment | controllers/gc-credenciales.js:337-369 | 403 with no change exactly without write access; else a new attachment of `c`, stamped with the clock, 201 with it; the new state is exactly the store's insert of the upload, the rest untouched |
| CredentialHandlers.GetAttachment | controllers/gc-credenciales.js:371-387 | As written: 403 exactly without read access on `c`; 404 exactly when the attachment id is missing; else the attachment, whatever its credential |
| CredentialHandlers.DeleteAttachment | controllers/gc-credenciales.js:389-403 | As written: 403 with no change exactly without write access on `c`; else that attachment id is deleted, whatever its credential |
| CredentialHandlers.GetAttachmentChecked | controllers/gc-credenciales.js:371-387 | Corrected: 404 also when the attachment belongs to another credential |
| CredentialHandlers.DeleteAttachmentChecked | controllers/gc-credenciales.js:389-403 | Corrected: deletes only an attachment of `c`; any other id leaves the state unchanged |
| CredentialHandlers.ListHistory | controllers/gc-credenciales.js:406-425 | Never changes state; 403 exactly without read access; else the history page with `limite` default 50 |
| CredentialHandlers.CheckedReadStaysInCredential | controllers/gc-credenciales.js:371-387 | Whatever the corrected read returns belongs to a credential the caller reads |
| CredentialHandlers.CheckedDeleteStaysInCredential | controllers/gc-credenciales.js:389-403 | Whatever the corrected delete removes belongs to a credential the caller writes |
| CredentialHandlers.CheckedAgreesOnOwnAttachments | controllers/gc-credenciales.js:371-403 | On an attachment that belongs to `c`, the corrected handlers answer exactly as the written ones |
| CredentialHandlers.AttachmentOfAnotherCredentialLeaks | controllers/gc-credenciales.js:371-403 | In a concrete valid state, the handlers as written let the owner of one credential read and delete another owner's attachment; the corrected ones refuse |
| Api.Handle | index.js:73-74 | Routes each of the 27 requests to its handler as the routers do, attachment reads and deletes included; a 403 or 404 never changes the state |
| Api.HandleConfined | controllers/gc-credenciales.js:371-403 | The corrected dispatcher: identical to `Handle` except on attachment reads and deletes, which refuse exactly whom `Handle` refuses and stay within the credential of the path |
| Api.ConfinedFollowsGates | controllers/gc-credenciales.js:86-425 | The corrected dispatcher answers 403 exactly when the route table's gate refuses |
| Api.ForbiddenIffGateRefuses | controllers/gc-credenciales.js:42-425 | For every request, the answer is 403 exactly when the route table's permission, read off the role lattice, is not held |
| Api.VaultGateIsRoleList | controllers/gc-bovedas.js:53-134 | The lattice gates `View`, `CreateIn` and `Manage` are exactly "any role", the editing roles and the managing roles |
| Api.GrantGateIsManager | controllers/gc-credenciales.js:283-311 | For an existing credential, the share gate admits exactly a `Dueno`/`Admin` of its vault |
| Api.VaultRoutesFollowGates | controllers/gc-bovedas.js:49-142 | The vault management routes answer 403 exactly when the caller is not `Dueno` or `Admin` of the vault |
| Api.InVaultRoutesFollowGates | controllers/gc-credenciales.js:42-128 | Listing, URL search and creation answer 403 exactly when the caller's role in the vault is not one the route accepts |
| Api.ReadRoutesFollowGates | controllers/gc-credenciales.js:86-425 | Every route that reads a credential answers 403 exactly when the credential is missing or the caller has neither a role in its vault nor an active share |
| Api.WriteRoutesFollowGates | controllers/gc-credenciales.js:129-403 | Every route that changes a credential answers 403 exactly when the credential is missing or the caller has neither a `Dueno`, `Admin` or `Editor` vault role nor an active `Editor` share |
| Api.ShareRoutesFollowGates | controllers/gc-credenciales.js:278-319 | The share routes answer 403 exactly when their gate refuses |
| Api.OnlyAdmittedCallersChangeState | controllers/gc-credenciales.js:42-425 | The state changes only for a caller its route's gate admits |
| Api.QueriesChangeNothing | controllers/gc-credenciales.js:42-103 | Listing and reading routes never change the state, whoever asks |
| Api.AttachmentReadStaysWithItsCredential | controllers/gc-credenciales.js:371-387 | Through the corrected dispatcher, an attachment is served only under its own credential, to a caller who may read it |
| Api.AttachmentDeleteStaysWithItsCredential | controllers/gc-credenciales.js:389-403 | Through the corrected dispatcher, an attachment is deleted only under its own credential, by a caller who may write it |
| Api.DispatcherLeaksAttachment | routes/credenciales.js:227-246 | Through the program's dispatcher, the owner of credential 0 is served and deletes the attachment of another owner's credential 1; the corrected dispatcher answers 404 and deletes nothing |
| Api.HandlePreservesValid | models/gc-credencial.js:4-241 | Every request keeps the invariant: ids below their counters, links and shares only for issued credentials, no stored score of 0 |
| Api.HandleConfinedPreservesValid | controllers/gc-credenciales.js:371-403 | The corrected dispatcher keeps the same invariant |
| Api.SharesOutliveTheirVault | models/gc-boveda.js:37-41 | After a vault is deleted, its members have no role in it, but its credentials remain and an active share on one of them still reads it |
| Api.EditorMemberWritesOwnCredential | controllers/gc-bovedas.js:30-124 | A creates a vault and adds B as `Editor`; B creates a credential there and writes it through the vault role alone, with no share |
| Api.EditorShareThenRevoke | controllers/gc-credenciales.js:278-319 | Given an `Editor` share, the user writes; once revoked, a user with no vault role neither reads nor writes |
| Api.ReshareAsReader | controllers/gc-credenciales.js:278-298 | Re-sharing a revoked row as `Lector` restores read access without write access |
| Api.OwnerSharesAsReader | controllers/gc-credenciales.js:278-298 | The owner's `Lector` share to an outsider is created; the outsider reads and does not write |
| Api.OwnerSharesEditorCannot | controllers/gc-credenciales.js:278-298 | After that share, a vault `Editor` who tries to share the credential gets 403 with the state unchanged |
| Api.EditorsCannotGrant | controllers/gc-credenciales.js:283-311 | A caller who is not `Dueno`/`Admin` of the credential's vault gets 403 from both share and revoke |
| Api.SharesDoNotOpenTheVault | controllers/gc-credenciales.js:46-119 | A caller without a vault role cannot list, search or create in it, whatever shares it holds |
| Api.AddMemberIsIdempotent | models/gc-boveda.js:96-101 | Sending the same add-member request twice ends as sending it once |
| Api.TagLinkIsIdempotent | models/gc-credencial.js:119-125 | Sending the same tag assignment twice ends as sending it once |
| Api.FolderLinkIsIdempotent | models/gc-credencial.js:142-148 | Sending the same folder assignment twice ends as sending it once |

## Left out

- Persistence failures: the 500 responses of every handler's `catch` are left out. So are the connection handle and `console.error` logging.
- Concurrency: the race between the permission check and the write that follows it is left out. Each request is one atomic transition.
- Request validation: the route validators' 400 answers are left out. Their enums are the datatypes `Role`, `ShareRole`, `VaultKind` and `Breach`. Their paging ranges are the `requires` of the paging handlers. Checks that call into the validator library (`isURL`, `isISO8601`, lengths) are left out.
- Authentication: the caller's `uid` is a parameter. JWT handling (`validarJWT`) is not part of this model.
- JSON input types: request values are typed. A numeric string such as `"0"`, which JavaScript treats as truthy, is not modelled, and neither is `parseInt` on a malformed path id.
- SQL text and MySQL behaviour:
  - text ordering is by code point, not by the column collation;
  - `LIKE '%q%'` is plain substring matching, without wildcards or case folding;
  - ties in `ORDER BY` may come in any order, and the model fixes one.
- Base64 decoding of uploads and the encrypted blobs: content is an opaque string, stored as received.
- Cascades: deleting a vault or a credential only removes its own row, because the schema is not part of this model. Stale member, share, link and attachment rows point at a missing row, grant nothing, and stay below the counters. The credentials of a deleted vault are not stale rows: they stay in place, and an active share on one of them still grants read access, and write access for `Editor` (`Api.SharesOutliveTheirVault`).
- Clock: the database clock that fills an attachment's `fecha_creacion` is the parameter `now`.
- Unused store functions: `listarPorDueno`, `listarPorMiembro` and `listarTodas` (models/gc-boveda.js:51-72) are not called by any handler.
- Duplicate routers: `routes/gc-*.js` are not mounted by `index.js`.
- URL search matches a contiguous substring of the stored URL. A credential whose URL is NULL never matches, as SQL `LIKE` on NULL does not.
- VaultHandlers.CreateVault: a caller uid of 0 is falsy and stores a NULL owner. The `Dueno` property is stated only for a uid other than 0.

## Findings

| source | as written | input that shows it | evidently intended | confidence | as-written member | corrected member |
|---|---|---|---|---|---|---|
| controllers/gc-credenciales.js:371-403 | `obtenerAdjunto` and `eliminarAdjunto` check access on the credential in the path (`:id`), then read or delete the attachment by `id_adjunto` alone | User 1 owns vault 0 with credential 0. User 2 owns vault 1 with credential 1, which holds attachment 0. User 1 sends `GET /credenciales/0/adjuntos/0` and `DELETE /credenciales/0/adjuntos/0`: user 2's attachment is returned, then deleted | An attachment is served or deleted only under the credential it belongs to. Any other id answers 404 for a read and deletes nothing | not executed | CredentialHandlers.AttachmentOfAnotherCredentialLeaks | CredentialHandlers.GetAttachmentChecked |

The corrected pair is `CredentialHandlers.GetAttachmentChecked` and
`CredentialHandlers.DeleteAttachmentChecked`. The dispatcher `Api.Handle`
routes attachment reads and deletes to the handlers as written, as the
program does, and `Api.DispatcherLeaksAttachment` exhibits the leak through
it. The corrected dispatcher `Api.HandleConfined` routes them to the
corrected pair. Their guarantees are proved in
`CredentialHandlers.CheckedReadStaysInCredential`,
`CredentialHandlers.CheckedDeleteStaysInCredential`,
`Api.AttachmentReadStaysWithItsCredential` and
`Api.AttachmentDeleteStaysWithItsCredential`.
