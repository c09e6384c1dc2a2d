/** What a handler answers: a status, a JSON payload, and the state after the request. */
module Http {
  import opened Wrappers
  import opened Schema
  import opened VaultStore
  import opened CredentialStore

  datatype Status = Ok | Created | Forbidden | NotFound

  datatype Payload =
    | Done
    | Refusal(message: string)
    | VaultBody(vault: Option<Vault>)
    | VaultList(vaults: seq<VaultRow>)
    | MemberList(members: seq<MemberRow>)
    | CredentialBody(cred: Option<Credential>)
    | CredentialPage(credentials: PageOf<CredentialRow>)
    | TagList(tags: seq<TagRow>)
    | FolderList(folders: seq<FolderRow>)
    | ShareList(shares: seq<ShareRow>)
    | AttachmentList(attachments: seq<AttachmentMeta>)
    | AttachmentBody(attachment: Option<AttachmentRow>)
    | HistoryPage(history: PageOf<HistoryRow>)

  datatype Outcome = Outcome(status: Status, payload: Payload, db: Db)

  /** A refusal: the state is returned untouched. */
  function Refuse(db: Db, status: Status, message: string): Outcome {
    Outcome(status, Refusal(message), db)
  }

  /** `Number(x) || d` on a query parameter: absent, or 0, gives the default. */
  function NumberOr(x: Option<int>, d: nat): int {
    if x.Some? && x.value != 0 then x.value else d
  }

  /** The range a route validator admits for an optional integer query parameter. */
  predicate InRange(x: Option<int>, lo: int, hi: int) {
    x.Some? ==> lo <= x.value <= hi
  }
}
