/** The remote-tracked entity base shared by tables, columns and rows. */
module Entity {
  import opened Nullable

  type LocalId = nat
  type RemoteId = nat
  type AccountId = nat

  /** `DBStatus`: what the push phase still has to do with an entity. */
  datatype Status = Void | LocalEdited | LocalDeleted

  /**
   The `AbstractRemoteEntity` part of an entity: local id, owning account,
   server id (null until first pushed), status and caching token.
   */
  datatype RemoteEntity = RemoteEntity(
    id: LocalId,
    accountId: AccountId,
    remoteId: Option<RemoteId>,
    status: Status,
    eTag: Option<string>)
}
