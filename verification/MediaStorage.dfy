/** Where uploaded bytes live (`media_storage.py`, `media_mongo.py`, `media.py`): each user's own choice of
    backend, and what it hands out. */
module MediaStorage {
  import opened Options
  import opened Bytes

  type UserId = nat
  type Ref = nat

  /** The server's disk, or GridFS on the cluster the user's own connection names. */
  datatype Backend = Local | Mongodb(cluster: nat)

  /** A stored blob, with the user it was stored for and the backend that holds it. */
  datatype Blob = Blob(owner: UserId, backend: Backend, bytes: seq<byte>)

  /** Users' settings, and what counts for a user without any (MEDIA_STORAGE, or local). */
  datatype Settings = Settings(chosen: map<UserId, Backend>, default_: Backend)

  const GRIDFS_MAX_SIZE: nat := 20 * 1024 * 1024

  function BackendOf(settings: Settings, user: UserId): Backend {
    if user in settings.chosen then settings.chosen[user] else settings.default_
  }

  /** save_bytes returns; GridFS storage raises on more than its own limit. */
  predicate Accepts(backend: Backend, size: nat) {
    backend.Mongodb? ==> size <= GRIDFS_MAX_SIZE
  }

  /** get_bytes(user, ref): the backend is the user's current one, and it knows only its own handles. GridFS
      also checks the owner. */
  function GetBytes(settings: Settings, blobs: map<Ref, Blob>, user: UserId, ref: Ref): Option<seq<byte>> {
    if ref !in blobs || blobs[ref].backend != BackendOf(settings, user) then None
    else if blobs[ref].backend.Mongodb? && blobs[ref].owner != user then None
    else Some(blobs[ref].bytes)
  }
}
