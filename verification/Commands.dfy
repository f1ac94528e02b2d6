/** The commands both stores understand, and what each does to one map. */
module Commands {
  import opened Bytes
  import opened KeyValue

  datatype Command =
    | CmdSet(key: bytes, value: bytes)
    | CmdGet(key: bytes)
    | CmdDel(key: bytes)
    | CmdMSet(entries: seq<Entry>)
    | CmdMGet(keys: seq<bytes>)
    | CmdRename(from: bytes, to: bytes)
    | CmdRenameNx(from: bytes, to: bytes)
    | CmdDbSize

  datatype Reply =
    | Done
    | Value(value: Option<bytes>)
    | Values(values: seq<Option<bytes>>)
    | Flag(yes: bool)
    | Count(n: nat)
    | KeyNotFound
    | WrongShard
    | IoError

  /** The reference: one map and the reply it gives. */
  function OneMap(m: Store, c: Command): (Store, Reply) {
    match c
    case CmdSet(key, value) => (m[key := value], Done)
    case CmdGet(key) => (m, Value(Lookup(m, key)))
    case CmdDel(key) => (m - {key}, Flag(key in m))
    case CmdMSet(entries) => (PutAll(m, entries), Done)
    case CmdMGet(keys) => (m, Values(LookupAll(m, keys)))
    case CmdRename(from, to) => if from in m then (Moved(m, from, to), Done) else (m, KeyNotFound)
    case CmdRenameNx(from, to) =>
      if from !in m then (m, KeyNotFound)
      else if to in m then (m, Flag(false))
      else (Moved(m, from, to), Flag(true))
    case CmdDbSize => (m, Count(|m|))
  }
}
