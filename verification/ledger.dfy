/** The tracking list of already-sent filenames: the copy the process keeps
    in memory and the copy last written to the tracking file. */
module Ledger {

  /** The tracking list as held by the process (`memory`) and as last
      persisted to the tracking file (`disk`). */
  datatype Store = Store(memory: seq<string>, disk: seq<string>)

  /** What the tracking file holds when the process starts. */
  datatype Persisted = Absent | Present(names: seq<string>)

  /** The state of the process once module start-up has run. */
  datatype Boot = Crashed | Ready(store: Store)

  /** The persisted copy never runs ahead of the in-memory one: it is the
      list as it stood at some earlier point of the run. */
  predicate Consistent(s: Store) {
    s.disk <= s.memory
  }

  /** Module start-up: a missing tracking file is created holding an empty
      list, then the file is read back. A failure to create it is an uncaught
      exception at load time, so the process ends before any sync. */
  function Startup(file: Persisted, createOk: bool): (b: Boot)
    ensures file.Present? ==> b.Ready? && b.store.memory == file.names
    ensures file.Absent? ==> (b.Ready? <==> createOk)
    ensures file.Absent? && b.Ready? ==> b.store.memory == []
    ensures b.Ready? ==> b.store.disk == b.store.memory
  {
    match file
    case Present(names) => Ready(Store(names, names))
    case Absent => if createOk then Ready(Store([], [])) else Crashed
  }
}
