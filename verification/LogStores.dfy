/** rpl.LogStore as its callers see it: consecutive logs, appended at one end and purged at the other. */
module LogStores {

  datatype Error = ErrStoreLogID | ErrLogNotFound | ErrNoBehindLog | ErrCommitIDBehind | ErrLogMissed | ErrReadonly
                 | ErrTableClosed | ErrTableNeedFlush | ErrNilHandler | ErrCorrupt

  datatype Result<+T> = Ok(value: T) | Err(error: Error)

  /** The logs numbered from `first` on; `first` is 0 when there are none. */
  datatype LogStore<+T> = LogStore(first: nat, logs: seq<T>) {
    predicate Valid() { first == 0 <==> logs == [] }

    function LastID(): (id: nat) {
      if logs == [] then 0 else first + |logs| - 1
    }

    predicate Has(id: nat) { logs != [] && first <= id <= LastID() }

    function GetLog(id: nat): (r: Result<T>) {
      if Has(id) then Ok(logs[id - first]) else Err(ErrLogNotFound)
    }

    /** Only the successor of the last log is accepted; an empty store takes any id but 0. */
    predicate Accepts(id: nat) {
      id != 0 && (logs == [] || id == LastID() + 1)
    }

    function Append(id: nat, l: T): (r: LogStore<T>)
      requires Accepts(id)
    {
      LogStore(if logs == [] then id else first, logs + [l])
    }

    /** Purging removes the oldest logs. */
    function Purge(n: nat): (r: LogStore<T>)
      requires n <= |logs|
    {
      if n == |logs| then LogStore(0, []) else LogStore(first + n, logs[n..])
    }
  }
}
