/** A persisted value: the in-memory record, the copy last written to durable
    storage, and a count of writes. */
module Persistence {
  import opened Components

  datatype Persistent = Persistent(value: WindowState, stored: WindowState, writes: nat)

  /** Replaces the record and writes it. */
  function Set(p: Persistent, v: WindowState): Persistent {
    Persistent(v, v, p.writes + 1)
  }

  /** Writes the current record. */
  function Persist(p: Persistent): Persistent {
    Persistent(p.value, p.value, p.writes + 1)
  }

  /** The record with the transient `sync` flag left out, which durable
      storage does not keep. */
  function Durable(s: WindowState): WindowState {
    s.(sync := true)
  }

  /** Durable storage already holds the record's durable part. */
  predicate Saved(p: Persistent) {
    Durable(p.stored) == Durable(p.value)
  }
}
