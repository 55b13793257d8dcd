/** What a filesystem watcher reports: a path and the operations seen on
    it. */
module Watch {

  /** The fsnotify operations an event can carry. */
  datatype Op = Create | Write | Remove | Rename | Chmod

  datatype Event = Event(name: string, ops: set<Op>)

  /** The operations both watchers react to. */
  const Changes: set<Op> := {Create, Write, Remove, Rename}
}
