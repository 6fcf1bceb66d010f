/**
 The directory watcher's callback: a change notification names a file in the
 watched directory, or names nothing, and the file-handling routine runs on
 the resulting path.
 */
module Watch {
  import opened JsValue
  import opened Index
  import opened LevelArchive
  import opened Indexer

  /** The watched directory. */
  const WatchedDir: string := "levels"

  /** The file name used when a notification carries none. */
  const NoName: string := "nonexistent"

  /** The disk as the routine sees it: a path exists exactly when it is a key,
      and maps to what the archive reader makes of the file's bytes. */
  type Disk = map<string, Archive>

  /** The path a notification is handled for; `join` is the platform's path join. */
  function EventPath(name: Option<string>, join: (string, string) -> string): string {
    join(WatchedDir, OrElse(name, NoName))
  }

  /** One change notification, handled against the disk as it is now. */
  function OnEvent(m: Levels, disk: Disk, name: Option<string>,
                   join: (string, string) -> string, basename: string -> string): (r: Step)
    ensures OnlyTouches(m, r.levels, EventPath(name, join))
    ensures EventPath(name, join) !in disk ==> EventPath(name, join) !in r.levels && r.outcome == Deleted
    ensures EventPath(name, join) in disk && disk[EventPath(name, join)].Unreadable? ==> r == Step(m, Unopened)
  {
    var path := EventPath(name, join);
    var onDisk := path in disk;
    HandleFile(m, path, onDisk, if onDisk then disk[path] else Unreadable, basename)
  }

  /** A notification without a file name (absent or empty) is handled for
      "levels/nonexistent"; while no such file exists and the index holds no
      such key, it changes nothing. */
  lemma NamelessEventIsNoop(m: Levels, disk: Disk, name: Option<string>,
                            join: (string, string) -> string, basename: string -> string)
    requires !Truthy(name)
    requires join(WatchedDir, NoName) !in disk && join(WatchedDir, NoName) !in m
    ensures EventPath(name, join) == join("levels", "nonexistent")
    ensures OnEvent(m, disk, name, join, basename) == Step(m, Deleted)
  {
  }
}
