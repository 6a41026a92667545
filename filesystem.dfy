/**
  The persistence namespace (libiov's `FileSystem` helper). Its
  implementation is not part of this model: `Open`, `MakePathName` and `Save`
  are oracles whose answers are chosen freely, and whose calls are logged so
  that the table layer's use of them can be stated.
 */
module Persist {

  datatype FsCall =
    | Opened(path: string, fd: int)
    | PathMade(name: string, global: bool, ok: bool, prefix: string)
    | Saved(path: string, fd: int, status: int)

  class FileSystem {
    /** Paths at which a handle has been pinned. */
    var pins: map<string, int>
    ghost var log: seq<FsCall>

    constructor ()
      ensures pins == map[] && log == []
    {
      pins := map[];
      log := [];
    }

    /** Reopens a pinned path; any handle may come back, a negative one meaning failure. */
    method Open(path: string) returns (fd: int)
      modifies this`log
      ensures log == old(log) + [Opened(path, fd)]
    {
      fd :| true;
      log := log + [Opened(path, fd)];
    }

    /** Builds the directory prefix for table `name` in the global or local namespace, or fails. */
    method MakePathName(name: string, global: bool) returns (ok: bool, prefix: string)
      modifies this`log
      ensures log == old(log) + [PathMade(name, global, ok, prefix)]
    {
      ok :| true;
      prefix :| true;
      log := log + [PathMade(name, global, ok, prefix)];
    }

    /** Pins handle `fd` at `path`; a non-negative status means the pin is in place. */
    method Save(path: string, fd: int) returns (status: int)
      modifies this
      ensures log == old(log) + [Saved(path, fd, status)]
      ensures status >= 0 ==> pins == old(pins)[path := fd]
      ensures status < 0 ==> pins == old(pins)
    {
      status :| true;
      if status >= 0 {
        pins := pins[path := fd];
      }
      log := log + [Saved(path, fd, status)];
    }
  }
}
