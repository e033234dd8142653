/** The files under the server's document root, as the handler sees them: the bytes of each file,
    the directories, and each file's modification time in milliseconds. Paths are the request paths
    after the server's own prefix. */
module ResourceStore {
  import opened Bytes

  /** The store as a value. */
  datatype Files = Files(data: map<string, seq<byte>>, dirs: set<string>, mtime: map<string, nat>)

  /** Every file has a time and no path is both a file and a directory. */
  predicate Consistent(s: Files) {
    s.data.Keys == s.mtime.Keys && s.data.Keys !! s.dirs
  }

  /** `file.exists() && !file.isDirectory()`. */
  predicate IsFile(s: Files, path: string) {
    path in s.data && path !in s.dirs && path in s.mtime
  }

  /** `file.isDirectory()`. */
  predicate IsDirectory(s: Files, path: string) {
    path in s.dirs
  }

  /** The store after `path` was written with `bytes` at time `now`. */
  function Written(s: Files, path: string, bytes: seq<byte>, now: nat): (r: Files)
    requires !IsDirectory(s, path)
    ensures Consistent(s) ==> Consistent(r)
    ensures IsFile(r, path) && r.data[path] == bytes && r.mtime[path] == now
    ensures forall p :: p != path ==> (p in r.data <==> p in s.data) && (p in r.data ==> r.data[p] == s.data[p])
    ensures r.dirs == s.dirs
  {
    s.(data := s.data[path := bytes], mtime := s.mtime[path := now])
  }

  /** The files, updated in place by the POST and PUT branches. */
  class Store {
    var data: map<string, seq<byte>>
    var dirs: set<string>
    var mtime: map<string, nat>

    function State(): Files
      reads this
    {
      Files(data, dirs, mtime)
    }

    constructor (s: Files)
      ensures State() == s
    {
      data, dirs, mtime := s.data, s.dirs, s.mtime;
    }

    /** `f.createNewFile()` followed by a `FileWriter` in append or overwrite mode, closed at `now`:
        appending keeps what the file held, overwriting replaces it. */
    method Write(path: string, bytes: seq<byte>, append: bool, now: nat)
      requires !IsDirectory(State(), path)
      modifies this
      ensures State() == Written(old(State()), path,
                if append && path in old(data) then old(data[path]) + bytes else bytes, now)
    {
      data := data[path := if append && path in data then data[path] + bytes else bytes];
      mtime := mtime[path := now];
    }
  }
}
