/**
 * The filesystem and process environment as one fixed snapshot: what each
 * argument string names, what `canonicalize` answers for it, and whether
 * the current working directory can be determined. Canonical paths and the
 * current directory are absolute, given as their component names below the root.
 */
module FileSystem {
  import opened Wrappers
  import opened Paths

  /** What a path string names: nothing, a directory, a file whose text reads
      back, or a file whose open or read fails with a reason. */
  datatype Entry = Missing | Dir | File(content: string) | Unreadable(reason: string)

  datatype Snapshot = Snapshot(
    entries: map<string, Entry>,
    canonical: map<string, seq<string>>,
    currentDir: Option<seq<string>>)
  {
    /** `exists`, `is_dir` and the read, for one path string. */
    function Lookup(path: string): Entry {
      if path in entries then entries[path] else Missing
    }

    /** `Path::canonicalize`: partial, symlinks resolved inside the snapshot. */
    function Canonicalize(path: string): Option<seq<string>> {
      if path in canonical then Some(canonical[path]) else None
    }

    /** Canonical paths and the current directory consist of valid names. */
    predicate WellFormed() {
      (forall p :: p in canonical ==> AllValid(canonical[p]))
      && (currentDir.Some? ==> AllValid(currentDir.value))
    }
  }
}
