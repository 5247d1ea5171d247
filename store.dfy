/** The collection store as a state machine over an abstract filesystem: the
    collections directory (present or not, and its entries by file name) and
    the active configuration file `hyprctl.json` (present or not).  Each step
    function gives the new filesystem and the boolean the operation returns.
    The outcome of each I/O call the operation makes (a copy, a removal, the
    external "apply configuration" call) is a parameter. */
module Store {
  import opened Names
  import opened StringOrder

  newtype byte = x: int | 0 <= x < 256

  /** The bytes of a configuration file. */
  type Contents = seq<byte>

  datatype Option<T> = None | Some(value: T)

  datatype FsState = FsState(
    dirExists: bool,                  // the collections directory exists
    entries: map<string, Contents>,   // its files, by file name
    active: Option<Contents>)         // hyprctl.json, None when missing

  /** The result of one operation: the new filesystem and the returned flag. */
  datatype Step = Step(state: FsState, ok: bool)

  /** A missing directory holds no files. */
  predicate Wf(s: FsState)
  {
    !s.dirExists ==> s.entries == map[]
  }

  /** `_ensure_collections_dir`: `mkdir(parents=True, exist_ok=True)`. */
  function EnsureDir(s: FsState): (t: FsState)
    ensures t.dirExists
    ensures Wf(s) ==> Wf(t)
    ensures s.dirExists ==> t == s
    ensures t.entries == s.entries && t.active == s.active
  {
    s.(dirExists := true)
  }

  /** `save_collection(name)`.  `copyOk` is whether `shutil.copy2` succeeds
      when its source exists and its target directory exists. */
  function Save(s: FsState, name: string, copyOk: bool): (r: Step)
    ensures name == [] ==> r == Step(s, false)
    ensures r.ok <==> name != [] && s.active.Some? && s.dirExists && copyOk
    ensures r.ok ==>
              var file := SnapshotFile(Sanitize(name));
              && r.state.entries.Keys == s.entries.Keys + {file}
              && r.state.entries[file] == s.active.value
              && (forall k :: k in s.entries && k != file ==> r.state.entries[k] == s.entries[k])
    ensures !r.ok ==> r.state == s
    ensures r.state.active == s.active && r.state.dirExists == s.dirExists
    ensures Wf(s) ==> Wf(r.state)
  {
    if name == [] then Step(s, false)
    else
      var file := SnapshotFile(Sanitize(name));
      if s.active.None? || !s.dirExists || !copyOk then Step(s, false)
      else Step(s.(entries := s.entries[file := s.active.value]), true)
  }

  /** `load_collection(name)`: the name is used as given, unsanitised.
      `copyOk` is whether copying the snapshot over hyprctl.json succeeds;
      `applyOk` is whether the following `executeHyprCtl` call succeeds. */
  function Load(s: FsState, name: string, copyOk: bool, applyOk: bool): (r: Step)
    ensures SnapshotFile(name) !in s.entries ==> r == Step(s, false)
    ensures !copyOk ==> r == Step(s, false)
    ensures SnapshotFile(name) in s.entries && copyOk ==>
              r.state.active == Some(s.entries[SnapshotFile(name)]) && r.ok == applyOk
    ensures r.state.entries == s.entries && r.state.dirExists == s.dirExists
    ensures Wf(s) ==> Wf(r.state)
  {
    var file := SnapshotFile(name);
    if file !in s.entries then Step(s, false)
    else if !copyOk then Step(s, false)
    else
      // the copy has happened; a failing apply call is caught by the same handler
      Step(s.(active := Some(s.entries[file])), applyOk)
  }

  /** `delete_collection(name)`: the name is used as given, unsanitised.
      `removeOk` is whether `os.remove` succeeds on an existing file. */
  function Delete(s: FsState, name: string, removeOk: bool): (r: Step)
    ensures r.ok <==> SnapshotFile(name) in s.entries && removeOk
    ensures r.ok ==>
              && r.state.entries.Keys == s.entries.Keys - {SnapshotFile(name)}
              && (forall k :: k in r.state.entries ==> r.state.entries[k] == s.entries[k])
    ensures !r.ok ==> r.state == s
    ensures r.state.active == s.active && r.state.dirExists == s.dirExists
    ensures Wf(s) ==> Wf(r.state)
  {
    var file := SnapshotFile(name);
    if file in s.entries && removeOk then Step(s.(entries := s.entries - {file}), true)
    else Step(s, false)
  }

  /** What `get_collections` may return: sorted without repeats, listing
      exactly the names whose snapshot file is in an existing directory. */
  ghost predicate IsListing(s: FsState, names: seq<string>)
  {
    && StrictlySorted(names)
    && forall n :: n in names <==> s.dirExists && SnapshotFile(n) in s.entries
  }
}
