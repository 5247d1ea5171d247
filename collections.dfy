/** `CollectionsModule`: the filesystem it works on is held in fields that its
    methods update in place.  The step functions of `Store` are the
    specification; each method here is the in-place rendering of one of them,
    proved equal to it. */
module Collections {
  import opened Names
  import opened StringOrder
  import opened Store

  class CollectionsModule {
    var dirExists: bool
    var entries: map<string, Contents>
    var active: Option<Contents>

    ghost function State(): FsState
      reads this
    {
      FsState(dirExists, entries, active)
    }

    ghost predicate Valid()
      reads this
    {
      Wf(State())
    }

    /** `__init__`: starts from the filesystem as found, then ensures the
        collections directory. */
    constructor (dirFound: bool, found: map<string, Contents>, config: Option<Contents>)
      requires Wf(FsState(dirFound, found, config))
      ensures Valid()
      ensures State() == EnsureDir(FsState(dirFound, found, config))
    {
      dirExists := dirFound;
      entries := found;
      active := config;
      new;
      EnsureCollectionsDir();
    }

    /** `_ensure_collections_dir` */
    method EnsureCollectionsDir()
      requires Valid()
      modifies this
      ensures Valid()
      ensures State() == EnsureDir(old(State()))
    {
      dirExists := true;
    }

    /** `get_collections`: walks the directory listing, keeps the `.json`
        files with the marker stripped, and returns them sorted. */
    method GetCollections() returns (names: seq<string>)
      ensures IsListing(State(), names)
    {
      var collections: seq<string> := [];
      if dirExists {
        var remaining := entries.Keys;
        while remaining != {}
          invariant remaining <= entries.Keys
          invariant forall n :: multiset(collections)[n] ==
                      if SnapshotFile(n) in entries && SnapshotFile(n) !in remaining then 1 else 0
          decreases remaining
        {
          var file :| file in remaining;
          if HasExt(file) {
            var name := StripExt(file);
            forall n ensures SnapshotFile(n) == file <==> n == name {
              SnapshotFileInjective(n, name);
            }
            collections := collections + [name];
          } else {
            forall n ensures SnapshotFile(n) != file {
              SnapshotFileRoundTrip(n);
            }
          }
          remaining := remaining - {file};
        }
      }
      names := Sort(collections);
      SortedDistinctIsStrict(names);
    }

    /** `save_collection` */
    method SaveCollection(name: string, copyOk: bool) returns (ok: bool)
      requires Valid()
      modifies this
      ensures Valid()
      ensures Step(State(), ok) == Save(old(State()), name, copyOk)
    {
      if name == [] {
        return false;
      }
      var clean := Sanitize(name);
      var file := SnapshotFile(clean);
      if active.None? || !dirExists || !copyOk {
        // shutil.copy2 raises; the handler reports it
        return false;
      }
      entries := entries[file := active.value];
      return true;
    }

    /** `load_collection` */
    method LoadCollection(name: string, copyOk: bool, applyOk: bool) returns (ok: bool)
      requires Valid()
      modifies this
      ensures Valid()
      ensures Step(State(), ok) == Load(old(State()), name, copyOk, applyOk)
    {
      var file := SnapshotFile(name);
      if file !in entries {
        return false;
      }
      if !copyOk {
        return false;
      }
      active := Some(entries[file]);
      if !applyOk {
        // executeHyprCtl raised inside the same try block
        return false;
      }
      return true;
    }

    /** `delete_collection` */
    method DeleteCollection(name: string, removeOk: bool) returns (ok: bool)
      requires Valid()
      modifies this
      ensures Valid()
      ensures Step(State(), ok) == Delete(old(State()), name, removeOk)
    {
      var file := SnapshotFile(name);
      if file in entries {
        if removeOk {
          entries := entries - {file};
          return true;
        }
        // os.remove raised; the handler reports it
      }
      return false;
    }
  }
}
