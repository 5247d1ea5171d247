/** Properties that relate several operations of the collection store:
    listing after save and delete, the save/load round trip, the unsanitised
    name on load and delete, and a save/list/delete scenario. */
module StoreProperties {
  import opened Names
  import opened StringOrder
  import opened Store

  /** The directory is created once; ensuring it again changes nothing. */
  lemma EnsureDirIdempotent(s: FsState)
    ensures EnsureDir(EnsureDir(s)) == EnsureDir(s)
  {
  }

  /** The listing is determined by the filesystem. */
  lemma ListingUnique(s: FsState, a: seq<string>, b: seq<string>)
    requires IsListing(s, a) && IsListing(s, b)
    ensures a == b
  {
    StrictlySortedUnique(a, b);
  }

  /** A missing directory, or one without `.json` files, lists nothing. */
  lemma ListingEmpty(s: FsState, names: seq<string>)
    requires IsListing(s, names)
    requires !s.dirExists || forall k :: k in s.entries ==> !HasExt(k)
    ensures names == []
  {
    if names != [] {
      assert names[0] in names;
      SnapshotFileRoundTrip(names[0]);
    }
  }

  /** A successful save lists the sanitised name, exactly once; a name
      without separators is listed as given. */
  lemma SaveThenListed(s: FsState, name: string, names: seq<string>)
    requires name != [] && s.active.Some? && s.dirExists
    requires IsListing(Save(s, name, true).state, names)
    ensures Sanitize(name) in names
    ensures multiset(names)[Sanitize(name)] == 1
    ensures HasNoSeparator(name) ==> name in names
  {
    StrictlySortedOnce(names, Sanitize(name));
    SanitizeFixedPoints(name);
  }

  /** Save, then any change to the active configuration, then load of the
      saved name (the sanitised one, as the listing shows it) brings back the
      contents saved; load reports success exactly when the apply call
      succeeds.  A separator-free name can be loaded as given. */
  lemma SaveChangeLoadRestores(s: FsState, name: string, changed: Option<Contents>, applyOk: bool)
    requires name != []
    requires s.active.Some? && s.dirExists
    ensures var saved := Save(s, name, true).state;
            var r := Load(saved.(active := changed), Sanitize(name), true, applyOk);
            && r.state.active == s.active
            && r.state.entries == saved.entries
            && r.ok == applyOk
    ensures HasNoSeparator(name) ==>
              Load(Save(s, name, true).state.(active := changed), name, true, applyOk)
              == Load(Save(s, name, true).state.(active := changed), Sanitize(name), true, applyOk)
  {
    SanitizeFixedPoints(name);
  }

  /** Load does not sanitise: after saving a name with a separator, loading
      that same name finds no file (unless one of that exact name was already
      there) and returns false with nothing changed. */
  lemma LoadUnsanitizedMisses(s: FsState, name: string, copyOk: bool, applyOk: bool)
    requires name != [] && !HasNoSeparator(name)
    requires SnapshotFile(name) !in s.entries
    ensures var saved := Save(s, name, true).state;
            Load(saved, name, copyOk, applyOk) == Step(saved, false)
  {
    SanitizeFixedPoints(name);
    SnapshotFileInjective(name, Sanitize(name));
  }

  /** Every listed name can be loaded: listing strips exactly the marker
      that load appends. */
  lemma ListedNamesLoad(s: FsState, names: seq<string>, i: nat, applyOk: bool)
    requires IsListing(s, names) && i < |names|
    ensures SnapshotFile(names[i]) in s.entries
    ensures Load(s, names[i], true, applyOk).state.active == Some(s.entries[SnapshotFile(names[i])])
    ensures Load(s, names[i], true, applyOk).ok == applyOk
  {
    assert names[i] in names;
  }

  /** Every listed name can be deleted, and afterwards is no longer listed. */
  lemma ListedNamesDelete(s: FsState, names: seq<string>, i: nat, after: seq<string>)
    requires IsListing(s, names) && i < |names|
    requires IsListing(Delete(s, names[i], true).state, after)
    ensures Delete(s, names[i], true).ok
    ensures names[i] !in after
  {
    assert names[i] in names;
  }

  /** Deleting removes the name from the listing. */
  lemma DeleteThenNotListed(s: FsState, name: string, removeOk: bool, after: seq<string>)
    requires IsListing(Delete(s, name, removeOk).state, after)
    requires Delete(s, name, removeOk).ok
    ensures name !in after
  {
  }

  /** A second delete of the same name returns false and changes nothing. */
  lemma DeleteTwice(s: FsState, name: string, removeOk: bool, againOk: bool)
    requires Delete(s, name, removeOk).ok
    ensures var once := Delete(s, name, removeOk).state;
            Delete(once, name, againOk) == Step(once, false)
  {
  }

  /** The listing of a directory holding exactly "work.json" and "home.json". */
  lemma ListingWorkHome(s: FsState)
    requires s.dirExists && s.entries.Keys == {SnapshotFile("work"), SnapshotFile("home")}
    ensures IsListing(s, ["home", "work"])
  {
    assert Less("home", "work");
    forall n ensures n in ["home", "work"] <==> SnapshotFile(n) in s.entries {
      SnapshotFileInjective(n, "work");
      SnapshotFileInjective(n, "home");
    }
  }

  /** The listing of a directory holding exactly "work.json". */
  lemma ListingWork(s: FsState)
    requires s.dirExists && s.entries.Keys == {SnapshotFile("work")}
    ensures IsListing(s, ["work"])
  {
    forall n ensures n in ["work"] <==> SnapshotFile(n) in s.entries {
      SnapshotFileInjective(n, "work");
    }
  }

  /** Starting from an empty directory: save "work", save "home", list
      ["home", "work"]; delete "home", list ["work"]. */
  lemma Scenario(config: Contents, listed: seq<string>, listedAfter: seq<string>)
    ensures var s0 := FsState(true, map[], Some(config));
            var s1 := Save(s0, "work", true);
            var s2 := Save(s1.state, "home", true);
            var s3 := Delete(s2.state, "home", true);
            && s1.ok && s2.ok && s3.ok
            && IsListing(s2.state, ["home", "work"])
            && IsListing(s3.state, ["work"])
            && (IsListing(s2.state, listed) ==> listed == ["home", "work"])
            && (IsListing(s3.state, listedAfter) ==> listedAfter == ["work"])
  {
    var s0 := FsState(true, map[], Some(config));
    var s2 := Save(Save(s0, "work", true).state, "home", true).state;
    var s3 := Delete(s2, "home", true).state;
    assert Sanitize("work") == "work" by { SanitizeFixedPoints("work"); }
    assert Sanitize("home") == "home" by { SanitizeFixedPoints("home"); }
    assert s2.entries.Keys == {SnapshotFile("work"), SnapshotFile("home")};
    assert s3.entries.Keys == {SnapshotFile("work")} by {
      SnapshotFileInjective("work", "home");
    }
    ListingWorkHome(s2);
    ListingWork(s3);
    if IsListing(s2, listed) {
      ListingUnique(s2, listed, ["home", "work"]);
    }
    if IsListing(s3, listedAfter) {
      ListingUnique(s3, listedAfter, ["work"]);
    }
  }
}
