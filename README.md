# Collection store of hyprland-settings, in Dafny

This project models the collection store of the settings panel. That is the
non-GUI part of `CollectionsModule`. The store keeps named snapshots of the
active configuration file `hyprctl.json` as `<name>.json` files in a
`collections` directory. It can list, save, load and delete them.

The filesystem is modelled abstractly as a value `Store.FsState`. It records
whether the collections directory exists, the directory's files as a
`map<string, Contents>` from file name to bytes, and the active configuration
as an `Option<Contents>` that is `None` when the file is missing.
Three I/O calls can fail, and each outcome is a boolean parameter:
- `copyOk` for `shutil.copy2`;
- `removeOk` for `os.remove`;
- `applyOk` for the external `executeHyprCtl`.

The files:
- `names.dfy` (module `Names`): the `.json` marker (append, test, strip) and
  the name sanitisation done by save.
- `string_order.dfy` (module `StringOrder`): Python's `<` on `str` (code
  point by code point, and a prefix sorts first), and `sorted`. `sorted` is
  given as an insertion sort, used as a reference definition of "the sorted
  permutation".
- `store.dfy` (module `Store`): the filesystem state and one step function
  per operation. Each step function returns the new state and the returned
  flag. `IsListing` says what a listing must be.
- `collections.dfy` (module `Collections`): class `CollectionsModule`. Its
  fields are the directory flag, the directory map and the active
  configuration. Its methods update them in place, in the same order of
  checks as the Python code. Each method is proved equal to its step function.
  `GetCollections` keeps the source's loop over the directory listing and is
  proved to return a listing.
- `properties.dfy` (module `StoreProperties`): properties that span several
  operations. These are the save → list, save → change → load and delete →
  delete round trips, the unsanitised names of load and delete, and the
  "work"/"home" listing scenario.

The apply call (`src/modules/collections.py:63`) is inside the `try` of lines
56-67. If it fails, `load_collection` returns `False` after `hyprctl.json`
has already been overwritten. `Store.Load` models this.

## Model

| member | source | states |
|---|---|---|
| `Names.StripExt` | src/modules/collections.py:26-27 | stripping the 5-character marker from a `.json` file name gives the name whose snapshot file that is |
| `Names.SnapshotFileRoundTrip` | src/modules/collections.py:26-27 | every `name + ".json"` passes the listing's suffix test, and stripping gives `name` back |
| `Names.SnapshotFileInjective` | src/modules/collections.py:37 | two names share a snapshot file only if they are equal |
| `Names.ReplaceChar` | src/modules/collections.py:36 | `str.replace` of one character keeps the length, turns every `from` into `to` and leaves every other character in place |
| `Names.Sanitize` | src/modules/collections.py:36 | the sanitised name has the same length and contains no `/` or `\`; each separator becomes `_` and every other character is unchanged |
| `Names.SanitizeFixedPoints` | src/modules/collections.py:36 | sanitising leaves a name unchanged exactly when it contains no separator |
| `Names.SanitizeIdempotent` | src/modules/collections.py:36 | sanitising twice is the same as sanitising once |
| `StringOrder.Sort` | src/modules/collections.py:29 | `sorted` returns a sorted permutation of its input |
| `StringOrder.StrictlySortedUnique` | src/modules/collections.py:29 | two strictly sorted sequences with the same elements are equal, so the sorted listing is determined by the set of names |
| `StringOrder.StrictlySortedOnce` | src/modules/collections.py:29 | each element of a strictly sorted listing occurs exactly once |
| `Store.EnsureDir` | src/modules/collections.py:17-19 | afterwards the directory exists; files and the active configuration are untouched; it is a no-op when the directory already exists |
| `Store.Save` | src/modules/collections.py:31-48 | an empty name returns false and changes nothing; success happens exactly when the name is non-empty, the active file and the directory exist and the copy succeeds; on success the entry `Sanitize(name) + ".json"` holds the active contents, it is the only key added, all other entries keep their contents, and the active file is untouched; on failure nothing changes |
| `Store.Load` | src/modules/collections.py:50-67 | if the unsanitised `name + ".json"` is absent, or the copy fails, it returns false and nothing changes; after a successful copy the active configuration equals the snapshot, and the result is true exactly when the apply call succeeds; the directory never changes |
| `Store.Delete` | src/modules/collections.py:69-78 | returns true exactly when the unsanitised `name + ".json"` exists and its removal succeeds; it then removes exactly that key and the other entries keep their contents; otherwise nothing changes; the active file is never touched |
| `Collections.CollectionsModule.constructor` | src/modules/collections.py:12-15 | starts from the filesystem as found and ensures the collections directory |
| `Collections.CollectionsModule.EnsureCollectionsDir` | src/modules/collections.py:17-19 | the new state is `EnsureDir` of the old one |
| `Collections.CollectionsModule.GetCollections` | src/modules/collections.py:21-29 | the result is strictly sorted and holds exactly the names `n` with `n + ".json"` in an existing directory |
| `Collections.CollectionsModule.SaveCollection` | src/modules/collections.py:31-48 | new state and result are those of `Store.Save` |
| `Collections.CollectionsModule.LoadCollection` | src/modules/collections.py:50-67 | new state and result are those of `Store.Load` |
| `Collections.CollectionsModule.DeleteCollection` | src/modules/collections.py:69-78 | new state and result are those of `Store.Delete` |
| `StoreProperties.EnsureDirIdempotent` | src/modules/collections.py:19 | ensuring the directory twice is the same as once |
| `StoreProperties.ListingUnique` | src/modules/collections.py:21-29 | any two listings of the same filesystem are equal |
| `StoreProperties.ListingEmpty` | src/modules/collections.py:24-29 | a missing directory, or one without `.json` files, lists nothing |
| `StoreProperties.SaveThenListed` | src/modules/collections.py:36-45 | after a successful save, the listing contains the sanitised name exactly once, and a separator-free name as given |
| `StoreProperties.SaveChangeLoadRestores` | src/modules/collections.py:36-61 | save of a non-empty name, then any change to the active file, then load of the sanitised name (the one listed) restores the saved contents and leaves the directory as saved; load returns the apply call's outcome; a separator-free name loads the same when given as is |
| `StoreProperties.LoadUnsanitizedMisses` | src/modules/collections.py:52-54 | load does not sanitise: after saving a name containing a separator, loading the same name, when no file of exactly that name was already in the directory, finds no file, returns false and changes nothing |
| `StoreProperties.ListedNamesLoad` | src/modules/collections.py:52-64 | every listed name has its snapshot file, and loading it makes the active file equal to that snapshot; the result is the apply call's outcome |
| `StoreProperties.ListedNamesDelete` | src/modules/collections.py:71-75 | every listed name can be deleted, and it is then no longer listed |
| `StoreProperties.DeleteThenNotListed` | src/modules/collections.py:71-75 | after a successful delete, the name is not in the listing |
| `StoreProperties.DeleteTwice` | src/modules/collections.py:71-78 | after a successful delete, deleting the same name again returns false and changes nothing |
| `StoreProperties.Scenario` | src/modules/collections.py:21-78 | from an empty directory, saving "work" and then "home" succeeds, `["home", "work"]` is a listing and the only one; deleting "home" then succeeds, and `["work"]` is the only listing |

## Left out

- The GTK/Adwaita user interface of `collections.py`: `create_collections_group`, `_create_collection_row` and the dialog and response handlers. It is presentation and signal wiring.
- The trimming of the entered name in the save dialog. It lives in the GUI handler.
- `src/window.py` and `src/modules/base.py`: window template binding, widget swapping and the preferences-group factory.
- `Library.executeHyprCtl` and `Library.configFolder`: external code that is not part of this model. The apply step is only a success/failure parameter, and the configuration folder is implicit.
- Real filesystem semantics. Metadata preserved by `shutil.copy2` is not modelled. Path resolution of names that contain separators is not modelled: file names are flat keys. The causes of failure (permissions, full disk) are not modelled either. A copy that raises after writing some or all of its target does not exist in the model. For example, `shutil.copy2` can fail in `copystat` after the whole file is written; the source then returns `False` with the target complete, but the model's failed copy changes nothing.
- `Store.EnsureDir` and `Collections.CollectionsModule.GetCollections` cannot fail. The source's `mkdir` (line 19) and `os.listdir` (line 25) raise on a filesystem error such as `PermissionError`, and the exception propagates uncaught out of `__init__` or `get_collections`.
- The order in which `os.listdir` returns entries. The loop picks entries in an arbitrary order, and the result is sorted anyway.
- Entries of the directory that are not regular files, and a non-directory in place of `collections` (where `mkdir` would raise). They are not modelled.
- Non-string names, for every operation. For example, `load_collection(None)` and `delete_collection(None)` would use the file `None.json`. Names are Dafny strings, and the empty string is the falsy case modelled for save.
- File names that are not valid Unicode. Names and directory entries are sequences of Unicode scalar values. On Linux, `os.listdir` decodes undecodable bytes to lone surrogates (U+DC80 to U+DCFF), which `sorted` orders by code point. Such names cannot be represented here.
- `print` diagnostics.
- Changes to the active configuration made outside the store. They appear only in `StoreProperties.SaveChangeLoadRestores`, as an arbitrary new value of the active file.
