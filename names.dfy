/** File-name logic of the collection store: the ".json" marker that turns a
    collection name into the file that holds it, and the sanitisation that
    save applies to a name before it is used as a file name. */
module Names {

  /** The fixed suffix of every snapshot file in the collections directory. */
  const Ext: string := ".json"

  /** The file name `f"{name}.json"` under which a collection is stored. */
  function SnapshotFile(name: string): string
  {
    name + Ext
  }

  /** `file.endswith('.json')` */
  predicate HasExt(file: string)
  {
    |file| >= |Ext| && file[|file| - |Ext|..] == Ext
  }

  /** `file[:-5]`, applied by the listing to a file that has the marker. */
  function StripExt(file: string): (name: string)
    requires HasExt(file)
    ensures |name| == |file| - |Ext|
    ensures SnapshotFile(name) == file
  {
    file[..|file| - |Ext|]
  }

  /** Appending the marker and stripping it again gives the name back. */
  lemma SnapshotFileRoundTrip(name: string)
    ensures HasExt(SnapshotFile(name))
    ensures StripExt(SnapshotFile(name)) == name
  {
    var f := SnapshotFile(name);
    assert f[|f| - |Ext|..] == Ext;
    assert f[..|f| - |Ext|] == name;
  }

  /** Two different names never share a snapshot file. */
  lemma SnapshotFileInjective(a: string, b: string)
    ensures SnapshotFile(a) == SnapshotFile(b) <==> a == b
  {
    if SnapshotFile(a) == SnapshotFile(b) {
      SnapshotFileRoundTrip(a);
      SnapshotFileRoundTrip(b);
    }
  }

  /** The characters that separate path components, `/` and `\`. */
  predicate IsSeparator(c: char)
  {
    c == '/' || c == '\\'
  }

  predicate HasNoSeparator(name: string)
  {
    forall i :: 0 <= i < |name| ==> !IsSeparator(name[i])
  }

  /** `s.replace(from, to)` for a single character: every occurrence of
      `from` becomes `to`, every other character stays where it is. */
  function ReplaceChar(s: string, from: char, to: char): (r: string)
    ensures |r| == |s|
    ensures forall i :: 0 <= i < |s| ==> r[i] == (if s[i] == from then to else s[i])
  {
    if s == [] then []
    else [if s[0] == from then to else s[0]] + ReplaceChar(s[1..], from, to)
  }

  /** `name.replace('/', '_').replace('\\', '_')`: the name save uses. */
  function Sanitize(name: string): (r: string)
    ensures |r| == |name|
    ensures HasNoSeparator(r)
    ensures forall i :: 0 <= i < |name| ==>
              r[i] == (if IsSeparator(name[i]) then '_' else name[i])
  {
    ReplaceChar(ReplaceChar(name, '/', '_'), '\\', '_')
  }

  /** Sanitisation leaves exactly the separator-free names unchanged. */
  lemma SanitizeFixedPoints(name: string)
    ensures Sanitize(name) == name <==> HasNoSeparator(name)
  {
    if !HasNoSeparator(name) {
      var i :| 0 <= i < |name| && IsSeparator(name[i]);
      assert Sanitize(name)[i] != name[i];
    }
  }

  /** Sanitising twice is sanitising once. */
  lemma SanitizeIdempotent(name: string)
    ensures Sanitize(Sanitize(name)) == Sanitize(name)
  {
    SanitizeFixedPoints(Sanitize(name));
  }
}
