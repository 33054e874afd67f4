/**
 * Two places where write_manual_bids.py does not do what it evidently
 * means to. Each is modelled as written, with the input that shows the
 * discrepancy, beside the corrected behaviour the rest of the model uses.
 */
module Findings {
  import opened Wrappers
  import opened Strings
  import opened Participants
  import opened FileSystem
  import opened Materializer

  // ---------------------------------------------------------------------
  // Line 288: the data file's name passed as the subject's record
  // ---------------------------------------------------------------------

  /** The TypeError Python raises when a str is indexed by a str. */
  datatype TypeError = StringIndices(key: string)

  /**
   * Lines 99-110 with raw the file name string that line 288 passes:
   * `"age" in raw` is a substring test, and when it holds `raw['age']`
   * raises TypeError; when no key occurs in the name every field falls
   * back to "n/a", as with an empty record.
   */
  function DemographicsFromPathAsWritten(path: string): (r: Result<Raw, TypeError>)
    ensures r.Ok? <==> forall key | key in Demographics :: !Occurs(key, path)
    ensures r.Ok? ==> r.value == map[]
    ensures r.Err? ==> r.error.key in Demographics && Occurs(r.error.key, path)
  {
    if Occurs("age", path) then Err(StringIndices("age"))
    else if Occurs("sex", path) then Err(StringIndices("sex"))
    else if Occurs("hand", path) then Err(StringIndices("hand"))
    else Ok(map[])
  }

  /**
   * As written, no call ever records a demographic value: the record read
   * from the file name either raises or leaves age, sex and hand "n/a".
   */
  lemma AsWrittenRecordsNoDemographics(path: string, subjectId: string, key: string)
    requires DemographicsFromPathAsWritten(path).Ok? && key in Demographics
    ensures NewRow(subjectId, DemographicsFromPathAsWritten(path).value).entries[key] == NA
  {
  }

  /** A file under a directory named "images" raises: "age" occurs at index 8. */
  lemma ImagesDirectoryRaises()
    ensures DemographicsFromPathAsWritten("/data/images/sub01_beh.csv") == Err(StringIndices("age"))
  {
    assert OccursAt("age", "/data/images/sub01_beh.csv", 8);
  }

  // ---------------------------------------------------------------------
  // Line 274: ".tsv" replaced in the whole path, root included
  // ---------------------------------------------------------------------

  /** A path as the string `op.join` builds from it: "/" before each component. */
  function PathString(p: Path): string {
    if p == [] then "" else PathString(Parent(p)) + "/" + p[|p| - 1]
  }

  /** Joining a name to a path appends "/" and the name. */
  lemma PathStringJoin(root: Path, name: string)
    ensures PathString(RootFile(root, name)) == PathString(root) + "/" + name
  {
    assert Parent(RootFile(root, name)) == root;
  }

  /** Lines 272-274 as written: the registry's path with every ".tsv" turned into ".json". */
  function SidecarPathAsWritten(root: Path): string {
    ReplaceAll(PathString(RootFile(root, RegistryName)), ".tsv", ".json")
  }

  /**
   * The name as written is the sidecar beside the registry exactly when no
   * ".tsv" occurs in the dataset root's path.
   */
  lemma SidecarPathAsWrittenIff(root: Path)
    ensures (SidecarPathAsWritten(root) == PathString(RootFile(root, RegistrySidecarName))) <==>
              !Occurs(".tsv", PathString(root))
  {
    var x := PathString(root) + "/";
    PathStringJoin(root, RegistryName);
    PathStringJoin(root, RegistrySidecarName);
    assert PathString(RootFile(root, RegistryName)) == x + RegistryName;
    assert PathString(RootFile(root, RegistrySidecarName)) == x + RegistrySidecarName;
    ReplaceAllSplit(x, RegistryName, ".tsv", ".json");
    RegistryNameReplaced();
    assert SidecarPathAsWritten(root) == ReplaceAll(x, ".tsv", ".json") + RegistrySidecarName;
    OccursBeforeSlash(PathString(root));
    if Occurs(".tsv", x) {
      ReplaceAllLength(x, ".tsv", ".json");
    } else {
      ReplaceAllWithoutOccurrence(x, ".tsv", ".json");
    }
  }

  /** "participants.tsv" becomes "participants.json". */
  lemma RegistryNameReplaced()
    ensures ReplaceAll(RegistryName, ".tsv", ".json") == RegistrySidecarName
  {
    assert '.' !in "participants";
    ReplaceAllSkipsPrefix("participants", ".tsv", ".tsv", ".json");
    ReplaceAllOfPattern(".tsv", ".json");
    RegistryNamesSplit();
  }

  /** Both names are "participants" and an extension. */
  lemma RegistryNamesSplit()
    ensures RegistryName == "participants" + ".tsv"
    ensures RegistrySidecarName == "participants" + ".json"
  {
  }

  /** A trailing "/" adds no occurrence of ".tsv". */
  lemma OccursBeforeSlash(s: string)
    ensures Occurs(".tsv", s + "/") <==> Occurs(".tsv", s)
  {
    if Occurs(".tsv", s) {
      OccursInLonger(s);
    }
    if Occurs(".tsv", s + "/") {
      OccursNotAtSlash(s);
    }
  }

  lemma OccursInLonger(s: string)
    requires Occurs(".tsv", s)
    ensures Occurs(".tsv", s + "/")
  {
    var t := s + "/";
    var i :| 0 <= i <= |s| - 4 && OccursAt(".tsv", s, i);
    assert t[i..i + 4] == s[i..i + 4];
    assert OccursAt(".tsv", t, i);
  }

  lemma OccursNotAtSlash(s: string)
    requires Occurs(".tsv", s + "/")
    ensures Occurs(".tsv", s)
  {
    var t := s + "/";
    var i :| 0 <= i <= |t| - 4 && OccursAt(".tsv", t, i);
    assert t[i + 3] == t[i..i + 4][3] == 'v';
    assert t[|s|] == '/';
    assert s[i..i + 4] == t[i..i + 4];
    assert OccursAt(".tsv", s, i);
  }

  /**
   * A dataset rooted at /data/study.tsv gets its sidecar written to
   * /data/study.json/participants.json instead of beside the registry.
   */
  lemma TsvRootMisplacesSidecar()
    ensures SidecarPathAsWritten(["data", "study.tsv"]) != PathString(RootFile(["data", "study.tsv"], RegistrySidecarName))
  {
    var root := ["data", "study.tsv"];
    assert PathString(root[..1]) == "/data";
    assert PathString(root) == "/data/study.tsv";
    assert OccursAt(".tsv", PathString(root), 11);
    SidecarPathAsWrittenIff(root);
  }

  /**
   * The corrected sidecar path: ".tsv" replaced in the registry's file name
   * only, in the directory of participants.tsv.
   */
  function SidecarPath(root: Path): (p: Path)
    ensures p != [] && Parent(p) == root
  {
    var registry := RootFile(root, RegistryName);
    Parent(registry) + [ReplaceAll(registry[|registry| - 1], ".tsv", ".json")]
  }

  /**
   * The corrected path is participants.json beside participants.tsv,
   * whatever the root's name: the path Materializer writes the sidecar to.
   */
  lemma SidecarBesideRegistry(root: Path)
    ensures SidecarPath(root) == RootFile(root, RegistrySidecarName)
    ensures Parent(SidecarPath(root)) == Parent(RootFile(root, RegistryName))
    ensures PathString(SidecarPath(root)) == PathString(root) + "/" + RegistrySidecarName
  {
    RegistryNameReplaced();
    PathStringJoin(root, RegistrySidecarName);
  }
}
