/**
 * What a call of `write_raw_bids_beh` does to the dataset: which files it
 * may change, what the destination and the registry hold after a success,
 * and which existing files it leaves alone whatever the outcome.
 */
module MaterializerProperties {
  import opened Wrappers
  import opened Participants
  import opened ParticipantsProperties
  import opened FileSystem
  import opened Materializer

  // ---------------------------------------------------------------------
  // Where the scaffold files lie relative to the data path
  // ---------------------------------------------------------------------

  /**
   * A file at the dataset root whose name does not start like "sub-" is
   * neither a directory on the way to a subject's data nor the data file.
   */
  lemma RootFileOffSubjectPath(root: Path, name: string, subject: string, x: Path)
    requires name != [] && name[0] != 's'
    requires |x| <= |root| || (x[..|root|] == root && x[|root|] == SubjectLabel(subject))
    ensures !Below(RootFile(root, name), x)
  {
    if |x| > |root| {
      assert SubjectLabel(subject)[0] == 's';
    }
  }

  /** The four scaffold files lie off the data file's path, above and below. */
  lemma ScaffoldFilesOffDataPath(target: BidsPath, q: Path)
    requires target.root.Some? && q in ScaffoldFiles(target.root.value)
    ensures !Below(q, DataDirectory(target)) && !Below(q, Parent(DataDirectory(target)))
    ensures !Below(DataFile(target), q) && q != DataFile(target)
  {
    var root := target.root.value;
    var dir := DataDirectory(target);
    var name :| name in [ReadmeName, RegistryName, RegistrySidecarName, DescriptionName] && q == RootFile(root, name);
    RootFileOffSubjectPath(root, name, target.subject, dir);
    var up := Parent(dir);
    if |up| > |root| {
      assert up[..|root|] == root && up[|root|] == dir[|root|];
    }
    RootFileOffSubjectPath(root, name, target.subject, up);
  }

  /** The destination is none of the scaffold files. */
  lemma DataFileNotScaffold(target: BidsPath)
    requires target.root.Some?
    ensures DataFile(target) !in ScaffoldFiles(target.root.value)
  {
    var root := target.root.value;
    ScaffoldFilesOffDataPath(target, RootFile(root, ReadmeName));
    ScaffoldFilesOffDataPath(target, RootFile(root, RegistryName));
    ScaffoldFilesOffDataPath(target, RootFile(root, RegistrySidecarName));
    ScaffoldFilesOffDataPath(target, RootFile(root, DescriptionName));
  }

  /** The data directory is none of the scaffold files. */
  lemma DataDirectoryNotScaffold(target: BidsPath)
    requires target.root.Some?
    ensures DataDirectory(target) !in ScaffoldFiles(target.root.value)
  {
    var root := target.root.value;
    var dir := DataDirectory(target);
    RootFileOffSubjectPath(root, ReadmeName, target.subject, dir);
    RootFileOffSubjectPath(root, RegistryName, target.subject, dir);
    RootFileOffSubjectPath(root, RegistrySidecarName, target.subject, dir);
    RootFileOffSubjectPath(root, DescriptionName, target.subject, dir);
  }

  /** Anything outside the data directory's path is outside its parent's. */
  lemma OffDirectoryOffParent(target: BidsPath, q: Path)
    requires target.root.Some? && !Below(q, DataDirectory(target))
    ensures !Below(q, Parent(DataDirectory(target)))
  {
    var dir := DataDirectory(target);
    assert Below(Parent(dir), dir);
  }

  // ---------------------------------------------------------------------
  // The scaffold stage
  // ---------------------------------------------------------------------

  /** The merged registry depends on nothing but what lies at participants.tsv. */
  lemma MergedRegistryLocal(fs: FS, fs': FS, lib: Library, p: Path, raw: Raw, subjectId: string, overwrite: bool)
    requires lib.Valid() && Agree(fs, fs', p)
    ensures MergedRegistry(fs, lib, p, raw, subjectId, overwrite) == MergedRegistry(fs', lib, p, raw, subjectId, overwrite)
  {
    assert ReadRegistry(fs, lib, p) == ReadRegistry(fs', lib, p);
  }

  /** A registry stage that completes has written the registry it was given. */
  lemma RegistryStageWritesRegistry(fs: FS, lib: Library, root: Path, merged: Result<Table, Error>)
    requires RegistryStage(fs, lib, root, merged).failure.None?
    ensures var p := RootFile(root, RegistryName);
            var s := RegistryStage(fs, lib, root, merged);
            merged.Ok? && p in s.fs && s.fs[p] == File(lib.writeTsv(merged.value))
  {
    var p := RootFile(root, RegistryName);
    ScaffoldNamesDistinct(root);
    var u := WriteRegistry(fs, lib, p, merged);
    assert u.Ok?;
    assert p !in TemplateFiles(root);
    assert Agree(u.value, TemplateStage(u.value, lib, root).fs, p);
  }

  /** A scaffold stage that completes has written the merged registry to participants.tsv. */
  lemma ScaffoldWritesRegistry(fs: FS, lib: Library, target: BidsPath, raw: Raw, overwrite: bool)
    requires lib.Valid() && target.root.Some?
    requires Scaffold(fs, lib, target, raw, overwrite).failure.None?
    ensures var p := RootFile(target.root.value, RegistryName);
            var merged := MergedRegistry(fs, lib, p, raw, target.subject, overwrite);
            var s := Scaffold(fs, lib, target, raw, overwrite);
            merged.Ok? && p in s.fs && s.fs[p] == File(lib.writeTsv(merged.value))
  {
    var root := target.root.value;
    var readme := RootFile(root, ReadmeName);
    var p := RootFile(root, RegistryName);
    ScaffoldNamesDistinct(root);
    var w := WriteScaffold(fs, readme, lib.readme(target.dataType), false);
    assert w.Ok?;
    assert p !in {readme};
    assert Agree(fs, w.value, p);
    MergedRegistryLocal(fs, w.value, lib, p, raw, target.subject, overwrite);
    RegistryStageWritesRegistry(w.value, lib, root, MergedRegistry(w.value, lib, p, raw, target.subject, overwrite));
  }

  /**
   * When participants.tsv cannot be read or the subject cannot be merged
   * into it (the conflict above all), the scaffold stage fails with that
   * error, or with an OS error writing README before it, and
   * participants.tsv is left as it was.
   */
  lemma ScaffoldStopsOnRegistryError(fs: FS, lib: Library, target: BidsPath, raw: Raw, overwrite: bool)
    requires lib.Valid() && target.root.Some?
    requires MergedRegistry(fs, lib, RootFile(target.root.value, RegistryName), raw, target.subject, overwrite).Err?
    ensures var p := RootFile(target.root.value, RegistryName);
            var s := Scaffold(fs, lib, target, raw, overwrite);
            && s.failure.Some?
            && (s.failure.value.OsFailure? ||
                s.failure.value == MergedRegistry(fs, lib, p, raw, target.subject, overwrite).error)
            && Agree(fs, s.fs, p)
  {
    var root := target.root.value;
    var readme := RootFile(root, ReadmeName);
    var p := RootFile(root, RegistryName);
    ScaffoldNamesDistinct(root);
    var w := WriteScaffold(fs, readme, lib.readme(target.dataType), false);
    if w.Ok? {
      assert p !in {readme};
      assert Agree(fs, w.value, p);
      MergedRegistryLocal(fs, w.value, lib, p, raw, target.subject, overwrite);
    }
  }

  /**
   * The registry stage completes when the merge succeeded, the root is a
   * directory and none of the three files it writes is a directory.
   */
  lemma RegistryStageSucceeds(fs: FS, lib: Library, root: Path, merged: Result<Table, Error>)
    requires merged.Ok? && IsDir(fs, root)
    requires !IsDir(fs, RootFile(root, RegistryName))
    requires !IsDir(fs, RootFile(root, RegistrySidecarName)) && !IsDir(fs, RootFile(root, DescriptionName))
    ensures RegistryStage(fs, lib, root, merged).failure.None?
  {
    var p := RootFile(root, RegistryName);
    ScaffoldNamesDistinct(root);
    var fs2 := WriteRegistry(fs, lib, p, merged).value;
    assert Agree(fs, fs2, root) && Agree(fs, fs2, RootFile(root, RegistrySidecarName));
    assert Agree(fs, fs2, RootFile(root, DescriptionName));
  }

  /**
   * The scaffold stage completes when the root is a directory, none of the
   * four scaffold files is a directory, and the registry can be read and
   * the subject merged into it.
   */
  lemma ScaffoldSucceeds(fs: FS, lib: Library, target: BidsPath, raw: Raw, overwrite: bool)
    requires lib.Valid() && target.root.Some? && IsDir(fs, target.root.value)
    requires forall q | q in ScaffoldFiles(target.root.value) :: !IsDir(fs, q)
    requires MergedRegistry(fs, lib, RootFile(target.root.value, RegistryName), raw, target.subject, overwrite).Ok?
    ensures Scaffold(fs, lib, target, raw, overwrite).failure.None?
  {
    var root := target.root.value;
    var readme := RootFile(root, ReadmeName);
    var p := RootFile(root, RegistryName);
    var json := RootFile(root, RegistrySidecarName);
    var desc := RootFile(root, DescriptionName);
    ScaffoldNamesDistinct(root);
    assert readme in ScaffoldFiles(root) && p in ScaffoldFiles(root);
    assert json in ScaffoldFiles(root) && desc in ScaffoldFiles(root);
    var fs1 := WriteScaffold(fs, readme, lib.readme(target.dataType), false).value;
    assert Agree(fs, fs1, root) && Agree(fs, fs1, p);
    assert Agree(fs, fs1, json) && Agree(fs, fs1, desc);
    MergedRegistryLocal(fs, fs1, lib, p, raw, target.subject, overwrite);
    RegistryStageSucceeds(fs1, lib, root, MergedRegistry(fs1, lib, p, raw, target.subject, overwrite));
  }

  /**
   * The template stage completes exactly when the root is a directory and
   * neither JSON file is one. Then participants.json holds its template's
   * text whatever was there (overwrite true), and dataset_description.json
   * is written from its template only when it was not a regular file
   * (overwrite false).
   */
  lemma TemplateStageWrites(fs: FS, lib: Library, root: Path)
    ensures var s := TemplateStage(fs, lib, root);
            s.failure.None? <==>
              IsDir(fs, root) && !IsDir(fs, RootFile(root, RegistrySidecarName)) && !IsDir(fs, RootFile(root, DescriptionName))
    ensures var s := TemplateStage(fs, lib, root);
            var json := RootFile(root, RegistrySidecarName);
            s.failure.None? ==> json in s.fs && s.fs[json] == File(lib.participantsJson(PriorContent(fs, json)))
    ensures var s := TemplateStage(fs, lib, root);
            var desc := RootFile(root, DescriptionName);
            s.failure.None? && !IsFile(fs, desc) ==> desc in s.fs && s.fs[desc] == File(lib.datasetDescription(None))
  {
    var json := RootFile(root, RegistrySidecarName);
    var desc := RootFile(root, DescriptionName);
    ScaffoldNamesDistinct(root);
    var w := WriteScaffold(fs, json, lib.participantsJson, true);
    if w.Ok? {
      assert Agree(fs, w.value, root) && Agree(fs, w.value, desc);
      var w2 := WriteScaffold(w.value, desc, lib.datasetDescription, false);
      if w2.Ok? {
        assert Agree(w.value, w2.value, json);
      }
    }
  }

  /**
   * A completed registry stage leaves participants.json with its
   * template's text and dataset_description.json written from its
   * template when it was not a regular file.
   */
  lemma RegistryStageWritesTemplates(fs: FS, lib: Library, root: Path, merged: Result<Table, Error>)
    requires RegistryStage(fs, lib, root, merged).failure.None?
    ensures var s := RegistryStage(fs, lib, root, merged);
            var json := RootFile(root, RegistrySidecarName);
            json in s.fs && s.fs[json] == File(lib.participantsJson(PriorContent(fs, json)))
    ensures var s := RegistryStage(fs, lib, root, merged);
            var desc := RootFile(root, DescriptionName);
            !IsFile(fs, desc) ==> desc in s.fs && s.fs[desc] == File(lib.datasetDescription(None))
  {
    var p := RootFile(root, RegistryName);
    ScaffoldNamesDistinct(root);
    var fs2 := WriteRegistry(fs, lib, p, merged).value;
    assert Agree(fs, fs2, RootFile(root, RegistrySidecarName)) && Agree(fs, fs2, RootFile(root, DescriptionName));
    TemplateStageWrites(fs2, lib, root);
  }

  /**
   * After a completed scaffold stage README and dataset_description.json
   * are regular files, written from their templates when they were not
   * regular files before (overwrite false), and participants.json holds
   * its template's text whatever was there (overwrite true).
   */
  lemma ScaffoldWritesTemplates(fs: FS, lib: Library, target: BidsPath, raw: Raw, overwrite: bool)
    requires lib.Valid() && target.root.Some?
    requires Scaffold(fs, lib, target, raw, overwrite).failure.None?
    ensures var s := Scaffold(fs, lib, target, raw, overwrite);
            var readme := RootFile(target.root.value, ReadmeName);
            && IsFile(s.fs, readme)
            && (!IsFile(fs, readme) ==> s.fs[readme] == File(lib.readme(target.dataType)(None)))
    ensures var s := Scaffold(fs, lib, target, raw, overwrite);
            var json := RootFile(target.root.value, RegistrySidecarName);
            json in s.fs && s.fs[json] == File(lib.participantsJson(PriorContent(fs, json)))
    ensures var s := Scaffold(fs, lib, target, raw, overwrite);
            var desc := RootFile(target.root.value, DescriptionName);
            && IsFile(s.fs, desc)
            && (!IsFile(fs, desc) ==> s.fs[desc] == File(lib.datasetDescription(None)))
  {
    var root := target.root.value;
    var readme := RootFile(root, ReadmeName);
    var p := RootFile(root, RegistryName);
    var json := RootFile(root, RegistrySidecarName);
    var desc := RootFile(root, DescriptionName);
    ScaffoldNamesDistinct(root);
    var fs1 := WriteScaffold(fs, readme, lib.readme(target.dataType), false).value;
    var merged := MergedRegistry(fs1, lib, p, raw, target.subject, overwrite);
    var s := RegistryStage(fs1, lib, root, merged);
    assert s == Scaffold(fs, lib, target, raw, overwrite);
    assert Agree(fs, fs1, json) && Agree(fs, fs1, desc);
    assert readme !in RegistryFiles(root);
    assert Agree(fs1, s.fs, readme);
    RegistryStageWritesTemplates(fs1, lib, root, merged);
  }

  /**
   * What merging the subject into participants.tsv yields: a registry of
   * the subject alone when nothing is there, an error for a directory, an
   * unreadable file or a file without participant_id, and the conflict
   * error exactly when the subject is listed with other values and
   * overwrite is false.
   */
  lemma MergedRegistryOutcome(fs: FS, lib: Library, p: Path, raw: Raw, subjectId: string, overwrite: bool)
    requires lib.Valid()
    ensures var r := MergedRegistry(fs, lib, p, raw, subjectId, overwrite);
            !Exists(fs, p) ==> r == Ok(AsTable(NewRow(subjectId, raw)))
    ensures var r := MergedRegistry(fs, lib, p, raw, subjectId, overwrite);
            Exists(fs, p) && !IsFile(fs, p) ==> r == Err(OsFailure(IsADirectory(p)))
    ensures var r := MergedRegistry(fs, lib, p, raw, subjectId, overwrite);
            IsFile(fs, p) && lib.readTsv(fs[p].content).None? ==> r == Err(RegistryUnreadable(p))
    ensures var r := MergedRegistry(fs, lib, p, raw, subjectId, overwrite);
            IsFile(fs, p) && lib.readTsv(fs[p].content).Some? ==>
              var t := lib.readTsv(fs[p].content).value;
              && (IdColumn !in t.entries ==> r == Err(RegistryError(MissingColumn(IdColumn))))
              && (IdColumn in t.entries ==>
                    (r == Err(RegistryError(Conflict(SubjectLabel(subjectId)))) <==>
                       && SubjectLabel(subjectId) in t.entries[IdColumn]
                       && !ContainsRow(t, NewRow(subjectId, raw))
                       && !overwrite))
  {
  }

  /**
   * A merge that succeeds on a registry read back as a rectangular table
   * with the base columns, or on no registry at all, records the subject's
   * new values.
   */
  lemma MergedRegistryRecords(fs: FS, lib: Library, p: Path, raw: Raw, subjectId: string, overwrite: bool)
    requires lib.Valid()
    requires IsFile(fs, p) && lib.readTsv(fs[p].content).Some? ==>
               Rectangular(lib.readTsv(fs[p].content).value) && HasBaseColumns(lib.readTsv(fs[p].content).value)
    requires MergedRegistry(fs, lib, p, raw, subjectId, overwrite).Ok?
    ensures Records(MergedRegistry(fs, lib, p, raw, subjectId, overwrite).value, raw, subjectId)
  {
    MergeRecordsSubject(ReadRegistry(fs, lib, p).value, raw, subjectId, overwrite);
  }

  // ---------------------------------------------------------------------
  // The placement stage
  // ---------------------------------------------------------------------

  /**
   * Placing the data changes nothing but the directories on the way to the
   * data directory and the destination with what lies below it.
   */
  lemma PlaceFrame(fs: FS, lib: Library, rawFile: Path, target: BidsPath, overwrite: bool, q: Path)
    requires target.root.Some?
    requires !Below(q, Parent(DataDirectory(target))) && !Below(DataFile(target), q)
    ensures Agree(fs, Place(fs, lib, rawFile, target, overwrite).fs, q)
  {
    var made := MakeDirs(fs, Parent(DataDirectory(target)));
    assert Agree(fs, made.fs, q);
    var dest := DataFile(target);
    if made.failure.None? && Exists(made.fs, dest) {
      assert Agree(made.fs, Remove(made.fs, dest), q);
    }
  }

  /** Placing the data keeps the file system a tree. */
  lemma PlaceKeepsTree(fs: FS, lib: Library, rawFile: Path, target: BidsPath, overwrite: bool)
    requires target.root.Some? && Tree(fs)
    ensures Tree(Place(fs, lib, rawFile, target, overwrite).fs)
  {
    MakeDirsInTree(fs, Parent(DataDirectory(target)));
  }

  /** A successful placement copied a regular file that was there before. */
  lemma PlaceCopies(fs: FS, lib: Library, rawFile: Path, target: BidsPath, overwrite: bool)
    requires target.root.Some?
    requires Place(fs, lib, rawFile, target, overwrite).result.Ok?
    ensures var o := Place(fs, lib, rawFile, target, overwrite);
            IsFile(fs, rawFile) && DataFile(target) in o.fs && o.fs[DataFile(target)] == fs[rawFile]
  {
    var made := MakeDirs(fs, Parent(DataDirectory(target)));
    var dest := DataFile(target);
    var cleared := if Exists(made.fs, dest) then Remove(made.fs, dest) else made.fs;
    assert IsFile(cleared, rawFile);
    assert made.fs[rawFile] == cleared[rawFile];
  }

  /**
   * An existing destination without overwrite is refused and left as it
   * is; in a tree the directories on the way exist, so the refusal is the
   * FileExistsError on the destination (line 312).
   */
  lemma PlaceRefuses(fs: FS, lib: Library, rawFile: Path, target: BidsPath)
    requires target.root.Some? && Exists(fs, DataFile(target))
    ensures var o := Place(fs, lib, rawFile, target, false);
            o.result.Err? && Agree(fs, o.fs, DataFile(target))
    ensures Tree(fs) ==> Place(fs, lib, rawFile, target, false).result == Err(AlreadyExists(DataFile(target)))
  {
    var dest := DataFile(target);
    var up := Parent(DataDirectory(target));
    assert !Below(dest, up);
    if Tree(fs) {
      AncestorIsDir(fs, up, dest);
      DirHasNoFileOnWay(fs, up);
      MakeDirsInTree(fs, up);
    }
  }

  /**
   * With the data directory in place, an existing destination and
   * overwrite, or no destination, a known datatype and a regular raw file
   * off the destination's subtree, the placement succeeds and the
   * destination holds the raw file's content (lines 301-330): an existing
   * destination is removed and replaced.
   */
  lemma PlaceSucceeds(fs: FS, lib: Library, rawFile: Path, target: BidsPath, overwrite: bool)
    requires target.root.Some? && Tree(fs) && IsDir(fs, DataDirectory(target))
    requires overwrite || !Exists(fs, DataFile(target))
    requires target.dataType.Some? && target.dataType.value in AllowedExtensions(lib)
    requires IsFile(fs, rawFile) && !Below(DataFile(target), rawFile)
    ensures var o := Place(fs, lib, rawFile, target, overwrite);
            o.result == Ok(target) && DataFile(target) in o.fs && o.fs[DataFile(target)] == fs[rawFile]
  {
    var dir := DataDirectory(target);
    var up := Parent(dir);
    var dest := DataFile(target);
    AncestorIsDir(fs, up, dir);
    DirHasNoFileOnWay(fs, up);
    MakeDirsInTree(fs, up);
    var made := MakeDirs(fs, up);
    assert !Below(dest, up) && !Below(dest, dir);
    assert Agree(fs, made.fs, dest);
    var cleared := if Exists(made.fs, dest) then Remove(made.fs, dest) else made.fs;
    assert Agree(made.fs, cleared, dir) && Agree(made.fs, cleared, rawFile);
    assert dest !in cleared;
  }

  /** In a tree, after a successful placement nothing lies below the destination. */
  lemma PlaceLeavesNothingBelow(fs: FS, lib: Library, rawFile: Path, target: BidsPath, overwrite: bool, q: Path)
    requires target.root.Some? && Tree(fs)
    requires Place(fs, lib, rawFile, target, overwrite).result.Ok?
    requires Below(DataFile(target), q) && q != DataFile(target)
    ensures q !in Place(fs, lib, rawFile, target, overwrite).fs
  {
    var made := MakeDirs(fs, Parent(DataDirectory(target)));
    MakeDirsInTree(fs, Parent(DataDirectory(target)));
    var dest := DataFile(target);
    AncestorPresent(made.fs, dest, q);
  }

  // ---------------------------------------------------------------------
  // The whole call
  // ---------------------------------------------------------------------

  /** The call keeps the file system a tree, whatever its outcome. */
  lemma WriteKeepsTree(fs: FS, lib: Library, rawFile: Path, raw: Raw, bp: BidsPath, overwrite: bool)
    requires lib.Valid() && Tree(fs)
    ensures Tree(WriteRawBidsBeh(fs, lib, rawFile, raw, bp, overwrite).fs)
  {
    if bp.root.Some? {
      var target := Retarget(bp);
      var made := MakeDirs(fs, DataDirectory(target));
      MakeDirsInTree(fs, DataDirectory(target));
      var s := Scaffold(made.fs, lib, target, raw, overwrite);
      PlaceKeepsTree(s.fs, lib, rawFile, target, overwrite);
    }
  }

  /**
   * When the root is set, no regular file lies on the way to the data
   * directory, no scaffold file is a directory, the registry can be read
   * and the subject merged into it, the destination is free or overwrite
   * is set, the datatype is known, and the raw file is a regular file that
   * the call does not rewrite or remove first, the call succeeds: it
   * returns the retargeted descriptor, the destination holds the raw
   * file's content, and participants.tsv the merged registry.
   */
  lemma WriteSucceeds(fs: FS, lib: Library, rawFile: Path, raw: Raw, bp: BidsPath, overwrite: bool)
    requires lib.Valid() && Tree(fs) && bp.root.Some?
    requires !FileOnWay(fs, DataDirectory(Retarget(bp)))
    requires forall q | q in ScaffoldFiles(bp.root.value) :: !IsDir(fs, q)
    requires MergedRegistry(fs, lib, RootFile(bp.root.value, RegistryName), raw, bp.subject, overwrite).Ok?
    requires overwrite || !Exists(fs, DataFile(Retarget(bp)))
    requires bp.dataType.Some? && bp.dataType.value in AllowedExtensions(lib)
    requires IsFile(fs, rawFile) && rawFile !in ScaffoldFiles(bp.root.value)
    requires !Below(DataFile(Retarget(bp)), rawFile)
    ensures var o := WriteRawBidsBeh(fs, lib, rawFile, raw, bp, overwrite);
            var dest := DataFile(Retarget(bp));
            o.result == Ok(Retarget(bp)) && dest in o.fs && o.fs[dest] == fs[rawFile]
    ensures var o := WriteRawBidsBeh(fs, lib, rawFile, raw, bp, overwrite);
            var p := RootFile(bp.root.value, RegistryName);
            var merged := MergedRegistry(fs, lib, p, raw, bp.subject, overwrite);
            p in o.fs && o.fs[p] == File(lib.writeTsv(merged.value))
  {
    var target := Retarget(bp);
    var root := bp.root.value;
    var dir := DataDirectory(target);
    var dest := DataFile(target);
    var p := RootFile(root, RegistryName);
    MakeDirsInTree(fs, dir);
    var made := MakeDirs(fs, dir);
    AncestorIsDir(made.fs, root, dir);
    forall q | q in ScaffoldFiles(root) ensures !IsDir(made.fs, q) {
      ScaffoldFilesOffDataPath(target, q);
      assert Agree(fs, made.fs, q);
    }
    ScaffoldFilesOffDataPath(target, p);
    assert Agree(fs, made.fs, p);
    MergedRegistryLocal(fs, made.fs, lib, p, raw, bp.subject, overwrite);
    ScaffoldSucceeds(made.fs, lib, target, raw, overwrite);
    var s := Scaffold(made.fs, lib, target, raw, overwrite);
    DataDirectoryNotScaffold(target);
    DataFileNotScaffold(target);
    assert Agree(made.fs, s.fs, dir) && Agree(made.fs, s.fs, dest) && Agree(made.fs, s.fs, rawFile);
    assert !Below(dest, dir);
    assert Agree(fs, made.fs, dest);
    PlaceSucceeds(s.fs, lib, rawFile, target, overwrite);
    SuccessWritesRegistry(fs, lib, rawFile, raw, bp, overwrite);
  }

  /**
   * The call changes nothing but the four scaffold files, the directories
   * on the way to the data directory, and the destination with what lies
   * below it, whatever its outcome.
   */
  lemma WriteFrame(fs: FS, lib: Library, rawFile: Path, raw: Raw, bp: BidsPath, overwrite: bool, q: Path)
    requires lib.Valid() && bp.root.Some?
    requires q !in ScaffoldFiles(bp.root.value)
    requires !Below(q, DataDirectory(Retarget(bp))) && !Below(DataFile(Retarget(bp)), q)
    ensures Agree(fs, WriteRawBidsBeh(fs, lib, rawFile, raw, bp, overwrite).fs, q)
  {
    var target := Retarget(bp);
    var made := MakeDirs(fs, DataDirectory(target));
    assert Agree(fs, made.fs, q);
    var s := Scaffold(made.fs, lib, target, raw, overwrite);
    assert Agree(made.fs, s.fs, q);
    OffDirectoryOffParent(target, q);
    PlaceFrame(s.fs, lib, rawFile, target, overwrite, q);
  }

  /**
   * An existing README or dataset_description.json is left as it is,
   * whatever the caller's overwrite flag and the call's outcome: both are
   * requested with overwrite false (lines 285 and 298).
   */
  lemma ExistingTemplatesKept(fs: FS, lib: Library, rawFile: Path, raw: Raw, bp: BidsPath, overwrite: bool, q: Path)
    requires lib.Valid() && bp.root.Some?
    requires q == RootFile(bp.root.value, ReadmeName) || q == RootFile(bp.root.value, DescriptionName)
    requires IsFile(fs, q)
    ensures Agree(fs, WriteRawBidsBeh(fs, lib, rawFile, raw, bp, overwrite).fs, q)
  {
    var target := Retarget(bp);
    ScaffoldFilesOffDataPath(target, q);
    var made := MakeDirs(fs, DataDirectory(target));
    assert Agree(fs, made.fs, q);
    var s := Scaffold(made.fs, lib, target, raw, overwrite);
    PlaceFrame(s.fs, lib, rawFile, target, overwrite, q);
  }

  /**
   * After a success participants.tsv holds the registry merged from what
   * it held before the call and the subject's record.
   */
  lemma SuccessWritesRegistry(fs: FS, lib: Library, rawFile: Path, raw: Raw, bp: BidsPath, overwrite: bool)
    requires lib.Valid()
    requires WriteRawBidsBeh(fs, lib, rawFile, raw, bp, overwrite).result.Ok?
    ensures bp.root.Some?
    ensures var p := RootFile(bp.root.value, RegistryName);
            var merged := MergedRegistry(fs, lib, p, raw, bp.subject, overwrite);
            var o := WriteRawBidsBeh(fs, lib, rawFile, raw, bp, overwrite);
            merged.Ok? && p in o.fs && o.fs[p] == File(lib.writeTsv(merged.value))
  {
    var target := Retarget(bp);
    var p := RootFile(bp.root.value, RegistryName);
    ScaffoldFilesOffDataPath(target, p);
    var made := MakeDirs(fs, DataDirectory(target));
    assert Agree(fs, made.fs, p);
    MergedRegistryLocal(fs, made.fs, lib, p, raw, bp.subject, overwrite);
    ScaffoldWritesRegistry(made.fs, lib, target, raw, overwrite);
    var s := Scaffold(made.fs, lib, target, raw, overwrite);
    PlaceFrame(s.fs, lib, rawFile, target, overwrite, p);
  }

  /**
   * When participants.tsv cannot be read or the subject cannot be merged
   * into it, the call fails with that error (or an OS error before it),
   * and neither participants.tsv nor the destination changes.
   */
  lemma RegistryErrorWritesNothing(fs: FS, lib: Library, rawFile: Path, raw: Raw, bp: BidsPath, overwrite: bool)
    requires lib.Valid() && bp.root.Some?
    requires MergedRegistry(fs, lib, RootFile(bp.root.value, RegistryName), raw, bp.subject, overwrite).Err?
    ensures var p := RootFile(bp.root.value, RegistryName);
            var o := WriteRawBidsBeh(fs, lib, rawFile, raw, bp, overwrite);
            && o.result.Err?
            && (o.result.error.OsFailure? ||
                o.result.error == MergedRegistry(fs, lib, p, raw, bp.subject, overwrite).error)
            && Agree(fs, o.fs, p)
            && Agree(fs, o.fs, DataFile(Retarget(bp)))
  {
    var target := Retarget(bp);
    var p := RootFile(bp.root.value, RegistryName);
    var dest := DataFile(target);
    ScaffoldFilesOffDataPath(target, p);
    DataFileNotScaffold(target);
    var made := MakeDirs(fs, DataDirectory(target));
    assert Agree(fs, made.fs, p);
    assert Agree(fs, made.fs, dest);
    if made.failure.None? {
      MergedRegistryLocal(fs, made.fs, lib, p, raw, bp.subject, overwrite);
      ScaffoldStopsOnRegistryError(made.fs, lib, target, raw, overwrite);
      var s := Scaffold(made.fs, lib, target, raw, overwrite);
      assert Agree(made.fs, s.fs, dest);
    }
  }

  /**
   * Without overwrite an existing destination is refused (line 305) and
   * left as it is.
   */
  lemma ExistingDestinationRefused(fs: FS, lib: Library, rawFile: Path, raw: Raw, bp: BidsPath)
    requires lib.Valid() && bp.root.Some?
    requires Exists(fs, DataFile(Retarget(bp)))
    ensures var o := WriteRawBidsBeh(fs, lib, rawFile, raw, bp, false);
            o.result.Err? && Agree(fs, o.fs, DataFile(Retarget(bp)))
  {
    var target := Retarget(bp);
    var dest := DataFile(target);
    DataFileNotScaffold(target);
    var made := MakeDirs(fs, DataDirectory(target));
    assert Agree(fs, made.fs, dest);
    if made.failure.None? {
      var s := Scaffold(made.fs, lib, target, raw, false);
      assert Agree(made.fs, s.fs, dest);
      if s.failure.None? {
        PlaceRefuses(s.fs, lib, rawFile, target);
      }
    }
  }

  /**
   * Writing the same descriptor a second time without overwrite fails and
   * leaves the first call's data file as it is.
   */
  lemma SecondWriteWithoutOverwriteFails(fs: FS, lib: Library, rawFile: Path, raw: Raw, bp: BidsPath, overwrite: bool,
                                         rawFile': Path, raw': Raw)
    requires lib.Valid()
    requires WriteRawBidsBeh(fs, lib, rawFile, raw, bp, overwrite).result.Ok?
    ensures var fs1 := WriteRawBidsBeh(fs, lib, rawFile, raw, bp, overwrite).fs;
            var o := WriteRawBidsBeh(fs1, lib, rawFile', raw', bp, false);
            o.result.Err? && Agree(fs1, o.fs, DataFile(Retarget(bp)))
  {
    var fs1 := WriteRawBidsBeh(fs, lib, rawFile, raw, bp, overwrite).fs;
    ExistingDestinationRefused(fs1, lib, rawFile', raw', bp);
  }

  /**
   * A success copied the raw file, a regular file before the call, to the
   * destination (lines 329-330), when the raw file is not one of the
   * scaffold files the call rewrites first.
   */
  lemma SuccessCopiesSource(fs: FS, lib: Library, rawFile: Path, raw: Raw, bp: BidsPath, overwrite: bool)
    requires lib.Valid() && bp.root.Some?
    requires rawFile !in ScaffoldFiles(bp.root.value)
    requires WriteRawBidsBeh(fs, lib, rawFile, raw, bp, overwrite).result.Ok?
    ensures var o := WriteRawBidsBeh(fs, lib, rawFile, raw, bp, overwrite);
            IsFile(fs, rawFile) && DataFile(Retarget(bp)) in o.fs && o.fs[DataFile(Retarget(bp))] == fs[rawFile]
  {
    var target := Retarget(bp);
    var made := MakeDirs(fs, DataDirectory(target));
    var s := Scaffold(made.fs, lib, target, raw, overwrite);
    PlaceCopies(s.fs, lib, rawFile, target, overwrite);
    assert Agree(made.fs, s.fs, rawFile);
  }

  /**
   * In a tree, after a success the destination is a regular file with
   * nothing below it: a directory in its place was removed (lines 307-313).
   */
  lemma NothingBelowDestination(fs: FS, lib: Library, rawFile: Path, raw: Raw, bp: BidsPath, overwrite: bool, q: Path)
    requires lib.Valid() && Tree(fs)
    requires WriteRawBidsBeh(fs, lib, rawFile, raw, bp, overwrite).result.Ok?
    requires bp.root.Some? && Below(DataFile(Retarget(bp)), q) && q != DataFile(Retarget(bp))
    ensures q !in WriteRawBidsBeh(fs, lib, rawFile, raw, bp, overwrite).fs
  {
    var target := Retarget(bp);
    var made := MakeDirs(fs, DataDirectory(target));
    MakeDirsInTree(fs, DataDirectory(target));
    var s := Scaffold(made.fs, lib, target, raw, overwrite);
    PlaceLeavesNothingBelow(s.fs, lib, rawFile, target, overwrite, q);
  }
}
