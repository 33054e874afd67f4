/**
 * `write_raw_bids_beh`: a behavioural data file is copied to its BIDS
 * destination, after the dataset's scaffold files (README, participants.tsv
 * and participants.json, dataset_description.json) are brought up to date.
 * Every step is a transition of the abstract file system; a step that
 * fails leaves the effects of the steps before it in place.
 */
module Materializer {
  import opened Wrappers
  import opened OrderedMaps
  import opened Participants
  import opened FileSystem

  /** The extensions line 20 allows for the "beh" datatype. */
  const BehExtensions: seq<string> := [".tsv", ".csv", ".txt"]

  /** The extension every destination is given (line 261). */
  const DataExtension := ".tsv"

  const ReadmeName := "README"
  const RegistryName := "participants.tsv"
  const RegistrySidecarName := "participants.json"
  const DescriptionName := "dataset_description.json"

  /** The fields of mne_bids' BIDSPath that the writer reads or sets. */
  datatype BidsPath = BidsPath(
    root: Option<Path>,
    subject: string,
    session: Option<string>,
    task: Option<string>,
    acquisition: Option<string>,
    run: Option<string>,
    dataType: Option<string>,
    suffix: Option<string>,
    extension: Option<string>)

  /**
   * The collaborators from mne_bids whose code is not part of this model,
   * as capabilities: the TSV reader and writer, the three template writers
   * (each given the prior content of its file, if that is a regular file;
   * the README's also the datatype, whose reference it cites),
   * and ALLOWED_DATATYPE_EXTENSIONS as it stands before line 20.
   */
  datatype Library = Library(
    readTsv: Content -> Option<Table>,
    writeTsv: Table -> Content,
    readme: Option<string> -> Option<Content> -> Content,
    participantsJson: Option<Content> -> Content,
    datasetDescription: Option<Content> -> Content,
    allowedExtensions: map<string, seq<string>>)
  {
    /** Assumed contract of `_from_tsv`: what it reads is a dict, each column once. */
    ghost predicate Valid() {
      forall c :: readTsv(c).Some? ==> readTsv(c).value.Valid()
    }
  }

  /** The exceptions the writer raises. */
  datatype Error =
    | ConfigError                     // ValueError: the root is not set
    | RegistryUnreadable(path: Path)  // participants.tsv does not parse as a table
    | RegistryError(mergeError: MergeError)
    | AlreadyExists(path: Path)       // FileExistsError: the destination exists and overwrite is false
    | UnknownDatatype                 // KeyError: the datatype has no allowed extensions
    | OsFailure(osError: OsError)

  /** The file system after the call, and the path returned or the exception raised. */
  datatype Outcome = Outcome(fs: FS, result: Result<BidsPath, Error>)

  /** The file system after a stage, and the exception that ended it, if any. */
  datatype Stage = Stage(fs: FS, failure: Option<Error>)

  /** ALLOWED_DATATYPE_EXTENSIONS once line 20 has set the "beh" entry. */
  function AllowedExtensions(lib: Library): (allowed: map<string, seq<string>>)
    ensures "beh" in allowed && allowed["beh"] == BehExtensions
    ensures forall d | d in lib.allowedExtensions && d != "beh" :: d in allowed && allowed[d] == lib.allowedExtensions[d]
    ensures forall d | d in allowed :: d == "beh" || d in lib.allowedExtensions
  {
    lib.allowedExtensions["beh" := BehExtensions]
  }

  /**
   * Lines 318-319: the data needs converting when ".tsv" is not an allowed
   * extension of its datatype. ".tsv" is allowed for "beh", so a behavioural
   * file is always copied.
   */
  function Convert(lib: Library, dataType: string): (convert: bool)
    requires dataType in AllowedExtensions(lib)
    ensures convert <==> DataExtension !in AllowedExtensions(lib)[dataType]
    ensures dataType == "beh" ==> !convert
  {
    DataExtension !in AllowedExtensions(lib)[dataType]
  }

  /** Lines 260-263: the descriptor the data is written under, suffix the datatype and extension ".tsv". */
  function Retarget(bp: BidsPath): (target: BidsPath)
    ensures target.suffix == bp.dataType && target.extension == Some(DataExtension)
    ensures target.root == bp.root && target.subject == bp.subject && target.dataType == bp.dataType
    ensures target.session == bp.session && target.task == bp.task
    ensures target.acquisition == bp.acquisition && target.run == bp.run
  {
    bp.(suffix := bp.dataType, extension := Some(DataExtension))
  }

  /** The `_<key>-<value>` part of a file name, or nothing when the entity is unset. */
  function Entity(key: string, value: Option<string>): string {
    if value.Some? then "_" + key + "-" + value.value else ""
  }

  /**
   * Stand-in for BIDSPath.directory, whose code is not part of this model:
   * root/sub-<subject>[/ses-<session>][/<datatype>].
   */
  function DataDirectory(bp: BidsPath): (dir: Path)
    requires bp.root.Some?
    ensures |dir| > |bp.root.value|
    ensures dir[..|bp.root.value|] == bp.root.value && dir[|bp.root.value|] == SubjectLabel(bp.subject)
  {
    bp.root.value + [SubjectLabel(bp.subject)]
      + (if bp.session.Some? then ["ses-" + bp.session.value] else [])
      + (if bp.dataType.Some? then [bp.dataType.value] else [])
  }

  /**
   * Stand-in for BIDSPath.basename, whose code is not part of this model:
   * sub-<subject>[_ses-..][_task-..][_acq-..][_run-..][_<suffix>][<extension>].
   */
  function BaseName(bp: BidsPath): string {
    SubjectLabel(bp.subject)
      + Entity("ses", bp.session) + Entity("task", bp.task)
      + Entity("acq", bp.acquisition) + Entity("run", bp.run)
      + (if bp.suffix.Some? then "_" + bp.suffix.value else "")
      + (if bp.extension.Some? then bp.extension.value else "")
  }

  /** BIDSPath.fpath: the destination of the data file. */
  function DataFile(bp: BidsPath): (p: Path)
    requires bp.root.Some?
    ensures |p| > |bp.root.value| + 1 && p[..|bp.root.value|] == bp.root.value
    ensures p[|bp.root.value|] == SubjectLabel(bp.subject)
    ensures Parent(p) == DataDirectory(bp)
  {
    DataDirectory(bp) + [BaseName(bp)]
  }

  /** `op.join(root, name)`. */
  function RootFile(root: Path, name: string): (p: Path)
    ensures |p| == |root| + 1 && p[..|root|] == root && p[|root|] == name
  {
    root + [name]
  }

  /** The four files at the dataset root that the writer brings up to date. */
  function ScaffoldFiles(root: Path): set<Path> {
    {RootFile(root, ReadmeName), RootFile(root, RegistryName),
     RootFile(root, RegistrySidecarName), RootFile(root, DescriptionName)}
  }

  /** The content of p when it is a regular file. */
  function PriorContent(fs: FS, p: Path): (c: Option<Content>)
    ensures c.Some? <==> IsFile(fs, p)
    ensures c.Some? ==> fs[p] == File(c.value)
  {
    if IsFile(fs, p) then Some(fs[p].content) else None
  }

  /**
   * Assumed contract of `_readme`, `_participants_json` and
   * `make_dataset_description`, whose code is not part of this model: with
   * overwrite false a regular file already at p is left as it is; otherwise
   * p is written with the template's text, the template being given p's
   * prior content so that fields a user added can be kept.
   */
  function WriteScaffold(fs: FS, p: Path, template: Option<Content> -> Content, overwrite: bool): (r: Result<FS, OsError>)
    ensures !overwrite && IsFile(fs, p) ==> r == Ok(fs)
    ensures (overwrite || !IsFile(fs, p)) ==>
              (r.Ok? <==> p != [] && !IsDir(fs, p) && IsDir(fs, Parent(p)))
    ensures r.Ok? && (overwrite || !IsFile(fs, p)) ==> r.value == fs[p := File(template(PriorContent(fs, p)))]
    ensures r.Ok? ==> Unchanged(fs, r.value, {p})
    ensures r.Ok? && Tree(fs) ==> Tree(r.value)
  {
    if !overwrite && IsFile(fs, p) then Ok(fs)
    else WriteFile(fs, p, template(PriorContent(fs, p)))
  }

  /**
   * Lines 116-117: the registry participants.tsv holds, or None when
   * nothing is at that path (`os.path.exists` is false).
   */
  function ReadRegistry(fs: FS, lib: Library, p: Path): (r: Result<Option<Table>, Error>)
    requires lib.Valid()
    ensures !Exists(fs, p) ==> r == Ok(None)
    ensures Exists(fs, p) && !IsFile(fs, p) ==> r == Err(OsFailure(IsADirectory(p)))
    ensures IsFile(fs, p) ==>
              r == (if lib.readTsv(fs[p].content).Some? then Ok(lib.readTsv(fs[p].content))
                    else Err(RegistryUnreadable(p)))
    ensures r.Ok? && r.value.Some? ==> r.value.value.Valid()
  {
    if !Exists(fs, p) then Ok(None)
    else match ReadFile(fs, p)
      case Err(e) => Err(OsFailure(e))
      case Ok(c) =>
        match lib.readTsv(c)
        case None => Err(RegistryUnreadable(p))
        case Some(t) => Ok(Some(t))
  }

  /**
   * Lines 116-160: the registry once the subject's record is merged into
   * what participants.tsv holds, or the error reading or merging raises.
   */
  function MergedRegistry(fs: FS, lib: Library, p: Path, raw: Raw, subjectId: string, overwrite: bool): (r: Result<Table, Error>)
    requires lib.Valid()
    ensures r.Ok? ==> r.value.Valid()
  {
    match ReadRegistry(fs, lib, p)
    case Err(e) => Err(e)
    case Ok(existing) =>
      match Merge(existing, raw, subjectId, overwrite)
      case Err(e) => Err(RegistryError(e))
      case Ok(t) => Ok(t)
  }

  /**
   * Line 164: the merged registry is written back to participants.tsv with
   * overwrite forced to true; a failed read or merge writes nothing.
   */
  function WriteRegistry(fs: FS, lib: Library, p: Path, merged: Result<Table, Error>): (r: Result<FS, Error>)
    ensures merged.Err? ==> r == Err(merged.error)
    ensures r.Ok? <==> merged.Ok? && p != [] && !IsDir(fs, p) && IsDir(fs, Parent(p))
    ensures r.Ok? ==> r.value == fs[p := File(lib.writeTsv(merged.value))]
    ensures r.Ok? ==> Unchanged(fs, r.value, {p})
    ensures r.Ok? && Tree(fs) ==> Tree(r.value)
  {
    match merged
    case Err(e) => Err(e)
    case Ok(t) =>
      match WriteFile(fs, p, lib.writeTsv(t))
      case Err(e) => Err(OsFailure(e))
      case Ok(fs') => Ok(fs')
  }

  /** The names of the four scaffold files differ from one another. */
  lemma ScaffoldNamesDistinct(root: Path)
    ensures RootFile(root, ReadmeName) != RootFile(root, RegistryName)
    ensures RootFile(root, ReadmeName) != RootFile(root, RegistrySidecarName)
    ensures RootFile(root, ReadmeName) != RootFile(root, DescriptionName)
    ensures RootFile(root, RegistryName) != RootFile(root, RegistrySidecarName)
    ensures RootFile(root, RegistryName) != RootFile(root, DescriptionName)
    ensures RootFile(root, RegistrySidecarName) != RootFile(root, DescriptionName)
  {
    assert RootFile(root, ReadmeName)[|root|] == ReadmeName;
    assert RootFile(root, RegistryName)[|root|] == RegistryName;
    assert RootFile(root, RegistrySidecarName)[|root|] == RegistrySidecarName;
    assert RootFile(root, DescriptionName)[|root|] == DescriptionName;
  }

  /**
   * Lines 272-299: README (overwrite false), then the registry and its
   * sidecar participants.json (overwrite true), then
   * dataset_description.json (overwrite false). The sidecar path is
   * root/participants.json (see the findings about line 274).
   */
  function Scaffold(fs: FS, lib: Library, target: BidsPath, raw: Raw, overwrite: bool): (s: Stage)
    requires lib.Valid() && target.root.Some?
    ensures Unchanged(fs, s.fs, ScaffoldFiles(target.root.value))
    ensures IsFile(fs, RootFile(target.root.value, ReadmeName)) ==> Agree(fs, s.fs, RootFile(target.root.value, ReadmeName))
    ensures IsFile(fs, RootFile(target.root.value, DescriptionName)) ==>
              Agree(fs, s.fs, RootFile(target.root.value, DescriptionName))
    ensures Tree(fs) ==> Tree(s.fs)
  {
    var root := target.root.value;
    var readme := RootFile(root, ReadmeName);
    ScaffoldNamesDistinct(root);
    match WriteScaffold(fs, readme, lib.readme(target.dataType), false)
    case Err(e) => Stage(fs, Some(OsFailure(e)))
    case Ok(fs1) =>
      var merged := MergedRegistry(fs1, lib, RootFile(root, RegistryName), raw, target.subject, overwrite);
      var s := RegistryStage(fs1, lib, root, merged);
      ScaffoldFrame(fs, fs1, s.fs, root);
      s
  }

  /**
   * README written first, then the registry files: together they change
   * only the scaffold files, and README and dataset_description.json, when
   * already regular files, each survive the step that does not write them.
   */
  lemma ScaffoldFrame(fs: FS, fs1: FS, fs2: FS, root: Path)
    requires Unchanged(fs, fs1, {RootFile(root, ReadmeName)})
    requires IsFile(fs, RootFile(root, ReadmeName)) ==> Agree(fs, fs1, RootFile(root, ReadmeName))
    requires Unchanged(fs1, fs2, RegistryFiles(root))
    requires IsFile(fs1, RootFile(root, DescriptionName)) ==> Agree(fs1, fs2, RootFile(root, DescriptionName))
    ensures Unchanged(fs, fs2, ScaffoldFiles(root))
    ensures IsFile(fs, RootFile(root, ReadmeName)) ==> Agree(fs, fs2, RootFile(root, ReadmeName))
    ensures IsFile(fs, RootFile(root, DescriptionName)) ==> Agree(fs, fs2, RootFile(root, DescriptionName))
  {
    var readme := RootFile(root, ReadmeName);
    var desc := RootFile(root, DescriptionName);
    ScaffoldNamesDistinct(root);
    assert readme !in RegistryFiles(root) && desc !in {readme};
    assert Agree(fs1, fs2, readme) && Agree(fs, fs1, desc);
    UnchangedTrans(fs, fs1, fs2, {readme}, RegistryFiles(root));
    assert {readme} + RegistryFiles(root) == ScaffoldFiles(root);
  }

  /** The three files the registry stage may write. */
  function RegistryFiles(root: Path): set<Path> {
    {RootFile(root, RegistryName), RootFile(root, RegistrySidecarName), RootFile(root, DescriptionName)}
  }

  /**
   * Lines 288-299 once README is written: the registry merged is written
   * back, then the two JSON templates.
   */
  function RegistryStage(fs: FS, lib: Library, root: Path, merged: Result<Table, Error>): (s: Stage)
    ensures Unchanged(fs, s.fs, RegistryFiles(root))
    ensures IsFile(fs, RootFile(root, DescriptionName)) ==> Agree(fs, s.fs, RootFile(root, DescriptionName))
    ensures Tree(fs) ==> Tree(s.fs)
  {
    var registry := RootFile(root, RegistryName);
    ScaffoldNamesDistinct(root);
    match WriteRegistry(fs, lib, registry, merged)
    case Err(e) => Stage(fs, Some(e))
    case Ok(fs2) =>
      var desc := RootFile(root, DescriptionName);
      assert desc !in {registry};
      assert Agree(fs, fs2, desc);
      var s := TemplateStage(fs2, lib, root);
      UnchangedTrans(fs, fs2, s.fs, {registry}, TemplateFiles(root));
      assert {registry} + TemplateFiles(root) == RegistryFiles(root);
      s
  }

  /** The two JSON files the template stage may write. */
  function TemplateFiles(root: Path): set<Path> {
    {RootFile(root, RegistrySidecarName), RootFile(root, DescriptionName)}
  }

  /**
   * Lines 290 and 298: participants.json with overwrite true, then
   * dataset_description.json with overwrite false.
   */
  function TemplateStage(fs: FS, lib: Library, root: Path): (s: Stage)
    ensures Unchanged(fs, s.fs, TemplateFiles(root))
    ensures IsFile(fs, RootFile(root, DescriptionName)) ==> Agree(fs, s.fs, RootFile(root, DescriptionName))
    ensures s.failure.None? ==>
              IsFile(s.fs, RootFile(root, RegistrySidecarName)) && IsFile(s.fs, RootFile(root, DescriptionName))
    ensures Tree(fs) ==> Tree(s.fs)
  {
    var json := RootFile(root, RegistrySidecarName);
    var desc := RootFile(root, DescriptionName);
    ScaffoldNamesDistinct(root);
    match WriteScaffold(fs, json, lib.participantsJson, true)
    case Err(e) => Stage(fs, Some(OsFailure(e)))
    case Ok(fs3) =>
      match WriteScaffold(fs3, desc, lib.datasetDescription, false)
      case Err(e) => Stage(fs3, Some(OsFailure(e)))
      case Ok(fs4) =>
        UnchangedTrans(fs, fs3, fs4, {json}, {desc});
        assert {json} + {desc} == TemplateFiles(root);
        Stage(fs4, None)
  }

  /**
   * Lines 301-330: make the data directory's parent, clear or refuse an
   * existing destination, look up the allowed extensions, and copy.
   */
  function Place(fs: FS, lib: Library, rawFile: Path, target: BidsPath, overwrite: bool): (o: Outcome)
    requires target.root.Some?
    ensures o.result.Ok? ==> o.result.value == target
    ensures o.result.Ok? ==> target.dataType.Some? && target.dataType.value in AllowedExtensions(lib)
    ensures Exists(fs, DataFile(target)) && !overwrite ==> o.result.Err?
    ensures o.result.Ok? ==> IsFile(o.fs, DataFile(target))
  {
    var dir := DataDirectory(target);
    var made := MakeDirs(fs, Parent(dir));
    if made.failure.Some? then Outcome(made.fs, Err(OsFailure(made.failure.value)))
    else
      var dest := DataFile(target);
      if Exists(made.fs, dest) && !overwrite then Outcome(made.fs, Err(AlreadyExists(dest)))
      else
        var cleared := if Exists(made.fs, dest) then Remove(made.fs, dest) else made.fs;
        if target.dataType.None? || target.dataType.value !in AllowedExtensions(lib) then
          Outcome(cleared, Err(UnknownDatatype))
        else
          match CopyFile(cleared, rawFile, dest)
          case Err(e) => Outcome(cleared, Err(OsFailure(e)))
          case Ok(fs') => Outcome(fs', Ok(target))
  }

  /**
   * `write_raw_bids_beh(raw_fname, bids_path, overwrite)`, with the
   * subject's demographic record raw passed where the source passes the
   * file name (see the findings about line 288).
   */
  function WriteRawBidsBeh(fs: FS, lib: Library, rawFile: Path, raw: Raw, bp: BidsPath, overwrite: bool): (o: Outcome)
    requires lib.Valid()
    ensures bp.root.None? ==> o == Outcome(fs, Err(ConfigError))
    ensures o.result.Ok? ==> o.result.value == Retarget(bp)
    ensures o.result.Ok? ==> o.result.value.extension == Some(DataExtension) && o.result.value.suffix == bp.dataType
    ensures o.result.Ok? ==> bp.dataType.Some? && bp.dataType.value in AllowedExtensions(lib)
    ensures o.result.Ok? ==> IsFile(o.fs, DataFile(Retarget(bp)))
  {
    if bp.root.None? then Outcome(fs, Err(ConfigError))
    else
      var target := Retarget(bp);
      var made := MakeDirs(fs, DataDirectory(target));
      if made.failure.Some? then Outcome(made.fs, Err(OsFailure(made.failure.value)))
      else
        var s := Scaffold(made.fs, lib, target, raw, overwrite);
        if s.failure.Some? then Outcome(s.fs, Err(s.failure.value))
        else Place(s.fs, lib, rawFile, target, overwrite)
  }
}
