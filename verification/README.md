# BIDS behavioural writer, modelled in Dafny

`BIDS_scripts/write_manual_bids.py` puts a behavioural data file (.tsv, .csv
or .txt) into a BIDS dataset. `write_raw_bids_beh` works out the
destination from a BIDSPath descriptor and creates the data directory. It
then brings the dataset's scaffold files up to date: README, the
participant registry `participants.tsv`, its sidecar `participants.json`,
and `dataset_description.json`. Last it clears or refuses an existing
destination and copies the file. `_participants_tsv` merges one subject's
demographic record (age, sex, hand) into the registry. It appends a new
subject, rewrites a listed one, and refuses a differing record unless
overwrite is set. `EEG_json_details` loads an EEG sidecar JSON, sets this
study's acquisition details and writes it back.

The model is pure functions over an abstract file system.

- `FileSystem`: a map from path components to nodes. The calls the script
  makes (`open`, `shutil.rmtree`, `unlink`, `shutil.copyfile`, and the
  directory creation of `BIDSPath.mkdir()` and `_mkdir_p`, taken as
  `os.makedirs(exist_ok=True)`) are modelled with the OSError each raises.
- `OrderedMaps`: Python's insertion-ordered dict.
- `Strings`: `in` and `str.replace` on str.
- `Participants`: the registry merge, on a column-oriented table.
- `Materializer`: the writer as a chain of stages. A failing stage keeps
  the effects of the stages before it, as the script does.
- `Sidecars`: the EEG sidecar update.
- `Findings`: two places where the script does not do what it evidently
  means. Each is modelled as written, beside the corrected behaviour.

The mne_bids helpers the script calls are parameters, each with the
contract the model assumes:

- `_from_tsv` and `_write_tsv`;
- `_readme`, `_participants_json` and `make_dataset_description`;
- `_contains_row` and `_combine_rows`;
- `ALLOWED_DATATYPE_EXTENSIONS`;
- `json.load` and `json.dump`.

BIDSPath's directory and basename are a small stand-in that follows the
documented BIDS layout.

## Model

| member | source | states |
|---|---|---|
| Participants.NewRow | BIDS_scripts/write_manual_bids.py:96-114 | The new data lists participant_id as "sub-" + id, then age, sex and hand. Each comes from the record when present and is "n/a" otherwise. |
| Participants.AddMissingColumns | BIDS_scripts/write_manual_bids.py:133-142 | Registry columns are kept as they were. Each column the new data adds is appended after them, in order, holding a single "n/a". Nothing else is added. |
| Participants.CarryUserColumns | BIDS_scripts/write_manual_bids.py:144-157 | An unlisted subject's data is returned unchanged. For a listed subject, every registry column the data lacks takes the value at the subject's first row. A column too short to have that row raises IndexError. |
| Participants.CombineRows | BIDS_scripts/write_manual_bids.py:159-160 | A listed subject's first row is replaced in place. IndexError is raised when a column is too short. An unlisted subject is appended as a new last row. The columns keep their order. |
| Participants.AppendRow | BIDS_scripts/write_manual_bids.py:159-160 | Every column gains one last value: the row's own, or "n/a" where the row has none. Earlier values and the column order are kept. |
| Participants.ReplaceRow | BIDS_scripts/write_manual_bids.py:159-160 | Row idx takes the row's fields. Every other position, and every column the row lacks, is unchanged. |
| Participants.Merge | BIDS_scripts/write_manual_bids.py:96-160 | With no registry the result is the one-row table of the new data. A registry without participant_id raises KeyError. The conflict error is raised exactly when the subject is listed, no row matches the new data, and overwrite is false. |
| Participants.ContainsRowMeansSomeMatch | BIDS_scripts/write_manual_bids.py:118-123 | The exact-inclusion test holds exactly when some row index carries every field of the new data. |
| ParticipantsProperties.ReconcileListed | BIDS_scripts/write_manual_bids.py:144-160 | A listed subject replaces its first row of a rectangular registry that already has the new columns. |
| ParticipantsProperties.MergeAppendsNewSubject | BIDS_scripts/write_manual_bids.py:133-160 | A new subject becomes one new last row of a rectangular registry. Earlier rows are kept. The row holds the subject's values, with "n/a" in user-added columns. Columns keep their order and the registry stays rectangular. |
| ParticipantsProperties.MergeReplacesSubjectRow | BIDS_scripts/write_manual_bids.py:116-160 | A listed subject, with overwrite or an identical record, gets its first row rewritten with the new values. User-added columns and all other rows are untouched. |
| ParticipantsProperties.MergeRecordsSubject | BIDS_scripts/write_manual_bids.py:96-160 | After any successful merge, the subject's first row carries exactly the new values. |
| ParticipantsProperties.RemergeOfRecordedSubject | BIDS_scripts/write_manual_bids.py:118-160 | Merging a subject whose row already holds the new values returns the registry unchanged, with or without overwrite. |
| ParticipantsProperties.MergeIsIdempotent | BIDS_scripts/write_manual_bids.py:96-164 | Merging the same record a second time returns the registry the first merge wrote. |
| ParticipantsProperties.RaggedRegistryBreaksRemerge | BIDS_scripts/write_manual_bids.py:141-160 | A new subject merged into a rectangular registry of two or more rows that lacks "hand" succeeds. Merging the same record again with overwrite then raises IndexError, because the filled "hand" column is too short for the subject's row. |
| ParticipantsProperties.MergeRejectsDifferingAge | BIDS_scripts/write_manual_bids.py:124-131 | A listed subject whose rows all differ in age is refused without overwrite. |
| ParticipantsProperties.ShortFillLeavesRaggedRegistry | BIDS_scripts/write_manual_bids.py:141-142 | The missing-column fill is one "n/a" whatever the registry's height. A new subject added to a registry of two or more rows that lacks "hand" therefore returns a registry that is not rectangular. |
| FileSystem.MakeDirs | BIDS_scripts/write_manual_bids.py:301-302 | The result keeps every existing node and adds only directories on the way to p. It ends with p a directory unless it fails. Nothing off p's path changes. |
| FileSystem.MakeDirsInTree | BIDS_scripts/write_manual_bids.py:301-302 | In a tree, creating the directories succeeds exactly when no regular file lies on the way, and the result is again a tree. |
| FileSystem.ReadFile | BIDS_scripts/write_manual_bids.py:116-117 | Reading succeeds exactly on a regular file and returns its content. Otherwise it raises FileNotFoundError or IsADirectoryError. |
| FileSystem.WriteFile | BIDS_scripts/write_manual_bids.py:162-164 | Writing succeeds exactly when p is not a directory and its parent is one. The result differs from the input only at p, and a tree stays a tree. |
| FileSystem.Remove | BIDS_scripts/write_manual_bids.py:304-310 | p and everything below it disappear. Nothing else changes, and a tree stays a tree. |
| FileSystem.CopyFile | BIDS_scripts/write_manual_bids.py:329-330 | Copying succeeds exactly when the source is a regular file and the destination is writable and different from it. The destination then holds the source's node. |
| Materializer.AllowedExtensions | BIDS_scripts/write_manual_bids.py:20 | "beh" allows .tsv, .csv and .txt. Every other datatype keeps its entry. |
| Materializer.Convert | BIDS_scripts/write_manual_bids.py:316-319 | Conversion is needed exactly when ".tsv" is not allowed for the datatype, and never for "beh". |
| Materializer.Retarget | BIDS_scripts/write_manual_bids.py:259-263 | The descriptor takes the datatype as suffix and ".tsv" as extension. Every other entity is unchanged. |
| Materializer.WriteScaffold | BIDS_scripts/write_manual_bids.py:282-299 | With overwrite false, an existing regular file is untouched. Otherwise the file is written with the template's text and nothing else changes. |
| Materializer.ReadRegistry | BIDS_scripts/write_manual_bids.py:116-117 | A missing registry reads as none, a directory raises, and unparsable content is an error. Otherwise the parsed table is returned. |
| MaterializerProperties.MergedRegistryOutcome | BIDS_scripts/write_manual_bids.py:116-160 | With nothing at participants.tsv the registry is the subject's one row. A directory there raises IsADirectoryError, and unparsable content is an error. A table without participant_id raises KeyError. The conflict error comes exactly when the subject is listed, no row matches the new data, and overwrite is false. |
| MaterializerProperties.MergedRegistryRecords | BIDS_scripts/write_manual_bids.py:116-160 | A successful merge into a missing registry, or into a rectangular one with the base columns, records the subject's new values in the subject's first row. |
| Materializer.WriteRegistry | BIDS_scripts/write_manual_bids.py:162-164 | A failed read or merge writes nothing. Otherwise participants.tsv holds the rendered table, with overwrite forced. |
| Materializer.Scaffold | BIDS_scripts/write_manual_bids.py:272-299 | The scaffold stage changes nothing but the four scaffold files. It leaves an existing README and dataset_description untouched and keeps a tree a tree. |
| Materializer.RegistryStage | BIDS_scripts/write_manual_bids.py:287-299 | The registry stage changes only the registry and the two JSON files, and leaves an existing dataset_description untouched. |
| Materializer.TemplateStage | BIDS_scripts/write_manual_bids.py:290-299 | Only participants.json and dataset_description.json can change, and an existing dataset_description.json does not. After a completed stage both are regular files. |
| MaterializerProperties.TemplateStageWrites | BIDS_scripts/write_manual_bids.py:290-299 | The stage completes exactly when the root is a directory and neither JSON file is one. participants.json then holds its template's text whatever was there (overwrite true). dataset_description.json is written from its template only when it was not a regular file. |
| MaterializerProperties.RegistryStageWritesTemplates | BIDS_scripts/write_manual_bids.py:288-299 | After a completed registry stage, participants.json holds its template's text. dataset_description.json holds its template's text when it was not a regular file before. |
| MaterializerProperties.ScaffoldWritesTemplates | BIDS_scripts/write_manual_bids.py:282-299 | After a completed scaffold stage, README and dataset_description.json are regular files. Each is written from its template when it was not a regular file before. participants.json holds its template's text whatever was there. |
| Materializer.Place | BIDS_scripts/write_manual_bids.py:301-330 | An existing destination without overwrite is refused. A success returns the descriptor, whose datatype has allowed extensions, with the destination a regular file. |
| Materializer.WriteRawBidsBeh | BIDS_scripts/write_manual_bids.py:249-334 | A missing root raises ValueError and changes nothing. A success returns the retargeted descriptor (suffix = datatype, extension ".tsv"), and the destination is a regular file. |
| MaterializerProperties.ScaffoldFilesOffDataPath | BIDS_scripts/write_manual_bids.py:265-302 | No scaffold file lies on the data file's path, and none lies below it. |
| MaterializerProperties.DataFileNotScaffold | BIDS_scripts/write_manual_bids.py:272-304 | The destination is none of the scaffold files. |
| MaterializerProperties.MergedRegistryLocal | BIDS_scripts/write_manual_bids.py:116-160 | The merged registry depends only on what lies at participants.tsv. |
| MaterializerProperties.RegistryStageWritesRegistry | BIDS_scripts/write_manual_bids.py:287-299 | When the registry stage completes, participants.tsv holds the merged table. |
| MaterializerProperties.ScaffoldWritesRegistry | BIDS_scripts/write_manual_bids.py:285-299 | When the scaffold stage completes, participants.tsv holds the registry merged from its prior content. |
| MaterializerProperties.RegistryStageSucceeds | BIDS_scripts/write_manual_bids.py:287-299 | The registry stage completes when the merge succeeded, the root is a directory, and none of the three files it writes is a directory. |
| MaterializerProperties.ScaffoldSucceeds | BIDS_scripts/write_manual_bids.py:272-299 | The scaffold stage completes when the root is a directory, no scaffold file is a directory, and the subject merges into the registry. |
| MaterializerProperties.ScaffoldStopsOnRegistryError | BIDS_scripts/write_manual_bids.py:285-289 | An unreadable registry or a merge error stops the scaffold stage with that error, or with an earlier OS error. participants.tsv is untouched. |
| MaterializerProperties.PlaceFrame | BIDS_scripts/write_manual_bids.py:301-330 | Placing changes nothing off the data directory's path and outside the destination's subtree. |
| MaterializerProperties.PlaceKeepsTree | BIDS_scripts/write_manual_bids.py:301-330 | Placing keeps the file system a tree. |
| MaterializerProperties.PlaceCopies | BIDS_scripts/write_manual_bids.py:329-330 | A successful placement copied a regular file that existed before. |
| MaterializerProperties.PlaceRefuses | BIDS_scripts/write_manual_bids.py:301-314 | An existing destination without overwrite is refused and left as it is. In a tree the refusal is the FileExistsError on the destination. |
| MaterializerProperties.PlaceSucceeds | BIDS_scripts/write_manual_bids.py:301-330 | With the data directory in place, the placement succeeds when the destination is free or overwrite is set, the datatype has allowed extensions, and the raw file is a regular file outside the destination's subtree. It returns the descriptor, and the destination holds the raw file's content. |
| MaterializerProperties.PlaceLeavesNothingBelow | BIDS_scripts/write_manual_bids.py:304-310 | In a tree, nothing lies below the destination after a successful placement. |
| MaterializerProperties.WriteSucceeds | BIDS_scripts/write_manual_bids.py:249-334 | The call succeeds in a tree when no regular file blocks the data directory, no scaffold file is a directory, the subject merges into the registry, the destination is free or overwrite is set, and the datatype is known. The raw file must be a regular file that the call does not rewrite or remove first. The call then returns the retargeted descriptor, the destination holds the raw file's content, and participants.tsv holds the merged registry. |
| MaterializerProperties.WriteKeepsTree | BIDS_scripts/write_manual_bids.py:249-334 | Whatever the outcome, the call keeps the file system a tree. |
| MaterializerProperties.WriteFrame | BIDS_scripts/write_manual_bids.py:249-334 | Whatever the outcome, the call changes nothing but the scaffold files, the data directory's path, and the destination's subtree. |
| MaterializerProperties.ExistingTemplatesKept | BIDS_scripts/write_manual_bids.py:282-299 | An existing README or dataset_description.json is never changed. |
| MaterializerProperties.SuccessWritesRegistry | BIDS_scripts/write_manual_bids.py:285-289 | After a success, participants.tsv holds the registry merged from its prior content and the subject's record. |
| MaterializerProperties.RegistryErrorWritesNothing | BIDS_scripts/write_manual_bids.py:285-289 | A registry or merge error fails the call, and neither participants.tsv nor the destination changes. |
| MaterializerProperties.ExistingDestinationRefused | BIDS_scripts/write_manual_bids.py:304-314 | Without overwrite, an existing destination fails the call and is left as it is. |
| MaterializerProperties.SecondWriteWithoutOverwriteFails | BIDS_scripts/write_manual_bids.py:304-314 | Repeating a successful call without overwrite fails and keeps the first call's data file. |
| MaterializerProperties.SuccessCopiesSource | BIDS_scripts/write_manual_bids.py:329-330 | After a success, the destination holds the raw file's content as it was before the call. |
| MaterializerProperties.NothingBelowDestination | BIDS_scripts/write_manual_bids.py:304-310 | In a tree, nothing lies below the destination after a success. |
| OrderedMaps.PutAllSets | BIDS_scripts/write_manual_bids.py:29-38 | After a series of dict assignments, each key holds its assigned value. |
| OrderedMaps.PutAllKeeps | BIDS_scripts/write_manual_bids.py:29-38 | A key that is not assigned keeps its presence and its value. |
| OrderedMaps.PutAllOrder | BIDS_scripts/write_manual_bids.py:29-38 | Existing keys keep their order, and new keys follow in assignment order. |
| OrderedMaps.PutAllIdempotent | BIDS_scripts/write_manual_bids.py:29-38 | Making the same assignments twice equals making them once. |
| Sidecars.EegDetails | BIDS_scripts/write_manual_bids.py:29-38 | The ten details are listed in assignment order, each with the study's value and each name once. |
| Sidecars.AddDetails | BIDS_scripts/write_manual_bids.py:28-38 | Setting the details succeeds exactly on a JSON object. Anything else raises TypeError. |
| Sidecars.AddDetailsSets | BIDS_scripts/write_manual_bids.py:29-38 | The detailed object holds every detail with its value. |
| Sidecars.AddDetailsKeeps | BIDS_scripts/write_manual_bids.py:29-38 | Every other field of the loaded object is kept with its value. |
| Sidecars.AddDetailsOrder | BIDS_scripts/write_manual_bids.py:29-38 | The loaded object's fields come first in their order, then the new details in assignment order. |
| Sidecars.AddDetailsIdempotent | BIDS_scripts/write_manual_bids.py:29-38 | Adding the details to an object that already has them changes nothing. |
| Sidecars.UpdateSidecar | BIDS_scripts/write_manual_bids.py:22-42 | A missing file, unparsable content and a non-object each raise their error. Otherwise the file is rewritten with the rendered detailed object, and in a tree the update succeeds. |
| Sidecars.UpdateSidecarIdempotent | BIDS_scripts/write_manual_bids.py:22-42 | With a codec that reads back what it writes, a second update leaves the file as the first left it. |
| Sidecars.EegJsonDetailsWrites | BIDS_scripts/write_manual_bids.py:22-42 | A success parsed an object and rewrote the file with the detailed object, every detail set to the study's value. |
| Sidecars.EegJsonDetailsIdempotent | BIDS_scripts/write_manual_bids.py:22-42 | A second call leaves the sidecar as the first left it. |
| Strings.ReplaceAllWithoutOccurrence | BIDS_scripts/write_manual_bids.py:274-275 | `str.replace` leaves a string without the pattern unchanged. |
| Strings.ReplaceAllLength | BIDS_scripts/write_manual_bids.py:274-275 | Replacing by something longer lengthens the string exactly when the pattern occurs. |
| Strings.ReplaceAllSplit | BIDS_scripts/write_manual_bids.py:274-275 | The replacement splits after a character the pattern does not contain. |
| Findings.DemographicsFromPathAsWritten | BIDS_scripts/write_manual_bids.py:99-110 | With a file name as the record, the lookup succeeds exactly when none of "age", "sex" or "hand" occurs in the name. It then yields an empty record; otherwise it raises TypeError naming the key that occurs. |
| Findings.ImagesDirectoryRaises | BIDS_scripts/write_manual_bids.py:99-100 | The file name "/data/images/sub01_beh.csv" raises TypeError on "age". |
| Findings.SidecarPathAsWrittenIff | BIDS_scripts/write_manual_bids.py:272-275 | The sidecar path as written is the file beside the registry exactly when ".tsv" does not occur in the root's path. |
| Findings.TsvRootMisplacesSidecar | BIDS_scripts/write_manual_bids.py:272-275 | For the root /data/study.tsv, the sidecar path as written is not beside the registry. |
| Findings.SidecarPath | BIDS_scripts/write_manual_bids.py:272-275 | Replacing ".tsv" in the registry's last component only gives a path in the root directory. |
| Findings.SidecarBesideRegistry | BIDS_scripts/write_manual_bids.py:272-275 | The corrected sidecar path is participants.json in the registry's directory, the path the model writes, whatever the root's name. |

## Left out

- File contents, TSV parsing and rendering, JSON parsing and rendering, and the three template writers are parameters. Their code is not part of this model.
- BIDSPath's directory and basename rules are a stand-in (root/sub-X[/ses-Y][/datatype] and the entity-joined name), not mne_bids' code.
- The `isinstance(bids_path, BIDSPath)` check (lines 244-246) is left out: the descriptor is typed.
- Line 19's edit of REFERENCES and the README template's citation text belong to `_readme`, which is a parameter. Only the datatype passed to it is modelled.
- `session_path` and `sidecar_path` (lines 268-269, 277-278) are computed and never used, so they are left out.
- The `convert` flag (lines 256, 318-324) only chooses a log message. Convert states the decision. The log message, `print`, verbose output and `logger.info` are left out.
- `beh_json_details` (lines 45-68) is outside the modelled core.
- The descriptor's subject is always a string. In mne_bids it may be None, and then line 96 raises TypeError after the data directory and README exist. That case is not modelled.
- Materializer.MergedRegistry: states only that a successful merge is a well-formed table. Its outcomes are stated by MergedRegistryOutcome.
- A `pathlib.Path` given as raw_fname, links, permissions, timestamps and concurrent writers are not modelled.
- JSON numbers are integers. The details only use integers, and floats are not modelled.
- The registry's file is read only when something exists at its path (`os.path.exists`). A directory there is an OS error.
- Sidecars.EegJsonDetails: has no contract of its own. What it does is stated by EegJsonDetailsWrites and EegJsonDetailsIdempotent.
- MaterializerProperties.RegistryErrorWritesNothing: states only that the error is the merge's error or an OS error. It does not say which, because an OS error can come from creating the directories or writing README first.
- MaterializerProperties.SuccessCopiesSource: requires that the raw file is not one of the scaffold files. The call rewrites those before copying.
- ParticipantsProperties.MergeAppendsNewSubject, MergeReplacesSubjectRow, MergeRecordsSubject, MergeIsIdempotent: require a rectangular registry that has participant_id, age, sex and hand. Without the columns, the single-value fill of line 142 makes the registry ragged (see ShortFillLeavesRaggedRegistry). On such a registry a second merge with overwrite raises IndexError (see RaggedRegistryBreaksRemerge), so idempotence does not hold there.
- Participants.Reconcile: states only the error kind and validity. Its outcomes are stated by ReconcileUnlisted and ReconcileListed.

## Findings

| source | as written | input that shows it | evidently intended | confidence | as-written member | corrected member |
|---|---|---|---|---|---|---|
| BIDS_scripts/write_manual_bids.py:288 | The file name is passed where `_participants_tsv` expects the recording's record. `"age" in raw` is then a substring test, and `raw['age']` raises TypeError. | raw_fname "/data/images/sub01_beh.csv" contains "age" | The subject's demographic record is passed and its values are stored | not executed | Findings.ImagesDirectoryRaises | ParticipantsProperties.MergeRecordsSubject |
| BIDS_scripts/write_manual_bids.py:274-275 | `.replace('.tsv', '.json')` rewrites every ".tsv" in the whole path, root included | root "/data/study.tsv" gives "/data/study.json/participants.json" | participants.json beside participants.tsv | not executed | Findings.TsvRootMisplacesSidecar | Findings.SidecarBesideRegistry |

The rest of the model uses the corrected behaviour. Materializer.WriteRawBidsBeh takes the subject's record as its own argument. Materializer.TemplateStage writes participants.json at the root.
