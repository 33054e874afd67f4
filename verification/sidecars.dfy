/**
 * `EEG_json_details`: the EEG sidecar JSON of a recording is loaded, given
 * the acquisition details of this study, and written back.
 */
module Sidecars {
  import opened Wrappers
  import opened OrderedMaps
  import opened FileSystem

  /** A JSON value; numbers are the integers the details use. */
  datatype Json =
    | JNull
    | JBool(b: bool)
    | JNumber(n: int)
    | JString(s: string)
    | JArray(items: seq<Json>)
    | JObject(members: OMap<string, Json>)

  /** The names of the fields lines 29-38 set, in the order they are set. */
  const EegDetailKeys: seq<string> := DeviceKeys + RecordingKeys

  const DeviceKeys: seq<string> := ["TaskName", "Manufacturer", "PowerLineFrequency", "InstitutionName", "EEGPlacementScheme"]

  const RecordingKeys: seq<string> := ["SoftwareFilters", "EEGReference", "EEGChannelCount", "EOGChannelCount", "MiscChannelCount"]

  /** The values lines 29-38 set, in the same order. */
  const EegDetailValues: seq<Json> :=
    [JString("FeatObj"),
     JString("Synamps amplifier, Compumedics NeuroScan, EasyCap electrodes"),
     JNumber(50),
     JString("OHBA, University of Oxford"),
     JString("10-20"),
     JObject(OMap(["Anti-aliasing filter"],
                  map["Anti-aliasing filter" := JObject(OMap(["half-amplitude cutoff (Hz)"],
                                                             map["half-amplitude cutoff (Hz)" := JNumber(400)]))])),
     JString("RM"),
     JNumber(61),
     JNumber(2),
     JNumber(1)]

  /** The details EEG_json_details sets. */
  function EegDetails(): (details: seq<(string, Json)>)
    ensures KeysOf(details) == EegDetailKeys && Distinct(EegDetailKeys)
    ensures forall i | 0 <= i < |details| :: details[i] == (EegDetailKeys[i], EegDetailValues[i])
  {
    EegDetailKeysDistinct();
    Zip(EegDetailKeys, EegDetailValues)
  }

  /** The ten field names differ from one another. */
  lemma EegDetailKeysDistinct()
    ensures Distinct(EegDetailKeys)
  {
    DeviceKeysDistinct();
    RecordingKeysDistinct();
    KeyGroupsDisjoint();
    DistinctConcat(DeviceKeys, RecordingKeys);
  }

  lemma DeviceKeysDistinct()
    ensures Distinct(DeviceKeys)
  {
  }

  lemma RecordingKeysDistinct()
    ensures Distinct(RecordingKeys)
  {
  }

  lemma KeyGroupsDisjoint()
    ensures forall x | x in DeviceKeys :: x !in RecordingKeys
  {
  }

  /** The exceptions the function raises. */
  datatype DetailsError =
    | NotAnObject                  // TypeError: the document is not a JSON object
    | Unparsable(path: Path)       // JSONDecodeError
    | FileFailure(osError: OsError)

  /**
   * Lines 29-38 on the loaded document, for any list of details given each
   * once: each detail is set, replacing a value the file already had;
   * assigning into anything but an object raises TypeError.
   */
  function AddDetails(doc: Json, details: seq<(string, Json)>): (r: Result<Json, DetailsError>)
    requires doc.JObject? ==> doc.members.Valid()
    requires Distinct(KeysOf(details))
    ensures r.Ok? <==> doc.JObject?
    ensures r.Err? ==> r.error == NotAnObject
    ensures r.Ok? ==> r.value.JObject? && r.value.members.Valid()
  {
    if !doc.JObject? then Err(NotAnObject)
    else Ok(JObject(doc.members.PutAll(details)))
  }

  /** A detailed object holds every detail with its value. */
  lemma AddDetailsSets(doc: Json, details: seq<(string, Json)>, i: nat)
    requires doc.JObject? && doc.members.Valid() && Distinct(KeysOf(details)) && i < |details|
    ensures AddDetails(doc, details).Ok?
    ensures var m := AddDetails(doc, details).value.members;
            details[i].0 in m.entries && m.entries[details[i].0] == details[i].1
  {
    PutAllSets(doc.members, details, i);
  }

  /** A detailed object keeps every other field of the file with its value. */
  lemma AddDetailsKeeps(doc: Json, details: seq<(string, Json)>, k: string)
    requires doc.JObject? && doc.members.Valid() && Distinct(KeysOf(details)) && k !in KeysOf(details)
    ensures AddDetails(doc, details).Ok?
    ensures var m := AddDetails(doc, details).value.members;
            (k in m.entries <==> k in doc.members.entries) &&
            (k in doc.members.entries ==> m.entries[k] == doc.members.entries[k])
  {
    PutAllKeeps(doc.members, details, k);
  }

  /**
   * A detailed object lists the file's fields first, in their order, then
   * the details the file lacked, in the order they are set.
   */
  lemma AddDetailsOrder(doc: Json, details: seq<(string, Json)>)
    requires doc.JObject? && doc.members.Valid() && Distinct(KeysOf(details))
    ensures AddDetails(doc, details).Ok?
    ensures AddDetails(doc, details).value.members.keys == doc.members.keys + Absent(KeysOf(details), doc.members.entries)
  {
    PutAllOrder(doc.members, details);
  }

  /** Adding the details to a document that has them changes nothing. */
  lemma AddDetailsIdempotent(doc: Json, details: seq<(string, Json)>)
    requires doc.JObject? && doc.members.Valid() && Distinct(KeysOf(details))
    ensures AddDetails(AddDetails(doc, details).value, details) == AddDetails(doc, details)
  {
    PutAllIdempotent(doc.members, details);
  }

  /** `json.load` and `json.dump` with the script's options, whose code is not part of this model. */
  datatype Codec = Codec(parse: Content -> Option<Json>, render: Json -> Content) {
    /** Assumed contract of `json.load`: an object it returns has each key once. */
    ghost predicate Valid() {
      forall c :: parse(c).Some? && parse(c).value.JObject? ==> parse(c).value.members.Valid()
    }
  }

  /**
   * Lines 22-42 for any list of details: read and parse the file, add the
   * details, and write the rendered document back over it.
   */
  function UpdateSidecar(fs: FS, codec: Codec, p: Path, details: seq<(string, Json)>): (r: Result<FS, DetailsError>)
    requires codec.Valid() && Distinct(KeysOf(details))
    ensures !IsFile(fs, p) ==> r.Err? && r.error.FileFailure?
    ensures IsFile(fs, p) && codec.parse(fs[p].content).None? ==> r == Err(Unparsable(p))
    ensures IsFile(fs, p) && codec.parse(fs[p].content).Some? && !codec.parse(fs[p].content).value.JObject? ==>
              r == Err(NotAnObject)
    ensures r.Ok? ==>
              && IsFile(fs, p)
              && codec.parse(fs[p].content).Some? && codec.parse(fs[p].content).value.JObject?
              && r.value == fs[p := File(codec.render(AddDetails(codec.parse(fs[p].content).value, details).value))]
    ensures Tree(fs) && IsFile(fs, p) && codec.parse(fs[p].content).Some? && codec.parse(fs[p].content).value.JObject? ==>
              r.Ok?
  {
    match ReadFile(fs, p)
    case Err(e) => Err(FileFailure(e))
    case Ok(c) =>
      match codec.parse(c)
      case None => Err(Unparsable(p))
      case Some(doc) =>
        match AddDetails(doc, details)
        case Err(e) => Err(e)
        case Ok(detailed) =>
          match WriteFile(fs, p, codec.render(detailed))
          case Err(e) => Err(FileFailure(e))
          case Ok(fs') => Ok(fs')
  }

  /**
   * When the codec reads back what it writes, updating the sidecar a
   * second time leaves the file as the first update left it.
   */
  lemma UpdateSidecarIdempotent(fs: FS, codec: Codec, p: Path, details: seq<(string, Json)>)
    requires codec.Valid() && Distinct(KeysOf(details))
    requires UpdateSidecar(fs, codec, p, details).Ok?
    requires var detailed := AddDetails(codec.parse(fs[p].content).value, details).value;
             codec.parse(codec.render(detailed)) == Some(detailed)
    ensures var fs1 := UpdateSidecar(fs, codec, p, details).value;
            UpdateSidecar(fs1, codec, p, details) == Ok(fs1)
  {
    var doc := codec.parse(fs[p].content).value;
    var detailed := AddDetails(doc, details).value;
    var c := codec.render(detailed);
    var fs1 := fs[p := File(c)];
    AddDetailsIdempotent(doc, details);
    assert ReadFile(fs1, p) == Ok(c);
    assert Parent(p) != p;
    assert fs1[p := File(c)] == fs1;
  }

  /** `EEG_json_details(filename)`: the sidecar update with this study's details. */
  function EegJsonDetails(fs: FS, codec: Codec, p: Path): (r: Result<FS, DetailsError>)
    requires codec.Valid()
  {
    UpdateSidecar(fs, codec, p, EegDetails())
  }

  /**
   * A successful call rewrote the file with the parsed document, every
   * detail set to this study's value.
   */
  lemma EegJsonDetailsWrites(fs: FS, codec: Codec, p: Path, i: nat)
    requires codec.Valid() && EegJsonDetails(fs, codec, p).Ok? && i < |EegDetailKeys|
    ensures IsFile(fs, p) && codec.parse(fs[p].content).Some? && codec.parse(fs[p].content).value.JObject?
    ensures var detailed := AddDetails(codec.parse(fs[p].content).value, EegDetails()).value;
            && EegJsonDetails(fs, codec, p).value == fs[p := File(codec.render(detailed))]
            && EegDetailKeys[i] in detailed.members.entries
            && detailed.members.entries[EegDetailKeys[i]] == EegDetailValues[i]
  {
    AddDetailsSets(codec.parse(fs[p].content).value, EegDetails(), i);
  }

  /** When the codec reads back what it writes, a second call leaves the file as the first left it. */
  lemma EegJsonDetailsIdempotent(fs: FS, codec: Codec, p: Path)
    requires codec.Valid() && EegJsonDetails(fs, codec, p).Ok?
    requires var detailed := AddDetails(codec.parse(fs[p].content).value, EegDetails()).value;
             codec.parse(codec.render(detailed)) == Some(detailed)
    ensures var fs1 := EegJsonDetails(fs, codec, p).value;
            EegJsonDetails(fs1, codec, p) == Ok(fs1)
  {
    UpdateSidecarIdempotent(fs, codec, p, EegDetails());
  }
}
