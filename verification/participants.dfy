/**
 * The participant registry, participants.tsv, and the merge that
 * `_participants_tsv` performs on it once reading and writing the file are
 * taken away.
 *
 * The registry is column-oriented, as the TSV reader returns it: an ordered
 * map from column name to the column's values, row i being the i-th value of
 * every column. The new data for one subject is an ordered map from column
 * name to a single value (in the source, a one-element list).
 */
module Participants {
  import opened Wrappers
  import opened OrderedMaps
  import opened Strings

  type Table = OMap<string, seq<string>>

  type Row = OMap<string, string>

  /** The demographic record of a recording: a key that is present carries its value. */
  type Raw = map<string, string>

  const IdColumn := "participant_id"
  const NA := "n/a"
  const Demographics: seq<string> := ["age", "sex", "hand"]
  const BaseColumns: seq<string> := [IdColumn] + Demographics

  /** The exceptions the merge raises. */
  datatype MergeError =
    | MissingColumn(column: string)  // KeyError: the registry has no participant_id column
    | Conflict(participant: string)  // FileExistsError: the subject is listed with other values
    | IndexOutOfRange                // IndexError: a column is too short to hold the subject's row

  /** The BIDS label of a subject: "02" becomes "sub-02". */
  function SubjectLabel(subjectId: string): string {
    "sub-" + subjectId
  }

  /** A demographic field of the record, or the "n/a" sentinel when it is absent. */
  function Field(raw: Raw, key: string): string {
    if key in raw then raw[key] else NA
  }

  /** The new data: participant_id, then age, sex and hand. */
  function NewRow(subjectId: string, raw: Raw): (r: Row)
    ensures r.Valid()
    ensures r.keys == BaseColumns
    ensures r.entries[IdColumn] == "sub-" + subjectId
    ensures forall key | key in Demographics && key in raw :: r.entries[key] == raw[key]
    ensures forall key | key in Demographics && key !in raw :: r.entries[key] == NA
  {
    OMap(BaseColumns, map[IdColumn := SubjectLabel(subjectId),
                          "age" := Field(raw, "age"),
                          "sex" := Field(raw, "sex"),
                          "hand" := Field(raw, "hand")])
  }

  /** The new data as a table of one row: each value becomes a one-element column. */
  function AsTable(row: Row): (t: Table)
    requires row.Valid()
    ensures t.Valid() && t.keys == row.keys
    ensures forall k | k in row.entries :: k in t.entries && t.entries[k] == [row.entries[k]]
  {
    OMap(row.keys, map k | k in row.entries :: [row.entries[k]])
  }

  /** Number of rows, read off the participant_id column. */
  function Height(t: Table): nat
    requires IdColumn in t.entries
  {
    |t.entries[IdColumn]|
  }

  /** Every column has as many values as participant_id: the shape a well-formed TSV file reads back as. */
  predicate Rectangular(t: Table) {
    && IdColumn in t.entries
    && forall k | k in t.entries :: |t.entries[k]| == Height(t)
  }

  /** participant_id, age, sex and hand are all columns of t. */
  predicate HasBaseColumns(t: Table) {
    forall k | k in BaseColumns :: k in t.entries
  }

  /** Row i of t carries every field of row. */
  predicate MatchesAt(t: Table, row: Row, i: nat)
    requires row.Valid()
  {
    forall k | k in row.keys :: k in t.entries && i < |t.entries[k]| && t.entries[k][i] == row.entries[k]
  }

  /**
   * Assumed contract of mne_bids' `_contains_row`, whose code is not part of
   * this model: some row index carries every field of row. A field whose
   * column is missing makes the answer false.
   */
  predicate ContainsRow(t: Table, row: Row)
    requires row.Valid()
  {
    && row.keys != []
    && row.keys[0] in t.entries
    && exists i | 0 <= i < |t.entries[row.keys[0]]| :: MatchesAt(t, row, i)
  }

  /** ContainsRow is exactly "some index matches", with no bound on the index. */
  lemma ContainsRowMeansSomeMatch(t: Table, row: Row)
    requires row.Valid()
    ensures ContainsRow(t, row) <==> row.keys != [] && exists i: nat :: MatchesAt(t, row, i)
  {
    if row.keys != [] && exists i: nat :: MatchesAt(t, row, i) {
      var i: nat :| MatchesAt(t, row, i);
      assert row.keys[0] in row.keys;
      assert 0 <= i < |t.entries[row.keys[0]]|;
    }
  }

  /** `list.index`: the first position of x in s. */
  function IndexOf(s: seq<string>, x: string): (i: nat)
    requires x in s
    ensures i < |s| && s[i] == x
    ensures forall j | 0 <= j < i :: s[j] != x
  {
    if s[0] == x then 0 else 1 + IndexOf(s[1..], x)
  }

  /**
   * Lines 137-142: every column ks names that the registry lacks is added at
   * the end, filled with "n/a" as many times as the new data has rows. The
   * new data has exactly one row, so the fill is a single "n/a" whatever the
   * registry's height.
   */
  function AddMissingColumns(orig: Table, ks: seq<string>): (r: Table)
    requires orig.Valid() && Distinct(ks)
    ensures r.Valid()
    ensures forall k | k in orig.entries :: k in r.entries && r.entries[k] == orig.entries[k]
    ensures forall k | k in ks && k !in orig.entries :: k in r.entries && r.entries[k] == [NA]
    ensures forall k | k in r.entries :: k in orig.entries || k in ks
    ensures r.keys == orig.keys + Absent(ks, orig.entries)
  {
    orig.Extend(ks, map k | k in ks :: [NA])
  }

  /**
   * Lines 147-157: when the subject is already listed, every registry column
   * the new data lacks takes the value the registry holds in the subject's
   * first row; a column too short to have that row raises IndexError. An
   * unlisted subject's data is left as it is.
   */
  function CarryUserColumns(orig: Table, data: Row): (r: Result<Row, MergeError>)
    requires orig.Valid() && data.Valid()
    requires IdColumn in orig.entries && IdColumn in data.entries
    ensures r.Err? ==> r.error == IndexOutOfRange
    ensures data.entries[IdColumn] !in orig.entries[IdColumn] ==> r == Ok(data)
    ensures data.entries[IdColumn] in orig.entries[IdColumn] ==>
              var idx := IndexOf(orig.entries[IdColumn], data.entries[IdColumn]);
              && (r.Ok? <==> forall k | k in orig.entries && k !in data.entries :: idx < |orig.entries[k]|)
              && (r.Ok? ==> forall k | k in orig.entries && k !in data.entries ::
                              k in r.value.entries && r.value.entries[k] == orig.entries[k][idx])
              && (r.Ok? ==> r.value.keys == data.keys + Absent(orig.keys, data.entries))
    ensures r.Ok? ==> r.value.Valid()
    ensures r.Ok? ==> forall k | k in data.entries :: k in r.value.entries && r.value.entries[k] == data.entries[k]
    ensures r.Ok? ==> forall k | k in r.value.entries :: k in data.entries || k in orig.entries
  {
    var pid := data.entries[IdColumn];
    if pid !in orig.entries[IdColumn] then Ok(data)
    else
      var idx := IndexOf(orig.entries[IdColumn], pid);
      if forall k | k in orig.entries && k !in data.entries :: idx < |orig.entries[k]| then
        Ok(data.Extend(orig.keys, map k | k in orig.entries && idx < |orig.entries[k]| :: orig.entries[k][idx]))
      else
        Err(IndexOutOfRange)
  }

  /**
   * Assumed contract of mne_bids' `_combine_rows(orig, data, "participant_id")`,
   * whose code is not part of this model: when the new participant_id is
   * listed, its first row is replaced in place, column by column, and a
   * column too short to hold that row raises IndexError (as list assignment
   * does); otherwise the new row is appended, "n/a" standing in for columns
   * the new data lacks.
   */
  function CombineRows(orig: Table, data: Row): (r: Result<Table, MergeError>)
    requires orig.Valid() && data.Valid()
    requires IdColumn in orig.entries && IdColumn in data.entries
    requires forall k | k in data.entries :: k in orig.entries
    ensures r.Err? ==> r.error == IndexOutOfRange
    ensures r.Ok? ==> r.value.Valid() && r.value.keys == orig.keys
    ensures data.entries[IdColumn] !in orig.entries[IdColumn] ==> r == Ok(AppendRow(orig, data))
    ensures data.entries[IdColumn] in orig.entries[IdColumn] ==>
              var idx := IndexOf(orig.entries[IdColumn], data.entries[IdColumn]);
              && (r.Ok? <==> forall k | k in data.entries :: idx < |orig.entries[k]|)
              && (r.Ok? ==> r.value == ReplaceRow(orig, data, idx))
  {
    var ids := orig.entries[IdColumn];
    var pid := data.entries[IdColumn];
    if pid in ids then
      var idx := IndexOf(ids, pid);
      if forall k | k in data.entries :: idx < |orig.entries[k]| then
        Ok(ReplaceRow(orig, data, idx))
      else
        Err(IndexOutOfRange)
    else
      Ok(AppendRow(orig, data))
  }

  /** The new row goes last: one more value in every column, "n/a" where the row has no field. */
  function AppendRow(orig: Table, data: Row): (r: Table)
    requires orig.Valid()
    requires forall k | k in data.entries :: k in orig.entries
    ensures r.Valid() && r.keys == orig.keys
    ensures forall k | k in orig.entries ::
              && k in r.entries
              && |r.entries[k]| == |orig.entries[k]| + 1
              && r.entries[k][..|orig.entries[k]|] == orig.entries[k]
              && r.entries[k][|orig.entries[k]|] == (if k in data.entries then data.entries[k] else NA)
  {
    OMap(orig.keys, map k | k in orig.entries ::
      orig.entries[k] + [if k in data.entries then data.entries[k] else NA])
  }

  /** Row idx takes the row's fields; every other position, and every column the row lacks, is kept. */
  function ReplaceRow(orig: Table, data: Row, idx: nat): (r: Table)
    requires orig.Valid()
    requires forall k | k in data.entries :: k in orig.entries && idx < |orig.entries[k]|
    ensures r.Valid() && r.keys == orig.keys
    ensures forall k | k in orig.entries ::
              && k in r.entries
              && |r.entries[k]| == |orig.entries[k]|
              && (forall i | 0 <= i < |orig.entries[k]| && i != idx :: r.entries[k][i] == orig.entries[k][i])
              && (k in data.entries ==> r.entries[k][idx] == data.entries[k])
              && (k !in data.entries ==> r.entries[k] == orig.entries[k])
  {
    OMap(orig.keys, map k | k in orig.entries ::
      if k in data.entries then orig.entries[k][idx := data.entries[k]] else orig.entries[k])
  }

  /**
   * `_participants_tsv` without the file: existing is the registry read from
   * participants.tsv, or None when there is no such file; the result is the
   * table written back, or the exception raised.
   */
  function Merge(existing: Option<Table>, raw: Raw, subjectId: string, overwrite: bool): (r: Result<Table, MergeError>)
    requires existing.Some? ==> existing.value.Valid()
    ensures r.Ok? ==> r.value.Valid()
    ensures existing.None? ==> r == Ok(AsTable(NewRow(subjectId, raw)))
    ensures existing.Some? && IdColumn !in existing.value.entries ==> r == Err(MissingColumn(IdColumn))
    ensures existing.Some? && IdColumn in existing.value.entries ==>
              (r == Err(Conflict(SubjectLabel(subjectId))) <==>
                 && SubjectLabel(subjectId) in existing.value.entries[IdColumn]
                 && !ContainsRow(existing.value, NewRow(subjectId, raw))
                 && !overwrite)
  {
    var data := NewRow(subjectId, raw);
    match existing
    case None => Ok(AsTable(data))
    case Some(orig) =>
      if IdColumn !in orig.entries then Err(MissingColumn(IdColumn))
      else
        var sid := data.entries[IdColumn];
        var exactIncluded := ContainsRow(orig, data);
        var sidIncluded := sid in orig.entries[IdColumn];
        if sidIncluded && !exactIncluded && !overwrite then Err(Conflict(sid))
        else
          Reconcile(orig, data)
  }

  /**
   * Lines 133-160: widen the registry by the new data's columns, complete the
   * new data with the subject's prior user-added values, and combine.
   */
  function Reconcile(orig: Table, data: Row): (r: Result<Table, MergeError>)
    requires orig.Valid() && data.Valid()
    requires IdColumn in orig.entries && IdColumn in data.entries
    ensures r.Err? ==> r.error == IndexOutOfRange
    ensures r.Ok? ==> r.value.Valid()
  {
    var widened := AddMissingColumns(orig, data.keys);
    match CarryUserColumns(widened, data)
    case Err(e) => Err(e)
    case Ok(full) => CombineRows(widened, full)
  }
}
