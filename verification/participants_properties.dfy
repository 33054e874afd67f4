/**
 * What the merge of `_participants_tsv` guarantees for a registry of the
 * shape a well-formed participants.tsv reads back as, and where its fixed
 * one-value fill breaks that shape.
 */
module ParticipantsProperties {
  import opened Wrappers
  import opened OrderedMaps
  import opened Participants

  /** Widening by columns the registry already has changes nothing. */
  lemma AddMissingColumnsOfPresent(orig: Table, ks: seq<string>)
    requires orig.Valid() && Distinct(ks)
    requires forall k | k in ks :: k in orig.entries
    ensures AddMissingColumns(orig, ks) == orig
  {
    var r := AddMissingColumns(orig, ks);
    AbsentOfKeys(ks, orig.entries);
    assert r.entries.Keys == orig.entries.Keys;
    assert r.entries == orig.entries;
  }

  /** The first position of x in s + [x], when x is not in s, is the new last one. */
  lemma IndexOfAppended(s: seq<string>, x: string)
    requires x !in s
    ensures IndexOf(s + [x], x) == |s|
  {
    assert forall j | 0 <= j < |s| :: (s + [x])[j] == s[j] != x;
  }

  /** Past the conflict check, the merge is the reconciliation of lines 133-160. */
  lemma MergeIsReconcile(orig: Table, raw: Raw, subjectId: string, overwrite: bool)
    requires orig.Valid() && IdColumn in orig.entries
    requires !(SubjectLabel(subjectId) in orig.entries[IdColumn] && !ContainsRow(orig, NewRow(subjectId, raw)) && !overwrite)
    ensures Merge(Some(orig), raw, subjectId, overwrite) == Reconcile(orig, NewRow(subjectId, raw))
  {
  }

  /** An unlisted subject's data is appended, after the registry is widened by its columns. */
  lemma ReconcileUnlisted(orig: Table, data: Row)
    requires orig.Valid() && data.Valid()
    requires IdColumn in orig.entries && IdColumn in data.entries
    requires data.entries[IdColumn] !in orig.entries[IdColumn]
    ensures Reconcile(orig, data) == Ok(AppendRow(AddMissingColumns(orig, data.keys), data))
  {
    var widened := AddMissingColumns(orig, data.keys);
    assert widened.entries[IdColumn] == orig.entries[IdColumn];
  }

  /**
   * A listed subject's data, against a rectangular registry that already
   * has its columns, replaces the subject's first row.
   */
  lemma ReconcileListed(orig: Table, data: Row)
    requires orig.Valid() && Rectangular(orig) && data.Valid()
    requires IdColumn in data.entries && data.entries[IdColumn] in orig.entries[IdColumn]
    requires forall k | k in data.keys :: k in orig.entries
    ensures var idx := IndexOf(orig.entries[IdColumn], data.entries[IdColumn]);
            && (forall k | k in data.entries :: k in orig.entries && idx < |orig.entries[k]|)
            && Reconcile(orig, data) == Ok(ReplaceRow(orig, data, idx))
  {
    var idx := IndexOf(orig.entries[IdColumn], data.entries[IdColumn]);
    AddMissingColumnsOfPresent(orig, data.keys);
    var full := CarryUserColumns(orig, data).value;
    assert Reconcile(orig, data) == CombineRows(orig, full);
    ReplaceRowWithOwnValues(orig, data, full, idx);
  }

  /** Completing the row with the registry's own values at idx changes nothing about the replacement. */
  lemma ReplaceRowWithOwnValues(orig: Table, data: Row, full: Row, idx: nat)
    requires orig.Valid()
    requires forall k | k in data.entries :: k in orig.entries && idx < |orig.entries[k]|
    requires forall k | k in full.entries :: k in orig.entries && idx < |orig.entries[k]|
    requires forall k | k in data.entries :: k in full.entries && full.entries[k] == data.entries[k]
    requires forall k | k in full.entries && k !in data.entries :: full.entries[k] == orig.entries[k][idx]
    ensures ReplaceRow(orig, full, idx) == ReplaceRow(orig, data, idx)
  {
    var a := ReplaceRow(orig, full, idx);
    var b := ReplaceRow(orig, data, idx);
    forall k | k in orig.entries
      ensures a.entries[k] == b.entries[k]
    {
      if k in full.entries && k !in data.entries {
        assert orig.entries[k][idx := orig.entries[k][idx]] == orig.entries[k];
      }
    }
    assert a.entries == b.entries;
  }

  /** Replacing row idx by the values it already holds is the identity. */
  lemma ReplaceRowWithSameValues(t: Table, row: Row, idx: nat)
    requires t.Valid()
    requires RowRecorded(t, row, idx)
    ensures ReplaceRow(t, row, idx) == t
  {
    var r := ReplaceRow(t, row, idx);
    forall k | k in t.entries
      ensures r.entries[k] == t.entries[k]
    {
      if k in row.entries {
        assert t.entries[k][idx := row.entries[k]] == t.entries[k];
      }
    }
    assert r.entries == t.entries;
  }

  /** Row idx of t carries every field of row. */
  predicate RowRecorded(t: Table, row: Row, idx: nat) {
    forall k | k in row.entries :: k in t.entries && idx < |t.entries[k]| && t.entries[k][idx] == row.entries[k]
  }

  /**
   * A subject not yet listed is appended as one new last row: every earlier
   * row is kept, the new row carries participant_id, age, sex and hand, and
   * "n/a" in every user-added column. The registry keeps its columns, in
   * their order, and stays rectangular.
   */
  lemma MergeAppendsNewSubject(orig: Table, raw: Raw, subjectId: string, overwrite: bool)
    requires orig.Valid() && Rectangular(orig) && HasBaseColumns(orig)
    requires SubjectLabel(subjectId) !in orig.entries[IdColumn]
    ensures var r := Merge(Some(orig), raw, subjectId, overwrite);
            var row := NewRow(subjectId, raw);
            var n := Height(orig);
            && r == Ok(AppendRow(orig, row))
            && r.value.keys == orig.keys
            && Rectangular(r.value)
            && Height(r.value) == n + 1
            && (forall k | k in orig.entries ::
                  k in r.value.entries && r.value.entries[k][..n] == orig.entries[k])
            && (forall k | k in row.entries :: r.value.entries[k][n] == row.entries[k])
            && (forall k | k in orig.entries && k !in row.entries :: r.value.entries[k][n] == NA)
  {
    var data := NewRow(subjectId, raw);
    MergeIsReconcile(orig, raw, subjectId, overwrite);
    ReconcileUnlisted(orig, data);
    AddMissingColumnsOfPresent(orig, data.keys);
  }

  /**
   * A listed subject, when overwrite is set or the registry already holds
   * exactly the new values, has its first row rewritten in place: age, sex
   * and hand take the new values, and every other column, user-added ones
   * included, is left exactly as it was.
   */
  lemma MergeReplacesSubjectRow(orig: Table, raw: Raw, subjectId: string, overwrite: bool)
    requires orig.Valid() && Rectangular(orig) && HasBaseColumns(orig)
    requires SubjectLabel(subjectId) in orig.entries[IdColumn]
    requires overwrite || ContainsRow(orig, NewRow(subjectId, raw))
    ensures var r := Merge(Some(orig), raw, subjectId, overwrite);
            var row := NewRow(subjectId, raw);
            var idx := IndexOf(orig.entries[IdColumn], SubjectLabel(subjectId));
            && r == Ok(ReplaceRow(orig, row, idx))
            && r.value.keys == orig.keys
            && Rectangular(r.value)
            && Height(r.value) == Height(orig)
            && (forall k | k in row.entries ::
                  k in r.value.entries && r.value.entries[k] == orig.entries[k][idx := row.entries[k]])
            && (forall k | k in orig.entries && k !in row.entries ::
                  k in r.value.entries && r.value.entries[k] == orig.entries[k])
  {
    var data := NewRow(subjectId, raw);
    MergeIsReconcile(orig, raw, subjectId, overwrite);
    ReconcileListed(orig, data);
    var idx := IndexOf(orig.entries[IdColumn], SubjectLabel(subjectId));
    var t := ReplaceRow(orig, data, idx);
    forall k | k in data.entries
      ensures t.entries[k] == orig.entries[k][idx := data.entries[k]]
    {
      UpdatedAt(t.entries[k], orig.entries[k], idx, data.entries[k]);
    }
  }

  /** b with position idx set to v, told apart position by position. */
  lemma UpdatedAt(a: seq<string>, b: seq<string>, idx: nat, v: string)
    requires |a| == |b| && idx < |b| && a[idx] == v
    requires forall i | 0 <= i < |a| && i != idx :: a[i] == b[i]
    ensures a == b[idx := v]
  {
  }

  /**
   * Merging the same subject with the same values a second time, with or
   * without overwrite, returns the registry the first merge produced.
   */
  lemma MergeIsIdempotent(existing: Option<Table>, raw: Raw, subjectId: string, overwrite1: bool, overwrite2: bool)
    requires existing.Some? ==> existing.value.Valid() && Rectangular(existing.value) && HasBaseColumns(existing.value)
    requires Merge(existing, raw, subjectId, overwrite1).Ok?
    ensures var t := Merge(existing, raw, subjectId, overwrite1).value;
            Merge(Some(t), raw, subjectId, overwrite2) == Ok(t)
  {
    var t := Merge(existing, raw, subjectId, overwrite1).value;
    MergeRecordsSubject(existing, raw, subjectId, overwrite1);
    RemergeOfRecordedSubject(t, raw, subjectId, overwrite2);
  }

  /**
   * t is a rectangular registry with the base columns in which the
   * subject's first row carries exactly the new values.
   */
  predicate Records(t: Table, raw: Raw, subjectId: string) {
    && t.Valid() && Rectangular(t) && HasBaseColumns(t)
    && SubjectLabel(subjectId) in t.entries[IdColumn]
    && RowRecorded(t, NewRow(subjectId, raw), IndexOf(t.entries[IdColumn], SubjectLabel(subjectId)))
  }

  /** After a successful merge the registry records the subject's new values. */
  lemma MergeRecordsSubject(existing: Option<Table>, raw: Raw, subjectId: string, overwrite: bool)
    requires existing.Some? ==> existing.value.Valid() && Rectangular(existing.value) && HasBaseColumns(existing.value)
    requires Merge(existing, raw, subjectId, overwrite).Ok?
    ensures Records(Merge(existing, raw, subjectId, overwrite).value, raw, subjectId)
  {
    var sid := SubjectLabel(subjectId);
    var row := NewRow(subjectId, raw);
    match existing {
      case None =>
        FirstRowRecords(raw, subjectId);
      case Some(orig) =>
        if sid in orig.entries[IdColumn] {
          MergeReplacesSubjectRow(orig, raw, subjectId, overwrite);
          ReplacedRowRecords(orig, raw, subjectId);
        } else {
          MergeAppendsNewSubject(orig, raw, subjectId, overwrite);
          AppendedRowRecords(orig, raw, subjectId);
        }
    }
  }

  /** The registry created from nothing records its one subject. */
  lemma FirstRowRecords(raw: Raw, subjectId: string)
    ensures Records(AsTable(NewRow(subjectId, raw)), raw, subjectId)
  {
    var t := AsTable(NewRow(subjectId, raw));
    assert t.entries[IdColumn] == [SubjectLabel(subjectId)];
    assert IndexOf(t.entries[IdColumn], SubjectLabel(subjectId)) == 0;
  }

  /** Replacing a listed subject's first row records the new values. */
  lemma ReplacedRowRecords(orig: Table, raw: Raw, subjectId: string)
    requires orig.Valid() && Rectangular(orig) && HasBaseColumns(orig)
    requires SubjectLabel(subjectId) in orig.entries[IdColumn]
    ensures var row := NewRow(subjectId, raw);
            var idx := IndexOf(orig.entries[IdColumn], SubjectLabel(subjectId));
            (forall k | k in row.entries :: k in orig.entries && idx < |orig.entries[k]|) &&
            Records(ReplaceRow(orig, row, idx), raw, subjectId)
  {
    var row := NewRow(subjectId, raw);
    var idx := IndexOf(orig.entries[IdColumn], SubjectLabel(subjectId));
    var t := ReplaceRow(orig, row, idx);
    assert t.entries[IdColumn] == orig.entries[IdColumn] by {
      UpdatedAt(t.entries[IdColumn], orig.entries[IdColumn], idx, row.entries[IdColumn]);
      assert orig.entries[IdColumn][idx := SubjectLabel(subjectId)] == orig.entries[IdColumn];
    }
  }

  /** Appending an unlisted subject records the new values in the last row. */
  lemma AppendedRowRecords(orig: Table, raw: Raw, subjectId: string)
    requires orig.Valid() && Rectangular(orig) && HasBaseColumns(orig)
    requires SubjectLabel(subjectId) !in orig.entries[IdColumn]
    ensures Records(AppendRow(orig, NewRow(subjectId, raw)), raw, subjectId)
  {
    var sid := SubjectLabel(subjectId);
    var t := AppendRow(orig, NewRow(subjectId, raw));
    assert t.entries[IdColumn] == orig.entries[IdColumn] + [sid];
    IndexOfAppended(orig.entries[IdColumn], sid);
  }

  /** Merging a subject whose first row already carries the new values leaves the registry as it is. */
  lemma RemergeOfRecordedSubject(t: Table, raw: Raw, subjectId: string, overwrite: bool)
    requires Records(t, raw, subjectId)
    ensures Merge(Some(t), raw, subjectId, overwrite) == Ok(t)
  {
    var row := NewRow(subjectId, raw);
    var idx := IndexOf(t.entries[IdColumn], SubjectLabel(subjectId));
    assert ContainsRow(t, row) by {
      assert MatchesAt(t, row, idx);
      assert row.keys[0] in t.entries;
    }
    MergeIsReconcile(t, raw, subjectId, overwrite);
    ReconcileListed(t, row);
    ReplaceRowWithSameValues(t, row, idx);
  }

  /**
   * Re-writing a listed subject with an age that differs from every row of
   * that subject, without overwrite, raises the conflict.
   */
  lemma MergeRejectsDifferingAge(orig: Table, raw: Raw, subjectId: string)
    requires orig.Valid() && Rectangular(orig) && HasBaseColumns(orig)
    requires SubjectLabel(subjectId) in orig.entries[IdColumn]
    requires forall i | 0 <= i < Height(orig) && orig.entries[IdColumn][i] == SubjectLabel(subjectId) ::
               orig.entries["age"][i] != Field(raw, "age")
    ensures Merge(Some(orig), raw, subjectId, false) == Err(Conflict(SubjectLabel(subjectId)))
  {
    var row := NewRow(subjectId, raw);
    assert IdColumn in row.keys && "age" in row.keys;
    forall i | 0 <= i < |orig.entries[IdColumn]|
      ensures !MatchesAt(orig, row, i)
    {
    }
  }

  /**
   * The fill of line 142 is one "n/a", not one per registry row: a new
   * subject given to a rectangular registry without a hand column brings
   * back a hand column of two values, however many rows the registry has,
   * so a registry of two or more subjects comes back ragged.
   */
  lemma ShortFillLeavesRaggedRegistry(orig: Table, raw: Raw, subjectId: string)
    requires orig.Valid() && Rectangular(orig)
    requires "hand" !in orig.entries
    requires SubjectLabel(subjectId) !in orig.entries[IdColumn]
    ensures var r := Merge(Some(orig), raw, subjectId, false);
            && r.Ok?
            && IdColumn in r.value.entries && "hand" in r.value.entries
            && |r.value.entries[IdColumn]| == Height(orig) + 1
            && r.value.entries["hand"] == [NA, Field(raw, "hand")]
            && (Height(orig) >= 2 ==> !Rectangular(r.value))
  {
    var data := NewRow(subjectId, raw);
    var t := AppendRow(AddMissingColumns(orig, data.keys), data);
    assert Merge(Some(orig), raw, subjectId, false) == Ok(t) by {
      MergeIsReconcile(orig, raw, subjectId, false);
      ReconcileUnlisted(orig, data);
    }
    AppendWithoutColumn(orig, data, "hand");
  }

  /**
   * The ragged registry of ShortFillLeavesRaggedRegistry cannot take the
   * same subject again: re-merging it with overwrite finds the subject in
   * the last row, which the two-value hand column does not reach, and
   * raises IndexError. Merging is not idempotent on such registries.
   */
  lemma RaggedRegistryBreaksRemerge(orig: Table, raw: Raw, subjectId: string)
    requires orig.Valid() && Rectangular(orig) && Height(orig) >= 2
    requires "hand" !in orig.entries
    requires SubjectLabel(subjectId) !in orig.entries[IdColumn]
    ensures Merge(Some(orig), raw, subjectId, false).Ok?
    ensures Merge(Some(Merge(Some(orig), raw, subjectId, false).value), raw, subjectId, true) == Err(IndexOutOfRange)
  {
    var sid := SubjectLabel(subjectId);
    var data := NewRow(subjectId, raw);
    var widened := AddMissingColumns(orig, data.keys);
    var t := AppendRow(widened, data);
    assert Merge(Some(orig), raw, subjectId, false) == Ok(t) by {
      MergeIsReconcile(orig, raw, subjectId, false);
      ReconcileUnlisted(orig, data);
    }
    AppendWithoutColumn(orig, data, "hand");
    assert t.entries[IdColumn] == orig.entries[IdColumn] + [sid] by {
      assert widened.entries[IdColumn] == orig.entries[IdColumn];
    }
    IndexOfAppended(orig.entries[IdColumn], sid);
    var idx := Height(orig);
    assert IndexOf(t.entries[IdColumn], sid) == idx;
    forall k | k in data.keys ensures k in t.entries {
    }
    MergeIsReconcile(t, raw, subjectId, true);
    AddMissingColumnsOfPresent(t, data.keys);
    forall k | k in t.entries && k !in data.entries ensures idx < |t.entries[k]| {
      assert k in orig.entries;
      assert |t.entries[k]| == |orig.entries[k]| + 1;
    }
    var full := CarryUserColumns(t, data);
    assert full.Ok?;
    assert "hand" in full.value.entries && |t.entries["hand"]| <= idx;
  }

  /**
   * Appending a row to a rectangular registry that lacks one of the row's
   * columns gives that column the single fill value followed by the row's
   * value, while participant_id grows by one.
   */
  lemma AppendWithoutColumn(orig: Table, data: Row, column: string)
    requires orig.Valid() && Rectangular(orig) && data.Valid()
    requires IdColumn in data.entries && column in data.entries && column !in orig.entries
    ensures var t := AppendRow(AddMissingColumns(orig, data.keys), data);
            && IdColumn in t.entries && column in t.entries
            && |t.entries[IdColumn]| == Height(orig) + 1
            && t.entries[column] == [NA, data.entries[column]]
  {
    var widened := AddMissingColumns(orig, data.keys);
    assert column in data.keys;
    assert widened.entries[column] == [NA];
    assert widened.entries[IdColumn] == orig.entries[IdColumn];
    var t := AppendRow(widened, data);
    assert t.entries[column] == [NA] + [data.entries[column]];
  }
}
