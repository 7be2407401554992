/**
 * The aggregate counts stored on a project record: all its rating rows,
 * and the rows whose quality (importance) is a real assessment, that is
 * set and neither the `NotA-Class` sentinel nor `Unassessed-Class`.
 */
module ProjectStats {
  import opened Wrappers
  import opened Reconcile
  import Cleanup
  import opened Classifier

  const UnassessedClass: string := "Unassessed-Class"

  predicate IsAssessed(v: Option<string>) {
    v.Some? && v.value != Cleanup.NotAClass && v.value != UnassessedClass
  }

  function ProjectRows(t: RatingTable, project: string): set<RatingKey> {
    set k | k in t && k.project == project
  }

  function AssessedRows(t: RatingTable, project: string, kind: Kind): set<RatingKey> {
    set k | k in t && k.project == project && IsAssessed(Field(t[k], kind))
  }

  function UnassessedRows(t: RatingTable, project: string, kind: Kind): set<RatingKey> {
    set k | k in t && k.project == project && !IsAssessed(Field(t[k], kind))
  }

  /**
   * Every row of the project is counted by `count`, and by exactly one of
   * the assessed count for a kind or the rows that kind leaves unassessed.
   */
  lemma CountPartition(t: RatingTable, project: string, kind: Kind)
    ensures |ProjectRows(t, project)| == |AssessedRows(t, project, kind)| + |UnassessedRows(t, project, kind)|
    ensures |AssessedRows(t, project, kind)| <= |ProjectRows(t, project)|
  {
    var a := AssessedRows(t, project, kind);
    var u := UnassessedRows(t, project, kind);
    assert ProjectRows(t, project) == a + u;
    assert a * u == {};
  }
}
