/**
 * The final consistency pass over a project's ratings: a missing quality
 * or importance becomes the `NotA-Class` sentinel, and a row where neither
 * field holds a real class is deleted.
 */
module Cleanup {
  import opened Wrappers
  import opened Reconcile

  const NotAClass: string := "NotA-Class"

  /** Does the field hold a class other than the sentinel? */
  predicate HoldsClass(v: Option<string>) {
    v.Some? && v.value != NotAClass
  }

  function Filled(v: Option<string>): (w: Option<string>)
    ensures w.Some?
    ensures v.Some? ==> w == v
    ensures v.None? ==> w == Some(NotAClass)
  {
    if v.None? then Some(NotAClass) else v
  }

  function FillRow(r: Rating): Rating {
    r.(quality := Filled(r.quality), importance := Filled(r.importance))
  }

  /** Neither field holds a real class: the article has left the project. */
  predicate Empty(r: Rating) {
    !HoldsClass(r.quality) && !HoldsClass(r.importance)
  }

  /**
   * After cleanup a project row survives exactly when one of its fields
   * holds a real class; each surviving row has both fields set, keeps its
   * real classes and has the sentinel where a field was missing; rows of
   * other projects are unchanged.
   */
  function Cleaned(t: RatingTable, project: string): (r: RatingTable)
    ensures forall k: RatingKey :: k.project == project ==>
      (k in r <==> k in t && (HoldsClass(t[k].quality) || HoldsClass(t[k].importance)))
    ensures forall k :: k in r && k.project == project ==>
      && r[k].quality == Filled(t[k].quality) && r[k].importance == Filled(t[k].importance)
      && r[k].qualityTimestamp == t[k].qualityTimestamp && r[k].importanceTimestamp == t[k].importanceTimestamp
      && r[k].score == t[k].score
    ensures forall k: RatingKey :: k.project != project ==> (k in r <==> k in t) && (k in t ==> r[k] == t[k])
    ensures forall k :: k in r && k.project == project ==> r[k].quality.Some? && r[k].importance.Some? && !Empty(r[k])
  {
    map k | k in t && !(k.project == project && Empty(t[k])) ::
      if k.project == project then FillRow(t[k]) else t[k]
  }

  /** Cleaning twice is cleaning once. */
  lemma CleanupIdempotent(t: RatingTable, project: string)
    ensures Cleaned(Cleaned(t, project), project) == Cleaned(t, project)
  {
    var r := Cleaned(t, project);
    var r2 := Cleaned(r, project);
    assert r2.Keys == r.Keys;
    forall k | k in r ensures r2[k] == r[k] {
      if k.project == project {
        assert FillRow(r[k]) == r[k];
      }
    }
  }
}
