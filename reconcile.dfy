/**
 * One reconciliation pass of a project's ratings for one assessment kind:
 * the observations made from the class categories' members, how each
 * observation upserts a rating row, and how previously rated articles that
 * were not observed lose that kind's rating.
 */
module Reconcile {
  import opened Wrappers
  import opened Classifier
  import opened RatingMaps
  import opened Wiki

  /** A rating row is unique per project, namespace and article title. */
  datatype RatingKey = RatingKey(project: string, ns: int, article: string)

  datatype Rating = Rating(
    quality: Option<string>, qualityTimestamp: Option<string>,
    importance: Option<string>, importanceTimestamp: Option<string>,
    score: int)

  type RatingTable = map<RatingKey, Rating>

  /** A row with neither kind assessed, as a fresh insert starts. */
  const Blank: Rating := Rating(None, None, None, None, 0)

  function Other(kind: Kind): Kind {
    match kind
    case Quality => Importance
    case Importance => Quality
  }

  /** The row's value for `kind`. */
  function Field(r: Rating, kind: Kind): Option<string> {
    match kind
    case Quality => r.quality
    case Importance => r.importance
  }

  function Stamp(r: Rating, kind: Kind): Option<string> {
    match kind
    case Quality => r.qualityTimestamp
    case Importance => r.importanceTimestamp
  }

  /** The row with `kind`'s value and timestamp replaced. */
  function WithField(r: Rating, kind: Kind, value: Option<string>, stamp: Option<string>): (r': Rating)
    ensures Field(r', kind) == value && Stamp(r', kind) == stamp
    ensures Field(r', Other(kind)) == Field(r, Other(kind)) && Stamp(r', Other(kind)) == Stamp(r, Other(kind))
    ensures r'.score == r.score
  {
    match kind
    case Quality => r.(quality := value, qualityTimestamp := stamp)
    case Importance => r.(importance := value, importanceTimestamp := stamp)
  }

  /** Assessments are tagged on talk pages, which sit in the odd namespaces. */
  predicate IsTalkNs(ns: int) {
    ns >= 1 && ns % 2 == 1
  }

  /** Class `rating` seen on the article of a talk page, since the link's timestamp. */
  datatype Observation = Observation(key: RatingKey, rating: string, timestamp: string)

  function ObservationOf(project: string, l: Link, rating: string): Observation {
    Observation(RatingKey(project, l.ns - 1, l.title), rating, l.timestamp)
  }

  /** The observations made from the member links of one class category. */
  function LinkObservations(project: string, links: seq<Link>, rating: string): seq<Observation>
    decreases |links|
  {
    if links == [] then []
    else
      var l := links[|links| - 1];
      LinkObservations(project, links[..|links| - 1], rating)
        + (if IsTalkNs(l.ns) then [ObservationOf(project, l, rating)] else [])
  }

  /** The observations of a pass, category by category in dictionary order. */
  function Observations(wiki: seq<Link>, project: string, rtc: RatingMap): seq<Observation>
    decreases |rtc|
  {
    if rtc == [] then []
    else
      var e := rtc[|rtc| - 1];
      Observations(wiki, project, rtc[..|rtc| - 1]) + LinkObservations(project, Members(wiki, e.category), e.rating)
  }

  /** The table after one observation: insert, overwrite a different value, or leave an equal one alone. */
  function Observe(t: RatingTable, kind: Kind, o: Observation): RatingTable {
    if o.key in t then
      if Field(t[o.key], kind) == Some(o.rating) then t
      else t[o.key := WithField(t[o.key], kind, Some(o.rating), Some(o.timestamp))]
    else
      t[o.key := WithField(Blank, kind, Some(o.rating), Some(o.timestamp))]
  }

  function ApplyObservations(t: RatingTable, kind: Kind, obs: seq<Observation>): RatingTable
    decreases |obs|
  {
    if obs == [] then t
    else Observe(ApplyObservations(t, kind, obs[..|obs| - 1]), kind, obs[|obs| - 1])
  }

  function SeenKeys(obs: seq<Observation>): set<RatingKey> {
    set o | o in obs :: o.key
  }

  /** The project's rows rated for `kind` before the pass that the pass did not observe. */
  function Unseen(t: RatingTable, project: string, kind: Kind, seen: set<RatingKey>): set<RatingKey> {
    set k | k in t && k.project == project && Field(t[k], kind).Some? && k !in seen
  }

  /** The row with `kind`'s value set to None. */
  function ClearField(r: Rating, kind: Kind): (r': Rating)
    ensures Field(r', kind) == None && Stamp(r', kind) == Stamp(r, kind)
    ensures Field(r', Other(kind)) == Field(r, Other(kind)) && Stamp(r', Other(kind)) == Stamp(r, Other(kind))
  {
    WithField(r, kind, None, Stamp(r, kind))
  }

  function ClearUnseen(t: RatingTable, kind: Kind, keys: set<RatingKey>): RatingTable {
    map k | k in t :: if k in keys then ClearField(t[k], kind) else t[k]
  }

  /** The ratings table after a whole pass for `kind` over `obs`. */
  function Reconciled(t: RatingTable, project: string, kind: Kind, obs: seq<Observation>): RatingTable {
    ClearUnseen(ApplyObservations(t, kind, obs), kind, Unseen(t, project, kind, SeenKeys(obs)))
  }

  /** What the page-metadata service reports for an article: its current namespace, title and revision time. */
  datatype PageInfo = PageInfo(ns: int, title: string, timestamp: string)

  /** A page move recorded for an unseen article. */
  datatype Move = Move(from: RatingKey, toNs: int, toTitle: string, timestamp: string)

  /** The move the lookup reports for `k`, if it reports a different page. */
  function MoveOf(k: RatingKey, info: Option<PageInfo>): Option<Move> {
    match info
    case None => None
    case Some(p) => if p.ns == k.ns && p.title == k.article then None else Some(Move(k, p.ns, p.title, p.timestamp))
  }

  function MovesOf(keys: set<RatingKey>, lookup: (int, string) -> Option<PageInfo>): set<Move> {
    set k | k in keys && MoveOf(k, lookup(k.ns, k.article)).Some? :: MoveOf(k, lookup(k.ns, k.article)).value
  }

  // ---------------------------------------------------------------- lemmas

  /** Clearing one more unseen row changes only that row. */
  lemma ClearUnseenStep(t: RatingTable, kind: Kind, done: set<RatingKey>, k: RatingKey)
    requires k in t && k !in done
    ensures ClearUnseen(t, kind, done)[k] == t[k]
    ensures ClearUnseen(t, kind, done + {k}) == ClearUnseen(t, kind, done)[k := ClearField(t[k], kind)]
  {
  }

  /** Looking up one more unseen row adds at most its own move. */
  lemma MovesOfStep(done: set<RatingKey>, k: RatingKey, lookup: (int, string) -> Option<PageInfo>)
    ensures var m := MoveOf(k, lookup(k.ns, k.article));
      MovesOf(done + {k}, lookup) == MovesOf(done, lookup) + (if m.Some? then {m.value} else {})
  {
  }

  /**
   * A pass observes exactly the talk-page members of the dictionary's
   * categories, each under this project, in the article namespace below the
   * talk page, with its category's class.
   */
  lemma {:induction false} LinkObservationsExactly(project: string, links: seq<Link>, rating: string)
    ensures forall o :: o in LinkObservations(project, links, rating) <==>
      exists l :: l in links && IsTalkNs(l.ns) && o == ObservationOf(project, l, rating)
    decreases |links|
  {
    if links != [] {
      var init := links[..|links| - 1];
      LinkObservationsExactly(project, init, rating);
      assert links == init + [links[|links| - 1]];
      assert forall l :: l in links <==> l in init || l == links[|links| - 1];
    }
  }

  lemma {:induction false} ObservationsExactly(wiki: seq<Link>, project: string, rtc: RatingMap)
    ensures forall o :: o in Observations(wiki, project, rtc) <==>
      exists e, l :: e in rtc && l in wiki && l.parent == e.category && IsTalkNs(l.ns) && o == ObservationOf(project, l, e.rating)
    decreases |rtc|
  {
    if rtc != [] {
      var init := rtc[..|rtc| - 1];
      var e := rtc[|rtc| - 1];
      ObservationsExactly(wiki, project, init);
      LinkObservationsExactly(project, Members(wiki, e.category), e.rating);
      assert rtc == init + [e];
      assert forall x :: x in rtc <==> x in init || x == e;
    }
  }

  /**
   * Every observed key is an article: it belongs to the project, its
   * namespace is even and non-negative, and it comes from a talk-page link
   * one namespace above, with the same title and the link's timestamp. So
   * the category pages under a root (namespace 14) never become ratings.
   */
  lemma ObservedKeysAreArticles(wiki: seq<Link>, project: string, rtc: RatingMap)
    ensures forall o :: o in Observations(wiki, project, rtc) ==>
      && o.key.project == project && o.key.ns >= 0 && o.key.ns % 2 == 0
      && exists l :: l in wiki && IsTalkNs(l.ns) && l.ns == o.key.ns + 1 && l.title == o.key.article && l.timestamp == o.timestamp
  {
    ObservationsExactly(wiki, project, rtc);
  }

  /** One observation adds its key, touches no other row, and keeps the other kind of every row. */
  lemma ObserveStep(t: RatingTable, kind: Kind, o: Observation)
    ensures var r := Observe(t, kind, o);
      && r.Keys == t.Keys + {o.key}
      && (forall k :: k in t && k != o.key ==> r[k] == t[k])
      && (forall k :: k in t ==> Field(r[k], Other(kind)) == Field(t[k], Other(kind))
                                 && Stamp(r[k], Other(kind)) == Stamp(t[k], Other(kind)))
      && (o.key !in t ==> Field(r[o.key], Other(kind)) == None)
  { }

  lemma SeenKeysSnoc(init: seq<Observation>, last: Observation)
    ensures SeenKeys(init + [last]) == SeenKeys(init) + {last.key}
  {
    var obs := init + [last];
    assert forall o :: o in obs <==> o in init || o == last;
  }

  /** Applying observations adds exactly the observed keys, and never touches a row it does not observe. */
  lemma {:induction false} ApplyKeys(t: RatingTable, kind: Kind, obs: seq<Observation>)
    ensures var r := ApplyObservations(t, kind, obs);
      && r.Keys == t.Keys + SeenKeys(obs)
      && (forall k :: k in t && k !in SeenKeys(obs) ==> r[k] == t[k])
    decreases |obs|
  {
    if obs != [] {
      var init, last := obs[..|obs| - 1], obs[|obs| - 1];
      ApplyKeys(t, kind, init);
      var mid := ApplyObservations(t, kind, init);
      assert ApplyObservations(t, kind, obs) == Observe(mid, kind, last);
      ObserveStep(mid, kind, last);
      SeenKeysSnoc(init, last);
      assert obs == init + [last];
    }
  }

  /**
   * A pass for one kind never changes the other kind's value or timestamp,
   * and a row it inserts has the other kind unset.
   */
  lemma {:induction false} ApplyKeepsOtherKind(t: RatingTable, kind: Kind, obs: seq<Observation>)
    ensures var r := ApplyObservations(t, kind, obs);
      && (forall k :: k in t ==> k in r && Field(r[k], Other(kind)) == Field(t[k], Other(kind))
                                   && Stamp(r[k], Other(kind)) == Stamp(t[k], Other(kind)))
      && (forall k :: k in r && k !in t ==> Field(r[k], Other(kind)) == None)
    decreases |obs|
  {
    if obs != [] {
      var init, last := obs[..|obs| - 1], obs[|obs| - 1];
      ApplyKeepsOtherKind(t, kind, init);
      var mid := ApplyObservations(t, kind, init);
      assert ApplyObservations(t, kind, obs) == Observe(mid, kind, last);
      ObserveStep(mid, kind, last);
    }
  }

  /** The row of an observed article holds the class of its last observation. */
  lemma {:induction false} LastObservationWins(t: RatingTable, kind: Kind, obs: seq<Observation>, i: nat)
    requires i < |obs|
    requires forall j :: i < j < |obs| ==> obs[j].key != obs[i].key
    ensures var r := ApplyObservations(t, kind, obs);
      obs[i].key in r && Field(r[obs[i].key], kind) == Some(obs[i].rating)
    decreases |obs|
  {
    var init := obs[..|obs| - 1];
    if i < |obs| - 1 {
      LastObservationWins(t, kind, init, i);
    }
  }

  /**
   * A row whose value already equals every observation of it is left exactly
   * as it was, timestamps included.
   */
  lemma {:induction false} EqualValueKept(t: RatingTable, kind: Kind, obs: seq<Observation>, k: RatingKey)
    requires k in t && Field(t[k], kind).Some?
    requires forall o :: o in obs && o.key == k ==> o.rating == Field(t[k], kind).value
    ensures var r := ApplyObservations(t, kind, obs); k in r && r[k] == t[k]
    decreases |obs|
  {
    if obs != [] {
      var init := obs[..|obs| - 1];
      assert forall o :: o in init ==> o in obs;
      EqualValueKept(t, kind, init, k);
    }
  }

  /** Every observation of an article names the same class. */
  predicate SingleClassPerArticle(obs: seq<Observation>) {
    forall i, j :: 0 <= i < |obs| && 0 <= j < |obs| && obs[i].key == obs[j].key ==> obs[i].rating == obs[j].rating
  }

  lemma {:induction false} ApplyHoldsObserved(t: RatingTable, kind: Kind, obs: seq<Observation>)
    requires SingleClassPerArticle(obs)
    ensures var r := ApplyObservations(t, kind, obs);
      forall o :: o in obs ==> o.key in r && Field(r[o.key], kind) == Some(o.rating)
    decreases |obs|
  {
    if obs != [] {
      var init := obs[..|obs| - 1];
      var last := obs[|obs| - 1];
      ApplyHoldsObserved(t, kind, init);
      assert SingleClassPerArticle(init);
      var prev := ApplyObservations(t, kind, init);
      var r := Observe(prev, kind, last);
      forall o | o in obs ensures o.key in r && Field(r[o.key], kind) == Some(o.rating) {
        var n :| 0 <= n < |obs| && obs[n] == o;
        if o.key == last.key {
          assert o.rating == last.rating;
        } else {
          assert n < |obs| - 1;
          assert o in init;
        }
      }
    }
  }

  lemma {:induction false} ApplyStable(t: RatingTable, kind: Kind, obs: seq<Observation>)
    requires forall o :: o in obs ==> o.key in t && Field(t[o.key], kind) == Some(o.rating)
    ensures ApplyObservations(t, kind, obs) == t
    decreases |obs|
  {
    if obs != [] {
      var init := obs[..|obs| - 1];
      assert forall o :: o in init ==> o in obs;
      ApplyStable(t, kind, init);
    }
  }

  /**
   * After a pass, the project's rows are the old rows plus one per observed
   * article; an observed article holds the class of its last observation,
   * a previously rated article that was not observed keeps its row with the
   * kind's value cleared, and every other row is unchanged.
   */
  lemma ReconciledRows(t: RatingTable, project: string, kind: Kind, obs: seq<Observation>)
    ensures var r := Reconciled(t, project, kind, obs);
      && r.Keys == t.Keys + SeenKeys(obs)
      && (forall k :: k in Unseen(t, project, kind, SeenKeys(obs)) ==>
            Field(r[k], kind) == None && Field(r[k], Other(kind)) == Field(t[k], Other(kind)))
      && (forall k :: k in t && k !in SeenKeys(obs) && k !in Unseen(t, project, kind, SeenKeys(obs)) ==> r[k] == t[k])
  {
    ApplyKeys(t, kind, obs);
  }

  lemma ReconciledObserved(t: RatingTable, project: string, kind: Kind, obs: seq<Observation>, i: nat)
    requires i < |obs|
    requires forall j :: i < j < |obs| ==> obs[j].key != obs[i].key
    ensures var r := Reconciled(t, project, kind, obs);
      obs[i].key in r && Field(r[obs[i].key], kind) == Some(obs[i].rating)
  {
    LastObservationWins(t, kind, obs, i);
    assert obs[i] in obs;
  }

  /** Rows of other projects are untouched by a pass whose observations are all for this project. */
  lemma OtherProjectsUntouched(t: RatingTable, project: string, kind: Kind, obs: seq<Observation>, k: RatingKey)
    requires forall o :: o in obs ==> o.key.project == project
    requires k.project != project
    ensures var r := Reconciled(t, project, kind, obs);
      (k in r <==> k in t) && (k in t ==> r[k] == t[k])
  {
    ApplyKeys(t, kind, obs);
  }

  // ---- a second pass over the same observations

  /** The row under `k`, or the blank row a fresh insert starts from. */
  function RowAt(t: RatingTable, k: RatingKey): Rating {
    if k in t then t[k] else Blank
  }

  /** What one observation does to the row of its article. */
  function ObserveRow(r: Rating, kind: Kind, o: Observation): Rating {
    if Field(r, kind) == Some(o.rating) then r else WithField(r, kind, Some(o.rating), Some(o.timestamp))
  }

  /** Equal in everything `kind` does not own. */
  predicate SameOther(a: Rating, b: Rating, kind: Kind) {
    Field(a, Other(kind)) == Field(b, Other(kind)) && Stamp(a, Other(kind)) == Stamp(b, Other(kind)) && a.score == b.score
  }

  lemma RatingEq(a: Rating, b: Rating, kind: Kind)
    requires Field(a, kind) == Field(b, kind) && Stamp(a, kind) == Stamp(b, kind) && SameOther(a, b, kind)
    ensures a == b
  {
    match kind
    case Quality =>
    case Importance =>
  }

  /** An observation acts on its own article's row only, as `ObserveRow`. */
  lemma RowAtObserve(t: RatingTable, kind: Kind, o: Observation, k: RatingKey)
    ensures RowAt(Observe(t, kind, o), k) == if o.key == k then ObserveRow(RowAt(t, k), kind, o) else RowAt(t, k)
  {
  }

  /** A pass keeps everything `kind` does not own, against the blank row for new articles. */
  lemma {:induction false} ApplyRowOther(t: RatingTable, kind: Kind, obs: seq<Observation>, k: RatingKey)
    ensures SameOther(RowAt(ApplyObservations(t, kind, obs), k), RowAt(t, k), kind)
    decreases |obs|
  {
    if obs != [] {
      var init := obs[..|obs| - 1];
      ApplyRowOther(t, kind, init, k);
      RowAtObserve(ApplyObservations(t, kind, init), kind, obs[|obs| - 1], k);
    }
  }

  /**
   * How the row `v` of a second pass relates to the row `w` of the first
   * pass at the same point, given the row `u` the first pass ended with:
   * they are equal, or `v` is still `u`, or they differ only in the stamp
   * and hold a class other than `u`'s.
   */
  predicate Converging(v: Rating, w: Rating, u: Rating, kind: Kind) {
    || v == w
    || (v == u && SameOther(u, w, kind))
    || (Field(v, kind) == Field(w, kind) && SameOther(v, w, kind) && Field(v, kind) != Field(u, kind))
  }

  lemma ConvergingStep(v: Rating, w: Rating, u: Rating, kind: Kind, o: Observation)
    requires Converging(v, w, u, kind)
    ensures Converging(ObserveRow(v, kind, o), ObserveRow(w, kind, o), u, kind)
  {
    var v', w' := ObserveRow(v, kind, o), ObserveRow(w, kind, o);
    if v == w {
    } else if Field(v, kind) != Some(o.rating) && Field(w, kind) != Some(o.rating) {
      RatingEq(v', w', kind);
    }
  }

  lemma {:induction false} ConvergingPrefix(t: RatingTable, u: RatingTable, kind: Kind, obs: seq<Observation>, k: RatingKey, n: nat)
    requires n <= |obs|
    requires RowAt(u, k) == RowAt(ApplyObservations(t, kind, obs), k)
    ensures Converging(RowAt(ApplyObservations(u, kind, obs[..n]), k), RowAt(ApplyObservations(t, kind, obs[..n]), k), RowAt(u, k), kind)
    decreases n
  {
    if n == 0 {
      assert obs[..0] == [];
      ApplyRowOther(t, kind, obs, k);
    } else {
      ConvergingPrefix(t, u, kind, obs, k, n - 1);
      var p := obs[..n];
      assert p[..n - 1] == obs[..n - 1];
      var o := obs[n - 1];
      var v := ApplyObservations(u, kind, obs[..n - 1]);
      var w := ApplyObservations(t, kind, obs[..n - 1]);
      assert ApplyObservations(u, kind, p) == Observe(v, kind, o);
      assert ApplyObservations(t, kind, p) == Observe(w, kind, o);
      RowAtObserve(v, kind, o, k);
      RowAtObserve(w, kind, o, k);
      if o.key == k {
        ConvergingStep(RowAt(v, k), RowAt(w, k), RowAt(u, k), kind, o);
      }
    }
  }

  /**
   * A table that already agrees with the outcome of a pass on article `k`
   * is left as it is on `k` by the same pass, whatever classes and
   * timestamps the observations carry.
   */
  lemma ApplyAbsorbs(t: RatingTable, u: RatingTable, kind: Kind, obs: seq<Observation>, k: RatingKey)
    requires RowAt(u, k) == RowAt(ApplyObservations(t, kind, obs), k)
    ensures RowAt(ApplyObservations(u, kind, obs), k) == RowAt(u, k)
  {
    ConvergingPrefix(t, u, kind, obs, k, |obs|);
    assert obs[..|obs|] == obs;
  }

  /** Applying the same observations twice gives what applying them once gave. */
  lemma ApplyIdempotent(t: RatingTable, kind: Kind, obs: seq<Observation>)
    ensures var a := ApplyObservations(t, kind, obs); ApplyObservations(a, kind, obs) == a
  {
    var a := ApplyObservations(t, kind, obs);
    ApplyKeys(t, kind, obs);
    ApplyKeys(a, kind, obs);
    forall k | k in a ensures ApplyObservations(a, kind, obs)[k] == a[k] {
      ApplyAbsorbs(t, a, kind, obs, k);
    }
  }

  /** Running the same pass again changes nothing, timestamps included. */
  lemma ReconcileIdempotent(t: RatingTable, project: string, kind: Kind, obs: seq<Observation>)
    ensures var r := Reconciled(t, project, kind, obs); Reconciled(r, project, kind, obs) == r
  {
    var a := ApplyObservations(t, kind, obs);
    var seen := SeenKeys(obs);
    var r := Reconciled(t, project, kind, obs);
    ApplyKeys(t, kind, obs);
    ApplyKeys(r, kind, obs);
    var r2 := ApplyObservations(r, kind, obs);
    forall k | k in r ensures r2[k] == r[k] {
      if k in seen {
        assert r[k] == a[k];
        ApplyAbsorbs(t, r, kind, obs, k);
      }
    }
    assert r2 == r;
    assert Unseen(r, project, kind, seen) == {};
    assert ClearUnseen(r, kind, {}) == r;
  }
}
