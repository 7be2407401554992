/**
 * What one walk over a project's class categories writes: a category row
 * per classified title, and the rating-to-category dictionary. Both are
 * folds of `update_category` over the candidate titles in walk order.
 */
module CategoryWalk {
  import opened Wrappers
  import opened Classifier
  import opened RatingMaps

  /** A category row is unique per project, kind and category title. */
  datatype CategoryKey = CategoryKey(project: string, kind: Kind, title: string)

  datatype CategoryRow = CategoryRow(rating: string, ranking: int, replacement: string)

  type CategoryTable = map<CategoryKey, CategoryRow>

  function RowOf(c: Classification): CategoryRow {
    CategoryRow(c.rating, c.ranking, c.replacement)
  }

  predicate Classified(title: string, kind: Kind, extra: Overrides, config: Config) {
    Classify(title, kind, extra, config).Some?
  }

  function RatingOf(title: string, kind: Kind, extra: Overrides, config: Config): string
    requires Classified(title, kind, extra, config)
  {
    Classify(title, kind, extra, config).value.rating
  }

  /** The category table after `update_category` for one title. */
  function WriteCategory(t: CategoryTable, project: string, kind: Kind, title: string, extra: Overrides, config: Config): CategoryTable {
    match Classify(title, kind, extra, config)
    case None => t
    case Some(c) => t[CategoryKey(project, kind, title) := RowOf(c)]
  }

  /** The dictionary after `update_category` for one title. */
  function RecordRating(d: RatingMap, kind: Kind, title: string, extra: Overrides, config: Config): RatingMap {
    match Classify(title, kind, extra, config)
    case None => d
    case Some(c) => Put(d, c.rating, title)
  }

  function WriteCategories(t: CategoryTable, project: string, kind: Kind, titles: seq<string>, extra: Overrides, config: Config): CategoryTable
    decreases |titles|
  {
    if titles == [] then t
    else WriteCategory(WriteCategories(t, project, kind, titles[..|titles| - 1], extra, config),
                       project, kind, titles[|titles| - 1], extra, config)
  }

  function RatingToCategory(d: RatingMap, kind: Kind, titles: seq<string>, extra: Overrides, config: Config): RatingMap
    decreases |titles|
  {
    if titles == [] then d
    else RecordRating(RatingToCategory(d, kind, titles[..|titles| - 1], extra, config),
                      kind, titles[|titles| - 1], extra, config)
  }

  /** Walking one more title applies `update_category` to it. */
  lemma WalkStep(t: CategoryTable, d: RatingMap, project: string, kind: Kind, titles: seq<string>, i: nat, extra: Overrides, config: Config)
    requires i < |titles|
    ensures WriteCategories(t, project, kind, titles[..i + 1], extra, config)
      == WriteCategory(WriteCategories(t, project, kind, titles[..i], extra, config), project, kind, titles[i], extra, config)
    ensures RatingToCategory(d, kind, titles[..i + 1], extra, config)
      == RecordRating(RatingToCategory(d, kind, titles[..i], extra, config), kind, titles[i], extra, config)
  {
    assert titles[..i + 1][..i] == titles[..i];
  }

  /** Is `k` a row the walk over `titles` writes? */
  predicate Written(k: CategoryKey, project: string, kind: Kind, titles: seq<string>, extra: Overrides, config: Config) {
    k.project == project && k.kind == kind && k.title in titles && Classified(k.title, kind, extra, config)
  }

  /**
   * The walk writes exactly one row per classified title, keyed by this
   * project and kind, holding that title's classification; every other row
   * is left as it was.
   */
  lemma {:induction false} WriteCategoriesExactly(t: CategoryTable, project: string, kind: Kind, titles: seq<string>, extra: Overrides, config: Config)
    ensures var r := WriteCategories(t, project, kind, titles, extra, config);
      && (forall k :: k in r <==> k in t || Written(k, project, kind, titles, extra, config))
      && (forall k :: k in r && Written(k, project, kind, titles, extra, config) ==>
            r[k] == RowOf(Classify(k.title, kind, extra, config).value))
      && (forall k :: k in r && !Written(k, project, kind, titles, extra, config) ==> r[k] == t[k])
    decreases |titles|
  {
    if titles != [] {
      var init := titles[..|titles| - 1];
      var last := titles[|titles| - 1];
      WriteCategoriesExactly(t, project, kind, init, extra, config);
      var prev := WriteCategories(t, project, kind, init, extra, config);
      var r := WriteCategories(t, project, kind, titles, extra, config);
      assert r == WriteCategory(prev, project, kind, last, extra, config);
      WrittenStep(project, kind, init, last, extra, config);
      assert titles == init + [last];
      var lastKey := CategoryKey(project, kind, last);
      forall k | k in r && Written(k, project, kind, titles, extra, config)
        ensures r[k] == RowOf(Classify(k.title, kind, extra, config).value)
      {
        if k != lastKey {
          assert Written(k, project, kind, init, extra, config);
        }
      }
      forall k | k in r && !Written(k, project, kind, titles, extra, config)
        ensures r[k] == t[k]
      {
        assert k != lastKey || !Classified(last, kind, extra, config);
      }
    }
  }

  /** The rows written by a walk that ends in `last`. */
  lemma WrittenStep(project: string, kind: Kind, init: seq<string>, last: string, extra: Overrides, config: Config)
    ensures forall k :: Written(k, project, kind, init + [last], extra, config) <==>
      Written(k, project, kind, init, extra, config) ||
      (k == CategoryKey(project, kind, last) && Classified(last, kind, extra, config))
  {
    assert forall s :: s in init + [last] <==> s in init || s == last;
  }

  /** The classes of the titles that classify. */
  function ClassesOf(titles: seq<string>, kind: Kind, extra: Overrides, config: Config): (r: set<string>)
    ensures forall x :: x in r <==> exists t :: t in titles && Classified(t, kind, extra, config) && RatingOf(t, kind, extra, config) == x
    decreases |titles|
  {
    if titles == [] then {}
    else
      var init := titles[..|titles| - 1];
      var last := titles[|titles| - 1];
      assert titles == init + [last];
      ClassesOf(init, kind, extra, config) +
        (if Classified(last, kind, extra, config) then {RatingOf(last, kind, extra, config)} else {})
  }

  /** The dictionary's keys are the given keys plus the class of every title that classifies. */
  lemma {:induction false} RatingToCategoryKeys(d: RatingMap, kind: Kind, titles: seq<string>, extra: Overrides, config: Config)
    ensures Keys(RatingToCategory(d, kind, titles, extra, config)) == Keys(d) + ClassesOf(titles, kind, extra, config)
    decreases |titles|
  {
    if titles != [] {
      RatingToCategoryKeys(d, kind, titles[..|titles| - 1], extra, config);
    }
  }

  /** Every value of the dictionary is a walked title that classifies to its key. */
  lemma {:induction false} RatingToCategoryValues(kind: Kind, titles: seq<string>, extra: Overrides, config: Config, rating: string)
    requires Get(RatingToCategory([], kind, titles, extra, config), rating).Some?
    ensures var c := Get(RatingToCategory([], kind, titles, extra, config), rating).value;
      c in titles && Classified(c, kind, extra, config) && RatingOf(c, kind, extra, config) == rating
    decreases |titles|
  {
    var init := titles[..|titles| - 1];
    var last := titles[|titles| - 1];
    assert titles == init + [last];
    var d := RatingToCategory([], kind, init, extra, config);
    if Classified(last, kind, extra, config) && RatingOf(last, kind, extra, config) == rating {
    } else {
      assert Get(d, rating) == Get(RatingToCategory([], kind, titles, extra, config), rating);
      RatingToCategoryValues(kind, init, extra, config, rating);
    }
  }

  /**
   * Last writer wins: a class's entry is the last walked title classified
   * to that class.
   */
  lemma {:induction false} LastWriterWins(d: RatingMap, kind: Kind, titles: seq<string>, extra: Overrides, config: Config, i: nat)
    requires i < |titles| && Classified(titles[i], kind, extra, config)
    requires forall j :: i < j < |titles| && Classified(titles[j], kind, extra, config) ==>
      RatingOf(titles[j], kind, extra, config) != RatingOf(titles[i], kind, extra, config)
    ensures Get(RatingToCategory(d, kind, titles, extra, config), RatingOf(titles[i], kind, extra, config)) == Some(titles[i])
    decreases |titles|
  {
    var init := titles[..|titles| - 1];
    if i < |titles| - 1 {
      LastWriterWins(d, kind, init, extra, config, i);
    }
  }

  /**
   * With no overrides every written row's rating is its replacement, so the
   * set of ratings equals the set of replacements.
   */
  lemma NoOverridesReplaceThemselves(t: CategoryTable, project: string, kind: Kind, titles: seq<string>, config: Config, k: CategoryKey)
    requires Written(k, project, kind, titles, map[], config)
    ensures var r := WriteCategories(t, project, kind, titles, map[], config);
      k in r && r[k].rating == r[k].replacement
  {
    WriteCategoriesExactly(t, project, kind, titles, map[], config);
  }
}
