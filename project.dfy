/**
 * The project logic over the ratings database: the category writer, the
 * category walk, the per-kind reconciliation of ratings, the cleanup pass
 * and the project record update. The database's category, rating and move
 * tables are fields of `Wp10Db` that the operations update in place; the
 * wiki is a read-only sequence of category links passed in.
 */
module Project {
  import opened Wrappers
  import opened Classifier
  import opened RatingMaps
  import opened Wiki
  import opened CategoryWalk
  import opened Reconcile
  import opened Cleanup
  import opened ProjectStats

  /** The metadata a project record is refreshed with. */
  datatype Metadata = Metadata(homepage: string, shortname: string, parent: string)

  /** A project row; its fields are assigned by `UpdateProjectRecord`. */
  class ProjectRecord {
    const name: string
    var timestamp: Option<string>
    var wikipage: Option<string>
    var shortname: Option<string>
    var parent: Option<string>
    var count: nat
    var qcount: nat
    var icount: nat

    constructor (name: string, timestamp: Option<string>)
      ensures this.name == name && this.timestamp == timestamp
      ensures wikipage == None && shortname == None && parent == None
      ensures count == 0 && qcount == 0 && icount == 0
    {
      this.name := name;
      this.timestamp := timestamp;
      wikipage, shortname, parent := None, None, None;
      count, qcount, icount := 0, 0, 0;
    }
  }

  /** The rows of `start` the cleanup loop has visited so far are cleaned, the others are as they were. */
  ghost function PartlyCleaned(start: RatingTable, done: set<RatingKey>): RatingTable {
    map k | k in start && !(k in done && Empty(start[k])) :: if k in done then FillRow(start[k]) else start[k]
  }

  class Wp10Db {
    var categories: CategoryTable
    var ratings: RatingTable
    var moves: set<Move>

    constructor ()
      ensures categories == map[] && ratings == map[] && moves == {}
    {
      categories, ratings, moves := map[], map[], {};
    }

    /**
     * Classifies one category page and, when it classifies, upserts its
     * category row and points the dictionary's entry for its class at it.
     */
    method UpdateCategory(project: string, title: string, extra: Overrides, kind: Kind, config: Config, rtc: RatingMap)
      returns (rtc': RatingMap)
      modifies this`categories
      ensures categories == WriteCategory(old(categories), project, kind, title, extra, config)
      ensures rtc' == RecordRating(rtc, kind, title, extra, config)
      ensures Classify(title, kind, extra, config).None? ==> categories == old(categories) && rtc' == rtc
      ensures Classify(title, kind, extra, config).Some? ==>
        var c := Classify(title, kind, extra, config).value;
        && categories[CategoryKey(project, kind, title)] == CategoryRow(c.rating, c.ranking, c.replacement)
        && Get(rtc', c.rating) == Some(title)
    {
      match Classify(title, kind, extra, config)
      case None =>
        rtc' := rtc;
      case Some(c) =>
        categories := categories[CategoryKey(project, kind, title) := CategoryRow(c.rating, c.ranking, c.replacement)];
        rtc' := Put(rtc, c.rating, title);
    }

    /**
     * Walks the category pages under the project's roots for `kind`,
     * recording each one that classifies, and returns the dictionary from
     * class to category title.
     */
    method UpdateProjectCategoriesByKind(wiki: seq<Link>, project: string, extra: Overrides, kind: Kind, config: Config)
      returns (rtc: RatingMap)
      modifies this`categories
      ensures categories == WriteCategories(old(categories), project, kind, RootCategoryTitles(wiki, project, kind), extra, config)
      ensures rtc == RatingToCategory([], kind, RootCategoryTitles(wiki, project, kind), extra, config)
    {
      var titles := RootCategoryTitles(wiki, project, kind);
      rtc := [];
      for i := 0 to |titles|
        invariant categories == WriteCategories(old(categories), project, kind, titles[..i], extra, config)
        invariant rtc == RatingToCategory([], kind, titles[..i], extra, config)
      {
        WalkStep(old(categories), [], project, kind, titles, i, extra, config);
        rtc := UpdateCategory(project, titles[i], extra, kind, config, rtc);
      }
      assert titles[..|titles|] == titles;
    }

    /** Upserts one observation: insert a new row, overwrite a different value, keep an equal one. */
    method UpsertRating(o: Observation, kind: Kind)
      modifies this`ratings
      ensures ratings == Observe(old(ratings), kind, o)
    {
      if o.key in ratings {
        if Field(ratings[o.key], kind) != Some(o.rating) {
          ratings := ratings[o.key := WithField(ratings[o.key], kind, Some(o.rating), Some(o.timestamp))];
        }
      } else {
        ratings := ratings[o.key := WithField(Blank, kind, Some(o.rating), Some(o.timestamp))];
      }
    }

    /** Upserts the rating of every talk page in one class category. */
    method ObserveCategory(wiki: seq<Link>, project: string, e: Entry, kind: Kind,
                           ghost before: RatingTable, ghost obs: seq<Observation>, seen: set<RatingKey>)
      returns (seen': set<RatingKey>)
      requires ratings == ApplyObservations(before, kind, obs) && seen == SeenKeys(obs)
      modifies this`ratings
      ensures var all := obs + LinkObservations(project, Members(wiki, e.category), e.rating);
        ratings == ApplyObservations(before, kind, all) && seen' == SeenKeys(all)
    {
      var members := Members(wiki, e.category);
      seen' := seen;
      ghost var found: seq<Observation> := [];
      assert obs + found == obs;
      for j := 0 to |members|
        invariant found == LinkObservations(project, members[..j], e.rating)
        invariant ratings == ApplyObservations(before, kind, obs + found)
        invariant seen' == SeenKeys(obs + found)
      {
        var l := members[j];
        assert members[..j + 1][..j] == members[..j];
        if IsTalkNs(l.ns) {
          var o := ObservationOf(project, l, e.rating);
          UpsertRating(o, kind);
          seen' := seen' + {o.key};
          assert (obs + found + [o])[..|obs + found|] == obs + found;
          assert SeenKeys(obs + found + [o]) == SeenKeys(obs + found) + {o.key};
          assert obs + (found + [o]) == obs + found + [o];
          found := found + [o];
        }
      }
      assert members[..|members|] == members;
    }

    /** Upserts the ratings seen in every class category, in dictionary order; returns the keys seen. */
    method ObserveAll(wiki: seq<Link>, project: string, rtc: RatingMap, kind: Kind) returns (seen: set<RatingKey>)
      modifies this`ratings
      ensures var obs := Observations(wiki, project, rtc);
        ratings == ApplyObservations(old(ratings), kind, obs) && seen == SeenKeys(obs)
    {
      ghost var before := ratings;
      ghost var obs: seq<Observation> := [];
      seen := {};
      for i := 0 to |rtc|
        invariant obs == Observations(wiki, project, rtc[..i])
        invariant ratings == ApplyObservations(before, kind, obs)
        invariant seen == SeenKeys(obs)
      {
        assert rtc[..i + 1][..i] == rtc[..i];
        seen := ObserveCategory(wiki, project, rtc[i], kind, before, obs, seen);
        obs := obs + LinkObservations(project, Members(wiki, rtc[i].category), rtc[i].rating);
      }
      assert rtc[..|rtc|] == rtc;
    }

    /**
     * Clears `kind` on every unseen row, and logs a move for each one the
     * page lookup reports under another namespace or title.
     */
    method ClearUnseenRatings(unseen: set<RatingKey>, kind: Kind, lookup: (int, string) -> Option<PageInfo>)
      requires unseen <= ratings.Keys
      modifies this`ratings, this`moves
      ensures ratings == ClearUnseen(old(ratings), kind, unseen)
      ensures moves == old(moves) + MovesOf(unseen, lookup)
    {
      var start := ratings;
      var todo := unseen;
      ghost var done: set<RatingKey> := {};
      while todo != {}
        invariant todo + done == unseen && todo !! done
        invariant ratings == ClearUnseen(start, kind, done)
        invariant moves == old(moves) + MovesOf(done, lookup)
        decreases todo
      {
        var k :| k in todo;
        var m := MoveOf(k, lookup(k.ns, k.article));
        if m.Some? {
          moves := moves + {m.value};
        }
        ClearUnseenStep(start, kind, done, k);
        MovesOfStep(done, k, lookup);
        ratings := ratings[k := ClearField(ratings[k], kind)];
        todo := todo - {k};
        done := done + {k};
      }
    }

    /**
     * Reconciles the project's ratings for `kind`: walks the categories,
     * upserts a rating for every talk page in a class category, then clears
     * `kind` on every previously rated article that was not seen, logging a
     * move when the page lookup reports the article under another title.
     */
    method UpdateProjectAssessments(wiki: seq<Link>, project: string, extra: Overrides, kind: Kind, config: Config,
                                    lookup: (int, string) -> Option<PageInfo>)
      modifies this`categories, this`ratings, this`moves
      ensures var titles := RootCategoryTitles(wiki, project, kind);
        categories == WriteCategories(old(categories), project, kind, titles, extra, config)
      ensures var obs := Observations(wiki, project, RatingToCategory([], kind, RootCategoryTitles(wiki, project, kind), extra, config));
        && ratings == Reconciled(old(ratings), project, kind, obs)
        && moves == old(moves) + MovesOf(Unseen(old(ratings), project, kind, SeenKeys(obs)), lookup)
    {
      var before := ratings;
      var rtc := UpdateProjectCategoriesByKind(wiki, project, extra, kind, config);
      var seen := ObserveAll(wiki, project, rtc, kind);
      ghost var obs := Observations(wiki, project, rtc);
      ApplyKeys(before, kind, obs);
      var unseen := set k | k in before && k.project == project && Field(before[k], kind).Some? && k !in seen;
      assert unseen == Unseen(before, project, kind, SeenKeys(obs));
      ClearUnseenRatings(unseen, kind, lookup);
    }

    /**
     * Cleans the project's ratings row by row: a missing field becomes the
     * sentinel, and a row left with no real class is deleted.
     */
    method CleanupProject(project: string)
      modifies this`ratings
      ensures ratings == Cleaned(old(ratings), project)
    {
      var start := ratings;
      var todo := set k | k in ratings && k.project == project;
      ghost var done: set<RatingKey> := {};
      while todo != {}
        invariant todo + done == ProjectRows(start, project) && todo !! done
        invariant ratings == PartlyCleaned(start, done)
        decreases todo
      {
        var k :| k in todo;
        var r := ratings[k];
        var q := if r.quality.None? then Some(NotAClass) else r.quality;
        var i := if r.importance.None? then Some(NotAClass) else r.importance;
        if q == Some(NotAClass) && i == Some(NotAClass) {
          ratings := ratings - {k};
        } else {
          ratings := ratings[k := r.(quality := q, importance := i)];
        }
        todo := todo - {k};
        done := done + {k};
      }
    }

    /**
     * Stores the metadata on the project record and recomputes its counts
     * from the project's rating rows.
     */
    method UpdateProjectRecord(project: ProjectRecord, metadata: Metadata)
      modifies project
      ensures project.timestamp == old(project.timestamp)
      ensures project.wikipage == Some(metadata.homepage)
      ensures project.shortname == Some(metadata.shortname)
      ensures project.parent == Some(metadata.parent)
      ensures project.count == |ProjectRows(ratings, project.name)|
      ensures project.qcount == |AssessedRows(ratings, project.name, Quality)|
      ensures project.icount == |AssessedRows(ratings, project.name, Importance)|
    {
      project.wikipage := Some(metadata.homepage);
      project.shortname := Some(metadata.shortname);
      project.parent := Some(metadata.parent);
      project.count := |ProjectRows(ratings, project.name)|;
      project.qcount := |AssessedRows(ratings, project.name, Quality)|;
      project.icount := |AssessedRows(ratings, project.name, Importance)|;
    }
  }
}
