/**
 * The rating-to-category dictionary the category walk fills in. Python
 * dictionaries remember insertion order and overwriting a key keeps its
 * place, and the reconciliation pass iterates in that order, so the
 * dictionary is an association list with those semantics.
 */
module RatingMaps {
  import opened Wrappers

  datatype Entry = Entry(rating: string, category: string)

  type RatingMap = seq<Entry>

  function Keys(d: RatingMap): set<string>
    decreases |d|
  {
    if d == [] then {} else {d[0].rating} + Keys(d[1..])
  }

  predicate DistinctKeys(d: RatingMap) {
    forall i, j :: 0 <= i < j < |d| ==> d[i].rating != d[j].rating
  }

  /** The key of every entry is a key of the dictionary. */
  lemma {:induction false} KeysHold(d: RatingMap)
    ensures forall i :: 0 <= i < |d| ==> d[i].rating in Keys(d)
    decreases |d|
  {
    if d != [] {
      KeysHold(d[1..]);
      assert forall i :: 1 <= i < |d| ==> d[i] == d[1..][i - 1];
    }
  }

  /** `d[rating]`, or None when the key is absent. */
  function Get(d: RatingMap, rating: string): (r: Option<string>)
    ensures r.Some? <==> rating in Keys(d)
    ensures r.Some? ==> Entry(rating, r.value) in d
    decreases |d|
  {
    if d == [] then None
    else if d[0].rating == rating then Some(d[0].category)
    else
      var r := Get(d[1..], rating);
      assert r.Some? ==> Entry(rating, r.value) in d by {
        if r.Some? { assert Entry(rating, r.value) in d[1..]; }
      }
      r
  }

  /** `d[rating] = category`: overwrites in place when the key is present, appends otherwise. */
  function Put(d: RatingMap, rating: string, category: string): (r: RatingMap)
    ensures Get(r, rating) == Some(category)
    ensures forall k :: k != rating ==> Get(r, k) == Get(d, k)
    ensures Keys(r) == Keys(d) + {rating}
    decreases |d|
  {
    if d == [] then [Entry(rating, category)]
    else if d[0].rating == rating then
      var r := [Entry(rating, category)] + d[1..];
      assert r[1..] == d[1..];
      r
    else
      var rest := Put(d[1..], rating, category);
      var r := [d[0]] + rest;
      assert r[1..] == rest;
      r
  }

  /** Overwriting a present key keeps every key in its place. */
  lemma {:induction false} PutExisting(d: RatingMap, rating: string, category: string)
    requires rating in Keys(d)
    ensures var r := Put(d, rating, category);
      |r| == |d| && forall i :: 0 <= i < |d| ==> r[i].rating == d[i].rating
    decreases |d|
  {
    if d[0].rating != rating {
      PutExisting(d[1..], rating, category);
      var r := Put(d, rating, category);
      assert r == [d[0]] + Put(d[1..], rating, category);
      forall i | 1 <= i < |d| ensures r[i].rating == d[i].rating {
        assert r[i] == Put(d[1..], rating, category)[i - 1];
        assert d[i] == d[1..][i - 1];
      }
    }
  }

  /** A new key goes last. */
  lemma {:induction false} PutNew(d: RatingMap, rating: string, category: string)
    requires rating !in Keys(d)
    ensures Put(d, rating, category) == d + [Entry(rating, category)]
    decreases |d|
  {
    if d != [] {
      var e := Entry(rating, category);
      assert d[0].rating != rating && rating !in Keys(d[1..]);
      PutNew(d[1..], rating, category);
      var rest := Put(d[1..], rating, category);
      assert Put(d, rating, category) == [d[0]] + rest;
      calc {
        [d[0]] + rest;
        [d[0]] + (d[1..] + [e]);
        { assert d == [d[0]] + d[1..]; }
        d + [e];
      }
    }
  }

  /** Distinct keys stay distinct. */
  lemma PutDistinct(d: RatingMap, rating: string, category: string)
    requires DistinctKeys(d)
    ensures DistinctKeys(Put(d, rating, category))
  {
    var r := Put(d, rating, category);
    if rating in Keys(d) {
      PutExisting(d, rating, category);
    } else {
      PutNew(d, rating, category);
      KeysHold(d);
    }
  }
}
