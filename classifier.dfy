/**
 * Rating classifier: maps a category title and an assessment kind to the
 * rating class it stands for, its rank and its replacement class.
 * A per-project override keyed by the exact title wins; otherwise the title
 * must start with a word token followed by a kind marker, and the token's
 * class must be in the kind's configured rank table.
 */
module Classifier {
  import opened Wrappers

  datatype Kind = Quality | Importance

  /** The rank tables, read-only configuration injected into the classifier. */
  datatype Config = Config(quality: map<string, int>, importance: map<string, int>)

  function RankTable(config: Config, kind: Kind): map<string, int> {
    match kind
    case Quality => config.quality
    case Importance => config.importance
  }

  /** A project's extra assessment: the class, rank and replaced class of one exact category title. */
  datatype Override = Override(title: string, ranking: int, replacement: string)

  type Overrides = map<string, Override>

  datatype Classification = Classification(rating: string, ranking: int, replacement: string)

  const ClassMarker: string := "-Class"
  const ImportanceMarker: string := "-importance"

  /** A regular-expression word character (ASCII letters, digits, underscore). */
  predicate IsWordChar(c: char) {
    ('a' <= c <= 'z') || ('A' <= c <= 'Z') || ('0' <= c <= '9') || c == '_'
  }

  predicate IsToken(s: string) {
    s != [] && forall i :: 0 <= i < |s| ==> IsWordChar(s[i])
  }

  /** The length of the longest prefix of `s` made of word characters. */
  function WordPrefixLength(s: string): (n: nat)
    ensures n <= |s|
    ensures forall i :: 0 <= i < n ==> IsWordChar(s[i])
    ensures n < |s| ==> !IsWordChar(s[n])
  {
    if s == [] || !IsWordChar(s[0]) then 0 else 1 + WordPrefixLength(s[1..])
  }

  /** Does a kind marker start at position `n` of `title`? */
  predicate MarkerAt(title: string, n: nat, kind: Kind)
    requires n <= |title|
  {
    ClassMarker <= title[n..] || (kind == Importance && ImportanceMarker <= title[n..])
  }

  /** The token a class category title begins with, if the title matches the kind's pattern. */
  function ClassToken(title: string, kind: Kind): (r: Option<string>)
    ensures r.Some? ==> IsToken(r.value) && r.value <= title && MarkerAt(title, |r.value|, kind)
  {
    var n := WordPrefixLength(title);
    if n > 0 && MarkerAt(title, n, kind) then Some(title[..n]) else None
  }

  /**
   * The classification of a category title: an override for the exact title
   * first; otherwise the matched token's class, if the kind's table ranks it,
   * replacing itself. Anything else is silently unclassified.
   */
  function Classify(title: string, kind: Kind, extra: Overrides, config: Config): (r: Option<Classification>)
    ensures title in extra ==>
      r == Some(Classification(extra[title].title, extra[title].ranking, extra[title].replacement))
    ensures title !in extra && r.Some? ==>
      && r.value.rating in RankTable(config, kind)
      && r.value.ranking == RankTable(config, kind)[r.value.rating]
      && r.value.replacement == r.value.rating
      && exists token :: IsToken(token) && r.value.rating == token + ClassMarker && token <= title
  {
    if title in extra then
      var o := extra[title];
      Some(Classification(o.title, o.ranking, o.replacement))
    else
      match ClassToken(title, kind)
      case None => None
      case Some(token) =>
        var rating := token + ClassMarker;
        if rating in RankTable(config, kind) then
          Some(Classification(rating, RankTable(config, kind)[rating], rating))
        else
          None
  }

  /** The word prefix of a token followed by a non-word character is the token itself. */
  lemma {:induction false} WordPrefixOfToken(token: string, rest: string)
    requires IsToken(token)
    requires rest != [] && !IsWordChar(rest[0])
    ensures WordPrefixLength(token + rest) == |token|
  {
    if |token| > 1 {
      assert (token + rest)[1..] == token[1..] + rest;
      WordPrefixOfToken(token[1..], rest);
    } else {
      assert (token + rest)[1..] == rest;
    }
  }

  /** Parsing a title built from a token, a kind marker and any suffix gives the token back. */
  lemma ClassTokenOf(token: string, marker: string, suffix: string, kind: Kind)
    requires IsToken(token)
    requires marker == ClassMarker || (kind == Importance && marker == ImportanceMarker)
    ensures ClassToken(token + marker + suffix, kind) == Some(token)
  {
    var title := token + marker + suffix;
    assert title == token + (marker + suffix);
    WordPrefixOfToken(token, marker + suffix);
    assert title[..|token|] == token;
    assert title[|token|..] == marker + suffix;
  }

  /**
   * A title `<X><marker><suffix>` with no override, whose class `X-Class` is
   * configured for the kind, is classified as `X-Class` with the configured rank,
   * replacing itself.
   */
  lemma ClassifyConfigured(token: string, marker: string, suffix: string, kind: Kind, extra: Overrides, config: Config)
    requires IsToken(token)
    requires marker == ClassMarker || (kind == Importance && marker == ImportanceMarker)
    requires token + marker + suffix !in extra
    requires token + ClassMarker in RankTable(config, kind)
    ensures var rating := token + ClassMarker;
      Classify(token + marker + suffix, kind, extra, config)
        == Some(Classification(rating, RankTable(config, kind)[rating], rating))
  {
    ClassTokenOf(token, marker, suffix, kind);
  }

  /** A title `<X><marker><suffix>` with no override whose class is not configured is skipped. */
  lemma ClassifyUnconfigured(token: string, marker: string, suffix: string, kind: Kind, extra: Overrides, config: Config)
    requires IsToken(token)
    requires marker == ClassMarker || (kind == Importance && marker == ImportanceMarker)
    requires token + marker + suffix !in extra
    requires token + ClassMarker !in RankTable(config, kind)
    ensures Classify(token + marker + suffix, kind, extra, config) == None
  {
    ClassTokenOf(token, marker, suffix, kind);
  }

  /** A title with no override that does not begin with a word token and a marker is skipped. */
  lemma ClassifyUnmatched(title: string, kind: Kind, extra: Overrides, config: Config)
    requires title !in extra
    requires WordPrefixLength(title) == 0 || !MarkerAt(title, WordPrefixLength(title), kind)
    ensures Classify(title, kind, extra, config) == None
  {
  }

  /** `123*go`: the word prefix `123` is followed by `*`, not a marker. */
  lemma ClassifyNoPatternExample(kind: Kind, config: Config)
    ensures Classify("123*go", kind, map[], config) == None
  {
    assert WordPrefixLength("123*go") == 3 by {
      WordPrefixOfToken("123", "*go");
      assert "123" + "*go" == "123*go";
    }
    assert !MarkerAt("123*go", 3, kind) by {
      assert "123*go"[3..] == "*go";
    }
  }
}
