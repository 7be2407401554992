/**
 * The simple-selection web endpoints, without HTTP: validating the article
 * list posted to create a simple selection, and assembling the builders and
 * their selections for the lists view. Status codes become result tags.
 */
module SimpleSelection {
  import opened Wrappers

  // ------------------------------------------------------------ article list

  /** The user stored in the session by the login flow. */
  datatype User = User(accessToken: string, username: string, sub: string)

  datatype Items = Items(valid: seq<string>, invalid: seq<string>, errors: seq<string>)

  /** The outcome of posting a simple selection. */
  datatype CreateResponse =
    | Unauthorized               // 401: nobody is logged in
    | BadRequest                 // 400: a required field is empty
    | Rejected(items: Items)     // `success: false` with the valid, invalid and error lists
    | Accepted(articles: seq<string>)  // `success: true` with empty items; `articles` are the names kept

  /** Characters a page title cannot contain. */
  const ForbiddenChars: string := "#<>[]|{}"

  const ErrorPrefix: string := "The list contained the following invalid characters: "

  function JoinLines(lines: seq<string>): string
    requires |lines| >= 1
    decreases |lines|
  {
    if |lines| == 1 then lines[0] else lines[0] + "\n" + JoinLines(lines[1..])
  }

  /** `s.split('\n')`: the pieces between newlines; joining them back gives `s`. */
  function SplitLines(s: string): (r: seq<string>)
    ensures |r| >= 1
    ensures forall i :: 0 <= i < |r| ==> '\n' !in r[i]
    ensures JoinLines(r) == s
    decreases |s|
  {
    if s == [] then [""]
    else if s[0] == '\n' then
      var rest := SplitLines(s[1..]);
      assert s == "" + "\n" + JoinLines(rest);
      [""] + rest
    else
      var rest := SplitLines(s[1..]);
      var r := [[s[0]] + rest[0]] + rest[1..];
      assert r[1..] == rest[1..];
      r
  }

  /** Splitting the newline-join of newline-free lines gives the lines back. */
  lemma {:induction false} SplitJoin(lines: seq<string>)
    requires |lines| >= 1
    requires forall i :: 0 <= i < |lines| ==> '\n' !in lines[i]
    ensures SplitLines(JoinLines(lines)) == lines
    decreases |lines|, |lines[0]|
  {
    if |lines[0]| > 0 {
      var first := lines[0];
      var tail := [first[1..]] + lines[1..];
      assert JoinLines(lines) == [first[0]] + JoinLines(tail) by {
        if |lines| == 1 {
        } else {
          assert tail[1..] == lines[1..];
          assert first == [first[0]] + first[1..];
        }
      }
      assert '\n' !in tail[0];
      assert forall i :: 1 <= i < |tail| ==> tail[i] == lines[i];
      SplitJoin(tail);
      assert first == [first[0]] + tail[0];
      assert tail[1..] == lines[1..];
      assert lines == [[first[0]] + tail[0]] + tail[1..];
    } else if |lines| > 1 {
      assert JoinLines(lines) == "\n" + JoinLines(lines[1..]);
      SplitJoin(lines[1..]);
    }
  }

  /** Spaces become underscores, as in page titles. */
  function Underscored(name: string): (r: string)
    ensures |r| == |name| && ' ' !in r
    ensures forall i :: 0 <= i < |name| && name[i] == ' ' ==> r[i] == '_'
    ensures forall i :: 0 <= i < |name| && name[i] != ' ' ==> r[i] == name[i]
  {
    seq(|name|, i requires 0 <= i < |name| => if name[i] == ' ' then '_' else name[i])
  }

  /** Underscoring works character by character, so it leaves newlines where they are. */
  lemma {:induction false} UnderscoredJoin(lines: seq<string>, us: seq<string>)
    requires |lines| >= 1 && |us| == |lines|
    requires forall i :: 0 <= i < |lines| ==> us[i] == Underscored(lines[i])
    ensures JoinLines(us) == Underscored(JoinLines(lines))
    decreases |lines|
  {
    if |lines| > 1 {
      UnderscoredJoin(lines[1..], us[1..]);
      var a, b := lines[0], JoinLines(lines[1..]);
      var whole := a + "\n" + b;
      assert Underscored(whole) == Underscored(a) + "\n" + Underscored(b) by {
        var u := Underscored(whole);
        forall i | 0 <= i < |whole|
          ensures u[i] == (Underscored(a) + "\n" + Underscored(b))[i]
        {
          if i < |a| {
            assert whole[i] == a[i];
          } else if i == |a| {
            assert whole[i] == '\n';
          } else {
            assert whole[i] == b[i - |a| - 1];
          }
        }
      }
    }
  }

  predicate IsValidName(name: string) {
    forall i :: 0 <= i < |name| ==> name[i] !in ForbiddenChars
  }

  /** The forbidden characters of `names`, each once, in order of first appearance. */
  function BadChars(names: seq<string>, found: seq<char>): (r: seq<char>)
    requires forall c :: c in found ==> c in ForbiddenChars
    ensures forall c :: c in r ==> c in ForbiddenChars
    ensures found <= r
    ensures forall c :: c in r <==> c in found || exists n :: n in names && c in n && c in ForbiddenChars
    decreases |names|
  {
    if names == [] then found
    else BadChars(names[1..], BadCharsOf(names[0], found))
  }

  function BadCharsOf(name: string, found: seq<char>): (r: seq<char>)
    requires forall c :: c in found ==> c in ForbiddenChars
    ensures forall c :: c in r ==> c in ForbiddenChars
    ensures found <= r
    ensures forall c :: c in r <==> c in found || (c in name && c in ForbiddenChars)
    decreases |name|
  {
    if name == [] then found
    else
      var f := if name[0] in ForbiddenChars && name[0] !in found then found + [name[0]] else found;
      BadCharsOf(name[1..], f)
  }

  predicate NoDuplicates(cs: seq<char>) {
    forall i, j :: 0 <= i < j < |cs| ==> cs[i] != cs[j]
  }

  /** The distinct forbidden characters of `names`, in order of first appearance. */
  function InvalidChars(names: seq<string>): (r: seq<char>)
    ensures NoDuplicates(r)
    ensures forall c :: c in r <==> c in ForbiddenChars && exists n :: n in names && c in n
  {
    DistinctKept(names, []);
    BadChars(names, [])
  }

  lemma {:induction false} DistinctKeptOf(name: string, found: seq<char>)
    requires forall c :: c in found ==> c in ForbiddenChars
    requires NoDuplicates(found)
    ensures NoDuplicates(BadCharsOf(name, found))
    decreases |name|
  {
    if name != [] {
      var f := if name[0] in ForbiddenChars && name[0] !in found then found + [name[0]] else found;
      DistinctKeptOf(name[1..], f);
    }
  }

  lemma {:induction false} DistinctKept(names: seq<string>, found: seq<char>)
    requires forall c :: c in found ==> c in ForbiddenChars
    requires NoDuplicates(found)
    ensures NoDuplicates(BadChars(names, found))
    decreases |names|
  {
    if names != [] {
      DistinctKeptOf(names[0], found);
      DistinctKept(names[1..], BadCharsOf(names[0], found));
    }
  }

  /** The characters separated by ", ". */
  function CommaList(cs: seq<char>): (r: string)
    ensures |cs| == 1 ==> r == cs
    ensures cs == [] <==> r == []
  {
    if |cs| <= 1 then cs else [cs[0]] + ", " + CommaList(cs[1..])
  }

  /** The elements of `s` that satisfy `p`, in their order in `s`. */
  function Filter<T(!new)>(s: seq<T>, p: T -> bool): (r: seq<T>)
    ensures |r| <= |s|
    ensures forall x :: x in r <==> x in s && p(x)
  {
    if s == [] then [] else (if p(s[0]) then [s[0]] else []) + Filter(s[1..], p)
  }

  /** Filtering keeps the input order: it distributes over concatenation. */
  lemma {:induction false} FilterAppend<T(!new)>(a: seq<T>, b: seq<T>, p: T -> bool)
    ensures Filter(a + b, p) == Filter(a, p) + Filter(b, p)
    decreases |a|
  {
    if a != [] {
      assert (a + b)[0] == a[0];
      assert (a + b)[1..] == a[1..] + b;
      FilterAppend(a[1..], b, p);
    } else {
      assert a + b == b;
    }
  }

  lemma FilterCons<T(!new)>(s: seq<T>, p: T -> bool)
    requires s != []
    ensures multiset(Filter(s, p)) == (if p(s[0]) then multiset{s[0]} else multiset{}) + multiset(Filter(s[1..], p))
  {
  }

  lemma {:induction false} FilterNone<T(!new)>(s: seq<T>, p: T -> bool)
    requires forall x :: x in s ==> !p(x)
    ensures Filter(s, p) == []
  {
    if s != [] {
      assert s[0] in s;
      FilterNone(s[1..], p);
    }
  }

  lemma FilterPair<T(!new)>(a: T, b: T, p: T -> bool)
    ensures Filter([a, b], p) == (if p(a) then [a] else []) + (if p(b) then [b] else [])
  {
    assert [a, b][1..] == [b];
  }

  /** Filtering by `p` and by its negation splits `s` into two parts that together hold every element. */
  lemma {:induction false} FilterPartition<T(!new)>(s: seq<T>, p: T -> bool, q: T -> bool)
    requires forall x :: q(x) <==> !p(x)
    ensures multiset(Filter(s, p)) + multiset(Filter(s, q)) == multiset(s)
  {
    if s != [] {
      var x := s[0];
      var rest := s[1..];
      FilterPartition(rest, p, q);
      assert multiset(s) == multiset{x} + multiset(rest) by {
        assert s == [x] + rest;
      }
      FilterCons(s, p);
      FilterCons(s, q);
      assert q(x) <==> !p(x);
    }
  }

  /**
   * The names of the posted text: one per line, spaces turned into
   * underscores. Joined back with newlines they give the underscored text.
   */
  function Names(articles: string): (r: seq<string>)
    ensures |r| >= 1
    ensures forall i :: 0 <= i < |r| ==> '\n' !in r[i] && ' ' !in r[i]
    ensures JoinLines(r) == Underscored(articles)
  {
    var lines := SplitLines(articles);
    var r := seq(|lines|, i requires 0 <= i < |lines| => Underscored(lines[i]));
    UnderscoredJoin(lines, r);
    r
  }

  /** The names are the lines of the underscored text. */
  lemma NamesAreUnderscoredLines(articles: string)
    ensures Names(articles) == SplitLines(Underscored(articles))
  {
    SplitJoin(Names(articles));
  }

  function ValidNames(names: seq<string>): seq<string> {
    Filter(names, IsValidName)
  }

  function InvalidNames(names: seq<string>): seq<string> {
    Filter(names, IsInvalidName)
  }

  predicate IsInvalidName(name: string) {
    !IsValidName(name)
  }

  /** The single error reported for a list that holds invalid names. */
  function ErrorFor(invalid: seq<string>): string {
    ErrorPrefix + CommaList(InvalidChars(invalid))
  }

  /**
   * POST /v1/selection/simple: the login check comes first, then the three
   * required fields, then the article names. `user` is the session's user.
   */
  function CreateSimple(user: Option<User>, articles: string, listName: string, project: string): (r: CreateResponse)
    ensures r == Unauthorized <==> user.None?
    ensures r == BadRequest <==> user.Some? && (articles == "" || listName == "" || project == "")
    ensures r.Rejected? ==>
      r.items.invalid != [] && r.items.errors == [ErrorFor(r.items.invalid)] &&
      (forall n :: n in r.items.valid <==> n in Names(articles) && IsValidName(n)) &&
      (forall n :: n in r.items.invalid <==> n in Names(articles) && !IsValidName(n))
    ensures r.Accepted? ==> r.articles == Names(articles) && forall n :: n in r.articles ==> IsValidName(n)
  {
    if user.None? then Unauthorized
    else if articles == "" || listName == "" || project == "" then BadRequest
    else
      var names := Names(articles);
      var invalid := InvalidNames(names);
      if invalid == [] then Accepted(names)
      else Rejected(Items(ValidNames(names), invalid, [ErrorFor(invalid)]))
  }

  /** No invalid names means every name is valid, and the two lists together hold every name. */
  lemma SplitNames(names: seq<string>)
    ensures InvalidNames(names) == [] <==> forall n :: n in names ==> IsValidName(n)
    ensures multiset(ValidNames(names)) + multiset(InvalidNames(names)) == multiset(names)
  {
    var invalid := InvalidNames(names);
    if invalid != [] {
      assert invalid[0] in invalid;
    }
    FilterPartition(names, IsValidName, IsInvalidName);
  }

  /** A complete request is accepted exactly when every line is a valid name, and no name is lost. */
  lemma CreateAcceptedIffAllValid(user: User, articles: string, listName: string, project: string)
    requires articles != "" && listName != "" && project != ""
    ensures CreateSimple(Some(user), articles, listName, project).Accepted? <==> forall n :: n in Names(articles) ==> IsValidName(n)
    ensures CreateSimple(Some(user), articles, listName, project).Rejected? ==>
      var items := CreateSimple(Some(user), articles, listName, project).items;
      multiset(items.valid) + multiset(items.invalid) == multiset(Names(articles))
  {
    SplitNames(Names(articles));
  }

  lemma NamesExample(text: string, first: string, second: string, secondName: string)
    requires text == first + "\n" + second
    requires '\n' !in first && '\n' !in second && ' ' !in first
    requires secondName == Underscored(second)
    ensures Names(text) == [first, secondName]
  {
    assert JoinLines([first, second]) == text;
    SplitJoin([first, second]);
    assert Underscored(first) == first;
    assert SplitLines(text) == [first, second];
  }

  lemma UnderscoredHashExample()
    ensures Underscored("Statue of#Liberty") == "Statue_of#Liberty"
  {
  }

  lemma UnderscoredSpacesExample()
    ensures Underscored("Statue of Liberty") == "Statue_of_Liberty"
  {
  }

  lemma InvalidExampleNames()
    ensures Names("Eiffel_Tower\nStatue of#Liberty") == ["Eiffel_Tower", "Statue_of#Liberty"]
  {
    UnderscoredHashExample();
    NamesExample("Eiffel_Tower\nStatue of#Liberty", "Eiffel_Tower", "Statue of#Liberty", "Statue_of#Liberty");
  }

  lemma ValidExampleNames()
    ensures Names("Eiffel_Tower\nStatue of Liberty") == ["Eiffel_Tower", "Statue_of_Liberty"]
  {
    UnderscoredSpacesExample();
    NamesExample("Eiffel_Tower\nStatue of Liberty", "Eiffel_Tower", "Statue of Liberty", "Statue_of_Liberty");
  }

  lemma EiffelValid()
    ensures IsValidName("Eiffel_Tower")
  {
  }

  lemma LibertyValid()
    ensures IsValidName("Statue_of_Liberty")
  {
  }

  lemma HashInvalid()
    ensures !IsValidName("Statue_of#Liberty")
  {
    assert "Statue_of#Liberty"[9] == '#';
  }

  lemma ExampleValidity()
    ensures IsValidName("Eiffel_Tower")
    ensures IsValidName("Statue_of_Liberty")
    ensures !IsValidName("Statue_of#Liberty")
  {
    EiffelValid();
    LibertyValid();
    HashInvalid();
  }

  lemma OnlyHash(c: char)
    requires c in "Statue_of#Liberty" && c in ForbiddenChars
    ensures c == '#'
  {
  }

  lemma ExampleError()
    ensures ErrorFor(["Statue_of#Liberty"]) == ErrorPrefix + "#"
  {
    ExampleBadChars();
  }

  /** When `c` is the only forbidden character used, it is the only one reported. */
  lemma SingleBadChar(names: seq<string>, c: char)
    requires c in ForbiddenChars && exists n :: n in names && c in n
    requires forall n, d :: n in names && d in n && d in ForbiddenChars ==> d == c
    ensures InvalidChars(names) == [c]
  {
    var bad := InvalidChars(names);
    assert c in bad;
    var k :| 0 <= k < |bad| && bad[k] == c;
    forall i | 0 <= i < |bad| ensures bad[i] == c && i == k {
      assert bad[i] in bad;
    }
    assert bad[0] == c && bad[|bad| - 1] == c;
  }

  lemma ExampleBadChars()
    ensures InvalidChars(["Statue_of#Liberty"]) == "#"
  {
    var name := "Statue_of#Liberty";
    assert '#' in name by { assert name[9] == '#'; }
    forall n, d | n in [name] && d in n && d in ForbiddenChars ensures d == '#' {
      OnlyHash(d);
    }
    SingleBadChar([name], '#');
  }

  lemma CreateRejects(user: User, articles: string, listName: string, project: string, valid: seq<string>, invalid: seq<string>, error: string)
    requires articles != "" && listName != "" && project != ""
    requires ValidNames(Names(articles)) == valid && InvalidNames(Names(articles)) == invalid
    requires invalid != [] && ErrorFor(invalid) == error
    ensures CreateSimple(Some(user), articles, listName, project) == Rejected(Items(valid, invalid, [error]))
  {
  }

  lemma ExampleSplit()
    ensures ValidNames(["Eiffel_Tower", "Statue_of#Liberty"]) == ["Eiffel_Tower"]
    ensures InvalidNames(["Eiffel_Tower", "Statue_of#Liberty"]) == ["Statue_of#Liberty"]
  {
    ExampleValidity();
    FilterPair("Eiffel_Tower", "Statue_of#Liberty", IsValidName);
    FilterPair("Eiffel_Tower", "Statue_of#Liberty", IsInvalidName);
  }

  /** The list with "Statue of#Liberty" is rejected with `#` reported. */
  lemma CreateUnsuccessfulExample(user: User)
    ensures CreateSimple(Some(user), "Eiffel_Tower\nStatue of#Liberty", "my_list", "my_project")
      == Rejected(Items(["Eiffel_Tower"], ["Statue_of#Liberty"], [ErrorPrefix + "#"]))
  {
    InvalidExampleNames();
    ExampleSplit();
    ExampleError();
    CreateRejects(user, "Eiffel_Tower\nStatue of#Liberty", "my_list", "my_project", ["Eiffel_Tower"], ["Statue_of#Liberty"], ErrorPrefix + "#");
  }

  /** The list of two valid names is accepted. */
  lemma CreateSuccessfulExample(user: User)
    ensures CreateSimple(Some(user), "Eiffel_Tower\nStatue of Liberty", "my_list", "my_project")
      == Accepted(["Eiffel_Tower", "Statue_of_Liberty"])
  {
    ValidExampleNames();
    ExampleValidity();
    FilterPair("Eiffel_Tower", "Statue_of_Liberty", IsInvalidName);
  }

  // ---------------------------------------------------------------- listing

  datatype Builder = Builder(id: int, name: string, userId: string, project: string, model: string)

  /** A stored selection: its id, its builder's id, its content type and its update time. */
  datatype SelectionRow = SelectionRow(id: string, builderId: int, contentType: string, updatedAt: string)

  datatype SelectionView = SelectionView(id: string, contentType: string, extension: string, url: string)

  datatype BuilderView = BuilderView(id: int, name: string, project: string, selections: seq<SelectionView>)

  /** The outcome of GET /v1/selection/simple/lists. */
  datatype ListResponse =
    | ListUnauthorized             // 401: nobody is logged in
    | UnknownContentType           // a listed selection has a content type with no extension
    | Listed(builders: seq<BuilderView>)

  const TsvType: string := "text/tab-separated-values"
  const XlsType: string := "application/vnd.ms-excel"

  /** The content type a file extension stands for. */
  function ContentTypeOf(extension: string): (r: Option<string>)
    ensures r.Some? <==> extension == "tsv" || extension == "xls"
  {
    if extension == "tsv" then Some(TsvType)
    else if extension == "xls" then Some(XlsType)
    else None
  }

  /** The file extension of a content type; it maps back to the same content type. */
  function Extension(contentType: string): (r: Option<string>)
    ensures r.Some? <==> contentType == TsvType || contentType == XlsType
    ensures r.Some? ==> ContentTypeOf(r.value) == Some(contentType)
  {
    if contentType == TsvType then Some("tsv")
    else if contentType == XlsType then Some("xls")
    else None
  }

  /** Every extension with a content type maps back to itself. */
  lemma ExtensionOfContentType(extension: string)
    ensures ContentTypeOf(extension).Some? ==> Extension(ContentTypeOf(extension).value) == Some(extension)
  {
  }

  /** The download address `<base>/selections/<model>/<id>.<extension>`. */
  function SelectionUrl(base: string, model: string, id: string, extension: string): (r: string)
    ensures |r| > |base| + |extension|
    ensures r[..|base|] == base
    ensures r[|r| - |extension| - 1..] == "." + extension
  {
    base + "/selections/" + model + "/" + id + "." + extension
  }

  predicate KnownType(s: SelectionRow) {
    Extension(s.contentType).Some?
  }

  function View(s: SelectionRow, model: string, base: string): (v: SelectionView)
    requires KnownType(s)
  {
    var ext := Extension(s.contentType).value;
    SelectionView(s.id, s.contentType, ext, SelectionUrl(base, model, s.id, ext))
  }

  /** `v` shows the stored selection `s` of a builder of model `model`. */
  predicate Shows(v: SelectionView, s: SelectionRow, model: string, base: string) {
    v.id == s.id && v.contentType == s.contentType &&
    Extension(s.contentType) == Some(v.extension) &&
    v.url == SelectionUrl(base, model, s.id, v.extension)
  }

  function RowsOf(b: Builder, rows: seq<SelectionRow>): seq<SelectionRow> {
    Filter(rows, (s: SelectionRow) => s.builderId == b.id)
  }

  /** One builder with the views of its own selections, in row order. */
  function BuilderViewOf(b: Builder, rows: seq<SelectionRow>, base: string): Option<BuilderView> {
    var mine := RowsOf(b, rows);
    if forall s :: s in mine ==> KnownType(s) then
      Some(BuilderView(b.id, b.name, b.project, seq(|mine|, i requires 0 <= i < |mine| => View(mine[i], b.model, base))))
    else None
  }

  /** The views of `bs`, in order; no views at all when one of them fails. */
  function BuilderViews(bs: seq<Builder>, rows: seq<SelectionRow>, base: string): (r: Option<seq<BuilderView>>)
    ensures r.Some? <==> forall i :: 0 <= i < |bs| ==> BuilderViewOf(bs[i], rows, base).Some?
    ensures r.Some? ==> |r.value| == |bs| && forall i :: 0 <= i < |bs| ==> Some(r.value[i]) == BuilderViewOf(bs[i], rows, base)
  {
    if bs == [] then Some([])
    else
      match BuilderViewOf(bs[0], rows, base)
      case None => None
      case Some(v) =>
        match BuilderViews(bs[1..], rows, base)
        case None =>
          assert exists i :: 1 <= i < |bs| && BuilderViewOf(bs[i], rows, base).None? by {
            var j :| 0 <= j < |bs| - 1 && BuilderViewOf(bs[1..][j], rows, base).None?;
            assert bs[1..][j] == bs[j + 1];
          }
          None
        case Some(vs) => Some([v] + vs)
  }

  function UserBuilders(user: User, builders: seq<Builder>): seq<Builder> {
    Filter(builders, (b: Builder) => b.userId == user.sub)
  }

  /**
   * GET /v1/selection/simple/lists: the logged-in user's builders, each with
   * its selections. `base` is the storage address selections are served from.
   */
  function ListSimple(user: Option<User>, builders: seq<Builder>, rows: seq<SelectionRow>, base: string): (r: ListResponse)
    ensures r == ListUnauthorized <==> user.None?
  {
    if user.None? then ListUnauthorized
    else
      match BuilderViews(UserBuilders(user.value, builders), rows, base)
      case None => UnknownContentType
      case Some(vs) => Listed(vs)
  }

  /**
   * The listing holds one entry per builder of the user, in order, each
   * carrying that builder's id, name and project and the views of exactly
   * its selections, in order, with the extension and address of each.
   */
  lemma {:induction false} ListedShape(user: User, builders: seq<Builder>, rows: seq<SelectionRow>, base: string)
    requires ListSimple(Some(user), builders, rows, base).Listed?
    ensures var vs := ListSimple(Some(user), builders, rows, base).builders;
      var ub := UserBuilders(user, builders);
      |vs| == |ub| &&
      forall i :: 0 <= i < |vs| ==>
        vs[i].id == ub[i].id && vs[i].name == ub[i].name && vs[i].project == ub[i].project &&
        |vs[i].selections| == |RowsOf(ub[i], rows)| &&
        forall j :: 0 <= j < |vs[i].selections| ==> Shows(vs[i].selections[j], RowsOf(ub[i], rows)[j], ub[i].model, base)
  {
    var ub := UserBuilders(user, builders);
    var vs := BuilderViews(ub, rows, base).value;
    forall i | 0 <= i < |vs|
      ensures vs[i].id == ub[i].id && vs[i].name == ub[i].name && vs[i].project == ub[i].project
      ensures |vs[i].selections| == |RowsOf(ub[i], rows)|
      ensures forall j :: 0 <= j < |vs[i].selections| ==> Shows(vs[i].selections[j], RowsOf(ub[i], rows)[j], ub[i].model, base)
    {
      assert Some(vs[i]) == BuilderViewOf(ub[i], rows, base);
      var mine := RowsOf(ub[i], rows);
      forall j | 0 <= j < |vs[i].selections|
        ensures Shows(vs[i].selections[j], mine[j], ub[i].model, base)
      {
        assert mine[j] in mine;
      }
    }
  }

  /**
   * A selection is listed under a builder exactly when it belongs to that
   * builder: each selection of a listed builder shows up under it, and
   * everything under a builder comes from one of its own selections.
   */
  lemma {:induction false} ListedPlacement(user: User, builders: seq<Builder>, rows: seq<SelectionRow>, base: string, i: nat)
    requires ListSimple(Some(user), builders, rows, base).Listed?
    requires i < |UserBuilders(user, builders)|
    ensures var vs := ListSimple(Some(user), builders, rows, base).builders;
      var b := UserBuilders(user, builders)[i];
      i < |vs| &&
      (forall s :: s in rows && s.builderId == b.id ==> KnownType(s) && View(s, b.model, base) in vs[i].selections) &&
      (forall v :: v in vs[i].selections ==> exists s :: s in rows && s.builderId == b.id && KnownType(s) && v == View(s, b.model, base))
  {
    var ub := UserBuilders(user, builders);
    var b := ub[i];
    var vs := BuilderViews(ub, rows, base).value;
    assert Some(vs[i]) == BuilderViewOf(b, rows, base);
    var mine := RowsOf(b, rows);
    forall s | s in rows && s.builderId == b.id
      ensures KnownType(s) && View(s, b.model, base) in vs[i].selections
    {
      assert s in mine;
      var j :| 0 <= j < |mine| && mine[j] == s;
      assert vs[i].selections[j] == View(s, b.model, base);
    }
    forall v | v in vs[i].selections
      ensures exists s :: s in rows && s.builderId == b.id && KnownType(s) && v == View(s, b.model, base)
    {
      var j :| 0 <= j < |vs[i].selections| && vs[i].selections[j] == v;
      assert mine[j] in mine;
    }
  }

  /** The listing fails exactly when a selection of one of the user's builders has an unknown content type. */
  lemma {:induction false} ListFailsIff(user: User, builders: seq<Builder>, rows: seq<SelectionRow>, base: string)
    ensures ListSimple(Some(user), builders, rows, base) == UnknownContentType <==>
      exists b, s :: b in UserBuilders(user, builders) && s in rows && s.builderId == b.id && !KnownType(s)
  {
    var ub := UserBuilders(user, builders);
    if BuilderViews(ub, rows, base).None? {
      var i :| 0 <= i < |ub| && BuilderViewOf(ub[i], rows, base).None?;
      var s :| s in RowsOf(ub[i], rows) && !KnownType(s);
      assert ub[i] in ub;
    } else {
      forall b, s | b in ub && s in rows && s.builderId == b.id ensures KnownType(s) {
        var i :| 0 <= i < |ub| && ub[i] == b;
        assert BuilderViewOf(b, rows, base).Some?;
        assert s in RowsOf(b, rows);
      }
    }
  }

  /** With no builders of the user, nothing is listed, whatever selections exist. */
  lemma NoBuildersListed(user: User, builders: seq<Builder>, rows: seq<SelectionRow>, base: string)
    requires forall b :: b in builders ==> b.userId != user.sub
    ensures ListSimple(Some(user), builders, rows, base) == Listed([])
  {
    FilterNone(builders, (b: Builder) => b.userId == user.sub);
  }

  /** The user, builder and storage address of the listing examples. */
  const ExampleUser := User("access_token", "WP1_user", "1234")
  const ExampleBuilder := Builder(1, "list_name", "1234", "project_name", "model")
  const ExampleBase := "http://credentials.not.found.fake"

  /** A builder of the user alone, with its rows, is listed as its own view. */
  lemma ListOneBuilder(user: User, b: Builder, rows: seq<SelectionRow>, base: string, v: BuilderView)
    requires b.userId == user.sub
    requires BuilderViewOf(b, rows, base) == Some(v)
    ensures ListSimple(Some(user), [b], rows, base) == Listed([v])
  {
    assert [b][1..] == [];
    assert UserBuilders(user, [b]) == [b];
  }

  lemma ExampleUrls()
    ensures SelectionUrl(ExampleBase, "model", "1", "tsv") == ExampleBase + "/selections/model/1.tsv"
    ensures SelectionUrl(ExampleBase, "model", "2", "xls") == ExampleBase + "/selections/model/2.xls"
  {
    assert "/selections/" + "model" + "/" + "1" + "." + "tsv" == "/selections/model/1.tsv";
    assert "/selections/" + "model" + "/" + "2" + "." + "xls" == "/selections/model/2.xls";
  }

  /** One builder with one tab-separated selection. */
  lemma ListOneSelectionExample()
    ensures ListSimple(Some(ExampleUser), [ExampleBuilder], [SelectionRow("1", 1, TsvType, "20201225105544")], ExampleBase)
      == Listed([BuilderView(1, "list_name", "project_name",
                   [SelectionView("1", TsvType, "tsv", ExampleBase + "/selections/model/1.tsv")])])
  {
    var rows := [SelectionRow("1", 1, TsvType, "20201225105544")];
    assert rows[1..] == [];
    assert RowsOf(ExampleBuilder, rows) == rows;
    ExampleUrls();
    assert View(rows[0], "model", ExampleBase) == SelectionView("1", TsvType, "tsv", ExampleBase + "/selections/model/1.tsv");
    assert BuilderViewOf(ExampleBuilder, rows, ExampleBase).Some?;
    var sel := BuilderViewOf(ExampleBuilder, rows, ExampleBase).value.selections;
    assert |sel| == 1 && sel[0] == View(rows[0], "model", ExampleBase);
    assert sel == [SelectionView("1", TsvType, "tsv", ExampleBase + "/selections/model/1.tsv")];
    ListOneBuilder(ExampleUser, ExampleBuilder, rows, ExampleBase, BuilderView(1, "list_name", "project_name",
                   [SelectionView("1", TsvType, "tsv", ExampleBase + "/selections/model/1.tsv")]));
  }

  /** Two selections of one builder are listed in row order, each with its own extension. */
  lemma ListTwoSelectionsExample()
    ensures ListSimple(Some(ExampleUser), [ExampleBuilder],
                       [SelectionRow("1", 1, TsvType, "20201225105544"), SelectionRow("2", 1, XlsType, "20201225105544")],
                       ExampleBase)
      == Listed([BuilderView(1, "list_name", "project_name",
                   [SelectionView("1", TsvType, "tsv", ExampleBase + "/selections/model/1.tsv"),
                    SelectionView("2", XlsType, "xls", ExampleBase + "/selections/model/2.xls")])])
  {
    var rows := [SelectionRow("1", 1, TsvType, "20201225105544"), SelectionRow("2", 1, XlsType, "20201225105544")];
    assert rows[1..] == [rows[1]] && rows[1..][1..] == [];
    assert RowsOf(ExampleBuilder, rows[1..]) == [rows[1]];
    assert RowsOf(ExampleBuilder, rows) == rows;
    ExampleUrls();
    assert View(rows[0], "model", ExampleBase) == SelectionView("1", TsvType, "tsv", ExampleBase + "/selections/model/1.tsv");
    assert View(rows[1], "model", ExampleBase) == SelectionView("2", XlsType, "xls", ExampleBase + "/selections/model/2.xls");
    assert BuilderViewOf(ExampleBuilder, rows, ExampleBase).Some?;
    var sel := BuilderViewOf(ExampleBuilder, rows, ExampleBase).value.selections;
    assert |sel| == 2 && sel[0] == View(rows[0], "model", ExampleBase) && sel[1] == View(rows[1], "model", ExampleBase);
    assert sel == [SelectionView("1", TsvType, "tsv", ExampleBase + "/selections/model/1.tsv"),
                   SelectionView("2", XlsType, "xls", ExampleBase + "/selections/model/2.xls")];
    ListOneBuilder(ExampleUser, ExampleBuilder, rows, ExampleBase, BuilderView(1, "list_name", "project_name",
                   [SelectionView("1", TsvType, "tsv", ExampleBase + "/selections/model/1.tsv"),
                    SelectionView("2", XlsType, "xls", ExampleBase + "/selections/model/2.xls")]));
  }

  /** A builder without selections is listed with none. */
  lemma ListNoSelectionsExample()
    ensures ListSimple(Some(ExampleUser), [ExampleBuilder], [], ExampleBase)
      == Listed([BuilderView(1, "list_name", "project_name", [])])
  {
    assert RowsOf(ExampleBuilder, []) == [];
    assert ExampleBuilder.id == 1 && ExampleBuilder.name == "list_name";
    assert BuilderViewOf(ExampleBuilder, [], ExampleBase).Some?;
    assert BuilderViewOf(ExampleBuilder, [], ExampleBase).value.selections == [];
    ListOneBuilder(ExampleUser, ExampleBuilder, [], ExampleBase, BuilderView(1, "list_name", "project_name", []));
  }

  /** A selection whose builder does not exist is not listed. */
  lemma ListNoBuildersExample()
    ensures ListSimple(Some(ExampleUser), [], [SelectionRow("2", 1, XlsType, "20201225105544")], ExampleBase) == Listed([])
  {
    NoBuildersListed(ExampleUser, [], [SelectionRow("2", 1, XlsType, "20201225105544")], ExampleBase);
  }
}
