/**
 * The read-only wiki side: category links joined with the pages they come
 * from. A link says that page (id, namespace, title) is a member of the
 * category `parent`, since `timestamp`.
 */
module Wiki {
  import opened Classifier

  datatype Link = Link(pageId: int, ns: int, title: string, parent: string, timestamp: string)

  /** The wiki's Category namespace. */
  const CategoryNs: int := 14

  /** The members of `category` that lie in namespace `ns`, in link order. */
  function MembersInNs(wiki: seq<Link>, category: string, ns: int): (r: seq<Link>)
    ensures forall l :: l in r <==> l in wiki && l.parent == category && l.ns == ns
    decreases |wiki|
  {
    if wiki == [] then []
    else
      var last := wiki[|wiki| - 1];
      MembersInNs(wiki[..|wiki| - 1], category, ns)
        + (if last.parent == category && last.ns == ns then [last] else [])
  }

  /** All members of `category`, in link order. */
  function Members(wiki: seq<Link>, category: string): (r: seq<Link>)
    ensures forall l :: l in r <==> l in wiki && l.parent == category
    decreases |wiki|
  {
    if wiki == [] then []
    else
      var last := wiki[|wiki| - 1];
      Members(wiki[..|wiki| - 1], category) + (if last.parent == category then [last] else [])
  }

  /**
   * The root categories a project's class categories hang from: by quality,
   * or by importance and, under its older name, by priority.
   */
  function Roots(project: string, kind: Kind): seq<string> {
    match kind
    case Quality => [project + "_articles_by_quality"]
    case Importance => [project + "_articles_by_importance", project + "_articles_by_priority"]
  }

  function Titles(links: seq<Link>): (r: seq<string>)
    ensures |r| == |links| && forall i :: 0 <= i < |links| ==> r[i] == links[i].title
  {
    seq(|links|, i requires 0 <= i < |links| => links[i].title)
  }

  function RootMembers(wiki: seq<Link>, roots: seq<string>): seq<Link>
    decreases |roots|
  {
    if roots == [] then []
    else MembersInNs(wiki, roots[0], CategoryNs) + RootMembers(wiki, roots[1..])
  }

  /**
   * The category pages directly under the project's roots for `kind`, in
   * order; these are the candidate class categories.
   */
  function RootCategoryTitles(wiki: seq<Link>, project: string, kind: Kind): (r: seq<string>)
  {
    Titles(RootMembers(wiki, Roots(project, kind)))
  }

  /** A title is a candidate exactly when some category page links it to one of the roots. */
  lemma {:induction false} RootMembersExactly(wiki: seq<Link>, roots: seq<string>)
    ensures forall l :: l in RootMembers(wiki, roots) <==> l in wiki && l.parent in roots && l.ns == CategoryNs
    decreases |roots|
  {
    if roots != [] {
      RootMembersExactly(wiki, roots[1..]);
      assert roots == [roots[0]] + roots[1..];
      assert forall p :: p in roots <==> p == roots[0] || p in roots[1..];
    }
  }

  lemma RootCategoryTitlesExactly(wiki: seq<Link>, project: string, kind: Kind, title: string)
    ensures title in RootCategoryTitles(wiki, project, kind)
      <==> exists l :: l in wiki && l.parent in Roots(project, kind) && l.ns == CategoryNs && l.title == title
  {
    var links := RootMembers(wiki, Roots(project, kind));
    RootMembersExactly(wiki, Roots(project, kind));
    if title in RootCategoryTitles(wiki, project, kind) {
      var i :| 0 <= i < |links| && Titles(links)[i] == title;
      assert links[i] in links;
    }
    if exists l :: l in wiki && l.parent in Roots(project, kind) && l.ns == CategoryNs && l.title == title {
      var l :| l in wiki && l.parent in Roots(project, kind) && l.ns == CategoryNs && l.title == title;
      var i :| 0 <= i < |links| && links[i] == l;
      assert Titles(links)[i] == title;
    }
  }

  /** Membership distributes over appending links. */
  lemma {:induction false} MembersInNsAppend(a: seq<Link>, b: seq<Link>, category: string, ns: int)
    ensures MembersInNs(a + b, category, ns) == MembersInNs(a, category, ns) + MembersInNs(b, category, ns)
    decreases |b|
  {
    if b == [] {
      assert a + b == a;
    } else {
      var b' := b[..|b| - 1];
      assert (a + b)[..|a + b| - 1] == a + b';
      assert (a + b)[|a + b| - 1] == b[|b| - 1];
      MembersInNsAppend(a, b', category, ns);
    }
  }

  lemma {:induction false} NoMembersInNs(b: seq<Link>, category: string, ns: int)
    requires forall l :: l in b ==> l.parent != category
    ensures MembersInNs(b, category, ns) == []
    decreases |b|
  {
    if b != [] {
      NoMembersInNs(b[..|b| - 1], category, ns);
    }
  }

  lemma MembersInNsSplice(a: seq<Link>, junk: seq<Link>, b: seq<Link>, category: string, ns: int)
    requires forall l :: l in junk ==> l.parent != category
    ensures MembersInNs(a + junk + b, category, ns) == MembersInNs(a + b, category, ns)
  {
    MembersInNsAppend(a + junk, b, category, ns);
    MembersInNsAppend(a, junk, category, ns);
    MembersInNsAppend(a, b, category, ns);
    NoMembersInNs(junk, category, ns);
    assert MembersInNs(a, category, ns) + [] == MembersInNs(a, category, ns);
  }

  /** Links filed under none of the roots can sit anywhere in the wiki without changing the root members. */
  lemma {:induction false} RootMembersSplice(a: seq<Link>, junk: seq<Link>, b: seq<Link>, roots: seq<string>)
    requires forall l :: l in junk ==> l.parent !in roots
    ensures RootMembers(a + junk + b, roots) == RootMembers(a + b, roots)
    decreases |roots|
  {
    if roots != [] {
      assert roots[0] in roots;
      MembersInNsSplice(a, junk, b, roots[0], CategoryNs);
      assert forall l :: l in junk ==> l.parent !in roots[1..] by {
        assert forall r :: r in roots[1..] ==> r in roots;
      }
      RootMembersSplice(a, junk, b, roots[1..]);
    }
  }

  /**
   * Links to other categories (for instance other projects' roots) do not
   * change the candidates, wherever they sit among the project's links.
   */
  lemma OtherRootsIgnored(before: seq<Link>, junk: seq<Link>, after: seq<Link>, project: string, kind: Kind)
    requires forall l :: l in junk ==> l.parent !in Roots(project, kind)
    ensures RootCategoryTitles(before + junk + after, project, kind) == RootCategoryTitles(before + after, project, kind)
  {
    RootMembersSplice(before, junk, after, Roots(project, kind));
  }

  /** The case the project's tests set up: other projects' pages inserted before this project's. */
  lemma OtherRootsFirstIgnored(junk: seq<Link>, wiki: seq<Link>, project: string, kind: Kind)
    requires forall l :: l in junk ==> l.parent !in Roots(project, kind)
    ensures RootCategoryTitles(junk + wiki, project, kind) == RootCategoryTitles(wiki, project, kind)
  {
    OtherRootsIgnored([], junk, wiki, project, kind);
    assert [] + junk + wiki == junk + wiki;
    assert [] + wiki == wiki;
  }
}
