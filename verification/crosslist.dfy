/** Cross-listed courses: one anchor per group, found by union-find with full path compression. */
module CrossLists {
  import opened Forest

  datatype AtlasCourse = AtlasCourse(code: Code, crosslisted: seq<Code>)

  /** The explicit cross-list relations of the import. */
  function ListedLinks(courses: seq<AtlasCourse>): Links {
    if courses == [] then {}
    else ListedLinks(courses[..|courses| - 1]) + AliasLinks(courses[|courses| - 1])
  }

  function AliasLinks(course: AtlasCourse): Links { LinkAll(course.code, course.crosslisted, |course.crosslisted|) }

  /** Links to the first n aliases. */
  function LinkAll(code: Code, aliases: seq<Code>, n: nat): Links
    requires n <= |aliases|
  {
    if n == 0 then {} else LinkAll(code, aliases, n - 1) + {(code, aliases[n - 1])}
  }

  function CodesOf(courses: seq<AtlasCourse>): set<Code> {
    if courses == [] then {} else CodesOf(courses[..|courses| - 1]) + {courses[|courses| - 1].code}
  }

  /** Every course, and nothing else, is mapped to the least code of its cross-list group. */
  ghost predicate IsCanonical(courses: seq<AtlasCourse>, canonical: map<Code, Code>) {
    && canonical.Keys == CodesOf(courses)
    && forall code <- canonical :: IsAnchor(ListedLinks(courses), code, canonical[code])
  }

  /** Every code of one map is a code of the other. */
  ghost predicate Extends(before: map<Code, Code>, after: map<Code, Code>) {
    forall x {:trigger x in after} | x in before :: x in after
  }

  /** One step of the path compression. */
  lemma CompressStep(before: map<Code, Code>, parent: map<Code, Code>, links: Links, node: Code, root: Code)
    requires IsForest(before) && Represents(parent, links) && KeepsRoots(before, parent)
    requires node in parent && Root(parent, node) == root && parent[node] != root
    ensures Represents(parent[node := root], links) && KeepsRoots(before, parent[node := root])
    ensures parent[node] < node && Root(parent[node := root], parent[node]) == root
  {
    ShortcutRepresents(parent, links, node, root);
    KeepsRootsTransitive(before, parent, parent[node := root]);
    assert SameRoot(parent, parent[node := root], parent[node]);
  }

  class CodeGroups {
    var parent: map<Code, Code>
    ghost var links: Links

    ghost predicate Valid()
      reads this
    {
      Represents(parent, links)
    }

    constructor ()
      ensures Valid() && parent == map[] && links == {}
    {
      parent := map[];
      links := {};
    }

    /** A code seen for the first time becomes a group of its own. */
    method Admit(code: Code)
      requires Valid()
      modifies this`parent
      ensures Valid() && code in parent && Extends(old(parent), parent) && KeepsRoots(old(parent), parent)
    {
      if code !in parent {
        FreshRepresents(parent, links, code);
        parent := parent[code := code];
      } else {
        KeepsRootsSelf(parent);
      }
    }

    /** Point every code on the way from `start` straight at its representative. */
    method Compress(start: Code, root: Code)
      requires Valid() && start in parent && root == Root(parent, start)
      modifies this`parent
      ensures Valid() && Extends(old(parent), parent) && KeepsRoots(old(parent), parent)
    {
      hide LinksUp, Agree, Root;
      var node := start;
      KeepsRootsSelf(parent);
      while parent[node] != root
        invariant Valid() && KeepsRoots(old(parent), parent) && Extends(old(parent), parent)
        invariant node in parent && root in parent && Root(parent, node) == root
        decreases node
      {
        var next := parent[node];
        CompressStep(old(parent), parent, links, node, root);
        parent := parent[node := root];
        node := next;
      }
    }

    /** The representative of a code. */
    method Find(start: Code) returns (root: Code)
      requires Valid()
      modifies this`parent
      ensures Valid() && start in parent && Extends(old(parent), parent) && KeepsRoots(old(parent), parent)
      ensures root == Root(parent, start)
    {
      Admit(start);
      ghost var admitted := parent;
      root := start;
      while parent[root] != root
        invariant root in parent && Root(parent, root) == Root(parent, start)
        decreases root
      {
        root := parent[root];
      }
      Compress(start, root);
      assert SameRoot(admitted, parent, start);
      KeepsRootsTransitive(old(parent), admitted, parent);
    }

    /** Record a link between two codes whose representatives are known. */
    method Merge(left: Code, right: Code, a: Code, b: Code)
      requires Valid() && left in parent && right in parent && a == Root(parent, left) && b == Root(parent, right)
      modifies this
      ensures Valid() && links == old(links) + {(left, right)} && Extends(old(parent), parent)
    {
      if a != b {
        var high := if a < b then b else a;
        var low := if a < b then a else b;
        JoinRepresents(parent, links, left, right, high, low);
        parent := parent[high := low];
      } else {
        assert Agree(parent, left, right);
        SameRootRepresents(parent, links, left, right);
      }
      links := links + {(left, right)};
    }

    /** Record that two codes are one course. */
    method Union(left: Code, right: Code)
      requires Valid()
      modifies this
      ensures Valid() && links == old(links) + {(left, right)}
      ensures left in parent && right in parent && Extends(old(parent), parent)
    {
      var leftRoot := Find(left);
      ghost var middle := parent;
      var rightRoot := Find(right);
      assert SameRoot(middle, parent, left);
      Merge(left, right, leftRoot, rightRoot);
    }

    /** One course of the import: the course itself, then its listed aliases. */
    method AddCourse(course: AtlasCourse)
      requires Valid()
      modifies this
      ensures Valid() && links == old(links) + AliasLinks(course)
      ensures course.code in parent && Extends(old(parent), parent)
    {
      hide Represents, KeepsRoots;
      var root := Find(course.code);
      var i := 0;
      while i < |course.crosslisted|
        invariant i <= |course.crosslisted| && Valid()
        invariant links == old(links) + LinkAll(course.code, course.crosslisted, i)
        invariant course.code in parent && Extends(old(parent), parent)
      {
        Union(course.code, course.crosslisted[i]);
        i := i + 1;
      }
    }
  }

  ghost predicate KnowsAll(parent: map<Code, Code>, courses: seq<AtlasCourse>) {
    forall c {:trigger c in courses} | c in courses :: c.code in parent
  }

  lemma KnowsMore(before: map<Code, Code>, after: map<Code, Code>, courses: seq<AtlasCourse>, course: AtlasCourse)
    requires KnowsAll(before, courses) && Extends(before, after) && course.code in after
    ensures KnowsAll(after, courses + [course])
  {
  }

  method GroupCourses(courses: seq<AtlasCourse>) returns (groups: CodeGroups)
    ensures fresh(groups) && groups.Valid() && groups.links == ListedLinks(courses)
    ensures KnowsAll(groups.parent, courses)
  {
    groups := new CodeGroups();
    var i := 0;
    while i < |courses|
      invariant i <= |courses| && fresh(groups) && groups.Valid() && groups.links == ListedLinks(courses[..i])
      invariant KnowsAll(groups.parent, courses[..i])
    {
      assert courses[..i + 1][..i] == courses[..i] && courses[..i + 1] == courses[..i] + [courses[i]];
      ghost var before := groups.parent;
      groups.AddCourse(courses[i]);
      KnowsMore(before, groups.parent, courses[..i], courses[i]);
      i := i + 1;
    }
    assert courses[..|courses|] == courses;
  }

  /** Map every course code to the anchor of its cross-list group. */
  method CanonicalCodeMap(courses: seq<AtlasCourse>) returns (canonical: map<Code, Code>)
    ensures IsCanonical(courses, canonical)
  {
    hide IsAnchor, LinksUp, Agree;
    var groups := GroupCourses(courses);
    canonical := map[];
    var i := 0;
    while i < |courses|
      invariant i <= |courses| && groups.Valid() && groups.links == ListedLinks(courses)
      invariant KnowsAll(groups.parent, courses)
      invariant canonical.Keys == CodesOf(courses[..i])
      invariant forall code <- canonical :: IsAnchor(ListedLinks(courses), code, canonical[code])
    {
      assert courses[..i + 1][..i] == courses[..i];
      var root := groups.Find(courses[i].code);
      RootIsAnchor(groups.parent, groups.links, courses[i].code);
      canonical := canonical[courses[i].code := root];
      i := i + 1;
    }
    assert courses[..|courses|] == courses;
  }

  /** Two codes get one canonical code exactly when cross-list relations connect them. */
  lemma SameCanonicalIffConnected(courses: seq<AtlasCourse>, canonical: map<Code, Code>, a: Code, b: Code)
    requires IsCanonical(courses, canonical) && a in canonical && b in canonical
    ensures canonical[a] == canonical[b] <==> Connected(ListedLinks(courses), a, b)
  {
    var links := ListedLinks(courses);
    if canonical[a] == canonical[b] {
      ConnectedSymmetric(links, b, canonical[b]);
      ConnectedTransitive(links, a, canonical[a], b);
    }
    if Connected(links, a, b) {
      ConnectedTransitive(links, a, b, canonical[b]);
      ConnectedSymmetric(links, a, b);
      ConnectedTransitive(links, b, a, canonical[a]);
    }
  }

  lemma {:induction false} LinkAllMembers(code: Code, aliases: seq<Code>, n: nat, link: (Code, Code))
    requires n <= |aliases|
    ensures link in LinkAll(code, aliases, n) <==> link.0 == code && link.1 in aliases[..n]
  {
    if n > 0 {
      LinkAllMembers(code, aliases, n - 1, link);
      assert aliases[..n] == aliases[..n - 1] + [aliases[n - 1]];
    }
  }

  lemma {:induction false} ListedLinksMembers(courses: seq<AtlasCourse>, link: (Code, Code))
    ensures link in ListedLinks(courses) <==> exists c :: c in courses && c.code == link.0 && link.1 in c.crosslisted
  {
    if courses != [] {
      var front, last := courses[..|courses| - 1], courses[|courses| - 1];
      ListedLinksMembers(front, link);
      LinkAllMembers(last.code, last.crosslisted, |last.crosslisted|, link);
      assert last.crosslisted[..|last.crosslisted|] == last.crosslisted;
      assert courses == front + [last];
    }
  }

  lemma {:induction false} CodesOfMembers(courses: seq<AtlasCourse>, code: Code)
    ensures code in CodesOf(courses) <==> exists c :: c in courses && c.code == code
  {
    if courses != [] {
      var front, last := courses[..|courses| - 1], courses[|courses| - 1];
      CodesOfMembers(front, code);
      assert courses == front + [last];
    }
  }

  /** The mapping does not depend on the order in which the courses are listed. */
  lemma OrderIsIrrelevant(courses: seq<AtlasCourse>, others: seq<AtlasCourse>, canonical: map<Code, Code>,
                          other: map<Code, Code>)
    requires IsCanonical(courses, canonical) && IsCanonical(others, other)
    requires forall c :: c in courses <==> c in others
    ensures canonical == other
  {
    forall link ensures link in ListedLinks(courses) <==> link in ListedLinks(others) {
      ListedLinksMembers(courses, link);
      ListedLinksMembers(others, link);
    }
    forall code ensures code in CodesOf(courses) <==> code in CodesOf(others) {
      CodesOfMembers(courses, code);
      CodesOfMembers(others, code);
    }
    assert ListedLinks(courses) == ListedLinks(others);
    assert canonical.Keys == other.Keys;
    forall code | code in canonical ensures canonical[code] == other[code] {
      AnchorUnique(ListedLinks(courses), code, canonical[code], other[code]);
    }
  }
}
