/** What the listed alternatives and the evaluation of a requirement promise. */
module RequirementProofs {
  import opened Forest
  import opened Requirements

  // ---------------------------------------------------------------- choice groups are a normal form

  ghost predicate GroupTrue(g: Group, truth: set<Word>) { forall i :: 0 <= i < |g| ==> g[i] in truth }

  ghost predicate SomeTrue(groups: seq<Group>, truth: set<Word>) {
    exists i :: 0 <= i < |groups| && GroupTrue(groups[i], truth)
  }

  lemma {:induction false} InsertMembers(groups: seq<Group>, g: Group, x: Group)
    ensures x in Insert(groups, g) <==> x in groups || x == g
  {
    if groups != [] && groups[0] != g && !LexLeq(g, groups[0]) {
      InsertMembers(groups[1..], g, x);
      assert groups == [groups[0]] + groups[1..];
    }
  }

  lemma {:induction false} InsertLength(groups: seq<Group>, g: Group)
    ensures |groups| <= |Insert(groups, g)| <= |groups| + 1
    ensures g in groups && Listing(groups) ==> Insert(groups, g) == groups
  {
    if groups != [] && groups[0] != g {
      if g in groups && Listing(groups) {
        assert g in groups[1..];
        LexAntisymmetric(g, groups[0]);
      }
      if !LexLeq(g, groups[0]) {
        InsertLength(groups[1..], g);
      }
    }
  }

  lemma {:induction false} LexAntisymmetric(a: Group, b: Group)
    ensures LexLeq(a, b) && LexLeq(b, a) ==> a == b
    ensures LexLeq(a, b) || LexLeq(b, a)
  {
    if a != [] && b != [] {
      LexAntisymmetric(a[1..], b[1..]);
      assert a == [a[0]] + a[1..] && b == [b[0]] + b[1..];
    }
  }

  lemma {:induction false} LexTransitive(a: Group, b: Group, c: Group)
    requires LexLeq(a, b) && LexLeq(b, c)
    ensures LexLeq(a, c)
  {
    if a != [] && a[0] == b[0] && b[0] == c[0] { LexTransitive(a[1..], b[1..], c[1..]); }
  }

  lemma {:induction false} InsertKeepsListing(groups: seq<Group>, g: Group)
    requires Listing(groups)
    ensures Listing(Insert(groups, g))
  {
    if groups != [] && groups[0] != g {
      LexAntisymmetric(g, groups[0]);
      hide LexLeq;
      if LexLeq(g, groups[0]) {
        forall j | 0 <= j < |groups| ensures LexLeq(g, groups[j]) && g != groups[j] {
          if j > 0 {
            LexTransitive(g, groups[0], groups[j]);
            LexAntisymmetric(g, groups[0]);
          }
        }
      } else {
        InsertKeepsListing(groups[1..], g);
        var rest := Insert(groups[1..], g);
        forall j | 0 <= j < |rest| ensures LexLeq(groups[0], rest[j]) && groups[0] != rest[j] {
          InsertMembers(groups[1..], g, rest[j]);
          assert rest[j] in rest;
        }
      }
    }
  }

  /** Adding within the cap: nothing invented, nothing over the cap, nothing lost unless it says so. */
  lemma {:induction false} AddCappedMeaning(groups: seq<Group>, more: seq<Group>)
    requires Listing(groups) && |groups| <= MAX_CHOICE_GROUPS
    ensures var r := AddCapped(groups, more);
            && Listing(r.0) && |r.0| <= MAX_CHOICE_GROUPS
            && (forall x <- r.0 :: x in groups || x in more)
            && (forall x <- groups :: x in r.0)
            && (!r.1 ==> forall x <- more :: x in r.0)
    decreases more
  {
    if more != [] && !(more[0] !in groups && |groups| == MAX_CHOICE_GROUPS) {
      var next := Insert(groups, more[0]);
      InsertKeepsListing(groups, more[0]);
      InsertLength(groups, more[0]);
      AddCappedMeaning(next, more[1..]);
      forall x ensures x in next <==> x in groups || x == more[0] { InsertMembers(groups, more[0], x); }
      assert more == [more[0]] + more[1..];
    }
  }

  lemma {:induction false} ProductsMembers(lefts: seq<Group>, rights: seq<Group>, x: Group)
    ensures x in Products(lefts, rights)
            <==> exists l, r :: l in lefts && r in rights && x == l + r
  {
    if lefts != [] {
      ProductsMembers(lefts[1..], rights, x);
      var head := seq(|rights|, i requires 0 <= i < |rights| => lefts[0] + rights[i]);
      if x in head {
        var i :| 0 <= i < |head| && head[i] == x;
        assert rights[i] in rights && x == lefts[0] + rights[i];
      }
      if l, r :| l in lefts && r in rights && x == l + r {
        if l == lefts[0] {
          var i :| 0 <= i < |rights| && rights[i] == r;
          assert head[i] == x;
        } else {
          assert l in lefts[1..];
        }
      }
    }
  }

  lemma GroupTrueAppend(l: Group, r: Group, truth: set<Word>)
    ensures GroupTrue(l + r, truth) <==> GroupTrue(l, truth) && GroupTrue(r, truth)
  {
    if GroupTrue(l + r, truth) {
      assert forall i :: 0 <= i < |l| ==> (l + r)[i] == l[i];
      assert forall i :: 0 <= i < |r| ==> (l + r)[|l| + i] == r[i];
    }
  }

  /** What a list of groups says about a condition `c` on the truth of words. */
  ghost predicate Describes(groups: seq<Group>, truncated: bool, truth: set<Word>, c: bool) {
    && (SomeTrue(groups, truth) ==> c)
    && (c && !truncated ==> SomeTrue(groups, truth))
  }

  /** Without truncation the listed groups are exactly the ways to make the tree true; with
      truncation each listed group still is one. There are never more than the cap. */
  lemma {:induction false} ChoiceGroupsMeaning(req: Req, truth: set<Word>)
    ensures var r := ChoiceGroups(req);
            && Describes(r.0, r.1, truth, Holds(req, truth, truth))
            && Listing(r.0) && |r.0| <= MAX_CHOICE_GROUPS
    decreases req, 0
  {
    match req
    case CourseRef(code) =>
      SingleGroup(code, truth);
    case Condition(text) =>
      SingleGroup(text, truth);
    case AnyOf(items) =>
      AnyGroupsMeaning(items, [], false, truth, false);
    case AllOf(items) =>
      assert GroupTrue([], truth);
      assert SomeTrue([[]], truth) by { assert GroupTrue([[]][0], truth); }
      AllGroupsMeaning(items, [[]], false, truth, true);
  }

  lemma SingleGroup(w: Word, truth: set<Word>)
    ensures SomeTrue([[w]], truth) <==> w in truth
  {
    assert [[w]][0] == [w] && [w][0] == w;
  }

  ghost predicate SomeHolds(items: seq<Req>, truth: set<Word>) {
    exists i :: 0 <= i < |items| && Holds(items[i], truth, truth)
  }

  ghost predicate AllHold(items: seq<Req>, truth: set<Word>) {
    forall i :: 0 <= i < |items| ==> Holds(items[i], truth, truth)
  }

  lemma ItemsSplit(items: seq<Req>, truth: set<Word>)
    requires items != []
    ensures SomeHolds(items, truth) <==> Holds(items[0], truth, truth) || SomeHolds(items[1..], truth)
    ensures AllHold(items, truth) <==> Holds(items[0], truth, truth) && AllHold(items[1..], truth)
  {
    if SomeHolds(items, truth) {
      var i :| 0 <= i < |items| && Holds(items[i], truth, truth);
      if i > 0 { assert items[1..][i - 1] == items[i]; }
    }
    if SomeHolds(items[1..], truth) {
      var i :| 0 <= i < |items[1..]| && Holds(items[1..][i], truth, truth);
      assert items[i + 1] == items[1..][i];
    }
    if AllHold(items, truth) {
      assert forall i :: 0 <= i < |items[1..]| ==> items[1..][i] == items[i + 1];
    }
    if Holds(items[0], truth, truth) && AllHold(items[1..], truth) {
      forall i | 0 <= i < |items| ensures Holds(items[i], truth, truth) {
        if i > 0 { assert items[1..][i - 1] == items[i]; }
      }
    }
  }

  lemma UnionDescribes(groups: seq<Group>, more: seq<Group>, truncated: bool, moreTruncated: bool, truth: set<Word>,
                       a: bool, b: bool)
    requires Listing(groups) && |groups| <= MAX_CHOICE_GROUPS
    requires Describes(groups, truncated, truth, a) && Describes(more, moreTruncated, truth, b)
    ensures var r := AddCapped(groups, more);
            Describes(r.0, truncated || moreTruncated || r.1, truth, a || b)
            && Listing(r.0) && |r.0| <= MAX_CHOICE_GROUPS
  {
    var r := AddCapped(groups, more);
    AddCappedMeaning(groups, more);
    if SomeTrue(r.0, truth) {
      var i :| 0 <= i < |r.0| && GroupTrue(r.0[i], truth);
      assert r.0[i] in r.0;
      if r.0[i] in groups {
        var k :| 0 <= k < |groups| && groups[k] == r.0[i];
      } else {
        var k :| 0 <= k < |more| && more[k] == r.0[i];
      }
    }
    if SomeTrue(groups, truth) {
      var i :| 0 <= i < |groups| && GroupTrue(groups[i], truth);
      assert groups[i] in r.0;
      var k :| 0 <= k < |r.0| && r.0[k] == groups[i];
    }
    if SomeTrue(more, truth) && !r.1 {
      var i :| 0 <= i < |more| && GroupTrue(more[i], truth);
      assert more[i] in r.0;
      var k :| 0 <= k < |r.0| && r.0[k] == more[i];
    }
  }

  lemma {:induction false} AnyGroupsMeaning(items: seq<Req>, groups: seq<Group>, truncated: bool, truth: set<Word>,
                                            before: bool)
    requires Listing(groups) && |groups| <= MAX_CHOICE_GROUPS && Describes(groups, truncated, truth, before)
    ensures var r := AnyGroups(items, groups, truncated);
            && Describes(r.0, r.1, truth, before || SomeHolds(items, truth))
            && Listing(r.0) && |r.0| <= MAX_CHOICE_GROUPS
    decreases items, 0
  {
    if items != [] {
      var child := ChoiceGroups(items[0]);
      ChoiceGroupsMeaning(items[0], truth);
      ItemsSplit(items, truth);
      UnionDescribes(groups, child.0, truncated, child.1, truth, before, Holds(items[0], truth, truth));
      var added := AddCapped(groups, child.0);
      if !added.1 {
        AnyGroupsMeaning(items[1..], added.0, truncated || child.1, truth, before || Holds(items[0], truth, truth));
      }
    }
  }

  lemma ProductDescribes(groups: seq<Group>, more: seq<Group>, truncated: bool, moreTruncated: bool, truth: set<Word>,
                         a: bool, b: bool)
    requires Describes(groups, truncated, truth, a) && Describes(more, moreTruncated, truth, b)
    ensures Describes(Products(groups, more), truncated || moreTruncated, truth, a && b)
  {
    var all := Products(groups, more);
    if SomeTrue(all, truth) {
      var i :| 0 <= i < |all| && GroupTrue(all[i], truth);
      assert all[i] in all;
      ProductsMembers(groups, more, all[i]);
      var l, r :| l in groups && r in more && all[i] == l + r;
      GroupTrueAppend(l, r, truth);
      var j :| 0 <= j < |groups| && groups[j] == l;
      var k :| 0 <= k < |more| && more[k] == r;
      assert GroupTrue(groups[j], truth) && GroupTrue(more[k], truth);
    }
    if SomeTrue(groups, truth) && SomeTrue(more, truth) {
      var j :| 0 <= j < |groups| && GroupTrue(groups[j], truth);
      var k :| 0 <= k < |more| && GroupTrue(more[k], truth);
      GroupTrueAppend(groups[j], more[k], truth);
      ProductsMembers(groups, more, groups[j] + more[k]);
      assert groups[j] in groups && more[k] in more;
      var i :| 0 <= i < |all| && all[i] == groups[j] + more[k];
    }
  }

  lemma {:induction false} AllGroupsMeaning(items: seq<Req>, groups: seq<Group>, truncated: bool, truth: set<Word>,
                                            before: bool)
    requires Listing(groups) && |groups| <= MAX_CHOICE_GROUPS && Describes(groups, truncated, truth, before)
    ensures var r := AllGroups(items, groups, truncated);
            && Describes(r.0, r.1, truth, before && AllHold(items, truth))
            && Listing(r.0) && |r.0| <= MAX_CHOICE_GROUPS
    decreases items, 0
  {
    if items != [] {
      var child := ChoiceGroups(items[0]);
      ChoiceGroupsMeaning(items[0], truth);
      ItemsSplit(items, truth);
      var now := before && Holds(items[0], truth, truth);
      var all := Products(groups, child.0);
      ProductDescribes(groups, child.0, truncated, child.1, truth, before, Holds(items[0], truth, truth));
      assert Describes([], false, truth, false);
      UnionDescribes([], all, false, truncated || child.1, truth, false, now);
      var combined := AddCapped([], all);
      AllGroupsMeaning(items[1..], combined.0, truncated || child.1 || combined.1, truth, now);
    }
  }

  ghost predicate Increasing(words: seq<Word>) { forall i, j :: 0 <= i < j < |words| ==> words[i] < words[j] }

  lemma {:induction false} InsertWordMeaning(words: seq<Word>, w: Word)
    requires Increasing(words)
    ensures Increasing(InsertWord(words, w))
    ensures forall x :: x in InsertWord(words, w) <==> x in words || x == w
  {
    if words != [] && words[0] != w && !(w < words[0]) {
      InsertWordMeaning(words[1..], w);
      var rest := InsertWord(words[1..], w);
      assert words == [words[0]] + words[1..];
      forall j | 0 <= j < |rest| ensures words[0] < rest[j] {
        assert rest[j] in rest;
        if rest[j] != w { assert rest[j] in words[1..]; }
      }
    }
  }

  lemma {:induction false} AllWordsMeaning(groups: seq<Group>)
    requires forall i :: 0 <= i < |groups| ==> |groups[i]| == 1
    ensures Increasing(AllWords(groups))
    ensures forall w :: w in AllWords(groups) <==> [w] in groups
  {
    if groups != [] {
      AllWordsMeaning(groups[1..]);
      InsertWordMeaning(AllWords(groups[1..]), groups[0][0]);
      assert groups[0] == [groups[0][0]] && groups == [groups[0]] + groups[1..];
    }
  }

  lemma SomeWordTrue(groups: seq<Group>, flat: seq<Word>, truth: set<Word>)
    requires forall i :: 0 <= i < |groups| ==> |groups[i]| == 1
    requires forall w :: w in flat <==> [w] in groups
    ensures SomeTrue(groups, truth) <==> exists i :: 0 <= i < |flat| && flat[i] in truth
  {
    if i :| 0 <= i < |groups| && GroupTrue(groups[i], truth) {
      assert groups[i] == [groups[i][0]] && groups[i] in groups;
      assert groups[i][0] in flat;
    }
    if i :| 0 <= i < |flat| && flat[i] in truth {
      assert [flat[i]] in groups;
      var j :| 0 <= j < |groups| && groups[j] == [flat[i]];
      assert GroupTrue(groups[j], truth);
    }
  }

  /** The flat list is shown only when it says it all: any one of its words makes the tree true, and
      nothing else does. */
  lemma FlatChoicesMeaning(req: Req, truth: set<Word>)
    ensures var listed := ChoiceGroups(req);
            var flat := FlatChoices(listed.0, listed.1);
            && Increasing(flat)
            && (flat != [] ==> (Holds(req, truth, truth) <==> exists i :: 0 <= i < |flat| && flat[i] in truth))
  {
    hide ChoiceGroups, Holds, Listing, AllWords, Increasing;
    var (groups, truncated) := ChoiceGroups(req);
    ChoiceGroupsMeaning(req, truth);
    NothingIncreasing();
    if !truncated && forall i :: 0 <= i < |groups| ==> |groups[i]| == 1 {
      AllWordsMeaning(groups);
      SomeWordTrue(groups, AllWords(groups), truth);
    }
  }

  lemma NothingIncreasing()
    ensures Increasing([])
  {
  }

  // ---------------------------------------------------------------- evaluation is sound

  /** The courses a requirement may count on once `dependencies` are taken: the completed ones and
      their campus aliases, the dependencies, and the codes whose selected offering is among them. */
  function CountedOn(ctx: Context, dependencies: set<Code>): set<Word> {
    Taken(ctx) + dependencies + (set w <- ctx.selectedAliases | ctx.selectedAliases[w] in dependencies :: w)
  }

  lemma CountedOnMore(ctx: Context, dependencies: set<Code>, more: set<Code>)
    requires dependencies <= more
    ensures CountedOn(ctx, dependencies) <= CountedOn(ctx, more)
  {
  }

  lemma {:induction false} ItemResult(items: seq<Req>, owner: Code, ctx: Context, i: nat)
    requires i < |items|
    ensures EvaluateItems(items, owner, ctx)[i] == Evaluate(items[i], owner, ctx)
  {
    if i > 0 {
      ItemResult(items[1..], owner, ctx, i - 1);
      assert items[1..][i - 1] == items[i];
    }
  }

  lemma {:induction false} AllDependenciesMembers(results: seq<Evaluation>)
    ensures forall i :: 0 <= i < |results| ==> results[i].dependencies <= AllDependencies(results)
    ensures forall d <- AllDependencies(results) :: exists i :: 0 <= i < |results| && d in results[i].dependencies
  {
    if results != [] {
      AllDependenciesMembers(results[1..]);
      forall i | 0 <= i < |results| ensures results[i].dependencies <= AllDependencies(results) {
        if i > 0 { assert results[1..][i - 1] == results[i]; }
      }
      forall d | d in AllDependencies(results) ensures exists i :: 0 <= i < |results| && d in results[i].dependencies {
        if d !in results[0].dependencies {
          var i :| 0 <= i < |results[1..]| && d in results[1..][i].dependencies;
          assert results[i + 1] == results[1..][i];
        }
      }
    }
  }

  lemma {:induction false} ViableMembers(results: seq<Evaluation>)
    ensures forall v <- Viable(results) :: v.ready && v in results
    ensures forall r <- results :: r.ready ==> r in Viable(results)
  {
    if results != [] {
      ViableMembers(results[1..]);
      assert results == [results[0]] + results[1..];
    }
  }

  lemma {:induction false} PlaceMeaning(groups: seq<seq<Evaluation>>, result: Evaluation, campus: map<Code, set<Code>>)
    ensures |Place(groups, result, campus)| >= 1 && |Place(groups, result, campus)| >= |groups|
    ensures |Place(groups, result, campus)| == 1 ==>
              Place(groups, result, campus)[0] == (if groups == [] then [] else groups[0]) + [result]
  {
    if groups != [] && !(groups[0] != [] && SameCourse(groups[0][0], result, campus)) {
      PlaceMeaning(groups[1..], result, campus);
    }
  }

  /** One group holds every alternative, in order. */
  lemma {:induction false} OneGroupIsAll(results: seq<Evaluation>, campus: map<Code, set<Code>>)
    requires |DistinctCourses(results, campus)| == 1
    ensures DistinctCourses(results, campus)[0] == results
  {
    var front, last := results[..|results| - 1], results[|results| - 1];
    PlaceMeaning(DistinctCourses(front, campus), last, campus);
    assert results == front + [last];
    if front != [] {
      var m := |DistinctCourses(front, campus)|;
      PlaceMeaning(DistinctCourses(front[..|front| - 1], campus), front[|front| - 1], campus);
      OneGroupIsAll(front, campus);
    }
  }

  lemma {:induction false} AllBlockersEmpty(results: seq<Evaluation>)
    ensures AllBlockers(results) == [] <==> forall i :: 0 <= i < |results| ==> results[i].blockers == []
  {
    if results != [] {
      AllBlockersEmpty(results[1..]);
      if forall i :: 0 <= i < |results| ==> results[i].blockers == [] {
        assert forall i :: 0 <= i < |results[1..]| ==> results[1..][i] == results[i + 1];
      }
      if AllBlockers(results) == [] {
        forall i | 0 <= i < |results| ensures results[i].blockers == [] {
          if i > 0 { assert results[1..][i - 1] == results[i]; }
        }
      }
    }
  }

  /** A requirement is ready exactly when nothing stands in its way. */
  lemma {:induction false} ReadyIffUnblocked(req: Req, owner: Code, ctx: Context)
    ensures Evaluate(req, owner, ctx).ready <==> Evaluate(req, owner, ctx).blockers == []
    decreases req
  {
    match req
    case CourseRef(_) =>
    case Condition(_) =>
    case AllOf(items) =>
      var results := EvaluateItems(items, owner, ctx);
      forall i | 0 <= i < |items| ensures results[i].ready <==> results[i].blockers == [] {
        ItemResult(items, owner, ctx, i);
        ReadyIffUnblocked(items[i], owner, ctx);
      }
      AllBlockersEmpty(results);
    case AnyOf(items) =>
      if !exists i :: 0 <= i < |items| && Holds(items[i], Taken(ctx), {}) {
        var results := EvaluateItems(items, owner, ctx);
        forall i | 0 <= i < |items| ensures results[i].ready <==> results[i].blockers == [] {
          ItemResult(items, owner, ctx, i);
          ReadyIffUnblocked(items[i], owner, ctx);
        }
        AnyReadyIffUnblocked(req, results, owner, ctx.campus);
      }
  }

  lemma AnyReadyIffUnblocked(req: Req, results: seq<Evaluation>, owner: Code, campus: map<Code, set<Code>>)
    requires forall i :: 0 <= i < |results| ==> (results[i].ready <==> results[i].blockers == [])
    ensures EvaluateAny(req, results, owner, campus).ready <==> EvaluateAny(req, results, owner, campus).blockers == []
  {
    var viable := Viable(results);
    ViableMembers(results);
    forall i | 0 <= i < |viable| ensures viable[i].ready && viable[i].blockers == [] {
      assert viable[i] in viable;
    }
    if |viable| > 1 && |DistinctCourses(viable, campus)| == 1 {
      OneGroupIsAll(viable, campus);
      AllBlockersEmpty(viable);
    }
  }

  /** What an evaluation that is ready guarantees. */
  ghost predicate Justified(req: Req, e: Evaluation, ctx: Context) {
    e.ready ==> Holds(req, CountedOn(ctx, e.dependencies), {})
  }

  /** A ready requirement holds once its dependencies are taken beside what is completed. */
  lemma {:induction false} ReadyIsSound(req: Req, owner: Code, ctx: Context)
    ensures Justified(req, Evaluate(req, owner, ctx), ctx)
    decreases req
  {
    match req
    case CourseRef(_) =>
    case Condition(_) =>
    case AllOf(items) =>
      var e := Evaluate(req, owner, ctx);
      var results := EvaluateItems(items, owner, ctx);
      AllDependenciesMembers(results);
      forall i | 0 <= i < |items| && e.ready ensures Holds(items[i], CountedOn(ctx, e.dependencies), {}) {
        ItemResult(items, owner, ctx, i);
        ReadyIsSound(items[i], owner, ctx);
        CountedOnMore(ctx, results[i].dependencies, e.dependencies);
        HoldsMonotone(items[i], CountedOn(ctx, results[i].dependencies), CountedOn(ctx, e.dependencies), {});
      }
    case AnyOf(items) =>
      if i :| 0 <= i < |items| && Holds(items[i], Taken(ctx), {}) {
        HoldsMonotone(items[i], Taken(ctx), CountedOn(ctx, {}), {});
      } else {
        var results := EvaluateItems(items, owner, ctx);
        forall i | 0 <= i < |items| ensures Justified(items[i], results[i], ctx) {
          ItemResult(items, owner, ctx, i);
          ReadyIsSound(items[i], owner, ctx);
        }
        AnyIsSound(items, results, owner, ctx);
      }
  }

  lemma AnyIsSound(items: seq<Req>, results: seq<Evaluation>, owner: Code, ctx: Context)
    requires |results| == |items| && forall i :: 0 <= i < |items| ==> Justified(items[i], results[i], ctx)
    ensures Justified(AnyOf(items), EvaluateAny(AnyOf(items), results, owner, ctx.campus), ctx)
  {
    var e := EvaluateAny(AnyOf(items), results, owner, ctx.campus);
    var viable := Viable(results);
    ViableMembers(results);
    if e.ready {
      assert viable[0] in viable;
      var i :| 0 <= i < |results| && results[i] == viable[0];
      if |viable| > 1 {
        OneGroupIsAll(viable, ctx.campus);
        AllDependenciesMembers(viable);
      }
      CountedOnMore(ctx, results[i].dependencies, e.dependencies);
      HoldsMonotone(items[i], CountedOn(ctx, results[i].dependencies), CountedOn(ctx, e.dependencies), {});
    }
  }

  /** A requirement met by completed courses is ready and depends on nothing. */
  lemma {:induction false} CompletedIsReady(req: Req, owner: Code, ctx: Context)
    requires Holds(req, Taken(ctx), {})
    ensures Evaluate(req, owner, ctx).ready && Evaluate(req, owner, ctx).dependencies == {}
    decreases req
  {
    match req
    case CourseRef(_) =>
    case AnyOf(_) =>
    case AllOf(items) =>
      var results := EvaluateItems(items, owner, ctx);
      forall i | 0 <= i < |items| ensures results[i].ready && results[i].dependencies == {} {
        ItemResult(items, owner, ctx, i);
        CompletedIsReady(items[i], owner, ctx);
      }
      AllDependenciesMembers(results);
  }

  /** Selected courses, directly or as the campus offering of the code named. */
  function Choosable(ctx: Context): set<Code> {
    ctx.selected + set w <- ctx.selectedAliases :: ctx.selectedAliases[w]
  }

  /** A requirement depends on selected courses only. */
  lemma {:induction false} DependenciesAreSelected(req: Req, owner: Code, ctx: Context)
    ensures Evaluate(req, owner, ctx).dependencies <= Choosable(ctx)
    decreases req
  {
    match req
    case CourseRef(_) =>
    case Condition(_) =>
    case AllOf(items) =>
      ItemDependencies(items, owner, ctx);
      AllDependenciesMembers(EvaluateItems(items, owner, ctx));
    case AnyOf(items) =>
      var results := EvaluateItems(items, owner, ctx);
      ItemDependencies(items, owner, ctx);
      ViableMembers(results);
      var viable := Viable(results);
      if |viable| >= 1 { assert viable[0] in results; }
      if |viable| > 1 && |DistinctCourses(viable, ctx.campus)| == 1 {
        OneGroupIsAll(viable, ctx.campus);
        AllDependenciesMembers(viable);
        forall d | d in AllDependencies(viable) ensures d in Choosable(ctx) {
          var i :| 0 <= i < |viable| && d in viable[i].dependencies;
          assert viable[i] in viable;
        }
      }
  }

  lemma {:induction false} ItemDependencies(items: seq<Req>, owner: Code, ctx: Context)
    ensures forall r <- EvaluateItems(items, owner, ctx) :: r.dependencies <= Choosable(ctx)
    decreases items
  {
    if items != [] {
      DependenciesAreSelected(items[0], owner, ctx);
      ItemDependencies(items[1..], owner, ctx);
    }
  }

  // ---------------------------------------------------------------- selecting more

  /** At every choice that completed courses leave open, the alternatives that can be taken are one
      course, or the campus offerings of one. */
  predicate SingleChoices(req: Req, owner: Code, ctx: Context)
    decreases req
  {
    match req
    case CourseRef(_) => true
    case Condition(_) => true
    case AllOf(items) => forall i :: 0 <= i < |items| ==> SingleChoices(items[i], owner, ctx)
    case AnyOf(items) =>
      || (exists i :: 0 <= i < |items| && Holds(items[i], Taken(ctx), {}))
      || |DistinctCourses(Viable(EvaluateItems(items, owner, ctx)), ctx.campus)| == 1
  }

  /** What is ready course by course stays so. */
  ghost predicate CoursesStayReady(owner: Code, ctx: Context, more: Context) {
    forall code :: EvaluateCourse(code, owner, ctx).ready ==> EvaluateCourse(code, owner, more).ready
  }

  /** A choice is ready exactly when completed courses settle it or its alternatives are one course. */
  lemma ChoiceReady(items: seq<Req>, owner: Code, ctx: Context)
    ensures Evaluate(AnyOf(items), owner, ctx).ready <==> SingleChoices(AnyOf(items), owner, ctx)
  {
    var viable := Viable(EvaluateItems(items, owner, ctx));
    ViableMembers(EvaluateItems(items, owner, ctx));
    if |viable| == 1 {
      assert viable[0] in viable && viable[..0] == [];
      assert DistinctCourses(viable, ctx.campus) == Place([], viable[0], ctx.campus);
    }
  }

  /** When more is selected, a ready requirement stays ready exactly when each open choice in it
      still comes down to one course. */
  lemma {:induction false} StaysReadyIffSingleChoices(req: Req, owner: Code, ctx: Context, more: Context)
    requires Evaluate(req, owner, ctx).ready && CoursesStayReady(owner, ctx, more)
    ensures Evaluate(req, owner, more).ready <==> SingleChoices(req, owner, more)
    decreases req
  {
    match req
    case CourseRef(_) =>
    case Condition(_) =>
    case AllOf(items) =>
      forall i | 0 <= i < |items|
        ensures EvaluateItems(items, owner, more)[i].ready <==> SingleChoices(items[i], owner, more)
      {
        ItemResult(items, owner, ctx, i);
        ItemResult(items, owner, more, i);
        StaysReadyIffSingleChoices(items[i], owner, ctx, more);
      }
    case AnyOf(items) =>
      ChoiceReady(items, owner, more);
  }

  /** A larger selection over the same records, in which every selected course is on record and current. */
  ghost predicate SelectsMore(ctx: Context, more: Context) {
    && more.names == ctx.names && more.courses == ctx.courses && more.campus == ctx.campus
    && ctx.selected <= more.selected
    && more.completed == ctx.completed && more.completedAliases == ctx.completedAliases
    && AliasesFor(ctx.selectedAliases, ctx.selected, ctx.campus)
    && AliasesFor(more.selectedAliases, more.selected, more.campus)
    && forall c <- more.selected :: c in more.courses && more.courses[c].isCurrent
  }

  lemma MoreCoursesReady(owner: Code, ctx: Context, more: Context)
    requires SelectsMore(ctx, more)
    ensures CoursesStayReady(owner, ctx, more)
  {
    forall code | EvaluateCourse(code, owner, ctx).ready ensures EvaluateCourse(code, owner, more).ready {
      if code !in Taken(ctx) && code !in more.selected {
        assert ctx.selectedAliases[code] in more.selected;
        assert code in more.selectedAliases && more.selectedAliases[code] in more.selected;
      }
    }
  }

  predicate Conjunctive(req: Req)
    decreases req
  {
    match req
    case CourseRef(_) => true
    case Condition(_) => true
    case AllOf(items) => forall i :: 0 <= i < |items| ==> Conjunctive(items[i])
    case AnyOf(_) => false
  }

  lemma {:induction false} ConjunctiveSingleChoices(req: Req, owner: Code, ctx: Context)
    requires Conjunctive(req)
    ensures SingleChoices(req, owner, ctx)
    decreases req
  {
    match req
    case CourseRef(_) =>
    case Condition(_) =>
    case AllOf(items) =>
      forall i | 0 <= i < |items| ensures SingleChoices(items[i], owner, ctx) {
        ConjunctiveSingleChoices(items[i], owner, ctx);
      }
  }

  /** So selecting more recorded, current courses never hurts a requirement without choices. */
  lemma ConjunctiveStaysReady(req: Req, owner: Code, ctx: Context, more: Context)
    requires Conjunctive(req) && Evaluate(req, owner, ctx).ready && SelectsMore(ctx, more)
    ensures Evaluate(req, owner, more).ready
  {
    MoreCoursesReady(owner, ctx, more);
    ConjunctiveSingleChoices(req, owner, more);
    StaysReadyIffSingleChoices(req, owner, ctx, more);
  }

  function PlainCourse(code: Code): Course { Course(code, true, NoRequisites, None, None, false, false, false) }

  /** Only `codes` selected, nothing completed, no other campus. */
  function Selecting(names: Names, codes: set<Code>, courses: map<Code, Course>): Context {
    Context(names, codes, {}, courses, {}, map[], map[])
  }

  /** With choices it can: selecting the second alternative as well makes a ready choice unready. */
  lemma SecondAlternativeBlocks(names: Names, a: Code, b: Code, owner: Code)
    requires a != b
    ensures var courses := map[a := PlainCourse(a), b := PlainCourse(b)];
            var one, two := Selecting(names, {a}, courses), Selecting(names, {a, b}, courses);
            var either := AnyOf([CourseRef(a), CourseRef(b)]);
            SelectsMore(one, two) && Evaluate(either, owner, one).ready && !Evaluate(either, owner, two).ready
  {
    var courses := map[a := PlainCourse(a), b := PlainCourse(b)];
    var one, two := Selecting(names, {a}, courses), Selecting(names, {a, b}, courses);
    var items := [CourseRef(a), CourseRef(b)];
    PairResults(items, owner, one);
    PairResults(items, owner, two);
    var ea, eb := Evaluate(items[0], owner, two), Evaluate(items[1], owner, two);
    ViablePair(Evaluate(items[0], owner, one), Evaluate(items[1], owner, one));
    ViablePair(ea, eb);
    TwoPlaces(Evaluation(true, {a}, []), Evaluation(true, {b}, []), map[]);
  }

  lemma PairResults(items: seq<Req>, owner: Code, ctx: Context)
    requires |items| == 2
    ensures EvaluateItems(items, owner, ctx) == [Evaluate(items[0], owner, ctx), Evaluate(items[1], owner, ctx)]
  {
    ItemResult(items, owner, ctx, 0);
    ItemResult(items, owner, ctx, 1);
  }

  lemma ViablePair(x: Evaluation, y: Evaluation)
    ensures Viable([x, y]) == (if x.ready then [x] else []) + (if y.ready then [y] else [])
  {
    assert [x, y][1..] == [y] && [y][1..] == [];
    assert Viable([y]) == if y.ready then [y] else [];
  }

  lemma TwoPlaces(l: Evaluation, r: Evaluation, campus: map<Code, set<Code>>)
    requires !SameCourse(l, r, campus)
    ensures |DistinctCourses([l, r], campus)| == 2
  {
    assert [l, r][..1] == [l] && [l][..0] == [];
    assert DistinctCourses([l], campus) == Place([], l, campus);
    assert Place([[l]], r, campus) == [[l]] + Place([[l]][1..], r, campus);
  }
}
