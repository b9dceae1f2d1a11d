/** The order in which the lazy search comes upon the allocations that fill a rule, said over their rows
    alone; what it reports is the first of them. */
module AuditOrder {
  import opened AuditRules
  import opened Selections
  import opened AuditPlans
  import opened AuditMeaning
  import opened AuditRows
  import opened AuditFillings
  import opened WitnessTraces
  import opened WitnessProofs

  // ---------------------------------------------------------------- the order

  ghost predicate DifferAt<T>(s: seq<T>, a: seq<T>, b: seq<T>, k: int) {
    0 <= k < |s| && s[k] in a && s[k] !in b && forall j :: 0 <= j < k ==> (s[j] in a <==> s[j] in b)
  }

  /** Of two choices from a list, the first takes the first element on which they differ. */
  ghost predicate TakesFirst<T>(s: seq<T>, a: seq<T>, b: seq<T>) { exists k :: DifferAt(s, a, b, k) }

  /** Fewer attempts first; as many, the one that takes the earlier ones of the record. */
  ghost predicate EarlierLeaf(record: seq<Attempt>, a: seq<Attempt>, b: seq<Attempt>) {
    |a| < |b| || (|a| == |b| && TakesFirst(record, a, b))
  }

  ghost predicate EngagesFirst(a: seq<Row>, b: seq<Row>, i: int) {
    && 0 <= i < |a| && |a| == |b| && a[i].status != NotSelected && b[i].status == NotSelected
    && forall j :: 0 <= j < i ==> (a[j].status != NotSelected <==> b[j].status != NotSelected)
  }

  ghost predicate EngageAlike(a: seq<Row>, b: seq<Row>) {
    |a| == |b| && forall i :: 0 <= i < |a| ==> (a[i].status != NotSelected <==> b[i].status != NotSelected)
  }

  /** Two rows of a rule, the first of which is found before the second: at a leaf by the attempts they
      take; at a container by the children they engage, and where those are the same, by the first child
      that they report differently. */
  ghost predicate Earlier(rule: Rule, record: seq<Attempt>, a: Row, b: Row)
    decreases rule, 1
  {
    if rule.children == [] then EarlierLeaf(record, a.attempts, b.attempts)
    else
      || (exists i :: EngagesFirst(a.children, b.children, i))
      || (EngageAlike(a.children, b.children) && exists i :: EarlierAt(rule, record, a.children, b.children, i))
  }

  ghost predicate EarlierAt(rule: Rule, record: seq<Attempt>, a: seq<Row>, b: seq<Row>, i: int)
    decreases rule, 0
  {
    && 0 <= i < |a| && |a| == |b| == |rule.children| && Earlier(rule.children[i], record, a[i], b[i])
    && forall j :: 0 <= j < i ==> a[j] == b[j]
  }

  lemma TakesFirstAsymmetric<T>(s: seq<T>, a: seq<T>, b: seq<T>)
    ensures !(TakesFirst(s, a, b) && TakesFirst(s, b, a))
  {
  }

  lemma EngagesAsymmetric(a: seq<Row>, b: seq<Row>, i: int, j: int)
    requires EngagesFirst(a, b, i)
    ensures !EngagesFirst(b, a, j) && !EngageAlike(a, b) && !EngageAlike(b, a)
  {
  }

  /** Of two rows at most one is earlier, so there is one earliest row at most. */
  lemma {:induction false} EarlierAsymmetric(rule: Rule, record: seq<Attempt>, a: Row, b: Row)
    requires Earlier(rule, record, a, b)
    ensures !Earlier(rule, record, b, a) && a != b
    decreases rule
  {
    if rule.children == [] {
      if TakesFirst(record, a.attempts, b.attempts) { TakesFirstAsymmetric(record, a.attempts, b.attempts); }
    } else if i :| EngagesFirst(a.children, b.children, i) {
      if j :| EngagesFirst(b.children, a.children, j) { EngagesAsymmetric(a.children, b.children, i, j); }
      EngagesAsymmetric(a.children, b.children, i, 0);
    } else {
      var i :| EarlierAt(rule, record, a.children, b.children, i);
      EarlierAsymmetric(rule.children[i], record, a.children[i], b.children[i]);
      if k :| EngagesFirst(b.children, a.children, k) { EngagesAsymmetric(b.children, a.children, k, 0); }
      forall k ensures !EarlierAt(rule, record, b.children, a.children, k) {
        EarlierOnce(rule, record, a.children, b.children, i, k);
      }
    }
  }

  lemma EarlierOnce(rule: Rule, record: seq<Attempt>, a: seq<Row>, b: seq<Row>, i: int, k: int)
    requires EarlierAt(rule, record, a, b, i) && !Earlier(rule.children[i], record, b[i], a[i]) && a[i] != b[i]
    ensures !EarlierAt(rule, record, b, a, k)
  {
    if k < i && EarlierAt(rule, record, b, a, k) {
      assert a[k] == b[k];
      EarlierAsymmetric(rule.children[k], record, b[k], a[k]);
    }
  }

  // ---------------------------------------------------------------- combinations in order

  ghost predicate Ascending<T(!new)>(s: seq<T>, choices: seq<seq<T>>) {
    forall i, j :: 0 <= i < j < |choices| ==> TakesFirst(s, choices[i], choices[j])
  }

  lemma PrefixedTakesFirst<T>(s: seq<T>, a: seq<T>, b: seq<T>)
    requires s != [] && s[0] !in s[1..] && TakesFirst(s[1..], a, b)
    ensures TakesFirst(s, [s[0]] + a, [s[0]] + b)
  {
    var k :| DifferAt(s[1..], a, b, k);
    var x := s[0];
    assert s[1..][k] == s[k + 1] && s[k + 1] in s[1..];
    forall j | 0 <= j < k + 1 ensures s[j] in [x] + a <==> s[j] in [x] + b {
      if j > 0 { assert s[1..][j - 1] == s[j]; }
    }
    assert DifferAt(s, [x] + a, [x] + b, k + 1);
  }

  lemma PrefixedAscend<T(!new)>(s: seq<T>, choices: seq<seq<T>>)
    requires s != [] && s[0] !in s[1..] && Ascending(s[1..], choices)
    ensures Ascending(s, Prefixed(s[0], choices))
  {
    var all := Prefixed(s[0], choices);
    forall i, j | 0 <= i < j < |all| ensures TakesFirst(s, all[i], all[j]) {
      hide TakesFirst;
      PrefixedTakesFirst(s, choices[i], choices[j]);
    }
  }

  lemma TailAscends<T(!new)>(s: seq<T>, choices: seq<seq<T>>)
    requires s != [] && Ascending(s[1..], choices) && forall c <- choices :: s[0] !in c
    ensures Ascending(s, choices)
  {
    forall i, j | 0 <= i < j < |choices| ensures TakesFirst(s, choices[i], choices[j]) {
      hide TakesFirst;
      HeadTakesFirst(s, choices[i], choices[j]);
    }
  }

  lemma JoinAscends<T(!new)>(s: seq<T>, a: seq<seq<T>>, b: seq<seq<T>>)
    requires Ascending(s, a) && Ascending(s, b) && forall x <- a, y <- b :: TakesFirst(s, x, y)
    ensures Ascending(s, a + b)
  {
    hide TakesFirst;
    var all := a + b;
    forall i, j | 0 <= i < j < |all| ensures TakesFirst(s, all[i], all[j]) {
      if i < |a| && j >= |a| { assert all[i] in a && all[j] in b; }
    }
  }

  lemma WithoutHead<T>(s: seq<T>, k: nat, t: seq<T>)
    requires s != [] && s[0] !in s[1..] && t in Combinations(s[1..], k)
    ensures s[0] !in t
  {
    CombinationsMembers(s[1..], k, t);
    SelectionMembers(t, s[1..]);
  }

  lemma HeadDiffers<T>(s: seq<T>, a: seq<T>, b: seq<T>)
    requires s != [] && s[0] in a && s[0] !in b
    ensures TakesFirst(s, a, b)
  {
    assert DifferAt(s, a, b, 0);
  }

  /** Combinations come with the earlier elements first. */
  lemma {:induction false} CombinationsAscend<T(!new)>(s: seq<T>, k: nat)
    requires NoDuplicates(s)
    ensures Ascending(s, Combinations(s, k))
  {
    if k > 0 && s != [] {
      NoDuplicatesTail(s);
      var front, back := Combinations(s[1..], k - 1), Combinations(s[1..], k);
      CombinationsAscend(s[1..], k - 1);
      CombinationsAscend(s[1..], k);
      hide Ascending, TakesFirst, NoDuplicates;
      forall t | t in back ensures s[0] !in t { WithoutHead(s, k, t); }
      forall a, b | a in Prefixed(s[0], front) && b in back ensures TakesFirst(s, a, b) {
        PrefixedMembers(s[0], front, a);
        HeadDiffers(s, a, b);
      }
      PrefixedAscend(s, front);
      TailAscends(s, back);
      JoinAscends(s, Prefixed(s[0], front), back);
    } else {
      assert Ascending(s, Combinations(s, k));
    }
  }

  lemma HeadTakesFirst<T>(s: seq<T>, a: seq<T>, b: seq<T>)
    requires s != [] && (s[0] in a <==> s[0] in b) && TakesFirst(s[1..], a, b)
    ensures TakesFirst(s, a, b)
  {
    var k :| DifferAt(s[1..], a, b, k);
    forall j | 0 <= j < k + 1 ensures s[j] in a <==> s[j] in b {
      if j > 0 { assert s[1..][j - 1] == s[j]; }
    }
    assert DifferAt(s, a, b, k + 1);
  }

  lemma RestTakesFirst<T>(s: seq<T>, a: seq<T>, b: seq<T>)
    requires s != [] && !(s[0] in a && s[0] !in b) && TakesFirst(s, a, b)
    ensures TakesFirst(s[1..], a, b) && (s[0] in a <==> s[0] in b)
  {
    var k :| DifferAt(s, a, b, k);
    forall j | 0 <= j < k - 1 ensures s[1..][j] in a <==> s[1..][j] in b { assert s[1..][j] == s[j + 1]; }
    assert DifferAt(s[1..], a, b, k - 1);
  }

  /** What is earlier among some elements of a list is earlier in the list. */
  lemma {:induction false} TakesFirstInWhole<T>(s: seq<T>, r: seq<T>, a: seq<T>, b: seq<T>)
    requires NoDuplicates(s) && IsSelection(r, s) && TakesFirst(r, a, b)
    requires forall x <- s :: x in a || x in b ==> x in r
    ensures TakesFirst(s, a, b)
    decreases s
  {
    NoDuplicatesTail(s);
    if r[0] == s[0] && IsSelection(r[1..], s[1..]) {
      if s[0] in a && s[0] !in b {
        HeadDiffers(s, a, b);
      } else {
        RestTakesFirst(r, a, b);
        hide TakesFirst, IsSelection, NoDuplicates;
        forall x | x in s[1..] && (x in a || x in b) ensures x in r[1..] { NotTheHead(s, r, x); }
        TakesFirstInWhole(s[1..], r[1..], a, b);
        HeadTakesFirst(s, a, b);
      }
    } else {
      SelectionMembers(r, s[1..]);
      hide TakesFirst, IsSelection, NoDuplicates;
      forall x | x in s[1..] && (x in a || x in b) ensures x in r { assert x in s; }
      assert s[0] in s;
      TakesFirstInWhole(s[1..], r, a, b);
      HeadTakesFirst(s, a, b);
    }
  }

  lemma NotTheHead<T>(s: seq<T>, r: seq<T>, x: T)
    requires s != [] && r != [] && r[0] == s[0] && s[0] !in s[1..] && x in s[1..] && (x in s ==> x in r)
    ensures x in r[1..]
  {
    assert r == [r[0]] + r[1..];
  }

  /** Selections of a leaf: smaller ones first, and those of one size by the attempts they take. */
  ghost predicate SmallestFirst(s: seq<Attempt>, selections: seq<seq<Attempt>>) {
    forall i, j :: 0 <= i < j < |selections| ==> EarlierLeaf(s, selections[i], selections[j])
  }

  lemma JoinSmallest(s: seq<Attempt>, a: seq<seq<Attempt>>, b: seq<seq<Attempt>>)
    requires SmallestFirst(s, a) && SmallestFirst(s, b) && forall x <- a, y <- b :: |x| < |y|
    ensures SmallestFirst(s, a + b)
  {
    hide TakesFirst;
    var all := a + b;
    forall i, j | 0 <= i < j < |all| ensures EarlierLeaf(s, all[i], all[j]) {
      if i < |a| && j >= |a| { assert all[i] in a && all[j] in b; }
    }
  }

  lemma OneSizeAscends(s: seq<Attempt>, size: nat)
    requires NoDuplicates(s)
    ensures SmallestFirst(s, Combinations(s, size))
  {
    var all := Combinations(s, size);
    CombinationsAscend(s, size);
    hide TakesFirst, NoDuplicates;
    forall i | 0 <= i < |all| ensures |all[i]| == size { CombinationsMembers(s, size, all[i]); }
  }

  lemma {:induction false} SizesAscend(s: seq<Attempt>, low: nat, high: nat)
    requires NoDuplicates(s)
    ensures SmallestFirst(s, CombinationsBetween(s, low, high))
    decreases high + 1 - low
  {
    if low <= high {
      SizesAscend(s, low + 1, high);
      OneSizeAscends(s, low);
      hide SmallestFirst, NoDuplicates, Combinations;
      var front, back := Combinations(s, low), CombinationsBetween(s, low + 1, high);
      forall x, y | x in front && y in back ensures |x| < |y| {
        CombinationsMembers(s, low, x);
        CombinationsBetweenMembers(s, low + 1, high, y);
      }
      JoinSmallest(s, front, back);
    }
  }

  lemma LeafSelectionsAscend(rule: Rule, eligible: seq<Attempt>)
    requires NoDuplicates(eligible)
    ensures SmallestFirst(eligible, LeafSelections(rule, eligible))
  {
    if rule.kind == CreditThreshold {
      SizesAscend(eligible, 1, |eligible|);
    } else {
      OneSizeAscends(eligible, rule.LeafNeed());
    }
  }

  // ---------------------------------------------------------------- results in order

  ghost predicate Before(rule: Rule, record: seq<Attempt>, x: Event, y: Event) {
    x.Yield? && y.Yield? ==> Earlier(rule, record, x.candidate.row, y.candidate.row)
  }

  /** The results among these events come earlier ones first. */
  ghost predicate InOrder(rule: Rule, record: seq<Attempt>, events: Trace) {
    forall i, j :: 0 <= i < j < |events| ==> Before(rule, record, events[i], events[j])
  }

  lemma JoinInOrder(rule: Rule, record: seq<Attempt>, a: Trace, b: Trace)
    requires InOrder(rule, record, a)
    requires InOrder(rule, record, b)
    requires forall x <- a, y <- b :: Before(rule, record, x, y)
    ensures InOrder(rule, record, a + b)
  {
    hide Before;
    var all := a + b;
    forall i, j | 0 <= i < j < |all| ensures Before(rule, record, all[i], all[j]) {
      if i < |a| && j >= |a| { assert all[i] in a && all[j] in b; }
    }
  }

  lemma TicksInOrder(rule: Rule, record: seq<Attempt>, b: Trace)
    requires InOrder(rule, record, b)
    ensures InOrder(rule, record, [Tick] + b)
  {
    JoinInOrder(rule, record, [Tick], b);
  }

  lemma ThenInOrder(rule: Rule, record: seq<Attempt>, here: Trace, later: Trace)
    requires InOrder(rule, record, here)
    requires InOrder(rule, record, later)
    requires forall x <- here, y <- later :: Before(rule, record, x, y)
    ensures InOrder(rule, record, [Tick] + here + later)
  {
    hide Before, InOrder;
    JoinInOrder(rule, record, here, later);
    TicksInOrder(rule, record, here + later);
    assert [Tick] + here + later == [Tick] + (here + later);
  }

  lemma {:induction false} SelectionsInOrder(rule: Rule, record: seq<Attempt>, floor: string,
                                             selections: seq<seq<Attempt>>)
    requires rule.children == [] && SmallestFirst(record, selections)
    ensures InOrder(rule, record, EachSelection(rule, floor, selections))
  {
    if selections != [] {
      var rest := selections[1..];
      SelectionsInOrder(rule, record, floor, rest);
      var here := LeafCandidate(rule, floor, selections[0]);
      var later := EachSelection(rule, floor, rest);
      forall y | y in later ensures Before(rule, record, Yield(here), y) {
        if y.Yield? {
          SelectionYields(rule, floor, rest, y.candidate);
          var t :| t in rest && y.candidate == LeafCandidate(rule, floor, t);
          var k :| 0 <= k < |rest| && rest[k] == t;
          assert EarlierLeaf(record, selections[0], selections[k + 1]);
        }
      }
      ThenInOrder(rule, record, if AcceptsSelection(rule, selections[0]) then [Yield(here)] else [], later);
    }
  }

  lemma LeafInOrder(rule: Rule, used: set<Code>, rank: nat, floor: string, record: seq<Attempt>)
    requires rule.children == [] && ValidRecord(record)
    ensures InOrder(rule, record, LeafWitnesses(rule, used, rank, floor, record))
  {
    var eligible := EligibleAttempts(record, rule, used, floor, rank);
    var selections := LeafSelections(rule, eligible);
    RecordHasNoDuplicates(record);
    SelectionNoDuplicates(eligible, record);
    LeafSelectionsAscend(rule, eligible);
    forall i | 0 <= i < |selections| ensures forall x <- selections[i] :: IsEligible(x, rule, used, floor, rank) {
      LeafSelectionsMembers(rule, eligible, selections[i]);
      SelectionMembers(selections[i], eligible);
    }
    forall i, j | 0 <= i < j < |selections| ensures EarlierLeaf(record, selections[i], selections[j]) {
      assert EarlierLeaf(eligible, selections[i], selections[j]);
      if TakesFirst(eligible, selections[i], selections[j]) {
        TakesFirstInWhole(record, eligible, selections[i], selections[j]);
      }
    }
    SelectionsInOrder(rule, record, floor, selections);
  }

  /** A child before this one is reported alike by two results of one choice. */
  lemma ChildBeforeAlike(s: Search, record: seq<Attempt>, position: nat, rows: map<nat, Row>, x: Row, y: Row, j: nat)
    requires s.Valid() && Rising(s.indices) && position < |s.indices| && j < s.indices[position]
    requires ChildrenFilled(s, record, position, rows) && Completes(s, rows, x) && Completes(s, rows, y)
    ensures x.children[j] == y.children[j]
  {
    if j in s.indices {
      var k :| 0 <= k < |s.indices| && s.indices[k] == j;
      assert k < position;
      assert s.indices[..position][k] == j;
      assert j in Elements(s.indices[..position]);
    }
  }

  /** Two results of one choice whose rows for this child are found one after the other. */
  lemma LaterChild(s: Search, record: seq<Attempt>, position: nat, rows: map<nat, Row>, a: Row, b: Row, x: Row, y: Row)
    requires ExecutableChoice(s) && s.Valid() && position < |s.indices|
    requires ChildrenFilled(s, record, position, rows)
    requires Completes(s, rows[s.indices[position] := a], x)
    requires Completes(s, rows[s.indices[position] := b], y)
    requires Earlier(s.Child(position), record, a, b)
    ensures Earlier(s.rule, record, x, y)
  {
    var i := s.indices[position];
    ActiveRise(s.rule, 0);
    SelectionRises(s.indices, ActiveIndices(s.rule, 0));
    StillCompletes(s, record, position, rows, a, x);
    StillCompletes(s, record, position, rows, b, y);
    hide ExecutableChoice, ChildrenFilled, Rising, ActiveIndices, IsSelection, Earlier, EngageAlike;
    SameEngaged(s, rows, rows, x, y);
    ThisChild(s, rows, i, a, x);
    ThisChild(s, rows, i, b, y);
    forall j: nat | j < i ensures x.children[j] == y.children[j] {
      ChildBeforeAlike(s, record, position, rows, x, y, j);
    }
    EarlierByChild(s.rule, record, x, y, i);
  }

  lemma ThisChild(s: Search, rows: map<nat, Row>, i: nat, a: Row, x: Row)
    requires Completes(s, rows[i := a], x)
    ensures |x.children| == |s.rule.children| && i < |x.children| && x.children[i] == a
  {
    assert i in rows[i := a];
  }

  lemma SameEngaged(s: Search, rows: map<nat, Row>, others: map<nat, Row>, x: Row, y: Row)
    requires Completes(s, rows, x) && Completes(s, others, y)
    ensures EngageAlike(x.children, y.children)
  {
  }

  lemma EarlierByChild(rule: Rule, record: seq<Attempt>, x: Row, y: Row, i: nat)
    requires |x.children| == |y.children| == |rule.children| && i < |rule.children|
    requires Earlier(rule.children[i], record, x.children[i], y.children[i])
    requires forall j :: 0 <= j < i ==> x.children[j] == y.children[j]
    requires EngageAlike(x.children, y.children)
    ensures Earlier(rule, record, x, y)
  {
    assert EarlierAt(rule, record, x.children, y.children, i);
  }

  /** Among rising indices the first that two choices differ on is the least. */
  lemma LeastDifference(active: seq<nat>, a: seq<nat>, b: seq<nat>) returns (i: nat)
    requires Rising(active) && TakesFirst(active, a, b)
    requires forall j <- a :: j in active
    requires forall j <- b :: j in active
    ensures i in a && i !in b && forall j: nat | j < i :: j in a <==> j in b
  {
    var k :| DifferAt(active, a, b, k);
    i := active[k];
    forall j: nat | j < i ensures j in a <==> j in b {
      if j in active {
        var m :| 0 <= m < |active| && active[m] == j;
        assert m < k;
      }
    }
  }

  /** Results of two choices, the first of which engages an earlier child. */
  lemma LaterChoice(s: Search, t: Search, record: seq<Attempt>, x: Row, y: Row)
    requires s.rule == t.rule && s.rule.children != []
    requires Completes(s, map[], x) && Completes(t, map[], y)
    requires TakesFirst(ActiveIndices(s.rule, 0), s.indices, t.indices)
    requires IsSelection(s.indices, ActiveIndices(s.rule, 0)) && IsSelection(t.indices, ActiveIndices(s.rule, 0))
    ensures Earlier(s.rule, record, x, y)
  {
    var active := ActiveIndices(s.rule, 0);
    ActiveRise(s.rule, 0);
    SelectionMembers(s.indices, active);
    SelectionMembers(t.indices, active);
    hide Rising, IsSelection, TakesFirst, Earlier, Completes;
    var i := LeastDifference(active, s.indices, t.indices);
    assert i in active;
    EngagedByFirst(s, t, x, y, i);
    EarlierByChoice(s.rule, record, x, y, i);
  }

  lemma EngagedByFirst(s: Search, t: Search, x: Row, y: Row, i: nat)
    requires s.rule == t.rule && Completes(s, map[], x) && Completes(t, map[], y) && i < |s.rule.children|
    requires i in s.indices && i !in t.indices && forall j: nat | j < i :: j in s.indices <==> j in t.indices
    ensures EngagesFirst(x.children, y.children, i) && |x.children| == |y.children| == |s.rule.children|
  {
  }

  lemma EarlierByChoice(rule: Rule, record: seq<Attempt>, x: Row, y: Row, i: nat)
    requires rule.children != [] && |x.children| == |y.children| == |rule.children|
    requires EngagesFirst(x.children, y.children, i)
    ensures Earlier(rule, record, x, y)
  {
  }

  /** The lazy search gives its results earliest first. */
  lemma {:induction false} WitnessesInOrder(rule: Rule, used: set<Code>, rank: nat, around: string,
                                            record: seq<Attempt>)
    requires WellFormed(rule) && !rule.IsInformational() && 2 <= rank <= 5 && ValidRecord(record)
    ensures InOrder(rule, record, Witnesses(rule, used, rank, around, record))
    decreases rule, 4, 0, 0, 0
  {
    var grade := EffectiveGrade(rule, around);
    var active := ActiveIndices(rule, 0);
    if IsOpaque(rule, grade) || (rule.children != [] && active == []) {
    } else if rule.children != [] {
      CombinationsAreChoices(rule);
      CombinationsAscend(active, ContainerNeed(rule));
      var choices := Combinations(active, ContainerNeed(rule));
      forall indices | indices in choices ensures |indices| == ContainerNeed(rule) {
        CombinationsMembers(active, ContainerNeed(rule), indices);
      }
      ChoicesInOrder(rule, used, rank, around, record, choices);
      TicksInOrder(rule, record, EachChoice(rule, used, rank, grade, record, choices));
    } else {
      LeafInOrder(rule, used, rank, grade, record);
      TicksInOrder(rule, record, LeafWitnesses(rule, used, rank, grade, record));
    }
  }

  ghost predicate Executable(rule: Rule, around: string, rank: nat, choices: seq<seq<nat>>) {
    && WellFormed(rule) && !rule.IsInformational() && 2 <= rank <= 5
    && rule.children != [] && !IsOpaque(rule, EffectiveGrade(rule, around)) && ActiveIndices(rule, 0) != []
    && ChoicesOf(rule, choices) && forall indices <- choices :: |indices| == ContainerNeed(rule)
  }

  lemma {:induction false} ChoicesInOrder(rule: Rule, used: set<Code>, rank: nat, around: string, record: seq<Attempt>,
                                          choices: seq<seq<nat>>)
    requires Executable(rule, around, rank, choices) && ValidRecord(record)
    requires Ascending(ActiveIndices(rule, 0), choices)
    ensures InOrder(rule, record, EachChoice(rule, used, rank, EffectiveGrade(rule, around), record, choices))
    decreases rule, 3, |choices|, 0, 0
  {
    if choices == [] {
      NoResults(rule, record);
    } else {
      var grade := EffectiveGrade(rule, around);
      ChoiceIsValid(rule, used, rank, grade, choices[0]);
      var s := Search(rule, used, rank, grade, choices[0]);
      NoneFilledYet(s, record);
      RestOfChoices(rule, around, rank, choices);
      CombineInOrder(s, record, 0, map[], {});
      ChoicesInOrder(rule, used, rank, around, record, choices[1..]);
      FirstChoiceBefore(rule, used, rank, around, record, choices);
      hide InOrder, Before, Executable, Ascending, Combine, WellFormed, IsOpaque, ActiveIndices, ContainerNeed;
      ThenInOrder(rule, record, Combine(s, record, 0, map[], {}),
                  EachChoice(rule, used, rank, grade, record, choices[1..]));
    }
  }

  lemma RestOfChoices(rule: Rule, around: string, rank: nat, choices: seq<seq<nat>>)
    requires Executable(rule, around, rank, choices) && Ascending(ActiveIndices(rule, 0), choices) && choices != []
    ensures Executable(rule, around, rank, choices[1..]) && Ascending(ActiveIndices(rule, 0), choices[1..])
  {
    hide TakesFirst, WellFormed, IsOpaque;
  }

  /** What comes out of the first choice is earlier than what comes out of the others. */
  lemma FirstChoiceBefore(rule: Rule, used: set<Code>, rank: nat, around: string, record: seq<Attempt>,
                          choices: seq<seq<nat>>)
    requires Executable(rule, around, rank, choices) && ValidRecord(record) && choices != []
    requires Ascending(ActiveIndices(rule, 0), choices)
    requires Search(rule, used, rank, EffectiveGrade(rule, around), choices[0]).Valid()
    ensures var grade := EffectiveGrade(rule, around);
            forall x <- Combine(Search(rule, used, rank, grade, choices[0]), record, 0, map[], {}),
              y <- EachChoice(rule, used, rank, grade, record, choices[1..]) :: Before(rule, record, x, y)
  {
    var grade := EffectiveGrade(rule, around);
    var here := Combine(Search(rule, used, rank, grade, choices[0]), record, 0, map[], {});
    var later := EachChoice(rule, used, rank, grade, record, choices[1..]);
    forall x, y | x in here && y in later ensures Before(rule, record, x, y) {
      if x.Yield? && y.Yield? {
        ChoiceBefore(rule, used, rank, around, record, choices, x.candidate, y.candidate);
      }
    }
  }

  lemma NoResults(rule: Rule, record: seq<Attempt>)
    ensures InOrder(rule, record, [])
  {
  }

  lemma NoneFilledYet(s: Search, record: seq<Attempt>)
    requires s.Valid()
    ensures ChildrenFilled(s, record, 0, map[])
  {
  }

  lemma ChoiceBefore(rule: Rule, used: set<Code>, rank: nat, around: string, record: seq<Attempt>,
                     choices: seq<seq<nat>>, x: Candidate, y: Candidate)
    requires Executable(rule, around, rank, choices) && ValidRecord(record) && choices != []
    requires Ascending(ActiveIndices(rule, 0), choices)
    requires Search(rule, used, rank, EffectiveGrade(rule, around), choices[0]).Valid()
    requires Yield(x)
             in Combine(Search(rule, used, rank, EffectiveGrade(rule, around), choices[0]), record, 0, map[], {})
    requires Yield(y) in EachChoice(rule, used, rank, EffectiveGrade(rule, around), record, choices[1..])
    ensures Earlier(rule, record, x.row, y.row)
  {
    var s := Search(rule, used, rank, EffectiveGrade(rule, around), choices[0]);
    CombineFilled(s, record, 0, map[], {}, x);
    var t := ChoiceFilled(rule, used, rank, around, record, choices[1..], y);
    var k :| 0 <= k < |choices[1..]| && choices[1..][k] == t.indices;
    assert TakesFirst(ActiveIndices(rule, 0), choices[0], choices[k + 1]);
    LaterChoice(s, t, record, x.row, y.row);
  }

  lemma OneResult(rule: Rule, record: seq<Attempt>, c: Candidate)
    ensures InOrder(rule, record, [Tick] + [Yield(c)])
  {
  }

  lemma ChildSound(s: Search, position: nat)
    requires ExecutableChoice(s) && s.Valid() && position < |s.indices|
    ensures s.Child(position) in s.rule.children
    ensures WellFormed(s.Child(position)) && !s.Child(position).IsInformational()
  {
    assert s.Child(position) in s.rule.children;
  }

  lemma {:induction false} CombineInOrder(s: Search, record: seq<Attempt>, position: nat, rows: map<nat, Row>,
                                          consumed: set<Code>)
    requires ExecutableChoice(s) && ValidRecord(record) && ChildrenFilled(s, record, position, rows)
    ensures InOrder(s.rule, record, Combine(s, record, position, rows, consumed))
    decreases s.rule, 2, |s.indices| - position, 1, 0
  {
    hide Filled, Earlier, InOrder, WellFormed;
    if position == |s.indices| {
      OneResult(s.rule, record, Candidate(ContainerRow(s, rows), consumed));
    } else {
      var events := Witnesses(s.Child(position), s.used + consumed, s.rank, s.grade, record);
      ChildSound(s, position);
      WitnessesInOrder(s.Child(position), s.used + consumed, s.rank, s.grade, record);
      ForEachInOrder(s, record, position, rows, consumed, events);
      TicksInOrder(s.rule, record, ForEach(s, record, position, rows, consumed, events));
    }
  }

  lemma {:induction false} ForEachInOrder(s: Search, record: seq<Attempt>, position: nat, rows: map<nat, Row>,
                                          consumed: set<Code>, events: Trace)
    requires ExecutableChoice(s) && ValidRecord(record) && ChildrenFilled(s, record, position, rows)
    requires position < |s.indices| && InOrder(s.Child(position), record, events)
    requires forall e <- events :: e in Witnesses(s.Child(position), s.used + consumed, s.rank, s.grade, record)
    ensures InOrder(s.rule, record, ForEach(s, record, position, rows, consumed, events))
    decreases s.rule, 2, |s.indices| - position, 0, |events|
  {
    if events != [] {
      var first, rest := events[0], events[1..];
      var later := ForEach(s, record, position, rows, consumed, rest);
      RestInOrder(s.Child(position), record, events);
      ForEachInOrder(s, record, position, rows, consumed, rest);
      if first.Tick? {
        TicksInOrder(s.rule, record, later);
      } else {
        var child := first.candidate;
        var more := rows[s.indices[position] := child.row];
        var here := Combine(s, record, position + 1, more, consumed + child.used);
        assert first in Witnesses(s.Child(position), s.used + consumed, s.rank, s.grade, record);
        WitnessFilled(s.Child(position), s.used + consumed, s.rank, s.grade, record, child);
        ChildFilled(s, record, position, rows, child.row);
        CombineInOrder(s, record, position + 1, more, consumed + child.used);
        forall x, y | x in here && y in later ensures Before(s.rule, record, x, y) {
          if x.Yield? && y.Yield? {
            ChildBefore(s, record, position, rows, consumed, events, x.candidate, y.candidate);
          }
        }
        JoinInOrder(s.rule, record, here, later);
      }
    }
  }

  lemma RestInOrder(rule: Rule, record: seq<Attempt>, events: Trace)
    requires events != [] && InOrder(rule, record, events)
    ensures InOrder(rule, record, events[1..])
    ensures forall e <- events[1..] :: Before(rule, record, events[0], e)
  {
    hide Before;
    forall e | e in events[1..] ensures Before(rule, record, events[0], e) {
      var k :| 0 <= k < |events[1..]| && events[1..][k] == e;
      assert events[k + 1] == e;
    }
  }

  lemma ChildBefore(s: Search, record: seq<Attempt>, position: nat, rows: map<nat, Row>, consumed: set<Code>,
                    events: Trace, x: Candidate, y: Candidate)
    requires ExecutableChoice(s) && ValidRecord(record) && ChildrenFilled(s, record, position, rows)
    requires position < |s.indices| && events != [] && InOrder(s.Child(position), record, events)
    requires forall e <- events :: e in Witnesses(s.Child(position), s.used + consumed, s.rank, s.grade, record)
    requires events[0].Yield? && var child := events[0].candidate;
             Yield(x) in Combine(s, record, position + 1, rows[s.indices[position] := child.row], consumed + child.used)
    requires Yield(y) in ForEach(s, record, position, rows, consumed, events[1..])
    ensures Earlier(s.rule, record, x.row, y.row)
  {
    var child := events[0].candidate;
    assert events[0] in Witnesses(s.Child(position), s.used + consumed, s.rank, s.grade, record);
    WitnessFilled(s.Child(position), s.used + consumed, s.rank, s.grade, record, child);
    ChildFilled(s, record, position, rows, child.row);
    CombineFilled(s, record, position + 1, rows[s.indices[position] := child.row], consumed + child.used, x);
    var e := ForEachFilled(s, record, position, rows, consumed, events[1..], y);
    RestInOrder(s.Child(position), record, events);
    LaterChild(s, record, position, rows, child.row, e.candidate.row, x.row, y.row);
  }
}
