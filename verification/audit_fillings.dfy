/** What the lazy search comes upon: exactly the allocations that fill their rules at the rank asked for,
    taking no more than is needed, and those in a definite order. */
module AuditFillings {
  import opened AuditRules
  import opened Selections
  import opened AuditPlans
  import opened AuditMeaning
  import opened AuditRows
  import opened WitnessTraces
  import opened WitnessProofs
  import opened OptionSearch
  import opened OptionProofs
  import opened OptionMeaning

  // ---------------------------------------------------------------- filling a rule

  /** A leaf with exactly as many attempts as it asks for, or enough credits, all counting at the rank. */
  ghost predicate LeafFilled(rule: Rule, floor: string, record: seq<Attempt>, rank: nat, row: Row) {
    && LeafTold(rule, floor, record, row) && row.attempts != []
    && (forall a <- row.attempts :: CountsAt(a, floor, rank))
    && if rule.kind == CreditThreshold
       then row.credits >= if rule.minCredits.Some? then rule.minCredits.value else 0.0
       else |row.attempts| == Wanted(rule)
  }

  /** A row that fills its rule at this rank or better, with exactly as many parts as it asks for. */
  ghost predicate Filled(rule: Rule, around: string, record: seq<Attempt>, rank: nat, row: Row)
    decreases rule
  {
    var floor := Floor(rule, around);
    if rule.disposition == Informational then false
    else if Undecidable(rule, floor) || (rule.children != [] && Stating(rule) == {}) then Bare(rule, row) && rank <= 2
    else if rule.children == [] then LeafFilled(rule, floor, record, rank, row)
    else
      && ContainerTold(rule, row) && Engaged(row.children) == Wanted(rule)
      && forall i :: 0 <= i < |rule.children| ==>
           LeftOut(rule.children[i], row.children[i]) || Filled(rule.children[i], floor, record, rank, row.children[i])
  }

  // ---------------------------------------------------------------- what is found fills its rule

  lemma {:induction false} FilledIsTold(rule: Rule, around: string, record: seq<Attempt>, rank: nat, row: Row)
    requires Filled(rule, around, record, rank, row)
    ensures Told(rule, around, record, row) && row.status != NotSelected
    decreases rule
  {
    var floor := Floor(rule, around);
    if !Undecidable(rule, floor) && rule.children != [] && Stating(rule) != {} {
      hide ContainerTold, Undecidable, Stating;
      forall i | 0 <= i < |rule.children|
        ensures LeftOut(rule.children[i], row.children[i]) || Told(rule.children[i], floor, record, row.children[i])
      {
        if !LeftOut(rule.children[i], row.children[i]) {
          FilledIsTold(rule.children[i], floor, record, rank, row.children[i]);
        }
      }
      ContainerSelected(rule, row);
    }
  }

  lemma ContainerSelected(rule: Rule, row: Row)
    ensures ContainerTold(rule, row) ==> |row.children| == |rule.children| && row.status != NotSelected
  {
  }

  lemma LeafWitnessFilled(rule: Rule, used: set<Code>, rank: nat, floor: string, record: seq<Attempt>, t: seq<Attempt>)
    requires ExecutableLeaf(rule) && 2 <= rank && LeafChoice(rule, used, rank, floor, record, t)
    ensures LeafFilled(rule, floor, record, rank, LeafRow(rule, floor, t)) && Codes(t) !! used
  {
    var eligible := EligibleAttempts(record, rule, used, floor, rank);
    SelectionMembers(t, eligible);
    SelectionTransitive(t, eligible, record);
    forall a | a in t
      ensures Listed(rule, a.code) && !BelowFloor(a, floor) && CountsAt(a, floor, rank) && a.code !in used
    {
      assert a in eligible;
      StatusMeaning(a, floor);
      CountsAtMeaning(a, floor, rank);
    }
    CodesCount(t);
    LeafRowTold(rule, floor, record, t, false);
    assert LeafRow(rule, floor, t) == RowOf(rule, floor, t, false);
    WantedMeaning(rule);
  }

  /** A leaf's row that fills it is one of those found. */
  lemma LeafFilledIsChoice(rule: Rule, used: set<Code>, rank: nat, floor: string, record: seq<Attempt>, row: Row)
    requires rule.children == [] && 2 <= rank
    requires LeafFilled(rule, floor, record, rank, row) && Codes(row.attempts) !! used
    ensures LeafChoice(rule, used, rank, floor, record, row.attempts) && row == LeafRow(rule, floor, row.attempts)
  {
    var t := row.attempts;
    forall a | a in t ensures IsEligible(a, rule, used, floor, rank) {
      CountsAtMeaning(a, floor, rank);
      assert Listed(rule, a.code) && a.code in Codes(t);
    }
    SelectionIsEligible(record, rule, used, floor, rank, t);
    CodesCount(t);
    WantedMeaning(rule);
    CreditMeaning(t);
    LeafRowIs(rule, floor, record, row);
  }

  lemma {:induction false} SelectionIsEligible(record: seq<Attempt>, rule: Rule, used: set<Code>, floor: string,
                                               rank: nat, t: seq<Attempt>)
    requires IsSelection(t, record)
    requires forall a <- t :: IsEligible(a, rule, used, floor, rank)
    ensures IsSelection(t, EligibleAttempts(record, rule, used, floor, rank))
  {
    if t != [] {
      var rest := EligibleAttempts(record[1..], rule, used, floor, rank);
      assert ([record[0]] + rest)[1..] == rest;
      if t[0] == record[0] && IsSelection(t[1..], record[1..]) {
        SelectionIsEligible(record[1..], rule, used, floor, rank, t[1..]);
        assert t[0] in t;
      } else {
        SelectionIsEligible(record[1..], rule, used, floor, rank, t);
      }
    }
  }

  ghost predicate Rising(indices: seq<nat>) { forall i, j :: 0 <= i < j < |indices| ==> indices[i] < indices[j] }

  lemma {:induction false} ActiveRise(rule: Rule, from: nat)
    requires from <= |rule.children|
    ensures Rising(ActiveIndices(rule, from))
    decreases |rule.children| - from
  {
    if from < |rule.children| {
      ActiveRise(rule, from + 1);
      var rest := ActiveIndices(rule, from + 1);
      forall i | 0 <= i < |rest| ensures from < rest[i] { assert rest[i] in rest; }
    }
  }

  lemma {:induction false} SelectionRises(t: seq<nat>, s: seq<nat>)
    requires IsSelection(t, s) && Rising(s)
    ensures Rising(t)
  {
    if t != [] {
      if t[0] == s[0] && IsSelection(t[1..], s[1..]) {
        SelectionRises(t[1..], s[1..]);
        SelectionMembers(t[1..], s[1..]);
        forall j | 0 < j < |t| ensures t[0] < t[j] {
          assert t[1..][j - 1] == t[j] && t[j] in s[1..];
          var k :| 0 <= k < |s[1..]| && s[1..][k] == t[j];
          assert s[0] < s[k + 1];
        }
      } else {
        SelectionRises(t, s[1..]);
      }
    }
  }

  function StatusesAt(rows: seq<Row>, indices: seq<nat>): seq<Status>
    requires forall i <- indices :: i < |rows|
  {
    seq(|indices|, j requires 0 <= j < |indices| => assert indices[j] in indices; rows[indices[j]].status)
  }

  /** The last of some rising indices. */
  lemma LastIndex(indices: seq<nat>, last: nat) returns (before: seq<nat>)
    requires Rising(indices) && last in indices && forall i <- indices :: i <= last
    ensures indices == before + [last] && Rising(before) && forall i <- before :: i < last
    ensures forall i | i < last :: i in before <==> i in indices
  {
    var j :| 0 <= j < |indices| && indices[j] == last;
    assert indices[|indices| - 1] in indices;
    before := indices[..j];
    assert indices == before + [last];
    forall i | i in before ensures i < last {
      var k :| 0 <= k < |before| && before[k] == i;
      assert indices[k] < indices[j];
    }
  }

  lemma StatusesAtFront(rows: seq<Row>, front: seq<Row>, indices: seq<nat>)
    requires front <= rows && forall i <- indices :: i < |front|
    ensures StatusesAt(rows, indices) == StatusesAt(front, indices)
  {
    forall j | 0 <= j < |indices| ensures indices[j] < |front| && rows[indices[j]] == front[indices[j]] {
      assert indices[j] in indices;
    }
  }

  lemma StatusesAtMore(rows: seq<Row>, before: seq<nat>, last: nat)
    requires last < |rows| && forall i <- before + [last] :: i < |rows|
    ensures forall i <- before :: i < |rows|
    ensures StatusesAt(rows, before + [last]) == StatusesAt(rows, before) + [rows[last].status]
  {
    forall i | i in before ensures i < |rows| { assert i in before + [last]; }
  }

  lemma FirstIndex(indices: seq<nat>)
    ensures indices != [] ==> indices[0] in indices
  {
  }

  /** The statuses at the engaged places, in order. */
  lemma {:induction false} EngagedStatuses(rows: seq<Row>, indices: seq<nat>)
    requires Rising(indices) && forall i <- indices :: i < |rows|
    requires forall i: nat | i < |rows| :: i in indices <==> rows[i].status != NotSelected
    ensures StatusesAt(rows, indices) == ActiveStatuses(rows)
    decreases |rows|
  {
    if rows != [] {
      var last := |rows| - 1;
      var front := rows[..last];
      assert rows == front + [rows[last]];
      ActiveStatusesAppend(front, [rows[last]]);
      OneStatus(rows[last]);
      hide Rising, StatusesAt, ActiveStatuses;
      if last in indices {
        var before := LastIndex(indices, last);
        EngagedStatuses(front, before);
        StatusesAtMore(rows, before, last);
        StatusesAtFront(rows, front, before);
      } else {
        EngagedStatuses(front, indices);
        StatusesAtFront(rows, front, indices);
      }
    } else {
      FirstIndex(indices);
    }
  }

  lemma OneStatus(row: Row)
    ensures ActiveStatuses([row]) == if row.status == NotSelected then [] else [row.status]
  {
    assert [row][1..] == [] && ActiveStatuses([row][1..]) == [];
  }

  ghost predicate FilledContainer(rule: Rule, floor: string, record: seq<Attempt>, rank: nat, row: Row) {
    && ContainerTold(rule, row) && Engaged(row.children) == Wanted(rule)
    && forall i :: 0 <= i < |rule.children| ==>
         LeftOut(rule.children[i], row.children[i]) || Filled(rule.children[i], floor, record, rank, row.children[i])
  }

  /** The container's row has the rows done so far, engages exactly the chosen children, and leaves the
      others out. */
  ghost predicate Completes(s: Search, rows: map<nat, Row>, row: Row) {
    && |row.children| == |s.rule.children|
    && (forall i <- rows :: i < |row.children| && row.children[i] == rows[i])
    && (forall i: nat | i < |row.children| :: i in s.indices <==> row.children[i].status != NotSelected)
    && (forall i: nat | i < |row.children| && i !in s.indices :: row.children[i] == NotSelectedRow(s.rule.children[i]))
  }

  /** The children done so far fill their rules. */
  ghost predicate ChildrenFilled(s: Search, record: seq<Attempt>, position: nat, rows: map<nat, Row>) {
    && s.Valid() && position <= |s.indices| && rows.Keys == Elements(s.indices[..position])
    && forall i <- rows :: i < |s.rule.children| && rows[i].status != NotSelected
                           && Filled(s.rule.children[i], s.grade, record, s.rank, rows[i])
  }

  lemma ChildFilled(s: Search, record: seq<Attempt>, position: nat, rows: map<nat, Row>, row: Row)
    requires ChildrenFilled(s, record, position, rows) && position < |s.indices|
    requires Filled(s.Child(position), s.grade, record, s.rank, row)
    ensures ChildrenFilled(s, record, position + 1, rows[s.indices[position] := row])
  {
    FilledIsTold(s.Child(position), s.grade, record, s.rank, row);
    hide Filled;
    FreshIndex(s, position);
  }

  lemma AllDone(s: Search, record: seq<Attempt>, rows: map<nat, Row>)
    requires ChildrenFilled(s, record, |s.indices|, rows)
    ensures forall i: nat :: i in s.indices <==> i in rows
    ensures Completes(s, rows, ContainerRow(s, rows))
  {
    hide Filled;
    assert s.indices[..|s.indices|] == s.indices;
    forall i: nat ensures i in s.indices <==> i in rows { assert i in Elements(s.indices) <==> i in s.indices; }
  }

  /** The places of the children that are done are the engaged ones. */
  lemma DoneIsEngaged(s: Search, record: seq<Attempt>, rows: map<nat, Row>)
    requires ChildrenFilled(s, record, |s.indices|, rows)
    ensures forall i <- s.indices :: i < |s.rule.children|
    ensures forall i: nat | i < |s.rule.children| ::
              i in s.indices <==> ChildRows(s.rule, rows)[i].status != NotSelected
    ensures forall i: nat | i < |s.rule.children| ::
              || LeftOut(s.rule.children[i], ChildRows(s.rule, rows)[i])
              || Filled(s.rule.children[i], s.grade, record, s.rank, ChildRows(s.rule, rows)[i])
  {
    hide Filled, LeftOut;
    AllDone(s, record, rows);
    forall i: nat | i < |s.rule.children| && i !in rows
      ensures LeftOut(s.rule.children[i], ChildRows(s.rule, rows)[i])
    {
      LeftOutMeaning(s.rule.children[i], NotSelectedRow(s.rule.children[i]));
    }
  }

  lemma ContainerRowFilled(s: Search, record: seq<Attempt>, rows: map<nat, Row>)
    requires ExecutableChoice(s) && ChildrenFilled(s, record, |s.indices|, rows)
    ensures NoCourseTwice(RowAttempts(ChildRows(s.rule, rows))) ==>
              FilledContainer(s.rule, s.grade, record, s.rank, ContainerRow(s, rows))
    ensures Completes(s, rows, ContainerRow(s, rows))
  {
    var children := ChildRows(s.rule, rows);
    ActiveRise(s.rule, 0);
    SelectionRises(s.indices, ActiveIndices(s.rule, 0));
    AllDone(s, record, rows);
    DoneIsEngaged(s, record, rows);
    hide Filled, LeftOut, ChildrenFilled, Rising, ActiveIndices, IsSelection, WellFormed, ActiveStatuses, Aggregate,
      RowAt, Completes;
    EngagedStatuses(children, s.indices);
    StatusesAreThere(s, rows, children);
    if NoCourseTwice(RowAttempts(children)) { EngagedRowTold(s, children); }
  }

  lemma StatusesAreThere(s: Search, rows: map<nat, Row>, children: seq<Row>)
    requires s.Valid() && children == ChildRows(s.rule, rows) && forall i <- s.indices :: i < |children|
    ensures seq(|s.indices|, j requires 0 <= j < |s.indices| => RowAt(s.rule, rows, s.indices[j]).status)
            == StatusesAt(children, s.indices)
  {
  }

  /** The row of a container whose chosen children are the engaged ones. */
  lemma EngagedRowTold(s: Search, children: seq<Row>)
    requires ExecutableChoice(s) && |children| == |s.rule.children| && forall i <- s.indices :: i < |children|
    requires StatusesAt(children, s.indices) == ActiveStatuses(children) && NoCourseTwice(RowAttempts(children))
    ensures ContainerTold(s.rule,
                          Row(s.rule.id, Aggregate(StatusesAt(children, s.indices), false), RowAttempts(children),
                              RowCredits(children), Some(|s.indices|),
                              Some(CountSatisfied(StatusesAt(children, s.indices))), children))
    ensures Engaged(children) == Wanted(s.rule)
  {
    EngagedMeaning(children);
    JoinedMeaning(children);
    WantedMeaning(s.rule);
    SatisfiedRowsMeaning(children);
    RowsSettle(children, false);
    hide ActiveStatuses, Aggregate, SomeRow, Engaged, CountSatisfied, RowAttempts, RowCredits, Joined, JoinedCredit,
      NoCourseTwice, Wanted, WellFormed, IsSelection, ContainerNeed;
  }

  /** Every result of the lazy search fills the rule at the rank asked for. */
  lemma {:induction false} WitnessFilled(rule: Rule, used: set<Code>, rank: nat, around: string, record: seq<Attempt>,
                                         c: Candidate)
    requires WellFormed(rule) && !rule.IsInformational() && 2 <= rank <= 5 && ValidRecord(record)
    requires Yield(c) in Witnesses(rule, used, rank, around, record)
    ensures Filled(rule, around, record, rank, c.row) && c.used == Codes(c.row.attempts) && c.used !! used
    decreases rule, 4, 0, 0, 0
  {
    var floor := Floor(rule, around);
    GivenFloor(rule, around);
    WantedMeaning(rule);
    var active := ActiveIndices(rule, 0);
    var plan := WitnessSound(rule, used, rank, around, record, c);
    if IsOpaque(rule, floor) || (rule.children != [] && active == []) {
    } else if rule.children != [] {
      CombinationsAreChoices(rule);
      var choices := Combinations(active, ContainerNeed(rule));
      assert Yield(c) in EachChoice(rule, used, rank, floor, record, choices);
      forall indices | indices in choices ensures |indices| == ContainerNeed(rule) {
        CombinationsMembers(active, ContainerNeed(rule), indices);
      }
      var s := ChoiceFilled(rule, used, rank, around, record, choices, c);
    } else {
      var t := LeafYieldsSound(rule, used, rank, floor, record, c);
      LeafWitnessFilled(rule, used, rank, floor, record, t);
    }
  }

  lemma {:induction false} ChoiceFilled(rule: Rule, used: set<Code>, rank: nat, around: string, record: seq<Attempt>,
                                        choices: seq<seq<nat>>, c: Candidate) returns (s: Search)
    requires WellFormed(rule) && !rule.IsInformational() && 2 <= rank <= 5 && ValidRecord(record)
    requires rule.children != [] && !IsOpaque(rule, EffectiveGrade(rule, around)) && ActiveIndices(rule, 0) != []
    requires ChoicesOf(rule, choices) && forall indices <- choices :: |indices| == ContainerNeed(rule)
    requires Yield(c) in EachChoice(rule, used, rank, EffectiveGrade(rule, around), record, choices)
    ensures NoCourseTwice(c.row.attempts) ==>
              FilledContainer(rule, EffectiveGrade(rule, around), record, rank, c.row)
    ensures s.rule == rule && s.indices in choices && Completes(s, map[], c.row)
    decreases rule, 3, |choices|, 0, 0
  {
    var grade := EffectiveGrade(rule, around);
    ChoiceIsValid(rule, used, rank, grade, choices[0]);
    s := Search(rule, used, rank, grade, choices[0]);
    if Yield(c) in Combine(s, record, 0, map[], {}) {
      CombineFilled(s, record, 0, map[], {}, c);
    } else {
      s := ChoiceFilled(rule, used, rank, around, record, choices[1..], c);
    }
  }

  lemma {:induction false} CombineFilled(s: Search, record: seq<Attempt>, position: nat, rows: map<nat, Row>,
                                         consumed: set<Code>, c: Candidate)
    requires ExecutableChoice(s) && ValidRecord(record) && ChildrenFilled(s, record, position, rows)
    requires Yield(c) in Combine(s, record, position, rows, consumed)
    ensures NoCourseTwice(c.row.attempts) ==> FilledContainer(s.rule, s.grade, record, s.rank, c.row)
    ensures Completes(s, rows, c.row)
    decreases s.rule, 2, |s.indices| - position, 1, 0
  {
    if position == |s.indices| {
      assert c == Candidate(ContainerRow(s, rows), consumed);
      ContainerRowFilled(s, record, rows);
    } else {
      var events := Witnesses(s.Child(position), s.used + consumed, s.rank, s.grade, record);
      assert Yield(c) in ForEach(s, record, position, rows, consumed, events);
      var e := ForEachFilled(s, record, position, rows, consumed, events, c);
    }
  }

  lemma {:induction false} ForEachFilled(s: Search, record: seq<Attempt>, position: nat, rows: map<nat, Row>,
                                         consumed: set<Code>, events: Trace, c: Candidate)
      returns (e: Event)
    requires ExecutableChoice(s) && ValidRecord(record) && ChildrenFilled(s, record, position, rows)
    requires position < |s.indices|
    requires forall e <- events :: e in Witnesses(s.Child(position), s.used + consumed, s.rank, s.grade, record)
    requires Yield(c) in ForEach(s, record, position, rows, consumed, events)
    ensures NoCourseTwice(c.row.attempts) ==> FilledContainer(s.rule, s.grade, record, s.rank, c.row)
    ensures e in events && e.Yield? && Completes(s, rows[s.indices[position] := e.candidate.row], c.row)
    ensures Completes(s, rows, c.row)
    decreases s.rule, 2, |s.indices| - position, 0, |events|
  {
    if Yield(c) in ForEach(s, record, position, rows, consumed, events[1..]) {
      e := ForEachFilled(s, record, position, rows, consumed, events[1..], c);
    } else {
      e := events[0];
      assert e in Witnesses(s.Child(position), s.used + consumed, s.rank, s.grade, record);
      WitnessFilled(s.Child(position), s.used + consumed, s.rank, s.grade, record, e.candidate);
      ChildFilled(s, record, position, rows, e.candidate.row);
      var more := rows[s.indices[position] := e.candidate.row];
      CombineFilled(s, record, position + 1, more, consumed + e.candidate.used, c);
      StillCompletes(s, record, position, rows, e.candidate.row, c.row);
    }
  }

  lemma StillCompletes(s: Search, record: seq<Attempt>, position: nat, rows: map<nat, Row>, child: Row, row: Row)
    requires ChildrenFilled(s, record, position, rows) && position < |s.indices|
    requires Completes(s, rows[s.indices[position] := child], row)
    ensures Completes(s, rows, row)
  {
    FreshIndex(s, position);
    forall i | i in rows ensures i < |row.children| && row.children[i] == rows[i] {
      assert i in rows[s.indices[position] := child];
    }
  }

  // ---------------------------------------------------------------- whatever fills a rule is found

  /** The children that are engaged, in order. */
  function EngagedFrom(children: seq<Row>, from: nat): seq<nat>
    requires from <= |children|
    decreases |children| - from
  {
    if from == |children| then []
    else if children[from].status != NotSelected then [from] + EngagedFrom(children, from + 1)
    else EngagedFrom(children, from + 1)
  }

  lemma {:induction false} EngagedFromMembers(children: seq<Row>, from: nat, i: nat)
    requires from <= |children|
    ensures i in EngagedFrom(children, from) <==> from <= i < |children| && children[i].status != NotSelected
    decreases |children| - from
  {
    if from < |children| { EngagedFromMembers(children, from + 1, i); }
  }

  lemma {:induction false} EngagedFromCount(children: seq<Row>, from: nat)
    requires from <= |children|
    ensures |EngagedFrom(children, from)| == Engaged(children[from..])
    decreases |children| - from
  {
    if from < |children| {
      EngagedFromCount(children, from + 1);
      assert children[from..][1..] == children[from + 1..];
    }
  }

  lemma {:induction false} EngagedAreActive(rule: Rule, children: seq<Row>, from: nat)
    requires from <= |children| == |rule.children|
    requires forall i: nat | i < |children| && rule.children[i].IsInformational() :: children[i].status == NotSelected
    ensures IsSelection(EngagedFrom(children, from), ActiveIndices(rule, from))
    decreases |children| - from
  {
    if from < |children| {
      EngagedAreActive(rule, children, from + 1);
      var t, s := EngagedFrom(children, from + 1), ActiveIndices(rule, from + 1);
      assert ([from] + t)[1..] == t && ([from] + s)[1..] == s;
    }
  }

  /** A row of the container to be arrived at: its engaged children are those chosen, and fill their rules. */
  ghost predicate Target(s: Search, record: seq<Attempt>, row: Row) {
    && ExecutableChoice(s) && ContainerTold(s.rule, row) && Codes(row.attempts) !! s.used
    && (forall i: nat | i < |row.children| :: i in s.indices <==> row.children[i].status != NotSelected)
    && (forall i: nat | i < |row.children| && i in s.indices ::
          Filled(s.rule.children[i], s.grade, record, s.rank, row.children[i]))
    && (forall i: nat | i < |row.children| && i !in s.indices :: row.children[i] == NotSelectedRow(s.rule.children[i]))
  }

  ghost predicate TakenBefore(s: Search, position: nat, row: Row, c: Code)
    requires s.Valid() && |row.children| == |s.rule.children| && position <= |s.indices|
  {
    exists j :: 0 <= j < position && c in Codes(row.children[s.indices[j]].attempts)
  }

  /** On the way there the rows so far are the row's own, and so are the courses consumed. */
  ghost predicate OnTheWay(s: Search, position: nat, row: Row, rows: map<nat, Row>, consumed: set<Code>) {
    && s.Valid() && |row.children| == |s.rule.children| && position <= |s.indices|
    && rows.Keys == Elements(s.indices[..position])
    && (forall i <- rows :: i < |row.children| && rows[i] == row.children[i])
    && (forall c :: c in consumed <==> TakenBefore(s, position, row, c))
  }

  lemma TakenNext(s: Search, position: nat, row: Row, c: Code)
    requires s.Valid() && |row.children| == |s.rule.children| && position < |s.indices|
    ensures TakenBefore(s, position + 1, row, c)
            <==> TakenBefore(s, position, row, c) || c in Codes(row.children[s.indices[position]].attempts)
  {
    hide Codes;
    if j :| 0 <= j < position && c in Codes(row.children[s.indices[j]].attempts) { assert 0 <= j < position + 1; }
  }

  lemma OnAndOn(s: Search, position: nat, row: Row, rows: map<nat, Row>, consumed: set<Code>)
    requires OnTheWay(s, position, row, rows, consumed) && position < |s.indices|
    ensures var i := s.indices[position];
            OnTheWay(s, position + 1, row, rows[i := row.children[i]], consumed + Codes(row.children[i].attempts))
  {
    FreshIndex(s, position);
    forall c
      ensures TakenBefore(s, position + 1, row, c)
              <==> TakenBefore(s, position, row, c) || c in Codes(row.children[s.indices[position]].attempts)
    {
      TakenNext(s, position, row, c);
    }
    hide TakenBefore, Codes, Elements;
  }

  /** Once every chosen child is done the row is there, */
  lemma Arrived(s: Search, record: seq<Attempt>, row: Row, rows: map<nat, Row>, consumed: set<Code>)
    requires Target(s, record, row) && OnTheWay(s, |s.indices|, row, rows, consumed)
    ensures ContainerRow(s, rows) == row && consumed == Codes(row.attempts)
  {
    ArrivedChildren(s, row, rows, consumed);
    ArrivedCourses(s, record, row, rows, consumed);
    ArrivedRow(s, row, rows);
  }

  lemma ArrivedChildren(s: Search, row: Row, rows: map<nat, Row>, consumed: set<Code>)
    requires OnTheWay(s, |s.indices|, row, rows, consumed)
    requires forall i: nat | i < |row.children| && i !in s.indices ::
               row.children[i] == NotSelectedRow(s.rule.children[i])
    ensures ChildRows(s.rule, rows) == row.children
  {
    hide NotSelectedRow, Codes;
    assert s.indices[..|s.indices|] == s.indices;
    var children := ChildRows(s.rule, rows);
    forall i | 0 <= i < |children| ensures children[i] == row.children[i] {
      assert i in rows <==> i in Elements(s.indices);
    }
  }

  /** and its courses are those consumed. */
  lemma ArrivedCourses(s: Search, record: seq<Attempt>, row: Row, rows: map<nat, Row>, consumed: set<Code>)
    requires Target(s, record, row) && OnTheWay(s, |s.indices|, row, rows, consumed)
    ensures consumed == Codes(row.attempts)
  {
    hide Target, Codes;
    forall c ensures c in consumed <==> c in Codes(row.attempts) {
      CourseOfChild(s, record, row, c);
    }
  }

  lemma CourseOfChild(s: Search, record: seq<Attempt>, row: Row, c: Code)
    requires Target(s, record, row)
    ensures c in Codes(row.attempts)
            <==> exists j :: 0 <= j < |s.indices| && s.indices[j] < |row.children|
                             && c in Codes(row.children[s.indices[j]].attempts)
  {
    var children := row.children;
    JoinedMeaning(children);
    RowAttemptsMembers(children);
    hide Filled, ExecutableChoice, Codes;
    if c in Codes(row.attempts) {
      var i: nat :| i < |children| && c in Codes(children[i].attempts);
      if i !in s.indices { NoCourses(s.rule.children[i]); }
      var j :| 0 <= j < |s.indices| && s.indices[j] == i;
    }
  }

  lemma NoCourses(rule: Rule)
    ensures Codes(NotSelectedRow(rule).attempts) == {}
  {
  }

  lemma ArrivedRow(s: Search, row: Row, rows: map<nat, Row>)
    requires ExecutableChoice(s) && s.Valid() && ContainerTold(s.rule, row) && ChildRows(s.rule, rows) == row.children
    requires forall i: nat | i < |row.children| :: i in s.indices <==> row.children[i].status != NotSelected
    ensures ContainerRow(s, rows) == row
  {
    var children := row.children;
    ActiveRise(s.rule, 0);
    SelectionRises(s.indices, ActiveIndices(s.rule, 0));
    SelectionMembers(s.indices, ActiveIndices(s.rule, 0));
    EngagedStatuses(children, s.indices);
    StatusesAreThere(s, rows, children);
    JoinedMeaning(children);
    EngagedRowTold(s, children);
    hide Aggregate, ActiveStatuses, StatusesAt, RowAttempts, RowCredits, Wanted, Engaged;
    OneContainerRow(s.rule, row, ContainerRow(s, rows));
  }

  /** There is one row for a container's children. */
  lemma OneContainerRow(rule: Rule, row: Row, other: Row)
    requires ContainerTold(rule, row) && ContainerTold(rule, other) && row.children == other.children
    ensures row == other
  {
  }

  lemma ChildrenApart(row: Row, i: nat, k: nat)
    requires i < |row.children| && k < |row.children| && i != k
    requires row.attempts == Joined(row.children) && NoCourseTwice(row.attempts)
    ensures Codes(row.children[i].attempts) !! Codes(row.children[k].attempts)
  {
    JoinedMeaning(row.children);
    hide NoCourseTwice, Codes, Joined;
    if i < k { JoinedDistinct(row.children, i, k); } else { JoinedDistinct(row.children, k, i); }
  }

  lemma ChildWithin(row: Row, i: nat)
    requires i < |row.children| && row.attempts == Joined(row.children)
    ensures Codes(row.children[i].attempts) <= Codes(row.attempts)
  {
    JoinedMeaning(row.children);
    RowAttemptsMembers(row.children);
  }

  lemma ChildIsFree(s: Search, record: seq<Attempt>, position: nat, row: Row, rows: map<nat, Row>, consumed: set<Code>)
    requires Target(s, record, row) && OnTheWay(s, position, row, rows, consumed) && position < |s.indices|
    ensures Codes(row.children[s.indices[position]].attempts) !! s.used + consumed
  {
    var i := s.indices[position];
    assert row.attempts == Joined(row.children) && NoCourseTwice(row.attempts) && Codes(row.attempts) !! s.used;
    hide Target, Codes, Joined, NoCourseTwice;
    ChildWithin(row, i);
    forall c | c in Codes(row.children[i].attempts) ensures c !in consumed {
      if c in consumed {
        assert TakenBefore(s, position, row, c);
        var j :| 0 <= j < position && c in Codes(row.children[s.indices[j]].attempts);
        ChildrenApart(row, i, s.indices[j]);
      }
    }
  }

  lemma {:induction false} TargetIsReached(s: Search, record: seq<Attempt>, position: nat, row: Row,
                                           rows: map<nat, Row>, consumed: set<Code>)
    requires Target(s, record, row) && OnTheWay(s, position, row, rows, consumed) && ValidRecord(record)
    ensures Yield(Candidate(row, Codes(row.attempts))) in Combine(s, record, position, rows, consumed)
    decreases s.rule, 2, |s.indices| - position
  {
    if position == |s.indices| {
      Arrived(s, record, row, rows, consumed);
    } else {
      var i := s.indices[position];
      assert i in s.indices;
      var child := Candidate(row.children[i], Codes(row.children[i].attempts));
      ChildIsFree(s, record, position, row, rows, consumed);
      FilledIsFound(s.Child(position), s.used + consumed, s.rank, s.grade, record, row.children[i]);
      OnAndOn(s, position, row, rows, consumed);
      TargetIsReached(s, record, position + 1, row, rows[i := child.row], consumed + child.used);
      ForEachContains(s, record, position, rows, consumed,
                      Witnesses(s.Child(position), s.used + consumed, s.rank, s.grade, record), child,
                      Yield(Candidate(row, Codes(row.attempts))));
    }
  }

  /** Every row that fills the rule and keeps clear of the used courses is found. */
  lemma {:induction false} FilledIsFound(rule: Rule, used: set<Code>, rank: nat, around: string, record: seq<Attempt>,
                                         row: Row)
    requires WellFormed(rule) && 2 <= rank <= 5 && ValidRecord(record)
    requires Filled(rule, around, record, rank, row) && Codes(row.attempts) !! used
    ensures Yield(Candidate(row, Codes(row.attempts))) in Witnesses(rule, used, rank, around, record)
    decreases rule, 3, 0
  {
    var floor := Floor(rule, around);
    GivenFloor(rule, around);
    WantedMeaning(rule);
    var active := ActiveIndices(rule, 0);
    if IsOpaque(rule, floor) || (rule.children != [] && active == []) {
      assert Codes(row.attempts) == {};
      assert Witnesses(rule, used, rank, around, record) == [Tick] + [Yield(Candidate(row, {}))];
    } else if rule.children != [] {
      var s := TargetFor(rule, used, rank, floor, record, row);
      ChoiceIsValid(rule, used, rank, floor, s.indices);
      assert Elements(s.indices[..0]) == {};
      TargetIsReached(s, record, 0, row, map[], {});
      CombinationsAreChoices(rule);
      CombinationsMembers(active, ContainerNeed(rule), s.indices);
      ChoiceContains(rule, used, rank, floor, record, Combinations(active, ContainerNeed(rule)), s.indices,
                     Yield(Candidate(row, Codes(row.attempts))));
    } else {
      LeafFilledIsChoice(rule, used, rank, floor, record, row);
      LeafYieldsComplete(rule, used, rank, floor, record, row.attempts);
    }
  }

  lemma EngagedFill(rule: Rule, floor: string, record: seq<Attempt>, rank: nat, row: Row, i: nat)
    requires FilledContainer(rule, floor, record, rank, row) && i < |row.children|
    ensures row.children[i].status != NotSelected ==> Filled(rule.children[i], floor, record, rank, row.children[i])
    ensures row.children[i].status == NotSelected ==> row.children[i] == NotSelectedRow(rule.children[i])
    ensures rule.children[i].IsInformational() ==> row.children[i].status == NotSelected
  {
    if LeftOut(rule.children[i], row.children[i]) {
      LeftOutMeaning(rule.children[i], row.children[i]);
    } else {
      FilledIsTold(rule.children[i], floor, record, rank, row.children[i]);
    }
  }

  lemma EngagedAreChosen(rule: Rule, children: seq<Row>)
    requires |children| == |rule.children| && Engaged(children) == ContainerNeed(rule)
    requires forall i: nat | i < |children| && rule.children[i].IsInformational() :: children[i].status == NotSelected
    ensures var indices := EngagedFrom(children, 0);
            && IsSelection(indices, ActiveIndices(rule, 0)) && |indices| == ContainerNeed(rule)
            && forall i: nat :: i in indices <==> i < |children| && children[i].status != NotSelected
  {
    EngagedAreActive(rule, children, 0);
    EngagedFromCount(children, 0);
    assert children[0..] == children;
    forall i: nat ensures i in EngagedFrom(children, 0) <==> i < |children| && children[i].status != NotSelected {
      EngagedFromMembers(children, 0, i);
    }
  }

  lemma AllEngagedFill(rule: Rule, floor: string, record: seq<Attempt>, rank: nat, row: Row)
    requires FilledContainer(rule, floor, record, rank, row)
    ensures |row.children| == |rule.children| && ContainerTold(rule, row) && Engaged(row.children) == Wanted(rule)
    ensures forall i: nat | i < |row.children| ::
              && (row.children[i].status != NotSelected ==>
                    Filled(rule.children[i], floor, record, rank, row.children[i]))
              && (row.children[i].status == NotSelected ==> row.children[i] == NotSelectedRow(rule.children[i]))
              && (rule.children[i].IsInformational() ==> row.children[i].status == NotSelected)
  {
    forall i: nat | i < |row.children|
      ensures row.children[i].status != NotSelected ==> Filled(rule.children[i], floor, record, rank, row.children[i])
      ensures row.children[i].status == NotSelected ==> row.children[i] == NotSelectedRow(rule.children[i])
      ensures rule.children[i].IsInformational() ==> row.children[i].status == NotSelected
    {
      hide Filled, NotSelectedRow;
      EngagedFill(rule, floor, record, rank, row, i);
    }
  }

  lemma IsTarget(s: Search, record: seq<Attempt>, row: Row)
    requires ExecutableChoice(s) && FilledContainer(s.rule, s.grade, record, s.rank, row)
    requires Codes(row.attempts) !! s.used
    requires forall i: nat :: i in s.indices <==> i < |row.children| && row.children[i].status != NotSelected
    ensures Target(s, record, row)
  {
    AllEngagedFill(s.rule, s.grade, record, s.rank, row);
    hide Filled, FilledContainer, ExecutableChoice, Engaged, Wanted, NotSelectedRow, ContainerTold, Codes;
  }

  /** The engaged children of a row that fills the container are one of its choices. */
  lemma TargetFor(rule: Rule, used: set<Code>, rank: nat, floor: string, record: seq<Attempt>, row: Row)
      returns (s: Search)
    requires WellFormed(rule) && 2 <= rank <= 5 && rule.children != [] && !rule.IsInformational()
    requires !IsOpaque(rule, floor) && ActiveIndices(rule, 0) != []
    requires FilledContainer(rule, floor, record, rank, row) && Codes(row.attempts) !! used
    ensures Target(s, record, row) && s == Search(rule, used, rank, floor, s.indices)
    ensures IsSelection(s.indices, ActiveIndices(rule, 0)) && |s.indices| == ContainerNeed(rule)
  {
    s := Search(rule, used, rank, floor, EngagedFrom(row.children, 0));
    WantedMeaning(rule);
    AllEngagedFill(rule, floor, record, rank, row);
    hide Filled, FilledContainer, WellFormed, EngagedFrom, ActiveIndices, IsSelection, Engaged, ContainerNeed, Wanted,
      NotSelectedRow, ContainerTold, Codes, Target;
    EngagedAreChosen(rule, row.children);
    IsTarget(s, record, row);
  }

  /** The lazy search finds exactly the rows that fill the rule from free courses. */
  lemma WitnessesAreFilled(rule: Rule, used: set<Code>, rank: nat, around: string, record: seq<Attempt>, c: Candidate)
    requires WellFormed(rule) && !rule.IsInformational() && 2 <= rank <= 5 && ValidRecord(record)
    ensures Yield(c) in Witnesses(rule, used, rank, around, record)
            <==> Filled(rule, around, record, rank, c.row) && c.used == Codes(c.row.attempts) && c.used !! used
  {
    if Yield(c) in Witnesses(rule, used, rank, around, record) {
      WitnessFilled(rule, used, rank, around, record, c);
    } else if Filled(rule, around, record, rank, c.row) && Codes(c.row.attempts) !! used {
      FilledIsFound(rule, used, rank, around, record, c.row);
    }
  }
}
