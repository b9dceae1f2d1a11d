/** What a result row says, over the fields of its rule, its attempts and its children's rows; and that
    the exhaustive search lists exactly the allocations that can be told this way. */
module AuditRows {
  import opened AuditRules
  import opened Selections
  import opened AuditPlans
  import opened AuditMeaning
  import opened WitnessTraces
  import opened WitnessProofs
  import opened OptionSearch
  import opened OptionProofs
  import opened OptionMeaning

  // ---------------------------------------------------------------- rows and what they tell

  /** A rule left out: nothing allocated anywhere in it. */
  ghost predicate LeftOut(rule: Rule, row: Row)
    decreases rule
  {
    && row.ruleId == rule.id && row.status == NotSelected && row.attempts == [] && row.credits == 0.0
    && row.required == None && row.satisfiedCount == None && |row.children| == |rule.children|
    && forall i :: 0 <= i < |rule.children| ==> LeftOut(rule.children[i], row.children[i])
  }

  /** A rule reported as unresolved without looking into it. */
  ghost predicate Bare(rule: Rule, row: Row) { row == Row(rule.id, Unresolved, [], 0.0, None, None, []) }

  /** The status that parts give together: a doubt first, then a gap, then the weakest part. */
  ghost predicate Settles(status: Status, doubt: bool, gap: bool, empty: bool, conditional: bool, pending: bool) {
    status == if doubt then Unresolved
              else if gap then Outstanding
              else if empty then Unresolved
              else if conditional then Conditional
              else if pending then InProgressSatisfied
              else Satisfied
  }

  function Credit(attempts: seq<Attempt>): real {
    if attempts == [] then 0.0 else Worth(attempts[0]) + Credit(attempts[1..])
  }

  /** How many of the attempts certainly pass. */
  ghost function Passing(attempts: seq<Attempt>, floor: string): nat {
    if attempts == [] then 0
    else (if Passes(attempts[0], floor) && attempts[0].verified then 1 else 0) + Passing(attempts[1..], floor)
  }

  /** How many rows have this status. */
  function HavingStatus(rows: seq<Row>, status: Status): nat {
    if rows == [] then 0 else (if rows[0].status == status then 1 else 0) + HavingStatus(rows[1..], status)
  }

  function Joined(rows: seq<Row>): seq<Attempt> {
    if rows == [] then [] else rows[0].attempts + Joined(rows[1..])
  }

  function JoinedCredit(rows: seq<Row>): real {
    if rows == [] then 0.0 else rows[0].credits + JoinedCredit(rows[1..])
  }

  ghost predicate NoCourseTwice(attempts: seq<Attempt>) {
    forall i, j :: 0 <= i < j < |attempts| ==> attempts[i].code != attempts[j].code
  }

  /** A leaf's row: some of the record's attempts at listed courses, none twice and none below the
      minimum grade, and the status they give. */
  ghost predicate LeafTold(rule: Rule, floor: string, record: seq<Attempt>, row: Row) {
    var gap := if rule.kind == CreditThreshold
               then row.credits < if rule.minCredits.Some? then rule.minCredits.value else 0.0
               else |row.attempts| < Wanted(rule);
    && row.ruleId == rule.id && row.children == [] && IsSelection(row.attempts, record)
    && (forall a <- row.attempts :: Listed(rule, a.code) && !BelowFloor(a, floor))
    && NoCourseTwice(row.attempts)
    && row.credits == Credit(row.attempts)
    && row.required == (if rule.kind == CreditThreshold then None else Some(Wanted(rule)))
    && row.satisfiedCount == Some(Passing(row.attempts, floor))
    && Settles(row.status, exists a <- row.attempts :: NeedsReview(a, floor), gap, row.attempts == [],
               exists a <- row.attempts :: a.state == Planned || (Passes(a, floor) && !a.verified),
               exists a <- row.attempts :: a.state == InProgress)
  }

  /** How many of a container's children are engaged. */
  function Engaged(rows: seq<Row>): nat
    ensures Engaged(rows) <= |rows|
  {
    if rows == [] then 0 else (if rows[0].status != NotSelected then 1 else 0) + Engaged(rows[1..])
  }

  ghost predicate SomeRow(rows: seq<Row>, status: Status) { exists row <- rows :: row.status == status }

  /** A container's row in terms of its children's rows. */
  ghost predicate ContainerTold(rule: Rule, row: Row) {
    var rows := row.children;
    && row.ruleId == rule.id && |rows| == |rule.children|
    && row.attempts == Joined(rows) && NoCourseTwice(row.attempts) && row.credits == JoinedCredit(rows)
    && row.required == Some(Wanted(rule)) && row.satisfiedCount == Some(HavingStatus(rows, Satisfied))
    && Settles(row.status, SomeRow(rows, Unresolved), Engaged(rows) < Wanted(rule) || SomeRow(rows, Outstanding),
               Engaged(rows) == 0, SomeRow(rows, Conditional), SomeRow(rows, InProgressSatisfied))
  }

  /** Every row of a result is what its own attempts and its children's rows make it. */
  ghost predicate Told(rule: Rule, around: string, record: seq<Attempt>, row: Row)
    decreases rule
  {
    var floor := Floor(rule, around);
    if rule.disposition == Informational then LeftOut(rule, row)
    else if Undecidable(rule, floor) then Bare(rule, row)
    else if rule.children == [] then LeafTold(rule, floor, record, row)
    else
      || (Stating(rule) == {} && Bare(rule, row))
      || (ContainerTold(rule, row)
          && forall i :: 0 <= i < |rule.children| ==>
               LeftOut(rule.children[i], row.children[i]) || Told(rule.children[i], floor, record, row.children[i]))
  }

  /** A credit requirement that is met, and would be without one of the attempts. */
  ghost predicate Wasteful(rule: Rule, row: Row) {
    var asked := if rule.minCredits.Some? then rule.minCredits.value else 0.0;
    row.credits >= asked && exists a <- row.attempts :: row.credits - Worth(a) >= asked
  }

  /** No more taken than the rule asks for: what the exhaustive search restricts itself to. */
  ghost predicate Frugal(rule: Rule, around: string, record: seq<Attempt>, row: Row)
    decreases rule
  {
    var floor := Floor(rule, around);
    if rule.disposition == Informational then LeftOut(rule, row)
    else if Undecidable(rule, floor) then Bare(rule, row)
    else if rule.children == [] then
      && LeafTold(rule, floor, record, row)
      && if rule.kind == CreditThreshold then !Wasteful(rule, row) else |row.attempts| <= Wanted(rule)
    else
      && ContainerTold(rule, row) && (rule.kind != AllOf ==> Engaged(row.children) <= Wanted(rule))
      && forall i :: 0 <= i < |rule.children| ==>
           || (rule.kind != AllOf && LeftOut(rule.children[i], row.children[i]))
           || Frugal(rule.children[i], floor, record, row.children[i])
  }

  lemma {:induction false} FrugalIsTold(rule: Rule, around: string, record: seq<Attempt>, row: Row)
    requires Frugal(rule, around, record, row)
    ensures Told(rule, around, record, row)
    decreases rule
  {
    var floor := Floor(rule, around);
    if !rule.IsInformational() && !Undecidable(rule, floor) && rule.children != [] {
      hide ContainerTold, Undecidable;
      forall i | 0 <= i < |rule.children|
        ensures LeftOut(rule.children[i], row.children[i]) || Told(rule.children[i], floor, record, row.children[i])
      {
        if !LeftOut(rule.children[i], row.children[i]) {
          FrugalIsTold(rule.children[i], floor, record, row.children[i]);
        }
      }
    }
  }

  // ---------------------------------------------------------------- the program's folds

  lemma {:induction false} LeftOutMeaning(rule: Rule, row: Row)
    ensures LeftOut(rule, row) <==> row == NotSelectedRow(rule)
    decreases rule
  {
    var blank := NotSelectedRow(rule);
    forall i | 0 <= i < |rule.children| && |row.children| == |rule.children|
      ensures LeftOut(rule.children[i], row.children[i]) <==> row.children[i] == blank.children[i]
    {
      LeftOutMeaning(rule.children[i], row.children[i]);
    }
    if LeftOut(rule, row) { assert row.children == blank.children; }
  }

  lemma {:induction false} CreditMeaning(attempts: seq<Attempt>)
    ensures TotalCredits(attempts) == Credit(attempts)
  {
    if attempts != [] { CreditMeaning(attempts[1..]); }
  }

  lemma {:induction false} JoinedMeaning(rows: seq<Row>)
    ensures RowAttempts(rows) == Joined(rows) && RowCredits(rows) == JoinedCredit(rows)
  {
    if rows != [] { JoinedMeaning(rows[1..]); }
  }

  lemma {:induction false} PassingMeaning(attempts: seq<Attempt>, floor: string)
    ensures CountSatisfied(Statuses(attempts, floor)) == Passing(attempts, floor)
  {
    if attempts != [] {
      PassingMeaning(attempts[1..], floor);
      StatusMeaning(attempts[0], floor);
      assert Statuses(attempts, floor)[1..] == Statuses(attempts[1..], floor);
    }
  }

  lemma {:induction false} SatisfiedRowsMeaning(rows: seq<Row>)
    ensures CountSatisfied(ActiveStatuses(rows)) == HavingStatus(rows, Satisfied)
  {
    if rows != [] {
      SatisfiedRowsMeaning(rows[1..]);
      var rest := ActiveStatuses(rows[1..]);
      assert ([rows[0].status] + rest)[1..] == rest;
    }
  }

  lemma {:induction false} EngagedMeaning(rows: seq<Row>)
    ensures |ActiveStatuses(rows)| == Engaged(rows)
  {
    if rows != [] { EngagedMeaning(rows[1..]); }
  }

  /** The statuses of a leaf's attempts, aggregated. */
  lemma LeafSettles(attempts: seq<Attempt>, floor: string, gap: bool)
    requires forall a <- attempts :: !BelowFloor(a, floor)
    ensures Settles(Aggregate(Statuses(attempts, floor), gap), exists a <- attempts :: NeedsReview(a, floor), gap,
                    attempts == [],
                    exists a <- attempts :: a.state == Planned || (Passes(a, floor) && !a.verified),
                    exists a <- attempts :: a.state == InProgress)
  {
    var statuses := Statuses(attempts, floor);
    forall a | a in attempts ensures AttemptStatus(a, floor) in statuses {
      var i :| 0 <= i < |attempts| && attempts[i] == a;
      assert statuses[i] == AttemptStatus(a, floor);
    }
    forall s | s in statuses ensures exists a <- attempts :: AttemptStatus(a, floor) == s {
      var i :| 0 <= i < |statuses| && statuses[i] == s;
      assert attempts[i] in attempts;
    }
    forall a ensures (AttemptStatus(a, floor) == Unresolved <==> NeedsReview(a, floor))
                     && (AttemptStatus(a, floor) == Outstanding <==> BelowFloor(a, floor))
                     && (AttemptStatus(a, floor) == InProgressSatisfied <==> a.state == InProgress)
                     && (AttemptStatus(a, floor) == Conditional
                         <==> a.state == Planned || (Passes(a, floor) && !a.verified))
    {
      StatusMeaning(a, floor);
    }
    hide AttemptStatus, NeedsReview, BelowFloor, Passes, Statuses;
    assert attempts != [] ==> attempts[0] in attempts;
  }

  /** The statuses of a container's children, aggregated. */
  lemma RowsSettle(rows: seq<Row>, short: bool)
    ensures Settles(Aggregate(ActiveStatuses(rows), short), SomeRow(rows, Unresolved),
                    short || SomeRow(rows, Outstanding), Engaged(rows) == 0, SomeRow(rows, Conditional),
                    SomeRow(rows, InProgressSatisfied))
  {
    ActiveStatusesMembers(rows);
    EngagedMeaning(rows);
    forall s: Status | s != NotSelected ensures s in ActiveStatuses(rows) <==> SomeRow(rows, s) {
      if SomeRow(rows, s) {
        var row :| row in rows && row.status == s;
        var i :| 0 <= i < |rows| && rows[i] == row;
      }
      if s in ActiveStatuses(rows) {
        var i :| 0 <= i < |rows| && rows[i].status == s;
        assert rows[i] in rows;
      }
    }
  }

  // ---------------------------------------------------------------- leaves

  lemma LeafOptionTold(rule: Rule, floor: string, record: seq<Attempt>, t: seq<Attempt>)
    requires rule.children == [] && OptionChoice(rule, floor, record, t)
    ensures LeafTold(rule, floor, record, LeafOption(rule, floor, t).row)
    ensures if rule.kind == CreditThreshold then !Wasteful(rule, LeafOption(rule, floor, t).row)
            else |t| <= Wanted(rule)
  {
    var eligible := Countable(record, rule, floor);
    SelectionMembers(t, eligible);
    SelectionTransitive(t, eligible, record);
    forall a | a in t ensures Listed(rule, a.code) && !BelowFloor(a, floor) {
      assert a in eligible;
      StatusMeaning(a, floor);
    }
    CodesCount(t);
    WantedMeaning(rule);
    LeafRowTold(rule, floor, record, t, !MeetsLeaf(rule, t));
    assert LeafOption(rule, floor, t).row == RowOf(rule, floor, t, !MeetsLeaf(rule, t));
    CreditMeaning(t);
    hide LeafTold, Wanted, Credit, TotalCredits, IsSelection;
    forall a: Attempt ensures a.Credits() == Worth(a) {}
  }

  /** The row that both searches build for a leaf's selected attempts. */
  function RowOf(rule: Rule, floor: string, t: seq<Attempt>, gap: bool): Row {
    var statuses := Statuses(t, floor);
    Row(rule.id, Aggregate(statuses, gap), t, TotalCredits(t),
        if rule.kind == CreditThreshold then None else Some(rule.LeafNeed()), Some(CountSatisfied(statuses)), [])
  }

  lemma LeafRowTold(rule: Rule, floor: string, record: seq<Attempt>, t: seq<Attempt>, gap: bool)
    requires rule.children == [] && IsSelection(t, record) && DistinctCourses(t)
    requires forall a <- t :: Listed(rule, a.code) && !BelowFloor(a, floor)
    requires gap <==> !MeetsLeaf(rule, t)
    ensures LeafTold(rule, floor, record, RowOf(rule, floor, t, gap))
  {
    WantedMeaning(rule);
    CreditMeaning(t);
    PassingMeaning(t, floor);
    LeafSettles(t, floor, gap);
    hide Settles, BelowFloor, NeedsReview, Passes, Aggregate, IsSelection, Statuses, Credit, TotalCredits, Passing,
      CountSatisfied, Wanted;
  }

  /** There is one row for a leaf's attempts. */
  lemma LeafRowIs(rule: Rule, floor: string, record: seq<Attempt>, row: Row)
    requires rule.children == [] && LeafTold(rule, floor, record, row)
    ensures row == RowOf(rule, floor, row.attempts, !MeetsLeaf(rule, row.attempts))
  {
    var t := row.attempts;
    WantedMeaning(rule);
    CreditMeaning(t);
    PassingMeaning(t, floor);
    LeafSettles(t, floor, !MeetsLeaf(rule, t));
    hide BelowFloor, NeedsReview, Passes, Aggregate, IsSelection, Statuses, Credit, TotalCredits, Passing,
      CountSatisfied, Wanted, NoCourseTwice, Listed;
  }

  lemma LeafToldEligible(rule: Rule, floor: string, record: seq<Attempt>, row: Row)
    requires LeafTold(rule, floor, record, row)
    ensures IsSelection(row.attempts, Countable(record, rule, floor)) && |Codes(row.attempts)| == |row.attempts|
  {
    var t := row.attempts;
    forall a | a in t ensures IsEligible(a, rule, {}, floor, Rank(Unresolved)) {
      StatusMeaning(a, floor);
      assert Listed(rule, a.code) && !BelowFloor(a, floor);
    }
    SelectionOfEligible(record, rule, floor, t);
    CodesCount(t);
  }

  lemma LeafToldIsOption(rule: Rule, floor: string, record: seq<Attempt>, row: Row)
    requires rule.children == [] && LeafTold(rule, floor, record, row)
    requires if rule.kind == CreditThreshold then !Wasteful(rule, row) else |row.attempts| <= Wanted(rule)
    ensures OptionChoice(rule, floor, record, row.attempts)
    ensures LeafOption(rule, floor, row.attempts) == Candidate(row, Codes(row.attempts))
  {
    LeafToldEligible(rule, floor, record, row);
    LeafRowIs(rule, floor, record, row);
    WantedMeaning(rule);
    forall a: Attempt ensures a.Credits() == Worth(a) {}
    hide LeafTold, IsSelection, Statuses, TotalCredits, CountSatisfied, Wanted, Countable, Aggregate;
  }

  /** A selection of the record whose attempts are all eligible is one of the eligible attempts. */
  lemma {:induction false} SelectionOfEligible(record: seq<Attempt>, rule: Rule, floor: string, t: seq<Attempt>)
    requires IsSelection(t, record)
    requires forall a <- t :: IsEligible(a, rule, {}, floor, Rank(Unresolved))
    ensures IsSelection(t, Countable(record, rule, floor))
  {
    if t != [] {
      var rest := Countable(record[1..], rule, floor);
      assert ([record[0]] + rest)[1..] == rest;
      if t[0] == record[0] && IsSelection(t[1..], record[1..]) {
        SelectionOfEligible(record[1..], rule, floor, t[1..]);
        assert t[0] in t;
      } else {
        SelectionOfEligible(record[1..], rule, floor, t);
      }
    }
  }

  // ---------------------------------------------------------------- containers

  lemma {:induction false} ChosenIsEngaged(rule: Rule, trail: Trail)
    requires |trail| <= |rule.children|
    ensures TrailChosen(trail) == Engaged(TrailRows(rule, trail))
  {
    if trail != [] {
      var last := |trail| - 1;
      var front, step := trail[..last], trail[last];
      ChosenIsEngaged(rule, front);
      assert trail == front + [step];
      TrailFoldsUsed(front, step);
      TrailFoldsRows(rule, front, step);
      EngagedAppend(TrailRows(rule, front), if step.Some? then step.value.row else NotSelectedRow(rule.children[last]));
    }
  }

  lemma {:induction false} EngagedAppend(rows: seq<Row>, row: Row)
    ensures Engaged(rows + [row]) == Engaged(rows) + if row.status != NotSelected then 1 else 0
  {
    if rows != [] {
      assert (rows + [row])[1..] == rows[1..] + [row];
      EngagedAppend(rows[1..], row);
    }
  }

  /** A container that is not all-of stops taking children once it has enough. */
  lemma {:induction false} ChosenAtMost(rule: Rule, options: seq<seq<Candidate>>, trail: Trail)
    requires ValidTrail(rule, options, trail) && rule.kind != AllOf
    ensures TrailChosen(trail) <= ContainerNeed(rule)
  {
    if trail != [] {
      var last := |trail| - 1;
      TrailPrefix(rule, options, trail, last);
      ChosenAtMost(rule, options, trail[..last]);
      assert StepOpen(rule, options, trail, last);
    }
  }

  /** The row built from a trail. */
  lemma BuiltTold(rule: Rule, full: Trail)
    requires rule.children != [] && |full| == |rule.children|
    requires NoCourseTwice(RowAttempts(TrailRows(rule, full)))
    ensures ContainerTold(rule, Built(rule, full).row)
  {
    var rows := TrailRows(rule, full);
    JoinedMeaning(rows);
    WantedMeaning(rule);
    ChosenIsEngaged(rule, full);
    SatisfiedRowsMeaning(rows);
    RowsSettle(rows, TrailChosen(full) < ContainerNeed(rule));
  }

  /** Every enumerated allocation tells what it does, and takes no more than asked for. */
  lemma {:induction false} OptionTold(rule: Rule, around: string, record: seq<Attempt>, c: Candidate)
    requires ValidRecord(record) && c in Options(rule, around, record, false)
    ensures Frugal(rule, around, record, c.row) && c.used == Codes(c.row.attempts)
    decreases rule
  {
    var floor := Floor(rule, around);
    GivenFloor(rule, around);
    OptionAccounted(rule, around, record, false, c);
    if rule.IsInformational() {
      LeftOutMeaning(rule, c.row);
    } else if IsOpaque(rule, floor) {
    } else if rule.children != [] {
      var full := OptionTrail(rule, around, record, false, c);
      BuiltTold(rule, full);
      if rule.kind != AllOf { ChosenAtMost(rule, ChildOptions(rule, floor, record, false), full); }
      ChosenIsEngaged(rule, full);
      WantedMeaning(rule);
      forall i: nat | i < |rule.children|
        ensures || (rule.kind != AllOf && LeftOut(rule.children[i], c.row.children[i]))
                || Frugal(rule.children[i], floor, record, c.row.children[i])
      {
        assert StepOpen(rule, ChildOptions(rule, floor, record, false), full, i);
        if full[i].Some? {
          OptionTold(rule.children[i], floor, record, full[i].value);
        } else {
          LeftOutMeaning(rule.children[i], c.row.children[i]);
        }
      }
    } else {
      var t := LeafOptionSelection(rule, around, record, false, c);
      LeafOptionTold(rule, floor, record, t);
    }
  }

  /** The trail behind a container's row. */
  function StepFor(rule: Rule, row: Row, i: nat): Option<Candidate>
    requires i < |row.children| == |rule.children|
  {
    if rule.kind != AllOf && row.children[i] == NotSelectedRow(rule.children[i]) then None
    else Some(Candidate(row.children[i], Codes(row.children[i].attempts)))
  }

  function TrailFor(rule: Rule, row: Row): Trail
    requires |row.children| == |rule.children|
  {
    seq(|row.children|, i requires 0 <= i < |row.children| => StepFor(rule, row, i))
  }

  lemma TrailForRows(rule: Rule, row: Row)
    requires |row.children| == |rule.children|
    ensures TrailRows(rule, TrailFor(rule, row)) == row.children
  {
    var rows := TrailRows(rule, TrailFor(rule, row));
    forall i | 0 <= i < |rows| ensures rows[i] == row.children[i] {}
  }

  lemma {:induction false} JoinedCodes(rows: seq<Row>, n: nat, c: Code)
    requires n <= |rows|
    ensures c in Codes(RowAttempts(rows[..n])) <==> exists i :: 0 <= i < n && c in Codes(rows[i].attempts)
  {
    var front := rows[..n];
    RowAttemptsMembers(front);
    if c in Codes(RowAttempts(front)) {
      var i :| 0 <= i < |front| && c in Codes(front[i].attempts);
      assert rows[i] == front[i];
    }
    if i :| 0 <= i < n && c in Codes(rows[i].attempts) {
      assert front[i] == rows[i];
    }
  }

  lemma {:induction false} TrailForUsed(rule: Rule, row: Row, n: nat)
    requires n <= |row.children| == |rule.children|
    ensures TrailUsed(TrailFor(rule, row)[..n]) == Codes(RowAttempts(row.children[..n]))
  {
    var trail := TrailFor(rule, row)[..n];
    TrailUsedMembers(trail);
    forall c ensures c in TrailUsed(trail) <==> c in Codes(RowAttempts(row.children[..n])) {
      JoinedCodes(row.children, n, c);
      if c in TrailUsed(trail) {
        var i :| 0 <= i < |trail| && trail[i].Some? && c in trail[i].value.used;
        assert trail[i] == StepFor(rule, row, i);
      }
      if i :| 0 <= i < n && c in Codes(row.children[i].attempts) {
        assert trail[i] == StepFor(rule, row, i);
        assert trail[i].Some?;
      }
    }
  }

  lemma JoinedApart(head: seq<Attempt>, rest: seq<Attempt>)
    requires NoCourseTwice(head + rest)
    ensures NoCourseTwice(rest) && Codes(head) !! Codes(rest)
  {
    var all := head + rest;
    forall i, j | 0 <= i < j < |rest| ensures rest[i].code != rest[j].code {
      assert all[|head| + i] == rest[i] && all[|head| + j] == rest[j];
    }
    forall a, b | a in head && b in rest ensures a.code != b.code {
      var x :| 0 <= x < |head| && head[x] == a;
      var y :| 0 <= y < |rest| && rest[y] == b;
      assert all[x] == a && all[|head| + y] == b;
    }
  }

  lemma {:induction false} JoinedDistinct(rows: seq<Row>, i: nat, j: nat)
    requires NoCourseTwice(RowAttempts(rows)) && i < j < |rows|
    ensures Codes(rows[i].attempts) !! Codes(rows[j].attempts)
  {
    JoinedApart(rows[0].attempts, RowAttempts(rows[1..]));
    hide NoCourseTwice, Codes, RowAttempts;
    assert rows[1..][j - 1] == rows[j];
    if i > 0 {
      JoinedDistinct(rows[1..], i - 1, j - 1);
    } else {
      RowAttemptsMembers(rows[1..]);
    }
  }

  lemma EngagedBefore(rows: seq<Row>, i: nat)
    requires i < |rows| && rows[i].status != NotSelected
    ensures Engaged(rows[..i]) < Engaged(rows)
  {
    EngagedAppend(rows[..i], rows[i]);
    assert rows[..i + 1] == rows[..i] + [rows[i]];
    EngagedGrows(rows, i + 1);
  }

  lemma {:induction false} EngagedGrows(rows: seq<Row>, i: nat)
    requires i <= |rows|
    ensures Engaged(rows[..i]) <= Engaged(rows)
    decreases |rows| - i
  {
    if i < |rows| {
      EngagedAppend(rows[..i], rows[i]);
      assert rows[..i + 1] == rows[..i] + [rows[i]];
      EngagedGrows(rows, i + 1);
    } else {
      assert rows[..i] == rows;
    }
  }

  /** A rule that states something is never reported as left out. */
  lemma FrugalIsEngaged(rule: Rule, around: string, record: seq<Attempt>, row: Row)
    requires Frugal(rule, around, record, row) && row.status == NotSelected
    ensures LeftOut(rule, row)
  {
  }

  lemma TrailForStep(rule: Rule, around: string, record: seq<Attempt>, row: Row, i: nat)
    requires rule.children != [] && !rule.IsInformational() && !IsOpaque(rule, Floor(rule, around))
    requires ContainerTold(rule, row) && Frugal(rule, around, record, row) && i < |rule.children|
    requires Frugal(rule.children[i], Floor(rule, around), record, row.children[i]) ==>
               Candidate(row.children[i], Codes(row.children[i].attempts))
               in Options(rule.children[i], Floor(rule, around), record, false)
    ensures StepOpen(rule, ChildOptions(rule, Floor(rule, around), record, false), TrailFor(rule, row), i)
  {
    var floor := Floor(rule, around);
    var options, trail := ChildOptions(rule, floor, record, false), TrailFor(rule, row);
    GivenFloor(rule, around);
    assert trail[i] == StepFor(rule, row, i);
    LeftOutMeaning(rule.children[i], row.children[i]);
    if trail[i].Some? {
      assert Frugal(rule.children[i], floor, record, row.children[i]);
      TrailForUsed(rule, row, i);
      JoinedMeaning(row.children);
      forall c | c in Codes(RowAttempts(row.children[..i])) ensures c !in Codes(row.children[i].attempts) {
        JoinedCodes(row.children, i, c);
        var k :| 0 <= k < i && c in Codes(row.children[k].attempts);
        JoinedDistinct(row.children, k, i);
      }
      if rule.kind != AllOf {
        if row.children[i].status == NotSelected {
          FrugalIsEngaged(rule.children[i], floor, record, row.children[i]);
        }
        EngagedBefore(row.children, i);
        TrailForChosen(rule, row, i);
        WantedMeaning(rule);
      }
    }
  }

  lemma TrailForChosen(rule: Rule, row: Row, n: nat)
    requires n <= |row.children| == |rule.children|
    ensures TrailChosen(TrailFor(rule, row)[..n]) == Engaged(row.children[..n])
  {
    var trail := TrailFor(rule, row)[..n];
    ChosenIsEngaged(rule, trail);
    TrailForRows(rule, row);
    assert TrailRows(rule, trail) == TrailRows(rule, TrailFor(rule, row))[..n];
  }

  lemma BuiltFrom(rule: Rule, row: Row)
    requires rule.children != [] && ContainerTold(rule, row)
    ensures Built(rule, TrailFor(rule, row)) == Candidate(row, Codes(row.attempts))
  {
    var trail, rows := TrailFor(rule, row), row.children;
    TrailForRows(rule, row);
    TrailForUsed(rule, row, |rows|);
    TrailForChosen(rule, row, |rows|);
    assert trail[..|rows|] == trail && rows[..|rows|] == rows;
    JoinedMeaning(rows);
    WantedMeaning(rule);
    SatisfiedRowsMeaning(rows);
    RowsSettle(rows, TrailChosen(trail) < ContainerNeed(rule));
  }

  /** Every allocation told this way is enumerated. */
  lemma {:induction false} ToldIsOption(rule: Rule, around: string, record: seq<Attempt>, row: Row)
    requires Frugal(rule, around, record, row)
    ensures Candidate(row, Codes(row.attempts)) in Options(rule, around, record, false)
    decreases rule
  {
    var floor := Floor(rule, around);
    GivenFloor(rule, around);
    if rule.IsInformational() {
      LeftOutMeaning(rule, row);
      assert Codes(row.attempts) == {};
    } else if IsOpaque(rule, floor) {
      assert Codes(row.attempts) == {};
    } else if rule.children != [] {
      var options := ChildOptions(rule, floor, record, false);
      forall i: nat | i < |rule.children| ensures StepOpen(rule, options, TrailFor(rule, row), i) {
        if Frugal(rule.children[i], floor, record, row.children[i]) {
          ToldIsOption(rule.children[i], floor, record, row.children[i]);
        }
        TrailForStep(rule, around, record, row, i);
      }
      BuiltFrom(rule, row);
      TrailIsOption(rule, options, TrailFor(rule, row));
    } else {
      var t := row.attempts;
      LeafToldIsOption(rule, floor, record, row);
      OptionSelectionsMembers(rule, Countable(record, rule, floor), t);
      EachOptionMembers(rule, floor, OptionSelections(rule, Countable(record, rule, floor)),
                        LeafOption(rule, floor, t));
    }
  }

  /** The exhaustive search lists exactly the allocations that can be told, with no more taken than the
      rules ask for. */
  lemma OptionsAreTold(rule: Rule, around: string, record: seq<Attempt>, c: Candidate)
    requires ValidRecord(record)
    ensures c in Options(rule, around, record, false)
            <==> Frugal(rule, around, record, c.row) && c.used == Codes(c.row.attempts)
  {
    if c in Options(rule, around, record, false) { OptionTold(rule, around, record, c); }
    if Frugal(rule, around, record, c.row) && c.used == Codes(c.row.attempts) {
      ToldIsOption(rule, around, record, c.row);
    }
  }
}
