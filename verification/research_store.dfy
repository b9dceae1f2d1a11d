/** The store of one research run, updated in place; each method is one transaction. */
module ResearchStore {
  import opened ResearchRegister

  /** Each registered text by its key. */
  ghost predicate KeyMap(byKey: map<Key, nat>, evidence: seq<Evidence>) {
    && (forall key {:trigger key in byKey} :: key in byKey <==> HasKey(evidence, key))
    && (forall key <- byKey :: byKey[key] == NumberOf(evidence, key))
  }

  lemma {:induction false} NumberAmongPrefix(evidence: seq<Evidence>, e: Evidence, key: Key, n: nat)
    requires n <= |evidence|
    ensures NumberAmong(evidence + [e], key, n) == NumberAmong(evidence, key, n)
  {
    if n > 0 { NumberAmongPrefix(evidence, e, key, n - 1); }
  }

  lemma {:induction false} BytesPrefix(evidence: seq<Evidence>, more: seq<Evidence>, n: nat)
    requires n <= |evidence| && evidence <= more
    ensures BytesAmong(more, n) == BytesAmong(evidence, n)
  {
    if n > 0 { BytesPrefix(evidence, more, n - 1); }
  }

  lemma {:induction false} BytesGrow(evidence: seq<Evidence>, m: nat, n: nat)
    requires m <= n <= |evidence|
    ensures BytesAmong(evidence, m) <= BytesAmong(evidence, n)
    decreases n
  {
    if m < n { BytesGrow(evidence, m, n - 1); }
  }

  lemma KeyMapAdds(byKey: map<Key, nat>, evidence: seq<Evidence>, e: Evidence)
    requires KeyMap(byKey, evidence)
    ensures KeyMap(byKey[e.key := e.number], evidence + [e])
  {
    var more := evidence + [e];
    forall key ensures (HasKey(more, key) <==> HasKey(evidence, key) || key == e.key)
                       && (key != e.key ==> NumberOf(more, key) == NumberOf(evidence, key))
    {
      NumberAmongPrefix(evidence, e, key, |evidence|);
      if i :| 0 <= i < |evidence| && evidence[i].key == key { assert more[i].key == key; }
      if key == e.key { assert more[|evidence|].key == key; }
    }
  }

  /** What a read not yet registered adds, and the identifier it is issued. */
  lemma NewRead(evidence: seq<Evidence>, batch: seq<Read>, i: nat, step: nat, e: Evidence)
    requires Numbered(evidence) && i < |batch| && !HasKey(Register(evidence, batch, i, step), batch[i].key)
    requires e == Evidence(|Register(evidence, batch, i, step)| + 1, batch[i].key, batch[i].bytes, step)
    ensures Register(evidence, batch, i + 1, step) == Register(evidence, batch, i, step) + [e]
    ensures Numbered(Register(evidence, batch, i + 1, step))
    ensures Issued(evidence, batch, i + 1, step) == Once(Issued(evidence, batch, i, step), e.number)
  {
    var before := Register(evidence, batch, i, step);
    IssuedStep(evidence, batch, i + 1, step);
    NumberedMax(before, |before|);
  }

  /** Going on with more reads only ever adds to the register. */
  lemma {:induction false} RegisterOnward(evidence: seq<Evidence>, batch: seq<Read>, i: nat, n: nat, step: nat)
    requires i <= n <= |batch|
    ensures Register(evidence, batch, i, step) <= Register(evidence, batch, n, step)
    ensures TotalBytes(Register(evidence, batch, i, step)) <= TotalBytes(Register(evidence, batch, n, step))
    decreases n - i
  {
    if i < n {
      var now, next := Register(evidence, batch, n - 1, step), Register(evidence, batch, n, step);
      RegisterOnward(evidence, batch, i, n - 1, step);
      PutHas(now, batch[n - 1], step);
      BytesPrefix(now, next, |now|);
      BytesGrow(next, |now|, |next|);
    }
  }

  /** The first i reads add to the register and take it past its bounds. */
  ghost predicate OverAt(evidence: seq<Evidence>, batch: seq<Read>, i: nat, step: nat) {
    && i <= |batch|
    && var some := Register(evidence, batch, i, step);
       |some| > |evidence| && (|some| > MAX_EVIDENCE_ITEMS || TotalBytes(some) > MAX_EVIDENCE_BYTES)
  }

  /** Past the bounds once is past the bounds in the end: the step as a whole is refused. */
  lemma OverLimit(r: Run, batch: seq<Read>, tool: Option<nat>, index: Index, i: nat)
    requires r.status == Running && (tool.Some? ==> !Ran(r.steps, tool.value))
    requires Verify(r.pins, index, batch).Ok?
    requires OverAt(r.evidence, batch, i, NextOrdinal(r.steps))
    ensures Acquire(r, batch, tool, index) == (r, EvidenceLimit)
  {
    RegisterOnward(r.evidence, batch, i, |batch|, NextOrdinal(r.steps));
  }

  lemma WithinLimit(r: Run, batch: seq<Read>, tool: Option<nat>, index: Index, added: seq<Evidence>, issued: seq<nat>)
    requires r.status == Running && (tool.Some? ==> !Ran(r.steps, tool.value))
    requires Verify(r.pins, index, batch).Ok?
    requires r.evidence + added == Register(r.evidence, batch, |batch|, NextOrdinal(r.steps))
    requires issued == Issued(r.evidence, batch, |batch|, NextOrdinal(r.steps))
    requires added == [] || (|r.evidence + added| <= MAX_EVIDENCE_ITEMS
                             && TotalBytes(r.evidence + added) <= MAX_EVIDENCE_BYTES)
    ensures Acquire(r, batch, tool, index)
            == (r.(evidence := r.evidence + added, steps := r.steps + [Step(NextOrdinal(r.steps), tool, issued)]),
                Ok(Acquisition(NextOrdinal(r.steps), issued, false)))
  {
    assert added == [] ==> r.evidence + added == r.evidence;
  }

  function Sources(batch: seq<Read>): set<nat> { set read | read in batch :: read.key.source }

  lemma SourcesStep(batch: seq<Read>, i: nat)
    requires i < |batch|
    ensures Sources(batch[..i + 1]) == Sources(batch[..i]) + {batch[i].key.source}
  {
    assert batch[..i + 1] == batch[..i] + [batch[i]];
    forall source ensures source in Sources(batch[..i + 1]) <==>
                          source in Sources(batch[..i]) || source == batch[i].key.source
    {
      if source in Sources(batch[..i]) {
        var read :| read in batch[..i] && read.key.source == source;
        assert read in batch[..i + 1];
      }
      assert batch[i] in batch[..i + 1];
    }
  }

  ghost predicate Increasing(places: seq<nat>) { forall i, j :: 0 <= i < j < |places| ==> places[i] < places[j] }

  lemma IncreasingMore(places: seq<nat>, i: nat)
    requires Increasing(places) && forall j :: j in places ==> j < i
    ensures Increasing(places + [i])
  {
    var more := places + [i];
    forall j, k | 0 <= j < k < |more| ensures more[j] < more[k] {
      assert places[j] in places;
    }
  }

  class RunStore {
    const pins: map<nat, nat>
    var status: Status
    var revision: nat
    var state: Option<Draft>
    var evidence: seq<Evidence>
    var steps: seq<Step>
    var decisions: seq<Checked>
    var checked: map<nat, Checked>

    ghost function View(): Run
      reads this
    {
      Run(pins, status, revision, state, evidence, steps, decisions, checked)
    }

    constructor (pins: map<nat, nat>)
      ensures View() == Started(pins) && Inv(View())
    {
      this.pins := pins;
      status, revision, state := Running, 0, None;
      evidence, steps, decisions, checked := [], [], [], map[];
      new;
      StartedGood(pins, []);
    }

    method IndexByKey() returns (byKey: map<Key, nat>)
      ensures KeyMap(byKey, evidence)
    {
      byKey := map[];
      var i := 0;
      while i < |evidence|
        invariant i <= |evidence| && KeyMap(byKey, evidence[..i])
      {
        KeyMapAdds(byKey, evidence[..i], evidence[i]);
        assert evidence[..i] + [evidence[i]] == evidence[..i + 1];
        byKey := byKey[evidence[i].key := evidence[i].number];
        i := i + 1;
      }
      assert evidence[..i] == evidence;
    }

    /** The register with what was added to it, and the counters kept beside it. */
    ghost predicate Counted(batch: seq<Read>, i: nat, ordinal: nat, added: seq<Evidence>, issued: seq<nat>,
                            byKey: map<Key, nat>, next: nat, count: nat, total: nat)
      reads this
    {
      && i <= |batch| && evidence + added == Register(evidence, batch, i, ordinal)
      && issued == Issued(evidence, batch, i, ordinal)
      && Numbered(evidence + added) && KeyMap(byKey, evidence + added)
      && count == |evidence + added| && next == count + 1 && total == TotalBytes(evidence + added)
    }

    lemma CountedStart(batch: seq<Read>, ordinal: nat, byKey: map<Key, nat>)
      requires Numbered(evidence) && KeyMap(byKey, evidence)
      ensures Counted(batch, 0, ordinal, [], [], byKey, MaxNumber(evidence) + 1, |evidence|, TotalBytes(evidence))
    {
      NumberedMax(evidence, |evidence|);
      assert evidence + [] == evidence;
    }

    /** A read that is registered already only has its identifier issued. */
    lemma CountedKnown(batch: seq<Read>, i: nat, ordinal: nat, added: seq<Evidence>, issued: seq<nat>,
                       byKey: map<Key, nat>, next: nat, count: nat, total: nat)
      requires Counted(batch, i, ordinal, added, issued, byKey, next, count, total) && Numbered(evidence)
      requires i < |batch| && batch[i].key in byKey
      ensures Counted(batch, i + 1, ordinal, added, Once(issued, byKey[batch[i].key]), byKey, next, count, total)
    {
      IssuedStep(evidence, batch, i + 1, ordinal);
    }

    /** A read that is new is added under the next number. */
    lemma CountedNew(batch: seq<Read>, i: nat, ordinal: nat, added: seq<Evidence>, issued: seq<nat>,
                     byKey: map<Key, nat>, next: nat, count: nat, total: nat, e: Evidence)
      requires Counted(batch, i, ordinal, added, issued, byKey, next, count, total) && Numbered(evidence)
      requires i < |batch| && batch[i].key !in byKey && e == Evidence(next, batch[i].key, batch[i].bytes, ordinal)
      ensures Counted(batch, i + 1, ordinal, added + [e], Once(issued, next), byKey[e.key := next], next + 1, count + 1,
                      total + e.bytes)
    {
      var before := evidence + added;
      NewRead(evidence, batch, i, ordinal, e);
      KeyMapAdds(byKey, before, e);
      BytesPrefix(before, before + [e], |before|);
      assert evidence + (added + [e]) == before + [e];
    }

    /** Issue identifiers for the reads, stopping where the register would grow past its bounds. */
    method IssueIds(batch: seq<Read>, ordinal: nat) returns (fits: bool, added: seq<Evidence>, issued: seq<nat>)
      requires Numbered(evidence)
      ensures fits ==> evidence + added == Register(evidence, batch, |batch|, ordinal)
      ensures fits ==> issued == Issued(evidence, batch, |batch|, ordinal)
      ensures fits ==>
                added == []
                || (|evidence + added| <= MAX_EVIDENCE_ITEMS && TotalBytes(evidence + added) <= MAX_EVIDENCE_BYTES)
      ensures !fits ==> exists i: nat :: OverAt(evidence, batch, i, ordinal)
    {
      var byKey: map<Key, nat> := IndexByKey();
      var next: nat, count: nat, total: nat := MaxNumber(evidence) + 1, |evidence|, TotalBytes(evidence);
      added, issued := [], [];
      CountedStart(batch, ordinal, byKey);
      var i := 0;
      while i < |batch|
        invariant Counted(batch, i, ordinal, added, issued, byKey, next, count, total)
        invariant added == [] || (count <= MAX_EVIDENCE_ITEMS && total <= MAX_EVIDENCE_BYTES)
      {
        var key := batch[i].key;
        var id: nat;
        if key in byKey {
          CountedKnown(batch, i, ordinal, added, issued, byKey, next, count, total);
          id := byKey[key];
        } else {
          id := next;
          var e := Evidence(id, key, batch[i].bytes, ordinal);
          CountedNew(batch, i, ordinal, added, issued, byKey, next, count, total, e);
          next, count, total := next + 1, count + 1, total + e.bytes;
          byKey, added := byKey[key := id], added + [e];
          if count > MAX_EVIDENCE_ITEMS || total > MAX_EVIDENCE_BYTES {
            assert OverAt(evidence, batch, i + 1, ordinal);
            return false, [], [];
          }
        }
        if id !in issued { issued := issued + [id]; }
        i := i + 1;
      }
      fits := true;
    }

    /** Check reads against the pins, then against the sources and texts as they are now. The problems
        are the places of the reads refused, in order; the changed sources are those that have moved on. */
    method VerifyReads(batch: seq<Read>, index: Index)
        returns (result: Outcome<()>, problems: seq<nat>, changed: set<nat>)
      ensures result == Ok(()) || result.ScopeChanged? || result.InvalidRecord?
      ensures result.Ok? <==> forall read <- batch ::
                Pinned(pins, read.key) && Unchanged(pins, index, read.key.source) && read in index.texts
      ensures result.ScopeChanged? <==>
              AllPinned(pins, batch) && exists read <- batch :: !Unchanged(pins, index, read.key.source)
      ensures AllPinned(pins, batch) ==> forall source ::
                source in changed <==> source in Sources(batch) && !Unchanged(pins, index, source)
      ensures result.Ok? || result.ScopeChanged? <==> problems == []
      ensures Increasing(problems) && forall i :: i in problems ==> i < |batch|
      ensures forall i | 0 <= i < |batch| && result.InvalidRecord? :: i in problems <==>
                if AllPinned(pins, batch) then batch[i] !in index.texts else !Pinned(pins, batch[i].key)
    {
      problems, changed := [], {};
      var i := 0;
      while i < |batch|
        invariant i <= |batch| && Increasing(problems) && forall j :: j in problems ==> j < i
        invariant forall j :: 0 <= j < i ==> (j in problems <==> !Pinned(pins, batch[j].key))
      {
        IncreasingMore(problems, i);
        if !Pinned(pins, batch[i].key) { problems := problems + [i]; }
        i := i + 1;
      }
      if problems != [] {
        assert problems[0] in problems;
        return InvalidRecord, problems, {};
      }
      i := 0;
      while i < |batch|
        invariant i <= |batch|
        invariant forall source :: source in changed <==>
            source in Sources(batch[..i]) && !Unchanged(pins, index, source)
      {
        SourcesStep(batch, i);
        var source := batch[i].key.source;
        if source !in index.sources || index.sources[source] != pins[source] { changed := changed + {source}; }
        i := i + 1;
      }
      assert batch[..i] == batch;
      if changed != {} {
        var source :| source in changed;
        return ScopeChanged, [], changed;
      }
      i := 0;
      while i < |batch|
        invariant i <= |batch| && Increasing(problems) && forall j :: j in problems ==> j < i
        invariant forall j :: 0 <= j < i ==> (j in problems <==> batch[j] !in index.texts)
      {
        IncreasingMore(problems, i);
        if batch[i] !in index.texts { problems := problems + [i]; }
        i := i + 1;
      }
      if problems != [] { assert problems[0] in problems; }
      result := if problems == [] then Ok(()) else InvalidRecord;
    }

    /** Register reads and the step that made them, in one transaction. */
    method AcquireReads(batch: seq<Read>, tool: Option<nat>, index: Index) returns (result: Outcome<Acquisition>)
      requires Inv(View())
      modifies this
      ensures (View(), result) == Acquire(old(View()), batch, tool, index)
      ensures Inv(View())
    {
      assert Numbered(evidence);
      hide Inv, Numbered;
      AcquireKeeps(View(), batch, tool, index);
      if status != Running { return RunClosed; }
      if tool.Some? && Ran(steps, tool.value) {
        var prior := StepOf(steps, tool.value);
        return Ok(Acquisition(prior.ordinal, prior.issued, true));
      }
      var verified, _, _ := VerifyReads(batch, index);
      assert verified == Verify(pins, index, batch);
      if verified.InvalidRecord? { return InvalidRecord; }
      if verified.ScopeChanged? { return ScopeChanged; }
      var ordinal := NextOrdinal(steps);
      var fits, added, issued := IssueIds(batch, ordinal);
      if !fits {
        ghost var i: nat :| OverAt(evidence, batch, i, ordinal);
        OverLimit(View(), batch, tool, index, i);
        return EvidenceLimit;
      }
      WithinLimit(View(), batch, tool, index, added, issued);
      evidence := evidence + added;
      steps := steps + [Step(ordinal, tool, issued)];
      result := Ok(Acquisition(ordinal, issued, false));
    }

    /** End the run; repeating the same ending changes nothing. */
    method FinishRun(ending: Status) returns (result: Outcome<()>)
      requires Inv(View())
      modifies this`status
      ensures (View(), result) == Finish(old(View()), ending)
      ensures Inv(View())
    {
      if ending == Running { return InvalidRecord; }
      if status == Running {
        status := ending;
      } else if status != ending {
        return RunClosed;
      }
      result := Ok(());
    }

    /** Check a state before taking the lock. */
    method CheckNewState(worker: nat, draft: Draft, expected: nat) returns (result: Outcome<()>)
      requires Inv(View())
      modifies this`checked
      ensures (View(), result) == CheckState(old(View()), worker, draft, expected)
      ensures Inv(View())
    {
      if Cited(draft) <= Ids(evidence) && UniqueIds(draft.plan) && UniqueIds(draft.notes)
          && draft.size <= MAX_STATE_BYTES {
        CheckKeeps(View(), worker, CheckedState(draft, expected));
        checked := checked[worker := CheckedState(draft, expected)];
        return Ok(());
      }
      result := InvalidRecord;
    }

    /** Write a checked state under the lock, however much has happened since the check. */
    method WriteNewState(worker: nat) returns (result: Outcome<nat>)
      requires Inv(View()) && worker in checked && checked[worker].CheckedState?
      modifies this
      ensures (View(), result) == WriteState(old(View()), old(checked)[worker].draft, old(checked)[worker].expected)
      ensures Inv(View())
    {
      hide Inv;
      WriteKeeps(View(), worker, Index(map[], {}, false));
      var write := checked[worker];
      if status != Running { return RunClosed; }
      if revision != write.expected { return StateConflict; }
      state, revision := Some(write.draft), revision + 1;
      result := Ok(revision);
    }

    /** Check a decision, against the register or against the identifiers supplied. */
    method CheckNewDecision(worker: nat, decision: Decision, supplied: Option<set<nat>>) returns (result: Outcome<()>)
      requires Inv(View())
      modifies this`checked
      ensures (View(), result) == CheckDecision(old(View()), worker, decision, supplied)
      ensures Inv(View())
    {
      var issued := if supplied.Some? then supplied.value else Ids(evidence);
      if decision.sound && forall e <- decision.cites :: e in issued {
        CheckKeeps(View(), worker, CheckedDecision(decision, supplied));
        checked := checked[worker := CheckedDecision(decision, supplied)];
        return Ok(());
      }
      result := InvalidRecord;
    }

    /** Store a checked decision under the lock, if the scope is still what was pinned. */
    method WriteNewDecision(worker: nat, index: Index) returns (result: Outcome<()>)
      requires Inv(View()) && worker in checked && checked[worker].CheckedDecision?
      modifies this
      ensures (View(), result) == WriteDecision(old(View()), old(checked)[worker], index)
      ensures Inv(View())
    {
      hide Inv;
      WriteKeeps(View(), worker, index);
      if status != Running { return RunClosed; }
      if !(index.programs && forall source <- pins :: Unchanged(pins, index, source)) { return ScopeChanged; }
      decisions := decisions + [checked[worker]];
      result := Ok(());
    }
  }
}
