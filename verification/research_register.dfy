/** A research run's record as a state machine. Each step is one locked transaction; what a worker
    checked before it took the lock is kept until it writes, so every interleaving of any number of
    workers is a sequence of steps. */
module ResearchRegister {

  datatype Option<+T> = None | Some(value: T)

  const MAX_EVIDENCE_ITEMS: nat := 100
  const MAX_EVIDENCE_BYTES: nat := 256000
  const MAX_STATE_BYTES: nat := 8000

  datatype Status = Running | Completed | Partial | Clarification | InsufficientEvidence | Interrupted | Failed
                  | Cancelled

  /** What makes two reads the same evidence. */
  datatype Key = Key(source: nat, revision: nat, chunk: nat, digest: nat)

  /** One exact chunk to register, and the bytes of its text. */
  datatype Read = Read(key: Key, bytes: nat)

  /** A registered piece of evidence; `number` is the N of its identifier eN. */
  datatype Evidence = Evidence(number: nat, key: Key, bytes: nat, step: nat)

  datatype Step = Step(ordinal: nat, tool: Option<nat>, issued: seq<nat>)

  datatype Item = Item(id: nat, cites: seq<nat>)

  /** A working state: the evidence each part cites, and its serialized size. */
  datatype Draft = Draft(active: seq<nat>, criteria: seq<seq<nat>>, candidates: seq<seq<nat>>,
                         plan: seq<Item>, notes: seq<Item>, size: nat)

  datatype Decision = Decision(cites: seq<nat>, sound: bool)

  /** What a worker has checked and not yet written. A decision may be checked against identifiers
      its caller supplied instead of the register. */
  datatype Checked = CheckedState(draft: Draft, expected: nat)
                   | CheckedDecision(decision: Decision, supplied: Option<set<nat>>)

  datatype Run = Run(pins: map<nat, nat>, status: Status, revision: nat, state: Option<Draft>, evidence: seq<Evidence>,
                     steps: seq<Step>, decisions: seq<Checked>, checked: map<nat, Checked>)

  /** What the database says now: the sources with their revisions, the indexed texts, and whether
      the programs of the scope are bound as they were. */
  datatype Index = Index(sources: map<nat, nat>, texts: set<Read>, programs: bool)

  datatype Outcome<+T> = Ok(value: T) | RunClosed | StateConflict | EvidenceLimit | InvalidRecord | ScopeChanged

  datatype Acquisition = Acquisition(ordinal: nat, ids: seq<nat>, replayed: bool)

  // ---------------------------------------------------------------- the register

  function HasKey(evidence: seq<Evidence>, key: Key): bool { exists i :: 0 <= i < |evidence| && evidence[i].key == key }

  /** The number of a key among the first n; 0 when it is not there. */
  function NumberAmong(evidence: seq<Evidence>, key: Key, n: nat): nat
    requires n <= |evidence|
  {
    if n == 0 then 0
    else if evidence[n - 1].key == key then evidence[n - 1].number
    else NumberAmong(evidence, key, n - 1)
  }

  function NumberOf(evidence: seq<Evidence>, key: Key): nat { NumberAmong(evidence, key, |evidence|) }

  /** The highest number among the first n. */
  function MaxAmong(evidence: seq<Evidence>, n: nat): nat
    requires n <= |evidence|
  {
    if n == 0 then 0
    else if evidence[n - 1].number > MaxAmong(evidence, n - 1) then evidence[n - 1].number
    else MaxAmong(evidence, n - 1)
  }

  function MaxNumber(evidence: seq<Evidence>): nat { MaxAmong(evidence, |evidence|) }

  function BytesAmong(evidence: seq<Evidence>, n: nat): nat
    requires n <= |evidence|
  {
    if n == 0 then 0 else BytesAmong(evidence, n - 1) + evidence[n - 1].bytes
  }

  function TotalBytes(evidence: seq<Evidence>): nat { BytesAmong(evidence, |evidence|) }

  /** Register one read: nothing new when the same text of the same source is there already. */
  function Put(evidence: seq<Evidence>, read: Read, step: nat): seq<Evidence> {
    if HasKey(evidence, read.key) then evidence
    else evidence + [Evidence(MaxNumber(evidence) + 1, read.key, read.bytes, step)]
  }

  /** Register the first n reads. */
  function Register(evidence: seq<Evidence>, batch: seq<Read>, n: nat, step: nat): seq<Evidence>
    requires n <= |batch|
  {
    if n == 0 then evidence else Put(Register(evidence, batch, n - 1, step), batch[n - 1], step)
  }

  function Once(ids: seq<nat>, id: nat): seq<nat> { if id in ids then ids else ids + [id] }

  lemma {:induction false} RegisterHas(evidence: seq<Evidence>, batch: seq<Read>, n: nat, step: nat, i: nat)
    requires i < n <= |batch|
    ensures HasKey(Register(evidence, batch, n, step), batch[i].key)
  {
    var before := Register(evidence, batch, n - 1, step);
    if i < n - 1 { RegisterHas(evidence, batch, n - 1, step, i); }
    PutHas(before, batch[n - 1], step);
  }

  lemma PutHas(evidence: seq<Evidence>, read: Read, step: nat)
    ensures HasKey(Put(evidence, read, step), read.key)
    ensures forall key :: HasKey(evidence, key) ==> HasKey(Put(evidence, read, step), key)
    ensures evidence <= Put(evidence, read, step)
  {
    var after := Put(evidence, read, step);
    if after != evidence { assert after[|evidence|].key == read.key; }
    forall key | HasKey(evidence, key) ensures HasKey(after, key) {
      var i :| 0 <= i < |evidence| && evidence[i].key == key;
      assert after[i].key == key;
    }
  }

  /** The identifiers of the first n reads, each once, in the order they are first met. */
  function Issued(evidence: seq<Evidence>, batch: seq<Read>, n: nat, step: nat): seq<nat>
    requires n <= |batch|
  {
    if n == 0 then []
    else
      Once(Issued(evidence, batch, n - 1, step), NumberOf(Register(evidence, batch, n, step), batch[n - 1].key))
  }

  function Ids(evidence: seq<Evidence>): set<nat> { set e | e in evidence :: e.number }

  // ---------------------------------------------------------------- steps

  function NextOrdinal(steps: seq<Step>): nat {
    if steps == [] then 0
    else
      var before := NextOrdinal(steps[..|steps| - 1]);
      if steps[|steps| - 1].ordinal + 1 > before then steps[|steps| - 1].ordinal + 1 else before
  }

  predicate Ran(steps: seq<Step>, tool: nat) { exists i :: 0 <= i < |steps| && steps[i].tool == Some(tool) }

  function StepOf(steps: seq<Step>, tool: nat): Step
    requires Ran(steps, tool)
  {
    if steps[|steps| - 1].tool == Some(tool) then steps[|steps| - 1] else StepOf(steps[..|steps| - 1], tool)
  }

  /** A pinned source is still at its pinned revision. */
  predicate Unchanged(pins: map<nat, nat>, index: Index, source: nat) {
    source in pins && source in index.sources && index.sources[source] == pins[source]
  }

  predicate AllPinned(pins: map<nat, nat>, batch: seq<Read>) { forall read <- batch :: Pinned(pins, read.key) }

  /** Reads must be pinned, their sources unchanged, and their texts the indexed ones, in this order. */
  function Verify(pins: map<nat, nat>, index: Index, batch: seq<Read>): Outcome<()> {
    if !AllPinned(pins, batch) then InvalidRecord
    else if exists read <- batch :: !Unchanged(pins, index, read.key.source) then ScopeChanged
    else if exists read <- batch :: read !in index.texts then InvalidRecord
    else Ok(())
  }

  /** Register reads and the step that read them, or answer a repeated tool execution from its step. */
  function Acquire(r: Run, batch: seq<Read>, tool: Option<nat>, index: Index): (Run, Outcome<Acquisition>) {
    if r.status != Running then (r, RunClosed)
    else if tool.Some? && Ran(r.steps, tool.value) then
      var prior := StepOf(r.steps, tool.value);
      (r, Ok(Acquisition(prior.ordinal, prior.issued, true)))
    else
      var verified := Verify(r.pins, index, batch);
      if verified.InvalidRecord? then (r, InvalidRecord)
      else if verified.ScopeChanged? then (r, ScopeChanged)
      else
        var ordinal := NextOrdinal(r.steps);
        var evidence := Register(r.evidence, batch, |batch|, ordinal);
        var ids := Issued(r.evidence, batch, |batch|, ordinal);
        if evidence != r.evidence && (|evidence| > MAX_EVIDENCE_ITEMS || TotalBytes(evidence) > MAX_EVIDENCE_BYTES) then
          (r, EvidenceLimit)
        else
          (r.(evidence := evidence, steps := r.steps + [Step(ordinal, tool, ids)]),
           Ok(Acquisition(ordinal, ids, false)))
  }

  function Finish(r: Run, status: Status): (Run, Outcome<()>) {
    if status == Running then (r, InvalidRecord)
    else if r.status == Running then (r.(status := status), Ok(()))
    else if r.status == status then (r, Ok(()))
    else (r, RunClosed)
  }

  function Cited(d: Draft): set<nat> {
    (set e | e in d.active)
    + (set c, e | c in d.criteria && e in c :: e)
    + (set c, e | c in d.candidates && e in c :: e)
    + (set i, e | i in d.plan && e in i.cites :: e)
    + (set i, e | i in d.notes && e in i.cites :: e)
  }

  predicate UniqueIds(items: seq<Item>) { forall i, j :: 0 <= i < j < |items| ==> items[i].id != items[j].id }

  /** The check before the lock: everything cited is issued by then, ids are unique, the size fits. */
  function CheckState(r: Run, worker: nat, draft: Draft, expected: nat): (Run, Outcome<()>) {
    if Cited(draft) <= Ids(r.evidence) && UniqueIds(draft.plan) && UniqueIds(draft.notes)
        && draft.size <= MAX_STATE_BYTES then
      (r.(checked := r.checked[worker := CheckedState(draft, expected)]), Ok(()))
    else (r, InvalidRecord)
  }

  /** The write under the lock, guarded by the revision. */
  function WriteState(r: Run, draft: Draft, expected: nat): (Run, Outcome<nat>) {
    if r.status != Running then (r, RunClosed)
    else if r.revision != expected then (r, StateConflict)
    else (r.(state := Some(draft), revision := r.revision + 1), Ok(r.revision + 1))
  }

  function CheckDecision(r: Run, worker: nat, decision: Decision, supplied: Option<set<nat>>): (Run, Outcome<()>) {
    var issued := if supplied.Some? then supplied.value else Ids(r.evidence);
    if decision.sound && forall e <- decision.cites :: e in issued then
      (r.(checked := r.checked[worker := CheckedDecision(decision, supplied)]), Ok(()))
    else (r, InvalidRecord)
  }

  /** The whole scope is as it was pinned. */
  predicate ScopeKept(pins: map<nat, nat>, index: Index) {
    index.programs && forall source <- pins :: Unchanged(pins, index, source)
  }

  /** Store a decision under the lock, unless the scope has changed since the run began. */
  function WriteDecision(r: Run, decision: Checked, index: Index): (Run, Outcome<()>) {
    if r.status != Running then (r, RunClosed)
    else if !ScopeKept(r.pins, index) then (r, ScopeChanged)
    else (r.(decisions := r.decisions + [decision]), Ok(()))
  }

  datatype Action = DoAcquire(batch: seq<Read>, tool: Option<nat>, index: Index)
                  | DoFinish(status: Status)
                  | DoCheckState(worker: nat, draft: Draft, expected: nat)
                  | DoCheckDecision(worker: nat, decision: Decision, supplied: Option<set<nat>>)
                  | DoWrite(worker: nat, index: Index)

  /** One step of any worker. A worker writes only what it has checked. */
  function Apply(r: Run, action: Action): Run {
    match action
    case DoAcquire(batch, tool, index) => Acquire(r, batch, tool, index).0
    case DoFinish(status) => Finish(r, status).0
    case DoCheckState(worker, draft, expected) => CheckState(r, worker, draft, expected).0
    case DoCheckDecision(worker, decision, supplied) => CheckDecision(r, worker, decision, supplied).0
    case DoWrite(worker, index) =>
      if worker !in r.checked then r
      else match r.checked[worker]
        case CheckedState(draft, expected) => WriteState(r, draft, expected).0
        case CheckedDecision(_, _) => WriteDecision(r, r.checked[worker], index).0
  }

  /** Any interleaving of steps. */
  function After(r: Run, actions: seq<Action>): Run
    decreases actions
  {
    if actions == [] then r else After(Apply(r, actions[0]), actions[1..])
  }

  function Started(pins: map<nat, nat>): Run { Run(pins, Running, 0, None, [], [], [], map[]) }

  // ---------------------------------------------------------------- what always holds

  ghost predicate GoodEvidence(pins: map<nat, nat>, evidence: seq<Evidence>, steps: seq<Step>) {
    && |evidence| <= MAX_EVIDENCE_ITEMS && TotalBytes(evidence) <= MAX_EVIDENCE_BYTES
    && Numbered(evidence)
    && (forall i :: 0 <= i < |evidence| ==> evidence[i].step < |steps|)
    && (forall i :: 0 <= i < |evidence| ==> Pinned(pins, evidence[i].key))
  }

  predicate Pinned(pins: map<nat, nat>, key: Key) { key.source in pins && pins[key.source] == key.revision }

  /** Identifiers e1, e2, ... in order, one for each key. */
  ghost predicate Numbered(evidence: seq<Evidence>) {
    && (forall i :: 0 <= i < |evidence| ==> evidence[i].number == i + 1)
    && (forall i, j :: 0 <= i < j < |evidence| ==> evidence[i].key != evidence[j].key)
  }

  /** The identifiers are all in the register. */
  ghost predicate Exist(ids: seq<nat>, evidence: seq<Evidence>) {
    forall i :: 0 <= i < |ids| ==> ids[i] in Ids(evidence)
  }

  ghost predicate Distinct(ids: seq<nat>) { forall i, j :: 0 <= i < j < |ids| ==> ids[i] != ids[j] }

  ghost predicate GoodSteps(steps: seq<Step>, evidence: seq<Evidence>) {
    && (forall i :: 0 <= i < |steps| ==> steps[i].ordinal == i && Exist(steps[i].issued, evidence))
    && (forall i, j :: 0 <= i < j < |steps| && steps[i].tool.Some? ==> steps[i].tool != steps[j].tool)
  }

  ghost predicate Backed(c: Checked, evidence: seq<Evidence>) {
    match c
    case CheckedState(draft, _) => BackedState(draft, evidence)
    case CheckedDecision(decision, supplied) =>
      decision.sound && forall e <- decision.cites :: e in (if supplied.Some? then supplied.value else Ids(evidence))
  }

  ghost predicate BackedState(draft: Draft, evidence: seq<Evidence>) {
    Cited(draft) <= Ids(evidence) && UniqueIds(draft.plan) && UniqueIds(draft.notes) && draft.size <= MAX_STATE_BYTES
  }

  ghost predicate Inv(r: Run) {
    && GoodEvidence(r.pins, r.evidence, r.steps)
    && GoodSteps(r.steps, r.evidence)
    && (forall w <- r.checked :: Backed(r.checked[w], r.evidence))
    && (r.state.Some? ==> BackedState(r.state.value, r.evidence))
    && (r.state.Some? <==> r.revision > 0)
    && (forall d <- r.decisions :: d.CheckedDecision? && Backed(d, r.evidence))
  }

  // ---------------------------------------------------------------- registering keeps the register good

  lemma {:induction false} NumberedMax(evidence: seq<Evidence>, n: nat)
    requires Numbered(evidence) && n <= |evidence|
    ensures MaxAmong(evidence, n) == n
  {
    if n > 0 { NumberedMax(evidence, n - 1); }
  }

  lemma {:induction false} NumberAmongIs(evidence: seq<Evidence>, i: nat, n: nat)
    requires Numbered(evidence) && i < n <= |evidence|
    ensures NumberAmong(evidence, evidence[i].key, n) == i + 1
  {
    if i < n - 1 { NumberAmongIs(evidence, i, n - 1); }
  }

  lemma NumberOfIs(evidence: seq<Evidence>, i: nat)
    requires Numbered(evidence) && i < |evidence|
    ensures NumberOf(evidence, evidence[i].key) == i + 1
  {
    NumberAmongIs(evidence, i, |evidence|);
  }

  lemma PutNumbered(evidence: seq<Evidence>, read: Read, step: nat)
    requires Numbered(evidence)
    ensures Numbered(Put(evidence, read, step)) && evidence <= Put(evidence, read, step)
  {
    NumberedMax(evidence, |evidence|);
    if !HasKey(evidence, read.key) {
      forall i | 0 <= i < |evidence|
        ensures evidence[i].key != read.key { assert !HasKey(evidence, evidence[i].key) ==> false; }
    }
  }

  /** Registering only ever appends. */
  lemma {:induction false} RegisterGrows(evidence: seq<Evidence>, batch: seq<Read>, n: nat, step: nat)
    requires n <= |batch|
    ensures evidence <= Register(evidence, batch, n, step)
    ensures Numbered(evidence) ==> Numbered(Register(evidence, batch, n, step))
    ensures forall i :: |evidence| <= i < |Register(evidence, batch, n, step)| ==>
              Register(evidence, batch, n, step)[i].step == step
              && exists k :: 0 <= k < n && Register(evidence, batch, n, step)[i].key == batch[k].key
  {
    if n > 0 {
      var before := Register(evidence, batch, n - 1, step);
      RegisterGrows(evidence, batch, n - 1, step);
      PutHas(before, batch[n - 1], step);
      if Numbered(evidence) { PutNumbered(before, batch[n - 1], step); }
    }
  }

  lemma IdsGrow(evidence: seq<Evidence>, more: seq<Evidence>)
    requires evidence <= more
    ensures Ids(evidence) <= Ids(more)
  {
    forall id | id in Ids(evidence) ensures id in Ids(more) {
      var i :| 0 <= i < |evidence| && evidence[i].number == id;
      assert more[i] == evidence[i] && more[i] in more;
    }
  }

  lemma ExistGrows(ids: seq<nat>, evidence: seq<Evidence>, more: seq<Evidence>)
    requires Exist(ids, evidence) && evidence <= more
    ensures Exist(ids, more)
  {
    IdsGrow(evidence, more);
  }

  lemma RegisteredExists(evidence: seq<Evidence>, key: Key)
    requires Numbered(evidence) && HasKey(evidence, key)
    ensures NumberOf(evidence, key) in Ids(evidence)
  {
    var i :| 0 <= i < |evidence| && evidence[i].key == key;
    NumberOfIs(evidence, i);
    assert evidence[i] in evidence;
  }

  lemma OnceKeeps(ids: seq<nat>, id: nat, evidence: seq<Evidence>)
    requires Exist(ids, evidence) && Distinct(ids) && id in Ids(evidence)
    ensures Exist(Once(ids, id), evidence) && Distinct(Once(ids, id)) && id in Once(ids, id)
    ensures forall x <- ids :: x in Once(ids, id)
  {
  }

  /** One more read: the register may grow by it, and its identifier is among those issued. */
  lemma IssuedStep(evidence: seq<Evidence>, batch: seq<Read>, n: nat, step: nat)
    requires Numbered(evidence) && 0 < n <= |batch|
    ensures var before, after := Register(evidence, batch, n - 1, step), Register(evidence, batch, n, step);
            && before <= after && Numbered(before) && Numbered(after) && HasKey(after, batch[n - 1].key)
            && NumberOf(after, batch[n - 1].key) in Ids(after)
            && Issued(evidence, batch, n, step) == Once(Issued(evidence, batch, n - 1, step),
                                                        NumberOf(after, batch[n - 1].key))
  {
    RegisterGrows(evidence, batch, n - 1, step);
    PutNumbered(Register(evidence, batch, n - 1, step), batch[n - 1], step);
    RegisterHas(evidence, batch, n, step, n - 1);
    RegisteredExists(Register(evidence, batch, n, step), batch[n - 1].key);
  }

  /** Which identifiers a step issues: those of its reads, all of them registered, none twice. */
  lemma {:induction false} IssuedMeaning(evidence: seq<Evidence>, batch: seq<Read>, n: nat, step: nat)
    requires Numbered(evidence) && n <= |batch|
    ensures Exist(Issued(evidence, batch, n, step), Register(evidence, batch, n, step))
    ensures Distinct(Issued(evidence, batch, n, step))
    ensures forall i :: 0 <= i < n ==> Answered(evidence, batch, n, step, i)
  {
    if n > 0 {
      var before, after := Register(evidence, batch, n - 1, step), Register(evidence, batch, n, step);
      var ids := Issued(evidence, batch, n - 1, step);
      IssuedMeaning(evidence, batch, n - 1, step);
      IssuedStep(evidence, batch, n, step);
      hide Numbered, Register, Issued, Exist, Distinct, NumberOf;
      ExistGrows(ids, before, after);
      OnceKeeps(ids, NumberOf(after, batch[n - 1].key), after);
      forall i | 0 <= i < n ensures Answered(evidence, batch, n, step, i) {
        if i < n - 1 {
          assert Answered(evidence, batch, n - 1, step, i);
          NumberStays(before, after, batch[i].key);
        }
      }
    }
  }

  /** The i-th read is answered with the one identifier its text has in the register. */
  ghost predicate Answered(evidence: seq<Evidence>, batch: seq<Read>, n: nat, step: nat, i: nat)
    requires i < n <= |batch|
  {
    var after := Register(evidence, batch, n, step);
    HasKey(after, batch[i].key) && NumberOf(after, batch[i].key) in Issued(evidence, batch, n, step)
  }

  /** A key keeps its identifier as the register grows. */
  lemma NumberStays(evidence: seq<Evidence>, more: seq<Evidence>, key: Key)
    requires Numbered(evidence) && Numbered(more) && evidence <= more && HasKey(evidence, key)
    ensures HasKey(more, key) && NumberOf(more, key) == NumberOf(evidence, key)
  {
    var i :| 0 <= i < |evidence| && evidence[i].key == key;
    assert more[i] == evidence[i];
    NumberOfIs(evidence, i);
    NumberOfIs(more, i);
  }

  lemma {:induction false} StepsOrdinal(steps: seq<Step>)
    requires forall i :: 0 <= i < |steps| ==> steps[i].ordinal == i
    ensures NextOrdinal(steps) == |steps|
  {
    if steps != [] { StepsOrdinal(steps[..|steps| - 1]); }
  }

  lemma {:induction false} StepOfIs(steps: seq<Step>, i: nat)
    requires i < |steps| && steps[i].tool.Some?
    requires forall j, k :: 0 <= j < k < |steps| && steps[j].tool.Some? ==> steps[j].tool != steps[k].tool
    ensures Ran(steps, steps[i].tool.value) && StepOf(steps, steps[i].tool.value) == steps[i]
    decreases |steps|
  {
    var last := |steps| - 1;
    if i < last { StepOfIs(steps[..last], i); }
  }

  // ---------------------------------------------------------------- every step keeps the invariant

  lemma BackedGrows(c: Checked, evidence: seq<Evidence>, more: seq<Evidence>)
    requires Backed(c, evidence) && evidence <= more
    ensures Backed(c, more)
  {
    IdsGrow(evidence, more);
  }

  lemma AcquireEvidence(r: Run, batch: seq<Read>, ordinal: nat)
    requires Inv(r) && ordinal == |r.steps|
    requires forall i :: 0 <= i < |batch| ==> Pinned(r.pins, batch[i].key)
    requires var more := Register(r.evidence, batch, |batch|, ordinal);
             more == r.evidence || (|more| <= MAX_EVIDENCE_ITEMS && TotalBytes(more) <= MAX_EVIDENCE_BYTES)
    ensures var more := Register(r.evidence, batch, |batch|, ordinal);
            r.evidence <= more && forall s: Step :: GoodEvidence(r.pins, more, r.steps + [s])
  {
    var more := Register(r.evidence, batch, |batch|, ordinal);
    RegisterGrows(r.evidence, batch, |batch|, ordinal);
    forall i | 0 <= i < |more| ensures more[i].step <= ordinal && Pinned(r.pins, more[i].key) {
      if i < |r.evidence| { assert more[i] == r.evidence[i]; }
    }
  }

  lemma AcquireSteps(r: Run, batch: seq<Read>, tool: Option<nat>, ordinal: nat)
    requires Inv(r) && ordinal == |r.steps| && (tool.Some? ==> !Ran(r.steps, tool.value))
    ensures GoodSteps(r.steps + [Step(ordinal, tool, Issued(r.evidence, batch, |batch|, ordinal))],
                      Register(r.evidence, batch, |batch|, ordinal))
  {
    var more := Register(r.evidence, batch, |batch|, ordinal);
    RegisterGrows(r.evidence, batch, |batch|, ordinal);
    IssuedMeaning(r.evidence, batch, |batch|, ordinal);
    forall i | 0 <= i < |r.steps| ensures Exist(r.steps[i].issued, more) {
      ExistGrows(r.steps[i].issued, r.evidence, more);
    }
    forall i | 0 <= i < |r.steps| && r.steps[i].tool.Some? ensures r.steps[i].tool != tool {
    }
  }

  lemma InvGrows(r: Run, more: seq<Evidence>, steps: seq<Step>)
    requires Inv(r) && r.evidence <= more && GoodEvidence(r.pins, more, steps) && GoodSteps(steps, more)
    ensures Inv(r.(evidence := more, steps := steps))
  {
    forall w | w in r.checked ensures Backed(r.checked[w], more) { BackedGrows(r.checked[w], r.evidence, more); }
    forall d | d in r.decisions ensures Backed(d, more) { BackedGrows(d, r.evidence, more); }
    IdsGrow(r.evidence, more);
  }

  lemma AcquireKeeps(r: Run, batch: seq<Read>, tool: Option<nat>, index: Index)
    requires Inv(r)
    ensures Inv(Acquire(r, batch, tool, index).0) && r.evidence <= Acquire(r, batch, tool, index).0.evidence
    ensures r.steps <= Acquire(r, batch, tool, index).0.steps
  {
    StepsOrdinal(r.steps);
    var (after, outcome) := Acquire(r, batch, tool, index);
    if after != r {
      AcquireEvidence(r, batch, |r.steps|);
      AcquireSteps(r, batch, tool, |r.steps|);
      InvGrows(r, after.evidence, after.steps);
    }
  }

  lemma AcquireKeepsRevision(r: Run, batch: seq<Read>, tool: Option<nat>, index: Index)
    requires Inv(r)
    ensures var after := Acquire(r, batch, tool, index).0;
            r.evidence <= after.evidence && r.steps <= after.steps && after.revision == r.revision
  {
    AcquireKeeps(r, batch, tool, index);
    hide Inv, Register, Issued;
  }

  lemma StateKeeps(r: Run, draft: Draft)
    requires Inv(r) && BackedState(draft, r.evidence)
    ensures Inv(r.(state := Some(draft), revision := r.revision + 1))
  {
  }

  lemma DecisionKeeps(r: Run, decision: Checked)
    requires Inv(r) && decision.CheckedDecision? && Backed(decision, r.evidence)
    ensures Inv(r.(decisions := r.decisions + [decision]))
  {
  }

  lemma CheckKeeps(r: Run, worker: nat, c: Checked)
    requires Inv(r) && Backed(c, r.evidence)
    ensures Inv(r.(checked := r.checked[worker := c]))
  {
  }

  lemma WriteKeeps(r: Run, worker: nat, index: Index)
    requires Inv(r)
    ensures Inv(Apply(r, DoWrite(worker, index)))
  {
    if worker in r.checked {
      var c := r.checked[worker];
      assert Backed(c, r.evidence);
      match c
      case CheckedState(draft, expected) =>
        if r.status == Running && r.revision == expected { StateKeeps(r, draft); }
      case CheckedDecision(_, _) =>
        if r.status == Running { DecisionKeeps(r, c); }
    }
  }

  lemma ApplyKeeps(r: Run, action: Action)
    requires Inv(r)
    ensures Inv(Apply(r, action))
  {
    match action
    case DoAcquire(batch, tool, index) => AcquireKeeps(r, batch, tool, index);
    case DoFinish(_) =>
    case DoCheckState(worker, draft, expected) =>
      if BackedState(draft, r.evidence) { CheckKeeps(r, worker, CheckedState(draft, expected)); }
    case DoCheckDecision(worker, decision, supplied) =>
      var c := CheckedDecision(decision, supplied);
      if Backed(c, r.evidence) { CheckKeeps(r, worker, c); }
    case DoWrite(worker, index) => WriteKeeps(r, worker, index);
  }

  lemma ApplyGrows(r: Run, action: Action)
    requires Inv(r)
    ensures r.evidence <= Apply(r, action).evidence && r.steps <= Apply(r, action).steps
    ensures Apply(r, action).revision >= r.revision
  {
    hide Inv, Acquire;
    if action.DoAcquire? { AcquireKeepsRevision(r, action.batch, action.tool, action.index); }
  }

  /** Over every interleaving: the register is e1..en, one for each text; every step's identifiers
      exist; the bounds hold; and saved state cites only what was issued. */
  lemma {:induction false} AlwaysGood(r: Run, actions: seq<Action>)
    requires Inv(r)
    ensures Inv(After(r, actions))
    ensures r.evidence <= After(r, actions).evidence && r.steps <= After(r, actions).steps
    ensures After(r, actions).revision >= r.revision
    decreases |actions|
  {
    if actions != [] {
      ApplyKeeps(r, actions[0]);
      ApplyGrows(r, actions[0]);
      AlwaysGood(Apply(r, actions[0]), actions[1..]);
    }
  }

  lemma StartedGood(pins: map<nat, nat>, actions: seq<Action>)
    ensures Inv(Started(pins)) && Inv(After(Started(pins), actions))
  {
    AlwaysGood(Started(pins), actions);
  }

  /** An identifier, once issued for a text, stays the identifier of that text. */
  lemma NeverReassigned(r: Run, actions: seq<Action>, key: Key)
    requires Inv(r) && HasKey(r.evidence, key)
    ensures HasKey(After(r, actions).evidence, key)
    ensures NumberOf(After(r, actions).evidence, key) == NumberOf(r.evidence, key)
  {
    AlwaysGood(r, actions);
    NumberStays(r.evidence, After(r, actions).evidence, key);
  }

  /** A run that has ended takes no further record of any kind. */
  lemma {:induction false} EndedIsFrozen(r: Run, actions: seq<Action>)
    requires r.status != Running
    ensures var later := After(r, actions);
            && later.status == r.status && later.evidence == r.evidence && later.steps == r.steps
            && later.state == r.state && later.revision == r.revision && later.decisions == r.decisions
    decreases |actions|
  {
    if actions != [] { EndedIsFrozen(Apply(r, actions[0]), actions[1..]); }
  }

  /** A repeated tool execution gets the same answer at any later time, and adds nothing. */
  lemma ReplayAddsNothing(r: Run, batch: seq<Read>, tool: nat, index: Index, acquired: Acquisition,
                          actions: seq<Action>, again: seq<Read>, indexThen: Index)
    requires Inv(r) && Acquire(r, batch, Some(tool), index).1 == Ok(acquired)
    ensures var later := After(Acquire(r, batch, Some(tool), index).0, actions);
            && Acquire(later, again, Some(tool), indexThen).0 == later
            && (later.status == Running ==>
                  Acquire(later, again, Some(tool), indexThen).1
                      == Ok(Acquisition(acquired.ordinal, acquired.ids, true)))
  {
    var now := Acquire(r, batch, Some(tool), index).0;
    var later := After(now, actions);
    AcquireKeeps(r, batch, Some(tool), index);
    AlwaysGood(now, actions);
    var i := StepRecorded(r, batch, tool, index, acquired);
    assert later.steps[i] == now.steps[i];
    StepOfIs(later.steps, i);
  }

  lemma StepRecorded(r: Run, batch: seq<Read>, tool: nat, index: Index, acquired: Acquisition) returns (i: nat)
    requires Inv(r) && Acquire(r, batch, Some(tool), index).1 == Ok(acquired)
    ensures var steps := Acquire(r, batch, Some(tool), index).0.steps;
            i < |steps| && steps[i].tool == Some(tool) && steps[i].ordinal == acquired.ordinal
                && steps[i].issued == acquired.ids
  {
    if Ran(r.steps, tool) {
      i :| 0 <= i < |r.steps| && r.steps[i].tool == Some(tool);
      StepOfIs(r.steps, i);
    } else {
      i := |r.steps|;
    }
  }

  /** Of the writers that checked against one revision at most one succeeds. */
  lemma OneWriterPerRevision(r: Run, first: Draft, second: Draft, expected: nat, actions: seq<Action>)
    requires Inv(r) && WriteState(r, first, expected).1.Ok?
    ensures !WriteState(After(WriteState(r, first, expected).0, actions), second, expected).1.Ok?
  {
    var now := WriteState(r, first, expected).0;
    CheckedWriteKeeps(r, first, expected, actions);
  }

  lemma {:induction false} CheckedWriteKeeps(r: Run, draft: Draft, expected: nat, actions: seq<Action>)
    requires WriteState(r, draft, expected).1.Ok?
    ensures After(WriteState(r, draft, expected).0, actions).revision > expected
  {
    RevisionGrows(WriteState(r, draft, expected).0, actions);
  }

  lemma {:induction false} RevisionGrows(r: Run, actions: seq<Action>)
    ensures After(r, actions).revision >= r.revision
    decreases |actions|
  {
    if actions != [] { RevisionGrows(Apply(r, actions[0]), actions[1..]); }
  }

  /** A step that reads registers exactly its reads beside what was there, and answers each of them. */
  lemma AcquireAnswers(r: Run, batch: seq<Read>, tool: Option<nat>, index: Index, acquired: Acquisition)
    requires Inv(r) && Acquire(r, batch, tool, index).1 == Ok(acquired) && !acquired.replayed
    ensures var evidence := Acquire(r, batch, tool, index).0.evidence;
            && Exist(acquired.ids, evidence) && Distinct(acquired.ids)
            && (forall i :: 0 <= i < |batch| ==>
                  HasKey(evidence, batch[i].key) && NumberOf(evidence, batch[i].key) in acquired.ids)
            && (forall key :: HasKey(evidence, key) <==>
                  HasKey(r.evidence, key) || exists i :: 0 <= i < |batch| && batch[i].key == key)
  {
    var ordinal := NextOrdinal(r.steps);
    var evidence := Register(r.evidence, batch, |batch|, ordinal);
    IssuedMeaning(r.evidence, batch, |batch|, ordinal);
    RegisterGrows(r.evidence, batch, |batch|, ordinal);
    forall i | 0 <= i < |batch|
      ensures HasKey(evidence, batch[i].key) && NumberOf(evidence, batch[i].key) in acquired.ids {
      assert Answered(r.evidence, batch, |batch|, ordinal, i);
    }
    forall key
      ensures HasKey(evidence, key) <==> HasKey(r.evidence, key) || exists i :: 0 <= i < |batch| && batch[i].key == key
    {
      if i :| 0 <= i < |evidence| && evidence[i].key == key {
        assert i < |r.evidence| ==> r.evidence[i].key == key;
      }
      if i :| 0 <= i < |r.evidence| && r.evidence[i].key == key { assert evidence[i] == r.evidence[i]; }
    }
  }
}
