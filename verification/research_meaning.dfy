/** What the steps of a research run come to, over the fields of what is read, cited and stored. */
module ResearchMeaning {
  import opened ResearchRegister

  // ---------------------------------------------------------------- what a step registers

  /** A text that is on the register. */
  ghost predicate OnRegister(evidence: seq<Evidence>, key: Key) { exists e <- evidence :: e.key == key }

  /** A text read among the first n reads. */
  ghost predicate ReadAmong(batch: seq<Read>, n: nat, key: Key)
    requires n <= |batch|
  {
    exists j :: 0 <= j < n && batch[j].key == key
  }

  /** The reads, among the first n, of texts not met before in the batch. */
  ghost function FirstReads(batch: seq<Read>, n: nat): seq<Read>
    requires n <= |batch|
  {
    if n == 0 then []
    else if ReadAmong(batch, n - 1, batch[n - 1].key) then FirstReads(batch, n - 1)
    else FirstReads(batch, n - 1) + [batch[n - 1]]
  }

  /** Those of them whose texts are not on the register either. */
  ghost function NewReads(evidence: seq<Evidence>, batch: seq<Read>, n: nat): seq<Read>
    requires n <= |batch|
  {
    if n == 0 then []
    else if ReadAmong(batch, n - 1, batch[n - 1].key) || OnRegister(evidence, batch[n - 1].key)
         then NewReads(evidence, batch, n - 1)
    else NewReads(evidence, batch, n - 1) + [batch[n - 1]]
  }

  /** New reads as evidence: numbered on from the register, with their own bytes, by this step. */
  function AsEvidence(texts: seq<Read>, after: nat, step: nat): seq<Evidence> {
    seq(|texts|, k requires 0 <= k < |texts| => Evidence(after + 1 + k, texts[k].key, texts[k].bytes, step))
  }

  lemma HasKeyMeaning(evidence: seq<Evidence>, key: Key)
    ensures HasKey(evidence, key) <==> OnRegister(evidence, key)
  {
    if OnRegister(evidence, key) {
      var e :| e in evidence && e.key == key;
      var i :| 0 <= i < |evidence| && evidence[i] == e;
    }
  }

  /** What is on the register after some reads. */
  lemma {:induction false} RegisterKeys(evidence: seq<Evidence>, batch: seq<Read>, n: nat, step: nat, key: Key)
    requires n <= |batch|
    ensures HasKey(Register(evidence, batch, n, step), key)
            <==> OnRegister(evidence, key) || ReadAmong(batch, n, key)
  {
    if n == 0 {
      HasKeyMeaning(evidence, key);
    } else {
      RegisterKeys(evidence, batch, n - 1, step, key);
      var before := Register(evidence, batch, n - 1, step);
      PutKeys(before, batch[n - 1], step, key);
    }
  }

  lemma PutKeys(evidence: seq<Evidence>, read: Read, step: nat, key: Key)
    ensures HasKey(Put(evidence, read, step), key) <==> HasKey(evidence, key) || key == read.key
  {
    PutHas(evidence, read, step);
    var after := Put(evidence, read, step);
    if HasKey(after, key) && key != read.key {
      var i :| 0 <= i < |after| && after[i].key == key;
      assert after[i] == evidence[i];
    }
  }

  lemma AsEvidenceMore(texts: seq<Read>, read: Read, after: nat, step: nat)
    ensures AsEvidence(texts + [read], after, step)
            == AsEvidence(texts, after, step) + [Evidence(after + 1 + |texts|, read.key, read.bytes, step)]
  {
  }

  /** What earlier reads of the batch registered, and this one. */
  ghost function WithRead(evidence: seq<Evidence>, batch: seq<Read>, n: nat, step: nat, more: seq<Evidence>)
    : seq<Evidence>
    requires 0 < n <= |batch|
  {
    var read := batch[n - 1];
    if ReadAmong(batch, n - 1, read.key) || OnRegister(evidence, read.key) then more
    else more + [Evidence(|evidence| + |more| + 1, read.key, read.bytes, step)]
  }

  lemma NothingRead(evidence: seq<Evidence>, batch: seq<Read>, step: nat)
    ensures Register(evidence, batch, 0, step)
            == evidence + AsEvidence(NewReads(evidence, batch, 0), |evidence|, step)
  {
    assert AsEvidence([], |evidence|, step) == [];
  }

  /** A step registers the new texts among its reads, in the order they are first read, and no others. */
  lemma {:induction false} RegisterMeaning(evidence: seq<Evidence>, batch: seq<Read>, n: nat, step: nat)
    requires Numbered(evidence) && n <= |batch|
    ensures Register(evidence, batch, n, step)
            == evidence + AsEvidence(NewReads(evidence, batch, n), |evidence|, step)
  {
    if n == 0 {
      NothingRead(evidence, batch, step);
    } else {
      hide Register, Numbered, AsEvidence, NewReads, WithRead;
      RegisterMeaning(evidence, batch, n - 1, step);
      RegisterOne(evidence, batch, n, step, AsEvidence(NewReads(evidence, batch, n - 1), |evidence|, step));
      NewEvidence(evidence, batch, n, step);
    }
  }

  lemma NewEvidence(evidence: seq<Evidence>, batch: seq<Read>, n: nat, step: nat)
    requires 0 < n <= |batch|
    ensures AsEvidence(NewReads(evidence, batch, n), |evidence|, step)
            == WithRead(evidence, batch, n, step, AsEvidence(NewReads(evidence, batch, n - 1), |evidence|, step))
  {
    hide ReadAmong, OnRegister;
    var added := NewReads(evidence, batch, n - 1);
    NewReadsStep(evidence, batch, n);
    hide NewReads, AsEvidence;
    if !ReadAmong(batch, n - 1, batch[n - 1].key) && !OnRegister(evidence, batch[n - 1].key) {
      AsEvidenceMore(added, batch[n - 1], |evidence|, step);
      AsEvidenceCount(added, |evidence|, step);
    }
  }

  /** One more read: nothing, or one more entry. */
  lemma RegisterOne(evidence: seq<Evidence>, batch: seq<Read>, n: nat, step: nat, more: seq<Evidence>)
    requires Numbered(evidence) && 0 < n <= |batch| && Register(evidence, batch, n - 1, step) == evidence + more
    ensures Register(evidence, batch, n, step) == evidence + WithRead(evidence, batch, n, step, more)
  {
    var before, read := Register(evidence, batch, n - 1, step), batch[n - 1];
    RegisterKeys(evidence, batch, n - 1, step, read.key);
    AllNumbered(evidence, batch, n - 1, step);
    RegisterStep(evidence, batch, n, step);
    hide Register, Numbered, ReadAmong, OnRegister;
    PutMeaning(evidence, before, more, read, step);
  }

  lemma AllNumbered(evidence: seq<Evidence>, batch: seq<Read>, n: nat, step: nat)
    requires Numbered(evidence) && n <= |batch|
    ensures Numbered(Register(evidence, batch, n, step))
    ensures MaxNumber(Register(evidence, batch, n, step)) == |Register(evidence, batch, n, step)|
  {
    RegisterGrows(evidence, batch, n, step);
    NumberedMax(Register(evidence, batch, n, step), |Register(evidence, batch, n, step)|);
  }

  lemma NewReadsStep(evidence: seq<Evidence>, batch: seq<Read>, n: nat)
    requires 0 < n <= |batch|
    ensures var before := NewReads(evidence, batch, n - 1);
            var read := batch[n - 1];
            NewReads(evidence, batch, n)
            == if ReadAmong(batch, n - 1, read.key) || OnRegister(evidence, read.key) then before
               else before + [read]
  {
  }

  lemma RegisterStep(evidence: seq<Evidence>, batch: seq<Read>, n: nat, step: nat)
    requires 0 < n <= |batch|
    ensures Register(evidence, batch, n, step) == Put(Register(evidence, batch, n - 1, step), batch[n - 1], step)
  {
  }

  lemma AsEvidenceCount(texts: seq<Read>, after: nat, step: nat)
    ensures |AsEvidence(texts, after, step)| == |texts|
  {
  }

  lemma PutMeaning(evidence: seq<Evidence>, before: seq<Evidence>, more: seq<Evidence>, read: Read, step: nat)
    requires before == evidence + more && MaxNumber(before) == |before|
    ensures Put(before, read, step)
            == if HasKey(before, read.key) then before
               else evidence + (more + [Evidence(|evidence| + |more| + 1, read.key, read.bytes, step)])
  {
  }

  function NumbersOf(evidence: seq<Evidence>, texts: seq<Read>): seq<nat> {
    seq(|texts|, k requires 0 <= k < |texts| => NumberOf(evidence, texts[k].key))
  }

  ghost predicate Contains(texts: seq<Read>, key: Key) { exists k :: 0 <= k < |texts| && texts[k].key == key }

  lemma ContainsMore(texts: seq<Read>, read: Read, key: Key)
    ensures Contains(texts + [read], key) <==> Contains(texts, key) || read.key == key
  {
    var more := texts + [read];
    assert more[|texts|] == read;
    if k :| 0 <= k < |texts| && texts[k].key == key { assert more[k].key == key; }
  }

  lemma {:induction false} FirstReadsKeys(batch: seq<Read>, n: nat, key: Key)
    requires n <= |batch|
    ensures Contains(FirstReads(batch, n), key) <==> ReadAmong(batch, n, key)
  {
    if n > 0 {
      FirstReadsKeys(batch, n - 1, key);
      ContainsMore(FirstReads(batch, n - 1), batch[n - 1], key);
    }
  }

  lemma NumbersStay(before: seq<Evidence>, after: seq<Evidence>, texts: seq<Read>)
    requires Numbered(before) && Numbered(after) && before <= after
    requires KeysKnown(before, texts)
    ensures NumbersOf(before, texts) == NumbersOf(after, texts)
  {
    forall k | 0 <= k < |texts| ensures NumberOf(after, texts[k].key) == NumberOf(before, texts[k].key) {
      NumberStays(before, after, texts[k].key);
    }
  }

  ghost predicate KeysKnown(evidence: seq<Evidence>, texts: seq<Read>) {
    forall k :: 0 <= k < |texts| ==> HasKey(evidence, texts[k].key)
  }

  lemma FirstReadsRegistered(evidence: seq<Evidence>, batch: seq<Read>, n: nat, step: nat)
    requires n <= |batch|
    ensures KeysKnown(Register(evidence, batch, n, step), FirstReads(batch, n))
  {
    var texts := FirstReads(batch, n);
    forall k | 0 <= k < |texts| ensures HasKey(Register(evidence, batch, n, step), texts[k].key) {
      FirstReadsKeys(batch, n, texts[k].key);
      RegisterKeys(evidence, batch, n, step, texts[k].key);
    }
  }

  lemma FirstReadsStep(batch: seq<Read>, n: nat)
    requires 0 < n <= |batch|
    ensures FirstReads(batch, n)
            == if ReadAmong(batch, n - 1, batch[n - 1].key) then FirstReads(batch, n - 1)
               else FirstReads(batch, n - 1) + [batch[n - 1]]
  {
  }

  lemma OneMoreIssued(before: seq<Evidence>, after: seq<Evidence>, front: seq<Read>, read: Read, next: seq<Read>)
    requires Numbered(before) && Numbered(after) && before <= after && HasKey(after, read.key)
    requires KeysKnown(before, front)
    requires next == if Contains(front, read.key) then front else front + [read]
    ensures Once(NumbersOf(before, front), NumberOf(after, read.key)) == NumbersOf(after, next)
  {
    NumbersStay(before, after, front);
    RegisteredStill(before, after, front);
    hide Numbered, NumberOf, HasKey, NumbersOf, KeysKnown;
    if Contains(front, read.key) {
      NumberAmongThem(after, front, read.key);
    } else {
      NotAmong(after, front, read.key);
      NumbersMore(after, front, read);
    }
  }

  lemma IssuedOne(evidence: seq<Evidence>, batch: seq<Read>, n: nat, step: nat)
    requires 0 < n <= |batch|
    ensures Issued(evidence, batch, n, step)
            == Once(Issued(evidence, batch, n - 1, step),
                    NumberOf(Register(evidence, batch, n, step), batch[n - 1].key))
  {
  }

  lemma OneMoreRead(evidence: seq<Evidence>, batch: seq<Read>, n: nat, step: nat)
    requires Numbered(evidence) && 0 < n <= |batch|
    ensures var before, after := Register(evidence, batch, n - 1, step), Register(evidence, batch, n, step);
            Once(NumbersOf(before, FirstReads(batch, n - 1)), NumberOf(after, batch[n - 1].key))
            == NumbersOf(after, FirstReads(batch, n))
  {
    BeforeAndAfter(evidence, batch, n, step);
    NextReads(batch, n);
    hide Numbered, Register, NumberOf, HasKey, NumbersOf, Contains, FirstReads, Once, KeysKnown;
    OneMoreIssued(Register(evidence, batch, n - 1, step), Register(evidence, batch, n, step), FirstReads(batch, n - 1),
                  batch[n - 1], FirstReads(batch, n));
  }

  lemma NextReads(batch: seq<Read>, n: nat)
    requires 0 < n <= |batch|
    ensures var front, read := FirstReads(batch, n - 1), batch[n - 1];
            FirstReads(batch, n) == if Contains(front, read.key) then front else front + [read]
  {
    FirstReadsStep(batch, n);
    FirstReadsKeys(batch, n - 1, batch[n - 1].key);
    hide Contains, FirstReads, ReadAmong;
  }

  lemma BeforeAndAfter(evidence: seq<Evidence>, batch: seq<Read>, n: nat, step: nat)
    requires Numbered(evidence) && 0 < n <= |batch|
    ensures var before, after := Register(evidence, batch, n - 1, step), Register(evidence, batch, n, step);
            && Numbered(before) && Numbered(after) && before <= after && HasKey(after, batch[n - 1].key)
            && KeysKnown(before, FirstReads(batch, n - 1))
  {
    IssuedStep(evidence, batch, n, step);
    FirstReadsRegistered(evidence, batch, n - 1, step);
  }

  /** A step answers with the identifiers of its texts, each once, in the order they are first read. */
  lemma {:induction false} IssuedInOrder(evidence: seq<Evidence>, batch: seq<Read>, n: nat, step: nat)
    requires Numbered(evidence) && n <= |batch|
    ensures Issued(evidence, batch, n, step) == NumbersOf(Register(evidence, batch, n, step), FirstReads(batch, n))
  {
    if n > 0 {
      IssuedInOrder(evidence, batch, n - 1, step);
      hide Register, Issued, NumbersOf, FirstReads, Numbered;
      IssuedOne(evidence, batch, n, step);
      OneMoreRead(evidence, batch, n, step);
    } else {
      assert NumbersOf(evidence, []) == [];
    }
  }

  lemma RegisteredStill(before: seq<Evidence>, after: seq<Evidence>, texts: seq<Read>)
    requires before <= after && KeysKnown(before, texts)
    ensures KeysKnown(after, texts)
  {
    forall k | 0 <= k < |texts| ensures HasKey(after, texts[k].key) {
      var i :| 0 <= i < |before| && before[i].key == texts[k].key;
      assert after[i] == before[i];
    }
  }

  lemma NumberAmongThem(evidence: seq<Evidence>, texts: seq<Read>, key: Key)
    requires Contains(texts, key)
    ensures NumberOf(evidence, key) in NumbersOf(evidence, texts)
  {
    var k :| 0 <= k < |texts| && texts[k].key == key;
    assert NumbersOf(evidence, texts)[k] == NumberOf(evidence, key);
  }

  lemma NumbersMore(evidence: seq<Evidence>, texts: seq<Read>, read: Read)
    ensures NumbersOf(evidence, texts + [read]) == NumbersOf(evidence, texts) + [NumberOf(evidence, read.key)]
  {
  }

  lemma NotAmong(evidence: seq<Evidence>, texts: seq<Read>, key: Key)
    requires Numbered(evidence) && HasKey(evidence, key)
    requires !Contains(texts, key) && KeysKnown(evidence, texts)
    ensures NumberOf(evidence, key) !in NumbersOf(evidence, texts)
  {
    var i :| 0 <= i < |evidence| && evidence[i].key == key;
    NumberOfIs(evidence, i);
    forall k | 0 <= k < |texts| ensures NumberOf(evidence, texts[k].key) != NumberOf(evidence, key) {
      var j :| 0 <= j < |evidence| && evidence[j].key == texts[k].key;
      NumberOfIs(evidence, j);
    }
  }

  // ---------------------------------------------------------------- what an acquisition does

  function ReadBytes(texts: seq<Read>): nat {
    if texts == [] then 0 else ReadBytes(texts[..|texts| - 1]) + texts[|texts| - 1].bytes
  }

  lemma {:induction false} RegisteredBytes(evidence: seq<Evidence>, texts: seq<Read>, step: nat)
    ensures TotalBytes(evidence + AsEvidence(texts, |evidence|, step)) == TotalBytes(evidence) + ReadBytes(texts)
  {
    if texts == [] {
      assert evidence + AsEvidence(texts, |evidence|, step) == evidence;
    } else {
      var last := |texts| - 1;
      RegisteredBytes(evidence, texts[..last], step);
      var more := evidence + AsEvidence(texts, |evidence|, step);
      assert more[..|more| - 1] == evidence + AsEvidence(texts[..last], |evidence|, step);
      BytesOfPrefix(more, |more| - 1, |more| - 1);
    }
  }

  lemma {:induction false} BytesOfPrefix(evidence: seq<Evidence>, m: nat, n: nat)
    requires n <= m <= |evidence|
    ensures BytesAmong(evidence, n) == BytesAmong(evidence[..m], n)
  {
    if n > 0 { BytesOfPrefix(evidence, m, n - 1); }
  }

  /** The reads go beyond the register's bounds. */
  ghost predicate TooMuch(evidence: seq<Evidence>, batch: seq<Read>) {
    var added := NewReads(evidence, batch, |batch|);
    added != [] && (|evidence| + |added| > 100 || TotalBytes(evidence) + ReadBytes(added) > 256000)
  }

  ghost predicate AllGood(r: Run, batch: seq<Read>, index: Index) {
    forall read <- batch ::
      && read.key.source in r.pins && read.key.revision == r.pins[read.key.source]
      && read.key.source in index.sources && index.sources[read.key.source] == read.key.revision
      && read in index.texts
  }

  ghost predicate RanBefore(r: Run, tool: Option<nat>) { tool.Some? && exists s <- r.steps :: s.tool == tool }

  /** An acquisition that takes a new step. */
  ghost predicate NewStep(outcome: Outcome<Acquisition>) { outcome.Ok? && !outcome.value.replayed }

  ghost predicate MayRead(r: Run, batch: seq<Read>, tool: Option<nat>, index: Index) {
    r.status == Running && !RanBefore(r, tool) && AllGood(r, batch, index)
  }

  lemma TooMuchMeaning(r: Run, batch: seq<Read>)
    requires Inv(r)
    ensures var evidence := Register(r.evidence, batch, |batch|, NextOrdinal(r.steps));
            evidence != r.evidence && (|evidence| > 100 || TotalBytes(evidence) > 256000)
            <==> TooMuch(r.evidence, batch)
  {
    var added := NewReads(r.evidence, batch, |batch|);
    StepsOrdinal(r.steps);
    RegisterMeaning(r.evidence, batch, |batch|, |r.steps|);
    RegisteredBytes(r.evidence, added, |r.steps|);
    AsEvidenceCount(added, |r.evidence|, |r.steps|);
    hide Register, NewReads, TotalBytes, Inv, NextOrdinal, AsEvidence;
    if added == [] { assert AsEvidence(added, |r.evidence|, |r.steps|) == []; }
  }

  /** Exactly when an acquisition takes a new step, is answered from an earlier one, or is refused. */
  lemma AcquireOutcome(r: Run, batch: seq<Read>, tool: Option<nat>, index: Index)
    requires Inv(r)
    ensures var (after, outcome) := Acquire(r, batch, tool, index);
            && (NewStep(outcome) <==> MayRead(r, batch, tool, index) && !TooMuch(r.evidence, batch))
            && (outcome.EvidenceLimit? <==> MayRead(r, batch, tool, index) && TooMuch(r.evidence, batch))
            && (outcome.RunClosed? <==> r.status != Running)
            && (outcome.Ok? && outcome.value.replayed <==> r.status == Running && RanBefore(r, tool))
            && (!NewStep(outcome) ==> after == r)
  {
    TooMuchMeaning(r, batch);
    VerdictMeaning(r, batch, index);
    RanMeaning(r, tool);
    hide Verify, Register, Issued, Ran, RanBefore, AllGood, TooMuch, TotalBytes, Inv, NextOrdinal, StepOf;
  }

  /** What a new step registers and answers. */
  lemma AcquireEffect(r: Run, batch: seq<Read>, tool: Option<nat>, index: Index)
    requires Inv(r) && NewStep(Acquire(r, batch, tool, index).1)
    ensures var (after, outcome) := Acquire(r, batch, tool, index);
            && after.evidence == r.evidence + AsEvidence(NewReads(r.evidence, batch, |batch|), |r.evidence|, |r.steps|)
            && outcome.value.ordinal == |r.steps|
            && outcome.value.ids == NumbersOf(after.evidence, FirstReads(batch, |batch|))
            && after.steps == r.steps + [Step(|r.steps|, tool, outcome.value.ids)]
            && after == r.(evidence := after.evidence, steps := after.steps)
  {
    AcquireTakes(r, batch, tool, index);
    StepsOrdinal(r.steps);
    RegisterMeaning(r.evidence, batch, |batch|, |r.steps|);
    IssuedInOrder(r.evidence, batch, |batch|, |r.steps|);
    hide Acquire, Register, Issued, NewReads, Inv, FirstReads, NextOrdinal, AsEvidence, NumbersOf;
  }

  lemma AcquireTakes(r: Run, batch: seq<Read>, tool: Option<nat>, index: Index)
    requires NewStep(Acquire(r, batch, tool, index).1)
    ensures var ordinal := NextOrdinal(r.steps);
            var ids := Issued(r.evidence, batch, |batch|, ordinal);
            Acquire(r, batch, tool, index)
            == (r.(evidence := Register(r.evidence, batch, |batch|, ordinal),
                   steps := r.steps + [Step(ordinal, tool, ids)]),
                Ok(Acquisition(ordinal, ids, false)))
  {
    hide Verify, Register, Issued, Ran, TotalBytes, NextOrdinal, StepOf;
  }

  lemma VerdictMeaning(r: Run, batch: seq<Read>, index: Index)
    ensures Verify(r.pins, index, batch).Ok? <==> AllGood(r, batch, index)
    ensures Verify(r.pins, index, batch) == Ok(()) || Verify(r.pins, index, batch).InvalidRecord?
            || Verify(r.pins, index, batch).ScopeChanged?
  {
  }

  lemma RanMeaning(r: Run, tool: Option<nat>)
    ensures tool.Some? ==> (Ran(r.steps, tool.value) <==> RanBefore(r, tool))
  {
    if tool.Some? && RanBefore(r, tool) {
      var s :| s in r.steps && s.tool == tool;
      var i :| 0 <= i < |r.steps| && r.steps[i] == s;
    }
  }

  // ---------------------------------------------------------------- what a state cites

  ghost predicate Registered(evidence: seq<Evidence>, id: nat) { exists e <- evidence :: e.number == id }

  ghost predicate AllRegistered(evidence: seq<Evidence>, ids: seq<nat>) { forall id <- ids :: Registered(evidence, id) }

  /** Everything a draft cites, wherever in it, is registered evidence. */
  ghost predicate OnlyCitesEvidence(draft: Draft, evidence: seq<Evidence>) {
    && AllRegistered(evidence, draft.active)
    && (forall c <- draft.criteria :: AllRegistered(evidence, c))
    && (forall c <- draft.candidates :: AllRegistered(evidence, c))
    && (forall item <- draft.plan :: AllRegistered(evidence, item.cites))
    && (forall item <- draft.notes :: AllRegistered(evidence, item.cites))
  }

  ghost predicate NoIdTwice(items: seq<Item>) {
    forall i, j :: 0 <= i < |items| && 0 <= j < |items| && i != j ==> items[i].id != items[j].id
  }

  ghost predicate Acceptable(draft: Draft, evidence: seq<Evidence>) {
    OnlyCitesEvidence(draft, evidence) && NoIdTwice(draft.plan) && NoIdTwice(draft.notes) && draft.size <= 8000
  }

  lemma CitedMembers(draft: Draft, id: nat)
    ensures id in Cited(draft) <==>
            || id in draft.active
            || (exists c <- draft.criteria :: id in c) || (exists c <- draft.candidates :: id in c)
            || (exists item <- draft.plan :: id in item.cites) || (exists item <- draft.notes :: id in item.cites)
  {
  }

  lemma RegisteredMeaning(evidence: seq<Evidence>, id: nat)
    ensures id in Ids(evidence) <==> Registered(evidence, id)
  {
  }

  lemma CitesMeaning(draft: Draft, evidence: seq<Evidence>)
    ensures Cited(draft) <= Ids(evidence) <==> OnlyCitesEvidence(draft, evidence)
  {
    forall id ensures id in Ids(evidence) <==> Registered(evidence, id) { RegisteredMeaning(evidence, id); }
    if Cited(draft) <= Ids(evidence) {
      forall id ensures id in Cited(draft) ==> Registered(evidence, id) { }
      AllCited(draft, evidence);
    }
    if OnlyCitesEvidence(draft, evidence) {
      forall id | id in Cited(draft) ensures id in Ids(evidence) { CitedMembers(draft, id); }
    }
  }

  lemma AllCited(draft: Draft, evidence: seq<Evidence>)
    requires forall id :: id in Cited(draft) ==> Registered(evidence, id)
    ensures OnlyCitesEvidence(draft, evidence)
  {
    hide Registered;
    forall c | c in draft.criteria ensures AllRegistered(evidence, c) {
      forall id | id in c ensures Registered(evidence, id) { CitedMembers(draft, id); }
    }
    forall c | c in draft.candidates ensures AllRegistered(evidence, c) {
      forall id | id in c ensures Registered(evidence, id) { CitedMembers(draft, id); }
    }
    forall item | item in draft.plan ensures AllRegistered(evidence, item.cites) {
      forall id | id in item.cites ensures Registered(evidence, id) { CitedMembers(draft, id); }
    }
    forall item | item in draft.notes ensures AllRegistered(evidence, item.cites) {
      forall id | id in item.cites ensures Registered(evidence, id) { CitedMembers(draft, id); }
    }
    forall id | id in draft.active ensures Registered(evidence, id) { CitedMembers(draft, id); }
  }

  lemma AcceptableMeaning(draft: Draft, evidence: seq<Evidence>)
    ensures BackedState(draft, evidence) <==> Acceptable(draft, evidence)
  {
    CitesMeaning(draft, evidence);
    hide Cited, Ids, OnlyCitesEvidence;
  }

  /** A state passes the check exactly when everything it cites is registered, its identifiers are
      unique and it is small enough; then it is kept for its worker, and otherwise nothing is. */
  lemma CheckStateMeaning(r: Run, worker: nat, draft: Draft, expected: nat)
    ensures var (after, outcome) := CheckState(r, worker, draft, expected);
            && (outcome == Ok(()) <==> Acceptable(draft, r.evidence))
            && (outcome != Ok(()) ==> outcome.InvalidRecord? && after == r)
            && (outcome == Ok(()) ==> after == r.(checked := r.checked[worker := CheckedState(draft, expected)]))
  {
    AcceptableMeaning(draft, r.evidence);
    hide Acceptable, Cited, Ids;
  }

  /** After any interleaving the saved state cites registered evidence only, in every part of it. */
  lemma SavedCitesEvidence(r: Run, actions: seq<Action>)
    requires Inv(r)
    ensures var later := After(r, actions);
            later.state.Some? ==> Acceptable(later.state.value, later.evidence)
  {
    AlwaysGood(r, actions);
    var later := After(r, actions);
    if later.state.Some? { AcceptableMeaning(later.state.value, later.evidence); }
  }

  /** After any interleaving every recorded decision cites identifiers it was supplied, or registered evidence. */
  lemma DecisionsCiteEvidence(r: Run, actions: seq<Action>, d: Checked)
    requires Inv(r) && d in After(r, actions).decisions
    ensures d.CheckedDecision? && d.decision.sound
    ensures if d.supplied.Some? then forall id <- d.decision.cites :: id in d.supplied.value
            else AllRegistered(After(r, actions).evidence, d.decision.cites)
  {
    AlwaysGood(r, actions);
  }

  // ---------------------------------------------------------------- what is saved was checked

  /** Step i of the run checked this state for the worker that wrote it at step j. */
  ghost predicate CheckedThenWritten(r: Run, actions: seq<Action>, i: int, j: int, draft: Draft) {
    && 0 <= i < j < |actions| && actions[i].DoCheckState? && actions[j].DoWrite?
    && actions[i].draft == draft && actions[i].worker == actions[j].worker
    && Acceptable(draft, After(r, actions[..i]).evidence)
  }

  lemma {:induction false} AfterAppend(r: Run, actions: seq<Action>, action: Action)
    ensures After(r, actions + [action]) == Apply(After(r, actions), action)
    decreases |actions|
  {
    if actions == [] {
      assert [action][1..] == [] && ([] + [action])[0] == action;
      assert [] + [action] == [action];
    } else {
      assert (actions + [action])[0] == actions[0] && (actions + [action])[1..] == actions[1..] + [action];
      AfterAppend(Apply(r, actions[0]), actions[1..], action);
    }
  }

  /** What a worker has ready to write was checked for it at some step. */
  lemma {:induction false} ReadyWasChecked(pins: map<nat, nat>, actions: seq<Action>, n: nat, worker: nat)
      returns (i: nat)
    requires n <= |actions| && worker in After(Started(pins), actions[..n]).checked
    requires After(Started(pins), actions[..n]).checked[worker].CheckedState?
    ensures i < n && actions[i].DoCheckState? && actions[i].worker == worker
    ensures CheckedState(actions[i].draft, actions[i].expected) == After(Started(pins), actions[..n]).checked[worker]
    ensures Acceptable(actions[i].draft, After(Started(pins), actions[..i]).evidence)
  {
    assert actions[..0] == [];
    if n == 0 {
      assert false;
    } else {
      var before, action := After(Started(pins), actions[..n - 1]), actions[n - 1];
      assert actions[..n] == actions[..n - 1] + [action];
      AfterAppend(Started(pins), actions[..n - 1], action);
      if action.DoCheckState? { CheckStateMeaning(before, action.worker, action.draft, action.expected); }
      hide Acceptable;
      if action.DoCheckState? && action.worker == worker && Apply(before, action) != before {
        i := n - 1;
      } else {
        KeepsReady(before, action, worker);
        i := ReadyWasChecked(pins, actions, n - 1, worker);
      }
    }
  }

  lemma KeepsReady(r: Run, action: Action, worker: nat)
    requires worker in Apply(r, action).checked && Apply(r, action).checked[worker].CheckedState?
    requires action.DoCheckState? && action.worker == worker ==> Apply(r, action) == r
    ensures worker in r.checked && r.checked[worker] == Apply(r, action).checked[worker]
  {
  }

  /** A saved state was checked, against the evidence of that time, by the worker that later wrote it. */
  lemma {:induction false} SavedWasChecked(pins: map<nat, nat>, actions: seq<Action>, n: nat) returns (i: nat, j: nat)
    requires n <= |actions| && After(Started(pins), actions[..n]).state.Some?
    ensures j < n
    ensures CheckedThenWritten(Started(pins), actions, i, j, After(Started(pins), actions[..n]).state.value)
  {
    assert actions[..0] == [];
    if n == 0 {
      assert false;
    } else {
      var before, action := After(Started(pins), actions[..n - 1]), actions[n - 1];
      assert actions[..n] == actions[..n - 1] + [action];
      AfterAppend(Started(pins), actions[..n - 1], action);
      if Apply(before, action).state == before.state {
        i, j := SavedWasChecked(pins, actions, n - 1);
      } else {
        SavesWhatIsReady(before, action);
        i := ReadyWasChecked(pins, actions, n - 1, action.worker);
        j := n - 1;
      }
    }
  }

  /** Only writing what is ready changes the saved state. */
  lemma SavesWhatIsReady(r: Run, action: Action)
    requires Apply(r, action).state != r.state
    ensures action.DoWrite? && action.worker in r.checked && r.checked[action.worker].CheckedState?
    ensures Apply(r, action).state == Some(r.checked[action.worker].draft)
    ensures r.status == Running && r.revision == r.checked[action.worker].expected
  {
  }

  // ---------------------------------------------------------------- what a write does

  /** A state is written exactly when the run is running and nobody wrote since the revision expected. */
  lemma WriteStateMeaning(r: Run, draft: Draft, expected: nat)
    ensures var (after, outcome) := WriteState(r, draft, expected);
            && (outcome.Ok? <==> r.status == Running && r.revision == expected)
            && (outcome.Ok? ==>
                  outcome.value == expected + 1 && after == r.(state := Some(draft), revision := expected + 1))
            && (!outcome.Ok? ==> after == r && outcome == if r.status == Running then StateConflict else RunClosed)
  {
  }

  /** What a step of the run writes. */
  lemma WriteMeaning(r: Run, worker: nat, index: Index)
    ensures var after := Apply(r, DoWrite(worker, index));
            if worker !in r.checked || r.status != Running then after == r
            else match r.checked[worker]
              case CheckedState(draft, expected) =>
                after == if r.revision == expected then r.(state := Some(draft), revision := expected + 1) else r
              case CheckedDecision(decision, supplied) =>
                if index.programs && forall source <- r.pins ::
                     source in index.sources && index.sources[source] == r.pins[source]
                then after == r.(decisions := r.decisions + [CheckedDecision(decision, supplied)]) else after == r
  {
    if worker in r.checked && r.checked[worker].CheckedDecision? { ScopeMeaning(r.pins, index); }
    hide ScopeKept;
  }

  lemma ScopeMeaning(pins: map<nat, nat>, index: Index)
    ensures ScopeKept(pins, index)
            <==> index.programs && forall source <- pins ::
                   source in index.sources && index.sources[source] == pins[source]
  {
  }

  // ---------------------------------------------------------------- how a run ends

  ghost predicate Ends(action: Action) { action.DoFinish? && action.status != Running }

  /** The status a run ends with: that of the first ending asked for. */
  ghost function EndingOf(r: Run, actions: seq<Action>): Status
    decreases actions
  {
    if r.status != Running || actions == [] then r.status
    else if Ends(actions[0]) then actions[0].status
    else EndingOf(r, actions[1..])
  }

  lemma StatusStep(r: Run, action: Action)
    ensures Apply(r, action).status == if r.status == Running && Ends(action) then action.status else r.status
  {
    hide Register, Issued, Verify;
  }

  lemma {:induction false} EndingDepends(r: Run, s: Run, actions: seq<Action>)
    requires r.status == s.status
    ensures EndingOf(r, actions) == EndingOf(s, actions)
    decreases actions
  {
    if actions != [] { EndingDepends(r, s, actions[1..]); }
  }

  /** Over every interleaving a run ends with the first ending asked for, and with no other. */
  lemma {:induction false} FirstEndingStays(r: Run, actions: seq<Action>)
    ensures After(r, actions).status == EndingOf(r, actions)
    decreases |actions|
  {
    if actions != [] {
      StatusStep(r, actions[0]);
      FirstEndingStays(Apply(r, actions[0]), actions[1..]);
      if Apply(r, actions[0]).status == r.status {
        EndingDepends(r, Apply(r, actions[0]), actions[1..]);
      }
    }
  }

  /** Exactly when ending a run is refused. */
  lemma FinishMeaning(r: Run, ending: Status)
    ensures Finish(r, ending).1 == Ok(()) <==> ending != Running && (r.status == Running || r.status == ending)
    ensures Finish(r, ending).1.RunClosed? <==> ending != Running && r.status != Running && r.status != ending
    ensures Finish(r, ending).0 == r.(status := if r.status == Running then ending else r.status)
  {
  }
}
