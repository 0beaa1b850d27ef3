/** The landing-boundary verdict for one change: resolve the change, its pinned graph and its
    predecessor stages, fold every required slot into findings, and pass only when nothing is unmet. */
module Landing {
  import opened Graphs
  import opened Boundary
  import opened Wrappers

  datatype Disposition = SignedOff | ChangesRequested | DispositionUnknown
  datatype VerdictRecord = VerdictRecord(
    id: string, verdictClass: string, disposition: Disposition, signingModel: string, selfReported: bool)

  datatype SlotState = Filled | Unfilled | StateUnknown
  datatype Validity = Current | Invalidated | Expired | Revoked | ValidityUnknown
  datatype SlotRecord = SlotRecord(
    key: string, state: SlotState, validity: Validity, bound: Option<string>, selfReported: bool,
    verdicts: seq<VerdictRecord>)

  datatype StageRecord = StageRecord(key: string, resolved: bool, slots: seq<SlotRecord>)

  datatype Change = Change(repository: string, pullRequest: string, headRevision: string)
  /** A parsed graph with its own digest; `None` where parsing it raised. */
  datatype Pinned = Pinned(graph: Option<(WorkflowGraph, string)>, graphDigest: string, boundary: Option<string>)
  /** `binding` is the ticket binding's candidate digest, when the change is bound at all. */
  datatype Snapshot = Snapshot(
    available: bool, change: Change, binding: Option<Option<string>>, workflow: Option<Pinned>,
    stages: seq<StageRecord>)
  {
    /** What the record's strict models guarantee. */
    ghost predicate Valid() {
      && |stages| <= 256
      && (forall i, j :: 0 <= i < j < |stages| ==> stages[i].key != stages[j].key)
      && (workflow.Some? && workflow.value.graph.Some? ==> workflow.value.graph.value.0.Valid())
    }
  }

  datatype Policy = Policy(modelRanks: map<string, int>, classFloors: map<string, int>) {
    predicate BelowFloor(verdictClass: string, signingModel: string) {
      verdictClass in classFloors
      && (signingModel !in modelRanks || modelRanks[signingModel] > classFloors[verdictClass])
    }
  }

  // ---- findings and their dispositions ----

  datatype Status = Passing | Flagged | Fail | Unknown
  datatype Reason =
    | StageUnresolved | SlotUnfilled | SlotStateUnknown | SlotNotCurrent | SlotValidityUnknown
    | SlotCandidateUnbound | SlotSupersededCandidate | SlotSelfReported
    | VerdictNotSignedOff | VerdictDispositionUnknown | VerdictSelfReported | VerdictTierBelowPolicy
  datatype Finding = Finding(slot: Option<string>, reason: Reason, detail: Option<string>)

  function StatusFor(reason: Reason): Status {
    match reason
    case StageUnresolved => Unknown
    case SlotUnfilled => Fail
    case SlotStateUnknown => Unknown
    case SlotNotCurrent => Fail
    case SlotValidityUnknown => Unknown
    case SlotCandidateUnbound => Unknown
    case SlotSupersededCandidate => Fail
    case SlotSelfReported => Fail
    case VerdictNotSignedOff => Fail
    case VerdictDispositionUnknown => Unknown
    case VerdictSelfReported => Fail
    case VerdictTierBelowPolicy => Flagged
  }

  function CurrencyFindings(s: SlotRecord, candidate: string): seq<Finding> {
    (if s.validity == ValidityUnknown then [Finding(Some(s.key), SlotValidityUnknown, None)]
     else if s.validity != Current then [Finding(Some(s.key), SlotNotCurrent, Some(ValidityText(s.validity)))]
     else [])
    + (if s.bound == None then [Finding(Some(s.key), SlotCandidateUnbound, None)]
       else if s.bound != Some(candidate) then [Finding(Some(s.key), SlotSupersededCandidate, s.bound)]
       else [])
  }

  function ValidityText(v: Validity): string {
    match v
    case Current => "current"
    case Invalidated => "invalidated"
    case Expired => "expired"
    case Revoked => "revoked"
    case ValidityUnknown => "unknown"
  }

  function VerdictFindings(s: SlotRecord, v: VerdictRecord, policy: Policy): seq<Finding> {
    (if v.disposition == DispositionUnknown then [Finding(Some(s.key), VerdictDispositionUnknown, Some(v.id))]
     else if v.disposition != SignedOff then [Finding(Some(s.key), VerdictNotSignedOff, Some(v.id))]
     else [])
    + (if v.selfReported then [Finding(Some(s.key), VerdictSelfReported, Some(v.id))] else [])
    + (if policy.BelowFloor(v.verdictClass, v.signingModel) then
         [Finding(Some(s.key), VerdictTierBelowPolicy, Some(v.id + " signed by " + v.signingModel))]
       else [])
  }

  function VerdictsFindings(s: SlotRecord, vs: seq<VerdictRecord>, policy: Policy): seq<Finding> {
    if vs == [] then [] else VerdictFindings(s, vs[0], policy) + VerdictsFindings(s, vs[1..], policy)
  }

  function SlotFindings(s: SlotRecord, candidate: string, policy: Policy): seq<Finding> {
    match s.state
    case StateUnknown => [Finding(Some(s.key), SlotStateUnknown, None)]
    case Unfilled => [Finding(Some(s.key), SlotUnfilled, None)]
    case Filled =>
      CurrencyFindings(s, candidate)
      + (if s.selfReported then [Finding(Some(s.key), SlotSelfReported, None)] else [])
      + VerdictsFindings(s, s.verdicts, policy)
  }

  function SlotsFindings(slots: seq<SlotRecord>, candidate: string, policy: Policy): seq<Finding> {
    if slots == [] then [] else SlotFindings(slots[0], candidate, policy) + SlotsFindings(slots[1..], candidate, policy)
  }

  // ---- facts ----

  datatype StageFact = StageFact(stage: string, status: Status, refusal: Option<string>, findings: seq<Finding>)

  /** The first of unknown, fail, flagged that some finding forces. */
  function WorstStatus(findings: seq<Finding>): Status {
    if exists f <- findings :: StatusFor(f.reason) == Unknown then Unknown
    else if exists f <- findings :: StatusFor(f.reason) == Fail then Fail
    else if exists f <- findings :: StatusFor(f.reason) == Flagged then Flagged
    else Passing
  }

  function RefusalFor(stage: string, status: Status): Option<string> {
    match status
    case Passing => None
    case Flagged => Some("flagged-" + stage + "-verdict-tier")
    case _ => Some("missing-" + stage + "-evidence")
  }

  function Resolve(stage: string, findings: seq<Finding>): StageFact {
    var status := WorstStatus(findings);
    StageFact(stage, status, RefusalFor(stage, status), findings)
  }

  function UnresolvedStageFact(stage: string): StageFact {
    StageFact(stage, Unknown, Some("missing-" + stage + "-evidence"), [Finding(None, StageUnresolved, None)])
  }

  function FactOf(record: StageRecord, candidate: string, policy: Policy): StageFact {
    if !record.resolved then UnresolvedStageFact(record.key)
    else Resolve(record.key, SlotsFindings(record.slots, candidate, policy))
  }

  /** The dictionary of recorded stages. */
  function Recorded(stages: seq<StageRecord>): map<string, StageRecord> {
    if stages == [] then map[] else Recorded(stages[..|stages| - 1])[stages[|stages| - 1].key := stages[|stages| - 1]]
  }

  function StageFacts(recorded: map<string, StageRecord>, keys: seq<string>, candidate: string,
        policy: Policy): (facts: seq<StageFact>)
    ensures |facts| == |keys|
  {
    seq(|keys|, i requires 0 <= i < |keys| => FactFor(recorded, keys[i], candidate, policy))
  }

  function FactFor(recorded: map<string, StageRecord>, key: string, candidate: string, policy: Policy): StageFact {
    if key in recorded then FactOf(recorded[key], candidate, policy) else UnresolvedStageFact(key)
  }

  // ---- the verdict ----

  datatype Report = Report(pass: bool, candidate: Option<string>, facts: seq<StageFact>, refusals: seq<string>)
  /** The report model refuses more than 256 facts or refusals. */
  datatype Outcome = Reported(report: Report) | TooLarge

  // ---- what a passing verdict means ----

  /** The class owes a stronger signature than the model gives, or than a model without a rank gives. */
  ghost predicate TierLow(v: VerdictRecord, policy: Policy) {
    && v.verdictClass in policy.classFloors
    && (v.signingModel in policy.modelRanks ==> policy.modelRanks[v.signingModel] > policy.classFloors[v.verdictClass])
  }

  ghost predicate VerdictMet(v: VerdictRecord, policy: Policy) {
    v.disposition == SignedOff && !v.selfReported && !TierLow(v, policy)
  }

  /** Met in everything but the tier of its signatures. */
  ghost predicate SlotMetButTier(s: SlotRecord, candidate: string) {
    && s.state == Filled && s.validity == Current && s.bound == Some(candidate) && !s.selfReported
    && forall v <- s.verdicts :: v.disposition == SignedOff && !v.selfReported
  }

  ghost predicate SlotMet(s: SlotRecord, candidate: string, policy: Policy) {
    SlotMetButTier(s, candidate) && forall v <- s.verdicts :: VerdictMet(v, policy)
  }

  /** Something about the slot is not known. */
  ghost predicate SlotUnknown(s: SlotRecord) {
    s.state == StateUnknown || (s.state == Filled &&
      (s.validity == ValidityUnknown || s.bound == None
       || exists v <- s.verdicts :: v.disposition == DispositionUnknown))
  }

  /** Something about the slot is known to be wrong. */
  ghost predicate SlotFailed(s: SlotRecord, candidate: string) {
    s.state == Unfilled || (s.state == Filled &&
      (s.validity == Invalidated || s.validity == Expired || s.validity == Revoked
       || (s.bound.Some? && s.bound.value != candidate) || s.selfReported
       || exists v <- s.verdicts :: v.disposition == ChangesRequested || v.selfReported))
  }

  ghost predicate RecordMet(r: StageRecord, candidate: string, policy: Policy) {
    r.resolved && forall slot <- r.slots :: SlotMet(slot, candidate, policy)
  }

  ghost predicate StageMet(s: Snapshot, key: string, candidate: string, policy: Policy) {
    exists r :: r in s.stages && r.key == key && RecordMet(r, candidate, policy)
  }

  // ---- what a fact must say ----

  /** The finding of the `k`-th check of a slot: three checks of the slot itself, then three of each verdict. */
  ghost function Check(s: SlotRecord, candidate: string, policy: Policy, k: nat): Option<Finding>
    requires k < 3 + 3 * |s.verdicts|
  {
    if s.state == StateUnknown then if k == 0 then Some(Finding(Some(s.key), SlotStateUnknown, None)) else None
    else if s.state == Unfilled then if k == 0 then Some(Finding(Some(s.key), SlotUnfilled, None)) else None
    else if k == 0 then
      match s.validity
      case Current => None
      case Invalidated => Some(Finding(Some(s.key), SlotNotCurrent, Some("invalidated")))
      case Expired => Some(Finding(Some(s.key), SlotNotCurrent, Some("expired")))
      case Revoked => Some(Finding(Some(s.key), SlotNotCurrent, Some("revoked")))
      case ValidityUnknown => Some(Finding(Some(s.key), SlotValidityUnknown, None))
    else if k == 1 then
      if s.bound == None then Some(Finding(Some(s.key), SlotCandidateUnbound, None))
      else if s.bound.value != candidate then Some(Finding(Some(s.key), SlotSupersededCandidate, s.bound))
      else None
    else if k == 2 then if s.selfReported then Some(Finding(Some(s.key), SlotSelfReported, None)) else None
    else VerdictCheck(s, s.verdicts[k / 3 - 1], policy, k % 3)
  }

  ghost function VerdictCheck(s: SlotRecord, v: VerdictRecord, policy: Policy, k: nat): Option<Finding> {
    if k == 0 then
      match v.disposition
      case SignedOff => None
      case ChangesRequested => Some(Finding(Some(s.key), VerdictNotSignedOff, Some(v.id)))
      case DispositionUnknown => Some(Finding(Some(s.key), VerdictDispositionUnknown, Some(v.id)))
    else if k == 1 then if v.selfReported then Some(Finding(Some(s.key), VerdictSelfReported, Some(v.id))) else None
    else if TierLow(v, policy) then
      Some(Finding(Some(s.key), VerdictTierBelowPolicy, Some(v.id + " signed by " + v.signingModel)))
    else None
  }

  ghost function Found(f: Option<Finding>): seq<Finding> { if f.Some? then [f.value] else [] }

  /** The findings of the checks from `k` on, in order. */
  ghost function Checked(s: SlotRecord, candidate: string, policy: Policy, k: nat): seq<Finding>
    requires k <= 3 + 3 * |s.verdicts|
    decreases 3 + 3 * |s.verdicts| - k
  {
    if k == 3 + 3 * |s.verdicts| then []
    else Found(Check(s, candidate, policy, k)) + Checked(s, candidate, policy, k + 1)
  }

  /** The findings of all slots, slot by slot. */
  ghost function AllChecked(slots: seq<SlotRecord>, candidate: string, policy: Policy): seq<Finding> {
    if slots == [] then [] else Checked(slots[0], candidate, policy, 0) + AllChecked(slots[1..], candidate, policy)
  }

  ghost predicate SomeSlotUnknown(r: StageRecord) { exists s <- r.slots :: SlotUnknown(s) }

  ghost predicate SomeSlotFailed(r: StageRecord, candidate: string) { exists s <- r.slots :: SlotFailed(s, candidate) }

  ghost predicate MetButTier(r: StageRecord, candidate: string) { forall s <- r.slots :: SlotMetButTier(s, candidate) }

  /** The fact of a recorded stage: not known, failed, flagged for its tiers alone, or passing. */
  ghost predicate FactSaid(r: StageRecord, candidate: string, policy: Policy, fact: StageFact) {
    && fact.stage == r.key
    && (fact.status == Unknown <==> !r.resolved || SomeSlotUnknown(r))
    && (fact.status == Fail <==> r.resolved && !SomeSlotUnknown(r) && SomeSlotFailed(r, candidate))
    && (fact.status == Flagged <==> r.resolved && MetButTier(r, candidate) && !RecordMet(r, candidate, policy))
    && (fact.status == Passing <==> RecordMet(r, candidate, policy))
    && (fact.refusal == None <==> RecordMet(r, candidate, policy))
    && (fact.refusal == Some("flagged-" + r.key + "-verdict-tier") <==>
          r.resolved && MetButTier(r, candidate) && !RecordMet(r, candidate, policy))
    && (fact.refusal == Some("missing-" + r.key + "-evidence") <==> !(r.resolved && MetButTier(r, candidate)))
    && fact.findings ==
         if r.resolved then AllChecked(r.slots, candidate, policy) else [Finding(None, StageUnresolved, None)]
  }

  /** The fact of a predecessor: of its record, or of a stage that was not recorded. */
  ghost predicate PredecessorSaid(s: Snapshot, key: string, candidate: string, policy: Policy, fact: StageFact) {
    && (forall r :: r in s.stages && r.key == key ==> FactSaid(r, candidate, policy, fact))
    && ((forall r :: r in s.stages ==> r.key != key) ==>
          fact == StageFact(key, Unknown, Some("missing-" + key + "-evidence"), [Finding(None, StageUnresolved, None)]))
  }

  ghost predicate GraphDigested(s: Snapshot) {
    s.workflow.Some? && s.workflow.value.graph.Some? &&
    s.workflow.value.graph.value.1 == s.workflow.value.graphDigest
  }

  ghost predicate GraphUsable(s: Snapshot) {
    && s.workflow.Some? && s.workflow.value.graph.Some? && s.workflow.value.boundary.Some?
    && s.workflow.value.graph.value.1 == s.workflow.value.graphDigest
    && var g, b := s.workflow.value.graph.value.0, s.workflow.value.boundary.value;
      b in g.stages && (b == g.initial || Reaches(g.Edges(), g.initial, b))
  }

  ghost function PredecessorKeys(s: Snapshot): seq<string>
    requires GraphUsable(s)
  {
    var g, b := s.workflow.value.graph.value.0, s.workflow.value.boundary.value;
    Before(g.Edges(), g.stages, b)
  }

  /** Every declared stage with a path to the boundary is met. */
  ghost predicate AllStagesMet(s: Snapshot, candidate: string, policy: Policy)
    requires GraphUsable(s)
  {
    var g, b := s.workflow.value.graph.value.0, s.workflow.value.boundary.value;
    forall key :: key in g.stages && key != b && Reaches(g.Edges(), key, b) ==> StageMet(s, key, candidate, policy)
  }

  /** The change may land. */
  ghost predicate Lands(s: Snapshot, change: Change, policy: Policy) {
    && s.change == change && s.available
    && s.binding.Some? && s.binding.value.Some?
    && s.workflow.Some? && s.workflow.value.graph.Some? && s.workflow.value.boundary.Some?
    && s.workflow.value.graph.value.1 == s.workflow.value.graphDigest
    && var g, b := s.workflow.value.graph.value.0, s.workflow.value.boundary.value;
      && b in g.stages && (b == g.initial || Reaches(g.Edges(), g.initial, b))
      && forall key :: key in g.stages && key != b && Reaches(g.Edges(), key, b) ==>
           exists r :: r in s.stages && r.key == key && RecordMet(r, s.binding.value.value, policy)
  }

  lemma LandsMeans(s: Snapshot, change: Change, policy: Policy)
    ensures Lands(s, change, policy) <==>
      && s.change == change && s.available && s.binding.Some? && s.binding.value.Some?
      && GraphUsable(s) && AllStagesMet(s, s.binding.value.value, policy)
  {
    hide RecordMet, Reaches;
  }

  // ---- the fold of findings ----

  lemma VerdictChecks(s: SlotRecord, v: VerdictRecord, policy: Policy)
    ensures VerdictFindings(s, v, policy) ==
      Found(VerdictCheck(s, v, policy, 0))
      + (Found(VerdictCheck(s, v, policy, 1)) + Found(VerdictCheck(s, v, policy, 2)))
  {
    assert policy.BelowFloor(v.verdictClass, v.signingModel) <==> TierLow(v, policy);
    hide Policy.BelowFloor, TierLow;
  }

  lemma OneVerdict(s: SlotRecord, candidate: string, policy: Policy, i: nat)
    requires s.state == Filled && i < |s.verdicts|
    ensures Checked(s, candidate, policy, 3 + 3 * i) ==
      VerdictFindings(s, s.verdicts[i], policy) + Checked(s, candidate, policy, 3 + 3 * (i + 1))
  {
    hide VerdictFindings, VerdictCheck, Found;
    var k := 3 + 3 * i;
    var v := s.verdicts[i];
    VerdictChecks(s, v, policy);
    assert k / 3 - 1 == i && (k + 1) / 3 - 1 == i && (k + 2) / 3 - 1 == i;
    assert Check(s, candidate, policy, k) == VerdictCheck(s, v, policy, 0);
    assert Check(s, candidate, policy, k + 1) == VerdictCheck(s, v, policy, 1);
    assert Check(s, candidate, policy, k + 2) == VerdictCheck(s, v, policy, 2);
    hide Check;
    var c0, c1, c2 := Found(VerdictCheck(s, v, policy, 0)), Found(VerdictCheck(s, v, policy, 1)),
      Found(VerdictCheck(s, v, policy, 2));
    var rest := Checked(s, candidate, policy, k + 3);
    assert Checked(s, candidate, policy, k + 1) == c1 + Checked(s, candidate, policy, k + 2);
    assert c0 + (c1 + (c2 + rest)) == (c0 + (c1 + c2)) + rest;
  }

  lemma {:induction false} VerdictsFold(s: SlotRecord, candidate: string, policy: Policy, i: nat)
    requires s.state == Filled && i <= |s.verdicts|
    ensures VerdictsFindings(s, s.verdicts[i..], policy) == Checked(s, candidate, policy, 3 + 3 * i)
    decreases |s.verdicts| - i
  {
    hide VerdictFindings, Check;
    if i < |s.verdicts| {
      VerdictsFold(s, candidate, policy, i + 1);
      OneVerdict(s, candidate, policy, i);
      assert s.verdicts[i..][1..] == s.verdicts[i + 1..];
    }
  }

  lemma NothingFrom(s: SlotRecord, candidate: string, policy: Policy, k: nat)
    requires s.state != Filled && 0 < k <= 3 + 3 * |s.verdicts|
    ensures Checked(s, candidate, policy, k) == []
    decreases 3 + 3 * |s.verdicts| - k
  {
    if k < 3 + 3 * |s.verdicts| {
      NothingFrom(s, candidate, policy, k + 1);
    }
  }

  lemma CurrencyChecks(s: SlotRecord, candidate: string, policy: Policy)
    requires s.state == Filled
    ensures CurrencyFindings(s, candidate) ==
      Found(Check(s, candidate, policy, 0)) + Found(Check(s, candidate, policy, 1))
    ensures Check(s, candidate, policy, 2) ==
      if s.selfReported then Some(Finding(Some(s.key), SlotSelfReported, None)) else None
  {
    hide VerdictCheck;
  }

  /** The findings of a slot are those of its checks, in order; there are none exactly when the slot is met. */
  lemma SlotFold(s: SlotRecord, candidate: string, policy: Policy)
    ensures SlotFindings(s, candidate, policy) == Checked(s, candidate, policy, 0)
    ensures SlotFindings(s, candidate, policy) == [] <==> SlotMet(s, candidate, policy)
  {
    hide VerdictsFindings, CurrencyFindings, SlotMet, Check;
    if s.state == Filled {
      VerdictsFold(s, candidate, policy, 0);
      CurrencyChecks(s, candidate, policy);
      assert s.verdicts[0..] == s.verdicts;
      var c0, c1, c2 := Found(Check(s, candidate, policy, 0)), Found(Check(s, candidate, policy, 1)),
        Found(Check(s, candidate, policy, 2));
      var rest := Checked(s, candidate, policy, 3);
      assert Checked(s, candidate, policy, 1) == c1 + Checked(s, candidate, policy, 2);
      assert c0 + (c1 + (c2 + rest)) == ((c0 + c1) + c2) + rest;
    } else {
      NothingFrom(s, candidate, policy, 1);
      FirstChecks(s, candidate, policy);
      var c0 := Found(Check(s, candidate, policy, 0));
      assert c0 + [] == c0;
    }
    CheckedHas(s, candidate, policy, 0);
    MetChecks(s, candidate, policy);
  }

  lemma FirstChecks(s: SlotRecord, candidate: string, policy: Policy)
    requires s.state != Filled
    ensures Check(s, candidate, policy, 0) ==
      Some(Finding(Some(s.key), if s.state == StateUnknown then SlotStateUnknown else SlotUnfilled, None))
  {
  }

  ghost predicate FoundAt(s: SlotRecord, candidate: string, policy: Policy, k: nat, f: Finding) {
    k < 3 + 3 * |s.verdicts| && Check(s, candidate, policy, k) == Some(f)
  }

  lemma {:induction false} CheckedHas(s: SlotRecord, candidate: string, policy: Policy, k: nat)
    requires k <= 3 + 3 * |s.verdicts|
    ensures forall f :: f in Checked(s, candidate, policy, k) <==>
      exists i :: k <= i && FoundAt(s, candidate, policy, i, f)
    ensures Checked(s, candidate, policy, k) == [] <==>
      forall i :: k <= i < 3 + 3 * |s.verdicts| ==> Check(s, candidate, policy, i) == None
    decreases 3 + 3 * |s.verdicts| - k
  {
    hide Check;
    if k < 3 + 3 * |s.verdicts| {
      CheckedHas(s, candidate, policy, k + 1);
      var rest := Checked(s, candidate, policy, k + 1);
      forall f
        ensures f in Checked(s, candidate, policy, k) <==> exists i :: k <= i && FoundAt(s, candidate, policy, i, f)
      {
        assert f in Checked(s, candidate, policy, k) <==> FoundAt(s, candidate, policy, k, f) || f in rest;
      }
    }
  }

  lemma VerdictAt(s: SlotRecord, candidate: string, policy: Policy, i: nat, r: nat)
    requires s.state == Filled && i < |s.verdicts| && r < 3
    ensures Check(s, candidate, policy, 3 + 3 * i + r) == VerdictCheck(s, s.verdicts[i], policy, r)
  {
    hide VerdictCheck;
    assert (3 + 3 * i + r) / 3 - 1 == i;
  }

  lemma MetChecks(s: SlotRecord, candidate: string, policy: Policy)
    ensures SlotMet(s, candidate, policy) <==>
      forall k :: 0 <= k < 3 + 3 * |s.verdicts| ==> Check(s, candidate, policy, k) == None
  {
    hide TierLow;
    if SlotMet(s, candidate, policy) {
      forall k | 0 <= k < 3 + 3 * |s.verdicts| ensures Check(s, candidate, policy, k) == None {
        assert k >= 3 ==> VerdictMet(s.verdicts[k / 3 - 1], policy);
      }
    }
    if forall k :: 0 <= k < 3 + 3 * |s.verdicts| ==> Check(s, candidate, policy, k) == None {
      assert Check(s, candidate, policy, 0) == None && Check(s, candidate, policy, 1) == None;
      assert Check(s, candidate, policy, 2) == None;
      forall i | 0 <= i < |s.verdicts| ensures VerdictMet(s.verdicts[i], policy) {
        VerdictAt(s, candidate, policy, i, 0);
        VerdictAt(s, candidate, policy, i, 1);
        VerdictAt(s, candidate, policy, i, 2);
      }
    }
  }

  ghost predicate FindsA(s: SlotRecord, candidate: string, policy: Policy, status: Status) {
    exists k, f :: FoundAt(s, candidate, policy, k, f) && StatusFor(f.reason) == status
  }

  lemma FindsAt(s: SlotRecord, candidate: string, policy: Policy, k: nat, f: Finding)
    requires FoundAt(s, candidate, policy, k, f)
    ensures FindsA(s, candidate, policy, StatusFor(f.reason))
  {
  }

  lemma UnknownChecks(s: SlotRecord, candidate: string, policy: Policy)
    ensures SlotUnknown(s) <==> FindsA(s, candidate, policy, Unknown)
  {
    hide TierLow;
    if k, f :| FoundAt(s, candidate, policy, k, f) && StatusFor(f.reason) == Unknown {
      assert k >= 3 && s.state == Filled ==> s.verdicts[k / 3 - 1].disposition == DispositionUnknown;
    }
    if SlotUnknown(s) {
      if s.state == StateUnknown || s.validity == ValidityUnknown {
        FindsAt(s, candidate, policy, 0, Check(s, candidate, policy, 0).value);
      } else if s.bound == None {
        FindsAt(s, candidate, policy, 1, Check(s, candidate, policy, 1).value);
      } else {
        var i :| 0 <= i < |s.verdicts| && s.verdicts[i].disposition == DispositionUnknown;
        VerdictAt(s, candidate, policy, i, 0);
        FindsAt(s, candidate, policy, 3 + 3 * i, Check(s, candidate, policy, 3 + 3 * i).value);
      }
    }
  }

  lemma FailedChecks(s: SlotRecord, candidate: string, policy: Policy)
    ensures SlotFailed(s, candidate) <==> FindsA(s, candidate, policy, Fail)
  {
    hide TierLow;
    if k, f :| FoundAt(s, candidate, policy, k, f) && StatusFor(f.reason) == Fail {
      if k >= 3 && s.state == Filled {
        var v := s.verdicts[k / 3 - 1];
        assert v.disposition == ChangesRequested || v.selfReported;
      }
    }
    if SlotFailed(s, candidate) {
      if s.state == Unfilled || s.validity == Invalidated || s.validity == Expired || s.validity == Revoked {
        FindsAt(s, candidate, policy, 0, Check(s, candidate, policy, 0).value);
      } else if s.bound.Some? && s.bound.value != candidate {
        FindsAt(s, candidate, policy, 1, Check(s, candidate, policy, 1).value);
      } else if s.selfReported {
        FindsAt(s, candidate, policy, 2, Check(s, candidate, policy, 2).value);
      } else {
        FailedVerdict(s, candidate, policy);
      }
    }
  }

  lemma FailedVerdict(s: SlotRecord, candidate: string, policy: Policy)
    requires s.state == Filled && exists v <- s.verdicts :: v.disposition == ChangesRequested || v.selfReported
    ensures FindsA(s, candidate, policy, Fail)
  {
    hide TierLow;
    var v :| v in s.verdicts && (v.disposition == ChangesRequested || v.selfReported);
    var i :| 0 <= i < |s.verdicts| && s.verdicts[i] == v;
    var r := if v.disposition == ChangesRequested then 0 else 1;
    VerdictAt(s, candidate, policy, i, r);
    FindsAt(s, candidate, policy, 3 + 3 * i + r, Check(s, candidate, policy, 3 + 3 * i + r).value);
  }

  /** Nothing is unknown and nothing failed exactly when at most the tiers fall short. */
  lemma TierChecks(s: SlotRecord, candidate: string)
    ensures SlotMetButTier(s, candidate) <==> !SlotUnknown(s) && !SlotFailed(s, candidate)
  {
  }

  lemma {:induction false} SlotsFold(slots: seq<SlotRecord>, candidate: string, policy: Policy)
    ensures SlotsFindings(slots, candidate, policy) == AllChecked(slots, candidate, policy)
    ensures SlotsFindings(slots, candidate, policy) == [] <==> forall s <- slots :: SlotMet(s, candidate, policy)
    ensures forall status :: Holds(SlotsFindings(slots, candidate, policy), status) <==>
      exists s <- slots :: FindsA(s, candidate, policy, status)
    decreases |slots|
  {
    hide SlotFindings, SlotMet, Checked, FindsA, StatusFor, Holds;
    if slots != [] {
      var first, rest := SlotFindings(slots[0], candidate, policy), SlotsFindings(slots[1..], candidate, policy);
      SlotFold(slots[0], candidate, policy);
      SlotFinds(slots[0], candidate, policy);
      SlotsFold(slots[1..], candidate, policy);
      assert forall s :: s in slots <==> s == slots[0] || s in slots[1..];
      forall status ensures Holds(first + rest, status) <==> Holds(first, status) || Holds(rest, status) {
        HoldsBoth(first, rest, status);
      }
    } else {
      forall status ensures !Holds([], status) {
        HoldsNothing(status);
      }
    }
  }

  ghost predicate Holds(fs: seq<Finding>, status: Status) { exists f <- fs :: StatusFor(f.reason) == status }

  lemma HoldsNothing(status: Status)
    ensures !Holds([], status)
  {
  }

  lemma HoldsBoth(a: seq<Finding>, b: seq<Finding>, status: Status)
    ensures Holds(a + b, status) <==> Holds(a, status) || Holds(b, status)
  {
    hide StatusFor;
    assert forall f :: f in a + b <==> f in a || f in b;
  }

  lemma SlotFinds(s: SlotRecord, candidate: string, policy: Policy)
    ensures forall status :: Holds(SlotFindings(s, candidate, policy), status) <==> FindsA(s, candidate, policy, status)
  {
    hide SlotFindings, Check, StatusFor;
    SlotFold(s, candidate, policy);
    CheckedHas(s, candidate, policy, 0);
  }

  lemma RefusalsDiffer(stage: string)
    ensures "flagged-" + stage + "-verdict-tier" != "missing-" + stage + "-evidence"
  {
    assert ("flagged-" + stage + "-verdict-tier")[0] != ("missing-" + stage + "-evidence")[0];
  }

  /** One stage's disposition, its refusal and its findings. */
  lemma StageStatus(r: StageRecord, candidate: string, policy: Policy)
    ensures FactSaid(r, candidate, policy, FactOf(r, candidate, policy))
  {
    RefusalsDiffer(r.key);
    if r.resolved {
      SlotsFold(r.slots, candidate, policy);
      forall s | s in r.slots
        ensures FindsA(s, candidate, policy, Unknown) <==> SlotUnknown(s)
        ensures FindsA(s, candidate, policy, Fail) <==> SlotFailed(s, candidate)
        ensures SlotMetButTier(s, candidate) <==> !SlotUnknown(s) && !SlotFailed(s, candidate)
        ensures SlotMet(s, candidate, policy) ==> SlotMetButTier(s, candidate)
      {
        UnknownChecks(s, candidate, policy);
        FailedChecks(s, candidate, policy);
        TierChecks(s, candidate);
      }
      ResolvedSaid(r, candidate, policy);
    }
  }

  lemma ResolvedSaid(r: StageRecord, candidate: string, policy: Policy)
    requires r.resolved
    requires var fs := SlotsFindings(r.slots, candidate, policy);
      && fs == AllChecked(r.slots, candidate, policy)
      && (fs == [] <==> forall s <- r.slots :: SlotMet(s, candidate, policy))
      && (Holds(fs, Unknown) <==> SomeSlotUnknown(r)) && (Holds(fs, Fail) <==> SomeSlotFailed(r, candidate))
    requires MetButTier(r, candidate) <==> !SomeSlotUnknown(r) && !SomeSlotFailed(r, candidate)
    requires RecordMet(r, candidate, policy) ==> MetButTier(r, candidate)
    ensures FactSaid(r, candidate, policy, FactOf(r, candidate, policy))
  {
    hide SlotsFindings, AllChecked, SlotMet, SomeSlotUnknown, SomeSlotFailed, MetButTier;
    RefusalsDiffer(r.key);
    var fs := SlotsFindings(r.slots, candidate, policy);
    assert fs != [] ==> fs[0] in fs && StatusFor(fs[0].reason) != Passing;
  }

  lemma {:induction false} RecordedHas(stages: seq<StageRecord>, key: string)
    requires forall i, j :: 0 <= i < j < |stages| ==> stages[i].key != stages[j].key
    ensures key in Recorded(stages) <==> exists r :: r in stages && r.key == key
    ensures forall r :: r in stages && r.key == key ==> Recorded(stages)[key] == r
    decreases |stages|
  {
    if stages != [] {
      var n := |stages| - 1;
      RecordedHas(stages[..n], key);
      assert stages == stages[..n] + [stages[n]];
      assert forall r :: r in stages[..n] ==> r.key != stages[n].key;
    }
  }

  lemma FactPasses(s: Snapshot, key: string, candidate: string, policy: Policy)
    requires s.Valid()
    ensures var fact := FactFor(Recorded(s.stages), key, candidate, policy);
      && (fact.status == Passing <==> StageMet(s, key, candidate, policy))
      && (fact.status == Passing <==> fact.refusal == None)
  {
    hide RecordMet, FactOf, Recorded, SomeSlotUnknown, SomeSlotFailed, MetButTier, AllChecked;
    RecordedHas(s.stages, key);
    if key in Recorded(s.stages) {
      StageStatus(Recorded(s.stages)[key], candidate, policy);
    }
  }

  lemma FactIsSaid(s: Snapshot, key: string, candidate: string, policy: Policy)
    requires s.Valid()
    ensures PredecessorSaid(s, key, candidate, policy, FactFor(Recorded(s.stages), key, candidate, policy))
  {
    hide FactSaid, FactOf, Recorded;
    RecordedHas(s.stages, key);
    if key in Recorded(s.stages) {
      StageStatus(Recorded(s.stages)[key], candidate, policy);
    }
  }

  // ---- the refusals, in the order of the facts ----

  /** The refusals are those of the facts at the places, in order, and no other fact has one. */
  ghost predicate NamesAt(facts: seq<StageFact>, refusals: seq<string>, places: seq<nat>) {
    && |places| == |refusals| && (forall j, k :: 0 <= j < k < |places| ==> places[j] < places[k])
    && (forall k :: 0 <= k < |places| ==> places[k] < |facts| && facts[places[k]].refusal == Some(refusals[k]))
    && forall i :: 0 <= i < |facts| ==> (facts[i].refusal.Some? <==> i in places)
  }

  lemma {:induction false} NamedSnoc(facts: seq<StageFact>)
    requires facts != []
    ensures var n := |facts| - 1;
      Named(facts) == Named(facts[..n]) + if facts[n].refusal.Some? then [facts[n].refusal.value] else []
    decreases |facts|
  {
    var n := |facts| - 1;
    if n > 0 {
      NamedSnoc(facts[1..]);
      assert facts[1..][..n - 1] == facts[..n][1..];
    }
  }

  lemma {:induction false} NamedPlaces(facts: seq<StageFact>) returns (places: seq<nat>)
    ensures NamesAt(facts, Named(facts), places)
    decreases |facts|
  {
    hide NamesAt;
    if facts == [] {
      places := [];
      NoNames();
    } else {
      var n := |facts| - 1;
      NamedSnoc(facts);
      places := NamedPlaces(facts[..n]);
      var before := Named(facts[..n]);
      if facts[n].refusal.Some? {
        LastNamed(facts, before, places);
        places := places + [n];
      } else {
        assert before + [] == before;
        LastUnnamed(facts, before, places);
      }
    }
  }

  lemma NoNames()
    ensures NamesAt([], [], [])
  {
  }

  lemma LastNamed(facts: seq<StageFact>, refusals: seq<string>, places: seq<nat>)
    requires facts != [] && facts[|facts| - 1].refusal.Some? && NamesAt(facts[..|facts| - 1], refusals, places)
    ensures NamesAt(facts, refusals + [facts[|facts| - 1].refusal.value], places + [|facts| - 1])
  {
    var n := |facts| - 1;
    var more := places + [n];
    forall i | 0 <= i < |facts| ensures facts[i].refusal.Some? <==> i in more {
      if i < n {
        assert facts[..n][i] == facts[i];
      } else {
        assert more[|places|] == n;
      }
    }
  }

  lemma LastUnnamed(facts: seq<StageFact>, refusals: seq<string>, places: seq<nat>)
    requires facts != [] && facts[|facts| - 1].refusal == None && NamesAt(facts[..|facts| - 1], refusals, places)
    ensures NamesAt(facts, refusals, places)
  {
    var n := |facts| - 1;
    forall i | 0 <= i < |facts| ensures facts[i].refusal.Some? <==> i in places {
      if i < n {
        assert facts[..n][i] == facts[i];
      } else {
        assert i !in places;
      }
    }
  }

  /** Every fact that does not pass is named in the refusals. */
  lemma {:induction false} NamedAll(facts: seq<StageFact>)
    ensures forall f :: f in facts && f.refusal.Some? ==> f.refusal.value in Named(facts)
    ensures Named(facts) == [] <==> forall f <- facts :: f.refusal == None
    ensures |Named(facts)| <= |facts|
    decreases |facts|
  {
    if facts != [] {
      NamedAll(facts[1..]);
      assert forall f :: f in facts <==> f == facts[0] || f in facts[1..];
    }
  }

  lemma GreenIsMet(s: Snapshot, keys: seq<string>, candidate: string, policy: Policy)
    requires s.Valid() && GraphUsable(s) && keys == PredecessorKeys(s)
    ensures var facts := StageFacts(Recorded(s.stages), keys, candidate, policy);
      Named(facts) == [] <==> AllStagesMet(s, candidate, policy)
    ensures forall f <- StageFacts(Recorded(s.stages), keys, candidate, policy) :: f.status == Passing <==>
      f.refusal == None
  {
    hide StageMet, FactFor, Recorded, Reaches, Before;
    var g, b := s.workflow.value.graph.value.0, s.workflow.value.boundary.value;
    var facts := StageFacts(Recorded(s.stages), keys, candidate, policy);
    BeforeHolds(g.Edges(), g.stages, b);
    NamedAll(facts);
    forall key | key in keys
      ensures FactFor(Recorded(s.stages), key, candidate, policy).refusal == None <==>
        StageMet(s, key, candidate, policy) {
      FactPasses(s, key, candidate, policy);
    }
    forall f | f in facts ensures f.status == Passing <==> f.refusal == None {
      var i :| 0 <= i < |facts| && facts[i] == f;
      FactPasses(s, keys[i], candidate, policy);
    }
    if forall f <- facts :: f.refusal == None {
      forall key | key in keys ensures StageMet(s, key, candidate, policy) {
        var i :| 0 <= i < |keys| && keys[i] == key;
        assert facts[i] in facts;
      }
    }
  }

  lemma FactsNamed(s: Snapshot, keys: seq<string>, candidate: string, policy: Policy)
    requires s.Valid()
    ensures var facts := StageFacts(Recorded(s.stages), keys, candidate, policy);
      forall i :: 0 <= i < |facts| ==> facts[i].stage == keys[i]
  {
    hide Recorded;
    forall i | 0 <= i < |keys| ensures FactFor(Recorded(s.stages), keys[i], candidate, policy).stage == keys[i] {
      RecordedHas(s.stages, keys[i]);
    }
  }

  /** A verdict that could pass has a record for each predecessor, so it is never too large. */
  lemma FewPredecessors(s: Snapshot, candidate: string, policy: Policy)
    requires s.Valid() && GraphUsable(s) && AllStagesMet(s, candidate, policy)
    ensures |PredecessorKeys(s)| <= 256
  {
    hide RecordMet, Reaches;
    var g, b := s.workflow.value.graph.value.0, s.workflow.value.boundary.value;
    var keys := PredecessorKeys(s);
    BeforeHolds(g.Edges(), g.stages, b);
    assert Distinct(g.stages);
    BeforeDistinct(g.Edges(), g.stages, b);
    var recorded := set r <- s.stages :: r.key;
    forall key | key in keys ensures key in recorded {
      assert StageMet(s, key, candidate, policy);
    }
    DistinctFits(keys, recorded);
    KeysFit(s.stages);
  }

  lemma {:induction false} KeysFit(stages: seq<StageRecord>)
    ensures |set r <- stages :: r.key| <= |stages|
    decreases |stages|
  {
    var keys := set r <- stages :: r.key;
    if stages == [] {
      assert keys == {};
    } else {
      KeysFit(stages[1..]);
      var rest := set r <- stages[1..] :: r.key;
      assert forall r :: r in stages <==> r == stages[0] || r in stages[1..];
      assert keys == rest + {stages[0].key};
    }
  }

  ghost predicate Distinct(keys: seq<string>) {
    forall i, j :: 0 <= i < j < |keys| ==> keys[i] != keys[j]
  }

  lemma DistinctTail(keys: seq<string>)
    requires Distinct(keys) && keys != []
    ensures Distinct(keys[1..]) && keys[0] !in keys[1..]
  {
    var rest := keys[1..];
    assert forall i :: 0 <= i < |rest| ==> rest[i] == keys[i + 1];
  }

  lemma DistinctCons(key: string, rest: seq<string>)
    requires Distinct(rest) && key !in rest
    ensures Distinct([key] + rest)
  {
    var keys := [key] + rest;
    forall i, j | 0 <= i < j < |keys| ensures keys[i] != keys[j] {
      assert keys[j] == rest[j - 1];
      if i == 0 {
        assert keys[j] in rest;
      } else {
        assert keys[i] == rest[i - 1];
      }
    }
  }

  lemma {:induction false} DistinctFits(keys: seq<string>, names: set<string>)
    requires Distinct(keys) && forall k <- keys :: k in names
    ensures |keys| <= |names|
    decreases |keys|
  {
    if keys != [] {
      DistinctTail(keys);
      assert keys[0] in names;
      DistinctFits(keys[1..], names - {keys[0]});
    }
  }

  lemma {:induction false} BeforeDistinct(e: Edges, declared: seq<string>, target: string)
    requires Distinct(declared)
    ensures Distinct(Before(e, declared, target))
    decreases |declared|
  {
    hide Reaches, Distinct;
    if declared == [] {
      assert Distinct([]) by { NoKeysAreDistinct(); }
    } else {
      var rest := declared[1..];
      var tail := Before(e, rest, target);
      DistinctTail(declared);
      BeforeDistinct(e, rest, target);
      BeforeHolds(e, rest, target);
      DistinctCons(declared[0], tail);
      assert [] + tail == tail;
    }
  }

  lemma NoKeysAreDistinct()
    ensures Distinct([])
  {
  }

  method ResolveChange(s: Snapshot, change: Change) returns (candidate: Option<string>, refusal: Option<string>)
    ensures refusal == None <==> s.change == change && s.available && s.binding.Some? && s.binding.value.Some?
    ensures candidate == if refusal == None then s.binding.value else None
    ensures refusal == Some("record-answers-a-different-change") <==> s.change != change
    ensures refusal == Some("record-unavailable") <==> s.change == change && !s.available
    ensures refusal == Some("change-not-bound-to-ticket") <==>
      s.change == change && s.available && s.binding == None
    ensures refusal == Some("candidate-digest-unresolved") <==>
      s.change == change && s.available && s.binding == Some(None)
  {
    if s.change != change {
      return None, Some("record-answers-a-different-change");
    }
    if !s.available {
      return None, Some("record-unavailable");
    }
    if s.binding == None {
      return None, Some("change-not-bound-to-ticket");
    }
    if s.binding.value == None {
      return None, Some("candidate-digest-unresolved");
    }
    return s.binding.value, None;
  }

  method ResolvePredecessors(s: Snapshot) returns (keys: seq<string>, refusal: Option<string>)
    ensures refusal == None <==> GraphUsable(s)
    ensures keys == if GraphUsable(s) then PredecessorKeys(s) else []
    ensures refusal == Some("pinned-workflow-unresolved") <==> s.workflow == None
    ensures refusal == Some("pinned-workflow-invalid") <==> s.workflow.Some? && s.workflow.value.graph == None
    ensures refusal == Some("pinned-workflow-digest-mismatch") <==>
      s.workflow.Some? && s.workflow.value.graph.Some? && s.workflow.value.graph.value.1 != s.workflow.value.graphDigest
    ensures refusal == Some("landing-boundary-undeclared") <==>
      GraphDigested(s) && s.workflow.value.boundary == None
    ensures refusal == Some("landing-boundary-unreachable") <==>
      && GraphDigested(s) && s.workflow.value.boundary.Some?
      && var g, b := s.workflow.value.graph.value.0, s.workflow.value.boundary.value;
        b !in g.stages || (b != g.initial && !Reaches(g.Edges(), g.initial, b))
  {
    if s.workflow == None {
      return [], Some("pinned-workflow-unresolved");
    }
    var w := s.workflow.value;
    if w.graph == None {
      return [], Some("pinned-workflow-invalid");
    }
    var (graph, digest) := w.graph.value;
    if digest != w.graphDigest {
      return [], Some("pinned-workflow-digest-mismatch");
    }
    if w.boundary == None {
      return [], Some("landing-boundary-undeclared");
    }
    var predecessors := LandingBoundaryPredecessors(graph, w.boundary.value);
    if predecessors == None {
      return [], Some("landing-boundary-unreachable");
    }
    return predecessors.value, None;
  }

  method CurrencyFindingsOf(s: SlotRecord, candidate: string) returns (findings: seq<Finding>)
    ensures findings == CurrencyFindings(s, candidate)
  {
    findings := [];
    if s.validity == ValidityUnknown {
      findings := findings + [Finding(Some(s.key), SlotValidityUnknown, None)];
    } else if s.validity != Current {
      findings := findings + [Finding(Some(s.key), SlotNotCurrent, Some(ValidityText(s.validity)))];
    }
    if s.bound == None {
      findings := findings + [Finding(Some(s.key), SlotCandidateUnbound, None)];
    } else if s.bound.value != candidate {
      findings := findings + [Finding(Some(s.key), SlotSupersededCandidate, s.bound)];
    }
  }

  method VerdictFindingsOf(s: SlotRecord, v: VerdictRecord, policy: Policy) returns (findings: seq<Finding>)
    ensures findings == VerdictFindings(s, v, policy)
  {
    hide Policy.BelowFloor;
    findings := [];
    if v.disposition == DispositionUnknown {
      findings := findings + [Finding(Some(s.key), VerdictDispositionUnknown, Some(v.id))];
    } else if v.disposition != SignedOff {
      findings := findings + [Finding(Some(s.key), VerdictNotSignedOff, Some(v.id))];
    }
    if v.selfReported {
      findings := findings + [Finding(Some(s.key), VerdictSelfReported, Some(v.id))];
    }
    if policy.BelowFloor(v.verdictClass, v.signingModel) {
      var detail := v.id + " signed by " + v.signingModel;
      findings := findings + [Finding(Some(s.key), VerdictTierBelowPolicy, Some(detail))];
    }
  }

  method SlotFindingsOf(s: SlotRecord, candidate: string, policy: Policy) returns (findings: seq<Finding>)
    ensures findings == Checked(s, candidate, policy, 0)
    ensures findings == [] <==> SlotMet(s, candidate, policy)
    ensures findings == SlotFindings(s, candidate, policy)
  {
    hide CurrencyFindings, VerdictFindings, Checked, SlotMet;
    SlotFold(s, candidate, policy);
    if s.state == StateUnknown {
      return [Finding(Some(s.key), SlotStateUnknown, None)];
    }
    if s.state != Filled {
      return [Finding(Some(s.key), SlotUnfilled, None)];
    }
    findings := CurrencyFindingsOf(s, candidate);
    if s.selfReported {
      findings := findings + [Finding(Some(s.key), SlotSelfReported, None)];
    }
    ghost var own := findings;
    for i := 0 to |s.verdicts|
      invariant own + VerdictsFindings(s, s.verdicts, policy) == findings + VerdictsFindings(s, s.verdicts[i..], policy)
    {
      var more := VerdictFindingsOf(s, s.verdicts[i], policy);
      assert s.verdicts[i..][1..] == s.verdicts[i + 1..];
      ghost var rest := VerdictsFindings(s, s.verdicts[i + 1..], policy);
      assert findings + (more + rest) == (findings + more) + rest;
      findings := findings + more;
    }
    assert findings + [] == findings;
  }

  /** One record folded into one fact; the fact passes exactly when the record is met. */
  method StageFactOf(record: StageRecord, candidate: string, policy: Policy) returns (fact: StageFact)
    ensures FactSaid(record, candidate, policy, fact)
    ensures fact == FactOf(record, candidate, policy)
  {
    hide SlotFindings, RecordMet, Resolve, SlotMetButTier, FactSaid, Checked, SlotMet;
    StageStatus(record, candidate, policy);
    if !record.resolved {
      return UnresolvedStageFact(record.key);
    }
    var findings := [];
    for i := 0 to |record.slots|
      invariant SlotsFindings(record.slots, candidate, policy)
        == findings + SlotsFindings(record.slots[i..], candidate, policy)
    {
      var more := SlotFindingsOf(record.slots[i], candidate, policy);
      assert record.slots[i..][1..] == record.slots[i + 1..];
      ghost var rest := SlotsFindings(record.slots[i + 1..], candidate, policy);
      assert findings + (more + rest) == (findings + more) + rest;
      findings := findings + more;
    }
    assert findings + [] == findings;
    return Resolve(record.key, findings);
  }

  method StageFactsOf(stages: seq<StageRecord>, keys: seq<string>, candidate: string, policy: Policy)
    returns (facts: seq<StageFact>)
    ensures facts == StageFacts(Recorded(stages), keys, candidate, policy)
  {
    hide FactOf, RecordMet;
    var recorded := map[];
    for i := 0 to |stages|
      invariant recorded == Recorded(stages[..i])
    {
      assert stages[..i + 1][..i] == stages[..i];
      recorded := recorded[stages[i].key := stages[i]];
    }
    assert stages[..|stages|] == stages;
    facts := [];
    for i := 0 to |keys|
      invariant |facts| == i && forall j :: 0 <= j < i ==> facts[j] == FactFor(recorded, keys[j], candidate, policy)
    {
      var fact := UnresolvedStageFact(keys[i]);
      if keys[i] in recorded {
        fact := StageFactOf(recorded[keys[i]], candidate, policy);
      }
      facts := facts + [fact];
    }
  }

  function Refusals(refusal: Option<string>, facts: seq<StageFact>): seq<string> {
    (if refusal.Some? then [refusal.value] else []) + Named(facts)
  }

  function Named(facts: seq<StageFact>): seq<string> {
    if facts == [] then []
    else (if facts[0].refusal.Some? then [facts[0].refusal.value] else []) + Named(facts[1..])
  }

  /** Whether the record answers for the change decides the candidate, or the refusal. */
  ghost predicate ChangeSaid(s: Snapshot, change: Change, r: Report) {
    && (s.change != change ==> r.refusals == ["record-answers-a-different-change"])
    && (s.change == change && !s.available ==> r.refusals == ["record-unavailable"])
    && (s.change == change && s.available && s.binding == None ==> r.refusals == ["change-not-bound-to-ticket"])
    && (s.change == change && s.available && s.binding == Some(None) ==> r.refusals == ["candidate-digest-unresolved"])
    && r.candidate == if s.change == change && s.available && s.binding.Some? then s.binding.value else None
  }

  /** With a candidate, the pinned graph decides the predecessors, or the refusal. */
  ghost predicate GraphSaid(s: Snapshot, r: Report) {
    && (s.workflow == None ==> r.refusals == ["pinned-workflow-unresolved"])
    && (s.workflow.Some? && s.workflow.value.graph == None ==> r.refusals == ["pinned-workflow-invalid"])
    && (s.workflow.Some? && s.workflow.value.graph.Some? &&
          s.workflow.value.graph.value.1 != s.workflow.value.graphDigest ==>
          r.refusals == ["pinned-workflow-digest-mismatch"])
    && (GraphDigested(s) && s.workflow.value.boundary == None ==> r.refusals == ["landing-boundary-undeclared"])
    && (GraphDigested(s) && s.workflow.value.boundary.Some? ==>
          var g, b := s.workflow.value.graph.value.0, s.workflow.value.boundary.value;
          b !in g.stages || (b != g.initial && !Reaches(g.Edges(), g.initial, b)) ==>
            r.refusals == ["landing-boundary-unreachable"])
  }

  /** The whole check, fail-closed: it passes exactly when the change may land, and a refusal names its reason. */
  method Evaluate(s: Snapshot, change: Change, policy: Policy) returns (o: Outcome)
    requires s.Valid()
    ensures o.Reported? && o.report.pass <==> Lands(s, change, policy)
    ensures o.Reported? ==> (o.report.pass <==> o.report.refusals == [])
    ensures o.Reported? ==> ChangeSaid(s, change, o.report)
    ensures o.Reported? && o.report.candidate.Some? ==> GraphSaid(s, o.report)
    ensures o.Reported? && !(o.report.candidate.Some? && GraphUsable(s)) ==>
      o.report.facts == [] && |o.report.refusals| == 1
    ensures o.Reported? && o.report.candidate.Some? && GraphUsable(s) ==>
      && |o.report.facts| == |PredecessorKeys(s)|
      && (forall i :: 0 <= i < |o.report.facts| ==>
            && o.report.facts[i].stage == PredecessorKeys(s)[i]
            && PredecessorSaid(s, PredecessorKeys(s)[i], o.report.candidate.value, policy, o.report.facts[i]))
      && exists places :: NamesAt(o.report.facts, o.report.refusals, places)
    ensures GraphUsable(s) ==>
      var g, b := s.workflow.value.graph.value.0, s.workflow.value.boundary.value;
      exists places :: Picks(g.Edges(), g.stages, b, PredecessorKeys(s), places)
    ensures o.TooLarge? <==>
      && s.change == change && s.available && s.binding.Some? && s.binding.value.Some?
      && GraphUsable(s) && |PredecessorKeys(s)| > 256
  {
    LandsMeans(s, change, policy);
    hide Reaches, GraphUsable, AllStagesMet, PredecessorKeys, Recorded, StageFacts, Named, PredecessorSaid, NamesAt;
    hide Lands, Picks;
    PredecessorsPicked(s);
    var candidate, refusal := ResolveChange(s, change);
    var keys := [];
    if refusal == None {
      keys, refusal := ResolvePredecessors(s);
    }
    var facts := [];
    if candidate.Some? {
      facts := StageFactsOf(s.stages, keys, candidate.value, policy);
    }
    var refusals := Refusals(refusal, facts);
    var green := refusals == [] && forall f <- facts :: f.status == Passing;
    NamedAll(facts);
    if refusal == None {
      GreenIsMet(s, keys, candidate.value, policy);
      FactsAreSaid(s, keys, candidate.value, policy);
      assert [] + Named(facts) == Named(facts);
    } else {
      assert facts == [] && Named(facts) == [] && refusals == [refusal.value];
    }
    if |facts| > 256 || |refusals| > 256 {
      if Lands(s, change, policy) {
        FewPredecessors(s, candidate.value, policy);
      }
      return TooLarge;
    }
    return Reported(Report(green, candidate, facts, refusals));
  }

  lemma PredecessorsPicked(s: Snapshot)
    ensures GraphUsable(s) ==>
      var g, b := s.workflow.value.graph.value.0, s.workflow.value.boundary.value;
      exists places :: Picks(g.Edges(), g.stages, b, PredecessorKeys(s), places)
  {
    hide Picks, Reaches;
    if GraphUsable(s) {
      var g, b := s.workflow.value.graph.value.0, s.workflow.value.boundary.value;
      var places := BeforePicks(g.Edges(), g.stages, b);
      assert Picks(g.Edges(), g.stages, b, PredecessorKeys(s), places);
    }
  }

  lemma FactsAreSaid(s: Snapshot, keys: seq<string>, candidate: string, policy: Policy)
    requires s.Valid()
    ensures var facts := StageFacts(Recorded(s.stages), keys, candidate, policy);
      && (forall i :: 0 <= i < |facts| ==>
            facts[i].stage == keys[i] && PredecessorSaid(s, keys[i], candidate, policy, facts[i]))
      && exists places :: NamesAt(facts, Named(facts), places)
  {
    hide FactFor, PredecessorSaid, NamesAt, Named, Recorded;
    var facts := StageFacts(Recorded(s.stages), keys, candidate, policy);
    FactsNamed(s, keys, candidate, policy);
    forall i | 0 <= i < |facts| ensures PredecessorSaid(s, keys[i], candidate, policy, facts[i]) {
      FactIsSaid(s, keys[i], candidate, policy);
    }
    var places := NamedPlaces(facts);
  }
}
