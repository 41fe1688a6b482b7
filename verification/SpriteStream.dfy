/**
  The clocked OAM-to-row-0 hand-off of scripts/gpu_final144_sprite_stream_model.py.  The script
  runs seven active sets; here the number of descriptors, the object limit and the active set are
  arbitrary.  Clocks are counted from the edge entering line 144; the arbiter phase of clock c is
  (c + boundaryPhase) % 8.
*/
module SpriteStream {
  import opened Outcomes

  const ARBITER_SLOTS := 8
  const FAST_CE_CLOCKS := 4
  const OAM_REQUEST_SLOTS: set<int> := {1, 5}
  const OAM_RESPONSE_DELAY := 2
  const TILE_REQUEST_SLOTS: set<int> := {2, 6}
  const TILE_RESPONSE_DELAY := 2
  const SPRITE_PREROLL_CYCLES := 15

  datatype Job = Job(descriptor: nat, arrived: int)

  datatype Response = Response(due: int, job: Job, word: int)

  datatype CaseResult = CaseResult(
    accepted: seq<nat>,
    maxPending: int,
    lastAcceptClock: Option<int>,
    startOffset: int,
    tileRequests: int)

  // ------------------------------------------------------------------------------------------
  // Reference: which descriptors are taken, and when each one arrives
  // ------------------------------------------------------------------------------------------

  /** Active descriptors below both `count` and `n`, ascending. */
  function Eligible(active: set<nat>, count: nat, n: nat): seq<nat> {
    if n == 0 then []
    else Eligible(active, count, n - 1) + (if n - 1 in active && n - 1 < count then [n - 1] else [])
  }

  function First(s: seq<nat>, limit: nat): seq<nat> {
    if |s| <= limit then s else s[..limit]
  }

  lemma {:induction false} EligibleExact(active: set<nat>, count: nat, n: nat)
    ensures forall i, j :: 0 <= i < j < |Eligible(active, count, n)| ==>
              Eligible(active, count, n)[i] < Eligible(active, count, n)[j]
    ensures forall d: nat :: d in Eligible(active, count, n) <==> d < n && d in active && d < count
  {
    if n > 0 {
      EligibleExact(active, count, n - 1);
      var shorter, last := Eligible(active, count, n - 1), (if n - 1 in active && n - 1 < count then [n - 1] else []);
      forall i, j | 0 <= i < j < |shorter + last| ensures (shorter + last)[i] < (shorter + last)[j] {
        assert shorter[i] in shorter;
      }
    }
  }

  /** Clocks the OAM request waits for its arbiter slot. */
  function Skew(phase: int): int { (1 - phase) % 4 }

  /** Completion clock of a descriptor's second word, for a given OAM wait. */
  function Arrival(skew: int, descriptor: int): int { 8 * descriptor + 6 + skew }

  /** Two adjacent descriptors in s: the second one arrives while the first is still being fetched. */
  predicate HasNeighbours(s: seq<nat>) {
    exists k :: 0 < k < |s| && s[k - 1] + 1 == s[k]
  }

  lemma NeighboursAppend(s: seq<nat>, d: nat)
    ensures HasNeighbours(s + [d]) <==> HasNeighbours(s) || (|s| > 0 && s[|s| - 1] + 1 == d)
  {
    var t := s + [d];
    if HasNeighbours(s) {
      var k :| 0 < k < |s| && s[k - 1] + 1 == s[k];
      assert t[k - 1] + 1 == t[k];
    }
    if |s| > 0 && s[|s| - 1] + 1 == d {
      assert t[|s| - 1] + 1 == t[|s|];
    }
  }

  // ------------------------------------------------------------------------------------------
  // The helper loops
  // ------------------------------------------------------------------------------------------

  /** next_slot: the earliest matching slot.  Without a slot below 8 the script would not terminate. */
  method NextSlot(clock: int, slots: set<int>, strict: bool) returns (candidate: int)
    requires exists s :: s in slots && 0 <= s < ARBITER_SLOTS
    ensures clock + (if strict then 1 else 0) <= candidate && candidate % ARBITER_SLOTS in slots
    ensures forall c :: clock + (if strict then 1 else 0) <= c < candidate ==> c % ARBITER_SLOTS !in slots
  {
    var start := clock + (if strict then 1 else 0);
    candidate := start;
    ghost var s :| s in slots && 0 <= s < ARBITER_SLOTS;
    ghost var target := start + (s - start) % ARBITER_SLOTS;
    while candidate % ARBITER_SLOTS !in slots
      invariant start <= candidate <= target
      invariant forall c :: start <= c < candidate ==> c % ARBITER_SLOTS !in slots
      decreases target - candidate
    {
      candidate := candidate + 1;
    }
  }

  /** The OAM slots are the clocks that leave 1 modulo 4. */
  lemma OamSlotResidue(c: int)
    ensures c % 8 in OAM_REQUEST_SLOTS <==> c % 4 == 1
  {}

  lemma OamSlot(request: int, issue: int)
    requires request <= issue && issue % 8 in OAM_REQUEST_SLOTS
    requires forall c :: request <= c < issue ==> c % 8 !in OAM_REQUEST_SLOTS
    ensures issue == request + Skew(request)
  {
    var expected := request + Skew(request);
    var q := (1 - request) / 4;
    assert expected == 4 * (-q) + 1;
    assert expected % 8 in OAM_REQUEST_SLOTS by { OamSlotResidue(expected); }
    assert issue <= expected;
    OamSlotResidue(issue);
  }

  lemma SkewPeriodic(word: int, phase: int)
    ensures Skew(4 * word + phase) == Skew(phase)
  {
    assert 1 - (4 * word + phase) == (1 - phase) + 4 * (-word);
    ModAddMultiple(1 - phase, -word);
  }

  lemma ModAddMultiple(a: int, k: int)
    ensures (a + 4 * k) % 4 == a % 4
  {}

  /** descriptor_arrivals: every request issues before the next one, and descriptor i completes at Arrival(i). */
  method DescriptorArrivals(phase: int, descriptors: nat) returns (arrivals: map<nat, int>)
    ensures forall d: nat :: d in arrivals <==> d < descriptors
    ensures forall d: nat :: d < descriptors ==> arrivals[d] == Arrival(Skew(phase), d)
  {
    arrivals := map[];
    var previousIssue := phase - 1;
    for word: nat := 0 to 2 * descriptors
      invariant forall d: nat :: d in arrivals <==> d < word / 2
      invariant forall d: nat :: d < word / 2 ==> arrivals[d] == Arrival(Skew(phase), d)
      invariant word > 0 ==> previousIssue == 4 * (word - 1) + phase + Skew(phase)
      invariant word == 0 ==> previousIssue == phase - 1
    {
      var request := word * FAST_CE_CLOCKS;
      assert 1 in OAM_REQUEST_SLOTS && 0 <= 1 < ARBITER_SLOTS;
      var issue := NextSlot(request + phase, OAM_REQUEST_SLOTS, false);
      OamSlot(request + phase, issue);
      SkewPeriodic(word, phase);
      assert issue - phase < request + FAST_CE_CLOCKS;
      assert previousIssue < issue;
      previousIssue := issue;
      if word % 2 == 1 {
        var descriptor := word / 2;
        arrivals := arrivals[descriptor := issue - phase + OAM_RESPONSE_DELAY];
      }
    }
  }

  /** first_ce_strictly_after: the least member of first, first + 4, ... after `clock`. */
  method FirstCeStrictlyAfter(clock: int, first: int) returns (candidate: int, ghost steps: nat)
    ensures candidate == first + 4 * steps && clock < candidate
    ensures 0 < steps ==> candidate - 4 <= clock
  {
    candidate, steps := first, 0;
    while candidate <= clock
      invariant candidate == first + 4 * steps
      invariant 0 < steps ==> candidate - 4 <= clock
      decreases clock - candidate
    {
      candidate, steps := candidate + FAST_CE_CLOCKS, steps + 1;
    }
  }

  // ------------------------------------------------------------------------------------------
  // The streaming loop
  // ------------------------------------------------------------------------------------------

  function JobSeq(job: Option<Job>): seq<nat> { if job.Some? then [job.value.descriptor] else [] }

  function Issued(issuedFor: map<nat, seq<int>>, d: nat): seq<int> {
    if d in issuedFor then issuedFor[d] else []
  }

  /** Tile requests of a job that arrived at `a`, as issued before clock t. */
  function IssuedBy(a: int, t: int): seq<int> {
    if t <= a + 3 then [] else if t <= a + 7 then [a + 3] else [a + 3, a + 7]
  }

  /** The response in flight on entry to clock t for a job. */
  function InFlight(j: Job, t: int): Option<Response> {
    if j.arrived + 3 < t <= j.arrived + 5 then Some(Response(j.arrived + 5, j, 0))
    else if j.arrived + 7 < t then Some(Response(j.arrived + 9, j, 1))
    else None
  }

  lemma SkewSlot(phase: int)
    ensures (Skew(phase) + phase) % 4 == 1
  {}

  /** OAM responses fall in arbiter slots 3 and 7. */
  lemma ArrivalSlot(phase: int, skew: int, descriptor: int)
    requires (skew + phase) % 4 == 1
    ensures (Arrival(skew, descriptor) + phase) % 8 in {3, 7}
    ensures (Arrival(skew, descriptor) + phase) % 4 == 3
  {
    var q := (skew + phase) / 4;
    assert Arrival(skew, descriptor) + phase == 4 * (2 * descriptor + q + 1) + 3;
  }

  /** A tile slot comes up exactly when the distance from an arrival slot is 3 modulo 4. */
  lemma TileSlot(phase: int, a: int, t: int)
    requires (a + phase) % 4 == 3
    ensures (t + phase) % 8 in TILE_REQUEST_SLOTS <==> (t - a) % 4 == 3
  {
    assert (t + phase) % 8 in TILE_REQUEST_SLOTS <==> (t + phase) % 4 == 2;
  }

  /** The variables of run_case that its clock loop updates, with `accepted_at` and `issued_for`. */
  datatype Stream = Stream(
    current: Option<Job>,
    pending: Option<Job>,
    outstanding: Option<Response>,
    wordsIssued: int,
    maxPending: int,
    accepted: seq<nat>,
    acceptedAt: seq<int>,
    issuedFor: map<nat, seq<int>>)
  {
    /** Every job taken so far, in order. */
    function Taken(): seq<nat> { accepted + JobSeq(current) + JobSeq(pending) }

    function Load(): int { |accepted| + (if current.Some? then 1 else 0) + (if pending.Some? then 1 else 0) }
  }

  const EMPTY_STREAM: Stream := Stream(None, None, None, 0, 0, [], [], map[])

  /** An active descriptor completes: it becomes current, or pending behind the current job. */
  function OnArrival(s: Stream, limit: nat, descriptor: nat, t: int): Stream {
    if s.Load() < limit then
      if s.current.None? then s.(current := Some(Job(descriptor, t)))
      else s.(pending := Some(Job(descriptor, t)), maxPending := 1)
    else s
  }

  /** A tile word returns; the second word accepts the current job and promotes the pending one. */
  function OnResponse(s: Stream, t: int): Stream {
    if s.outstanding.Some? && s.outstanding.value.due == t then
      if s.outstanding.value.word == 1 then
        s.(outstanding := None, accepted := s.accepted + [s.outstanding.value.job.descriptor],
           acceptedAt := s.acceptedAt + [t + 1], current := s.pending, pending := None)
      else s.(outstanding := None)
    else s
  }

  /** A tile slot with a current job issues its next word. */
  function OnTileSlot(s: Stream, phase: int, t: int): Stream {
    if (t + phase) % ARBITER_SLOTS in TILE_REQUEST_SLOTS && s.current.Some? then
      var issued := Issued(s.issuedFor, s.current.value.descriptor);
      s.(issuedFor := s.issuedFor[s.current.value.descriptor := issued + [t]], wordsIssued := s.wordsIssued + 1,
         outstanding := Some(Response(t + TILE_RESPONSE_DELAY, s.current.value, |issued|)))
    else s
  }

  // ------------------------------------------------------------------------------------------
  // The invariant, at three points of a clock: on entry, after the arrival, after the response
  // ------------------------------------------------------------------------------------------

  datatype Stage = Entry | Arrived | Responded

  ghost predicate PendingFits(stage: Stage, c: Job, p: Job, t: int) {
    p == Job(c.descriptor + 1, c.arrived + 8) && (if stage.Entry? then p.arrived < t else p.arrived <= t)
  }

  /** The job registers and the outstanding response are a function of the current job's age. */
  ghost predicate Registers(s: Stream, skew: int, stage: Stage, t: int) {
    match s.current
    case None => s.pending.None? && s.outstanding.None?
    case Some(c) =>
      && c.arrived == Arrival(skew, c.descriptor)
      && (if stage.Entry? then c.arrived < t else c.arrived <= t)
      && (if stage.Responded? then t <= c.arrived + 8 else t <= c.arrived + 9)
      && s.outstanding == (if stage.Responded? && t in {c.arrived + 5, c.arrived + 9} then None else InFlight(c, t))
      && Issued(s.issuedFor, c.descriptor) == IssuedBy(c.arrived, t)
      && (s.pending.Some? ==> PendingFits(stage, c, s.pending.value, t))
  }

  /** Accepted jobs took both words 3 and 7 clocks after they arrived and were accepted 10 clocks after. */
  ghost predicate Fetched(s: Stream, skew: int, k: nat)
    requires k < |s.accepted| == |s.acceptedAt|
  {
    var a := Arrival(skew, s.accepted[k]);
    && s.acceptedAt[k] == a + 10
    && s.accepted[k] in s.issuedFor && s.issuedFor[s.accepted[k]] == [a + 3, a + 7]
  }

  ghost predicate History(s: Stream, skew: int) {
    && |s.acceptedAt| == |s.accepted|
    && (forall k: nat :: k < |s.accepted| ==> Fetched(s, skew, k))
    && (forall d :: d in s.issuedFor ==> d in s.accepted || (s.current.Some? && d == s.current.value.descriptor))
  }

  ghost predicate Ascending(s: seq<nat>, bound: nat) {
    && (forall i, j :: 0 <= i < j < |s| ==> s[i] < s[j])
    && (forall i :: 0 <= i < |s| ==> s[i] < bound)
  }

  ghost predicate Counts(s: Stream, t: int) {
    && s.wordsIssued == 2 * |s.accepted| + (if s.current.Some? then |IssuedBy(s.current.value.arrived, t)| else 0)
    && s.maxPending == (if HasNeighbours(s.Taken()) then 1 else 0)
  }

  /** Accepted jobs ended before this point. */
  ghost predicate Settled(s: Stream, skew: int, stage: Stage, t: int) {
    forall k :: 0 <= k < |s.accepted| ==>
      Arrival(skew, s.accepted[k]) + 9 < t || (stage.Responded? && Arrival(skew, s.accepted[k]) + 9 == t)
  }

  /** `arrived` descriptors have arrived before this point. */
  ghost predicate Valid(s: Stream, skew: int, stage: Stage, arrived: nat, t: int) {
    && Registers(s, skew, stage, t) && Settled(s, skew, stage, t) && History(s, skew)
    && Ascending(s.Taken(), arrived) && Counts(s, t)
  }

  lemma NoArrival(s: Stream, skew: int, arrived: nat, t: int)
    requires Valid(s, skew, Entry, arrived, t)
    ensures Valid(s, skew, Arrived, arrived, t) && Valid(s, skew, Arrived, arrived + 1, t)
  {}

  /** "pending overflow" cannot happen, and a job still in progress is the preceding descriptor. */
  lemma PendingIsFree(s: Stream, skew: int, descriptor: nat, t: int)
    requires Registers(s, skew, Entry, t) && t == Arrival(skew, descriptor)
    ensures s.pending.None?
    ensures s.current.Some? ==> s.current.value.descriptor + 1 == descriptor
  {}

  lemma ArrivalExtendsTaken(s: Stream, skew: int, limit: nat, descriptor: nat, t: int)
    requires Registers(s, skew, Entry, t) && t == Arrival(skew, descriptor)
    ensures |s.Taken()| == s.Load()
    ensures OnArrival(s, limit, descriptor, t).Taken() ==
            if |s.Taken()| < limit then s.Taken() + [descriptor] else s.Taken()
  {
    PendingIsFree(s, skew, descriptor, t);
    assert s.Taken() == s.accepted + JobSeq(s.current);
  }

  lemma ArrivalRegisters(s: Stream, skew: int, limit: nat, descriptor: nat, t: int)
    requires Registers(s, skew, Entry, t) && t == Arrival(skew, descriptor)
    requires History(s, skew) && Ascending(s.Taken(), descriptor)
    ensures Registers(OnArrival(s, limit, descriptor, t), skew, Arrived, t)
  {
    PendingIsFree(s, skew, descriptor, t);
    if s.current.None? {
      assert s.Taken() == s.accepted;
      assert descriptor !in s.issuedFor;
    }
  }

  lemma ArrivalCounts(s: Stream, skew: int, limit: nat, descriptor: nat, t: int)
    requires Registers(s, skew, Entry, t) && Settled(s, skew, Entry, t) && Counts(s, t)
    requires t == Arrival(skew, descriptor)
    ensures Counts(OnArrival(s, limit, descriptor, t), t)
  {
    PendingIsFree(s, skew, descriptor, t);
    ArrivalExtendsTaken(s, skew, limit, descriptor, t);
    NeighboursAppend(s.Taken(), descriptor);
    if s.current.Some? {
      assert s.Taken()[|s.accepted|] == s.current.value.descriptor;
    } else {
      assert s.Taken() == s.accepted;
    }
  }

  lemma ArrivalKeepsValid(s: Stream, skew: int, limit: nat, descriptor: nat, t: int)
    requires Valid(s, skew, Entry, descriptor, t) && t == Arrival(skew, descriptor)
    ensures Valid(OnArrival(s, limit, descriptor, t), skew, Arrived, descriptor + 1, t)
  {
    ArrivalExtendsTaken(s, skew, limit, descriptor, t);
    ArrivalRegisters(s, skew, limit, descriptor, t);
    PendingIsFree(s, skew, descriptor, t);
    var after := OnArrival(s, limit, descriptor, t);
    forall k: nat | k < |after.accepted| ensures Fetched(after, skew, k) { assert Fetched(s, skew, k); }
    ArrivalCounts(s, skew, limit, descriptor, t);
  }

  lemma ResponseKeepsTaken(s: Stream, skew: int, t: int)
    requires Registers(s, skew, Arrived, t)
    ensures OnResponse(s, t).Taken() == s.Taken()
  {
    if s.outstanding.Some? && s.outstanding.value.due == t && s.outstanding.value.word == 1 {
      assert s.accepted + JobSeq(s.current) + JobSeq(s.pending) ==
             (s.accepted + [s.current.value.descriptor]) + JobSeq(s.pending) + JobSeq(None);
    }
  }

  lemma PendingHasNoWords(s: Stream, skew: int, arrived: nat, t: int)
    requires Registers(s, skew, Arrived, t) && History(s, skew) && Ascending(s.Taken(), arrived) && s.pending.Some?
    ensures s.pending.value.descriptor !in s.issuedFor
  {
    var taken := s.Taken();
    assert taken[|s.accepted| + 1] == s.pending.value.descriptor;
    assert forall k :: 0 <= k < |s.accepted| ==> taken[k] == s.accepted[k];
  }

  lemma ResponseRegisters(s: Stream, skew: int, arrived: nat, t: int)
    requires Registers(s, skew, Arrived, t) && History(s, skew) && Ascending(s.Taken(), arrived)
    ensures Registers(OnResponse(s, t), skew, Responded, t)
  {
    if s.pending.Some? { PendingHasNoWords(s, skew, arrived, t); }
  }

  lemma ResponseHistory(s: Stream, skew: int, t: int)
    requires Registers(s, skew, Arrived, t) && History(s, skew)
    ensures History(OnResponse(s, t), skew)
  {
    var after := OnResponse(s, t);
    forall k: nat | k < |after.accepted| ensures Fetched(after, skew, k) {
      if k < |s.accepted| { assert Fetched(s, skew, k); }
    }
  }

  lemma ResponseKeepsValid(s: Stream, skew: int, arrived: nat, t: int)
    requires Valid(s, skew, Arrived, arrived, t)
    ensures Valid(OnResponse(s, t), skew, Responded, arrived, t)
  {
    ResponseKeepsTaken(s, skew, t);
    ResponseRegisters(s, skew, arrived, t);
    ResponseHistory(s, skew, t);
  }

  /** A tile slot meets the current job 3 or 7 clocks after its arrival, with nothing outstanding. */
  lemma TileSlotAge(s: Stream, phase: int, skew: int, t: int)
    requires Registers(s, skew, Responded, t) && (skew + phase) % 4 == 1 && s.current.Some?
    ensures (t + phase) % ARBITER_SLOTS in TILE_REQUEST_SLOTS <==>
            t in {s.current.value.arrived + 3, s.current.value.arrived + 7}
    ensures t in {s.current.value.arrived + 3, s.current.value.arrived + 7} ==> s.outstanding.None?
  {
    ArrivalSlot(phase, skew, s.current.value.descriptor);
    TileSlot(phase, s.current.value.arrived, t);
  }

  lemma TileSlotRegisters(s: Stream, phase: int, skew: int, t: int)
    requires Registers(s, skew, Responded, t) && (skew + phase) % 4 == 1
    ensures Registers(OnTileSlot(s, phase, t), skew, Entry, t + 1)
  {
    if s.current.Some? { TileSlotAge(s, phase, skew, t); }
  }

  lemma TileSlotKeepsValid(s: Stream, phase: int, skew: int, arrived: nat, t: int)
    requires Valid(s, skew, Responded, arrived, t) && (skew + phase) % 4 == 1
    ensures Valid(OnTileSlot(s, phase, t), skew, Entry, arrived, t + 1)
  {
    TileSlotRegisters(s, phase, skew, t);
    if s.current.Some? {
      TileSlotAge(s, phase, skew, t);
      CurrentIsTaken(s, arrived);
    }
    var after := OnTileSlot(s, phase, t);
    assert after.Taken() == s.Taken();
    forall k: nat | k < |after.accepted| ensures Fetched(after, skew, k) { assert Fetched(s, skew, k); }
  }

  /** One clock; `event` is the active descriptor that completes on it, if any. */
  function OnClock(s: Stream, phase: int, limit: nat, event: Option<nat>, t: int): Stream {
    var afterArrival := if event.Some? then OnArrival(s, limit, event.value, t) else s;
    OnTileSlot(OnResponse(afterArrival, t), phase, t)
  }

  lemma ClockKeepsValid(s: Stream, phase: int, skew: int, limit: nat, event: Option<nat>,
                        arrived: nat, next: nat, t: int)
    requires Valid(s, skew, Entry, arrived, t) && (skew + phase) % 4 == 1 && arrived <= next <= arrived + 1
    requires event.Some? ==> event.value == arrived && next == arrived + 1 && t == Arrival(skew, arrived)
    ensures Valid(OnClock(s, phase, limit, event, t), skew, Entry, next, t + 1)
  {
    NoArrival(s, skew, arrived, t);
    if event.Some? { ArrivalKeepsValid(s, skew, limit, arrived, t); }
    var afterArrival := if event.Some? then OnArrival(s, limit, event.value, t) else s;
    ResponseKeepsValid(afterArrival, skew, next, t);
    TileSlotKeepsValid(OnResponse(afterArrival, t), phase, skew, next, t);
  }

  lemma ClockTakes(s: Stream, phase: int, skew: int, limit: nat, event: Option<nat>, arrived: nat, t: int)
    requires Valid(s, skew, Entry, arrived, t)
    requires event.Some? ==> event.value == arrived && t == Arrival(skew, arrived)
    ensures OnClock(s, phase, limit, event, t).Taken() ==
            if event.Some? && |s.Taken()| < limit then s.Taken() + [arrived] else s.Taken()
  {
    NoArrival(s, skew, arrived, t);
    if event.Some? {
      ArrivalExtendsTaken(s, skew, limit, arrived, t);
      ArrivalRegisters(s, skew, limit, arrived, t);
    }
    var afterArrival := if event.Some? then OnArrival(s, limit, event.value, t) else s;
    ResponseKeepsTaken(afterArrival, skew, t);
    var afterResponse := OnResponse(afterArrival, t);
    assert OnTileSlot(afterResponse, phase, t).current == afterResponse.current;
  }

  lemma TakeNext(active: set<nat>, count: nat, limit: nat, n: nat)
    ensures First(Eligible(active, count, n + 1), limit) ==
            if n in active && n < count && |First(Eligible(active, count, n), limit)| < limit
            then First(Eligible(active, count, n), limit) + [n]
            else First(Eligible(active, count, n), limit)
  {
    var before, after := Eligible(active, count, n), Eligible(active, count, n + 1);
    assert after == before + (if n in active && n < count then [n] else []);
  }

  /** The row-0 start is late by two CEs exactly when the last descriptor is accepted. */
  lemma StartOffset(skew: int, descriptors: nat, last: nat, steps: nat)
    requires 0 <= skew < 4 && last < descriptors
    requires Arrival(skew, last) + 10 < 8 * descriptors + 4 + 4 * steps
    requires 0 < steps ==> 8 * descriptors + 4 * steps <= Arrival(skew, last) + 10
    ensures steps == if last == descriptors - 1 then 2 else 0
  {}

  lemma CurrentIsTaken(s: Stream, arrived: nat)
    requires Ascending(s.Taken(), arrived) && s.current.Some?
    ensures s.current.value.descriptor < arrived && s.current.value.descriptor !in s.accepted
  {
    var taken := s.Taken();
    assert taken[|s.accepted|] == s.current.value.descriptor;
    assert forall k :: 0 <= k < |s.accepted| ==> taken[k] == s.accepted[k];
  }

  /** Every job has been fetched and nothing is in progress. */
  ghost predicate Complete(s: Stream, skew: int, descriptors: nat, expected: seq<nat>) {
    && s.current.None? && s.pending.None? && s.outstanding.None?
    && s.accepted == expected && |s.acceptedAt| == |expected| && s.wordsIssued == 2 * |expected|
    && s.maxPending == (if HasNeighbours(expected) then 1 else 0)
    && (forall d :: d in s.issuedFor <==> d in expected)
    && (forall d :: d in expected ==> s.issuedFor[d] == [Arrival(skew, d) + 3, Arrival(skew, d) + 7])
    && (expected != [] ==>
          && expected[|expected| - 1] < descriptors
          && s.acceptedAt[|expected| - 1] == Arrival(skew, expected[|expected| - 1]) + 10)
  }

  lemma IssuedExactly(s: Stream, skew: int)
    requires History(s, skew) && s.current.None?
    ensures forall d :: d in s.issuedFor <==> d in s.accepted
    ensures forall d :: d in s.accepted ==> s.issuedFor[d] == [Arrival(skew, d) + 3, Arrival(skew, d) + 7]
  {
    forall d | d in s.accepted
      ensures d in s.issuedFor && s.issuedFor[d] == [Arrival(skew, d) + 3, Arrival(skew, d) + 7]
    {
      var k: nat :| k < |s.accepted| && s.accepted[k] == d;
      assert Fetched(s, skew, k);
    }
  }

  // ------------------------------------------------------------------------------------------
  // Whole schedules
  // ------------------------------------------------------------------------------------------

  /** The inputs of run_case, with the number of descriptors and the object limit left open. */
  datatype Scenario = Scenario(phase: int, descriptors: nat, limit: nat, count: nat, active: set<nat>)
  {
    predicate Legal() {
      0 <= phase < ARBITER_SLOTS && count <= descriptors && forall d :: d in active ==> d < descriptors
    }

    /** The reference answer: the first `limit` active descriptors below the count. */
    function Expected(): seq<nat> { First(Eligible(active, count, descriptors), limit) }

    function StopClock(): nat { 8 * descriptors + 60 }
  }

  datatype Frame = Frame(stream: Stream, arrived: nat)

  /** A descriptor's arrival clock is reached; it is an event if the descriptor is active and counted. */
  predicate ArrivesAt(c: Scenario, arrived: nat, t: int) {
    arrived < c.descriptors && t == Arrival(Skew(c.phase), arrived)
  }

  function EventAt(c: Scenario, arrived: nat, t: int): Option<nat> {
    if ArrivesAt(c, arrived, t) && arrived < c.count && arrived in c.active then Some(arrived) else None
  }

  function NextFrame(c: Scenario, f: Frame, t: int): Frame {
    Frame(OnClock(f.stream, c.phase, c.limit, EventAt(c, f.arrived, t), t),
          if ArrivesAt(c, f.arrived, t) then f.arrived + 1 else f.arrived)
  }

  /** The loop's variables on entry to clock t. */
  function FrameAt(c: Scenario, t: nat): Frame {
    if t == 0 then Frame(EMPTY_STREAM, 0) else NextFrame(c, FrameAt(c, t - 1), t - 1)
  }

  ghost predicate OnSchedule(c: Scenario, f: Frame, t: int) {
    && f.arrived <= c.descriptors
    && (f.arrived > 0 ==> Arrival(Skew(c.phase), f.arrived - 1) < t)
    && (f.arrived < c.descriptors ==> t <= Arrival(Skew(c.phase), f.arrived))
    && f.stream.Taken() == First(Eligible(c.active, c.count, f.arrived), c.limit)
  }

  ghost predicate GoodFrame(c: Scenario, f: Frame, t: int) {
    Valid(f.stream, Skew(c.phase), Entry, f.arrived, t) && OnSchedule(c, f, t)
  }

  lemma NextIsGood(c: Scenario, f: Frame, t: int)
    requires c.Legal() && GoodFrame(c, f, t)
    ensures GoodFrame(c, NextFrame(c, f, t), t + 1)
  {
    SkewSlot(c.phase);
    var event, next := EventAt(c, f.arrived, t), NextFrame(c, f, t).arrived;
    ClockKeepsValid(f.stream, c.phase, Skew(c.phase), c.limit, event, f.arrived, next, t);
    ClockTakes(f.stream, c.phase, Skew(c.phase), c.limit, event, f.arrived, t);
    TakeNext(c.active, c.count, c.limit, f.arrived);
  }

  lemma EmptyIsGood(c: Scenario, f: Frame)
    requires c.Legal() && f == Frame(EMPTY_STREAM, 0)
    ensures GoodFrame(c, f, 0)
  {
    assert EMPTY_STREAM.Taken() == [];
  }

  /** The same over a frame and a clock that have names. */
  lemma NamedNextIsGood(c: Scenario, f: Frame, t: int, g: Frame, u: int)
    requires c.Legal() && GoodFrame(c, f, t) && g == NextFrame(c, f, t) && u == t + 1
    ensures GoodFrame(c, g, u)
  {
    NextIsGood(c, f, t);
  }

  /** The invariant holds on entry to every clock of every scenario. */
  lemma {:induction false} FrameAtValid(c: Scenario, t: nat)
    requires c.Legal()
    ensures GoodFrame(c, FrameAt(c, t), t)
  {
    if t == 0 {
      EmptyIsGood(c, FrameAt(c, t));
    } else {
      FrameAtValid(c, t - 1);
      NamedNextIsGood(c, FrameAt(c, t - 1), t - 1, FrameAt(c, t), t);
    }
  }

  lemma NamedFrameValid(c: Scenario, t: nat, f: Frame)
    requires c.Legal() && f == FrameAt(c, t)
    ensures GoodFrame(c, f, t)
  {
    FrameAtValid(c, t);
  }

  lemma NamedFrameStep(c: Scenario, t: nat, f: Frame, g: Frame)
    requires f == FrameAt(c, t) && g == NextFrame(c, f, t)
    ensures g == FrameAt(c, t + 1)
  {
  }

  lemma NothingInProgress(c: Scenario, f: Frame, t: int)
    requires c.Legal() && OnSchedule(c, f, t) && t > c.StopClock()
    requires Registers(f.stream, Skew(c.phase), Entry, t) && Ascending(f.stream.Taken(), f.arrived)
    ensures f.arrived == c.descriptors
    ensures f.stream.current.None? && f.stream.pending.None? && f.stream.outstanding.None?
    ensures f.stream.accepted == c.Expected()
  {
    if f.stream.current.Some? { CurrentIsTaken(f.stream, f.arrived); }
    assert f.stream.Taken() == f.stream.accepted;
  }

  lemma LastFetched(s: Stream, skew: int)
    requires History(s, skew) && s.accepted != []
    ensures s.acceptedAt[|s.accepted| - 1] == Arrival(skew, s.accepted[|s.accepted| - 1]) + 10
  {
    assert Fetched(s, skew, |s.accepted| - 1);
  }

  lemma LastBelow(s: seq<nat>, bound: nat)
    requires Ascending(s, bound) && s != []
    ensures s[|s| - 1] < bound
  {}

  /** After the last clock nothing is in progress and everything eligible has been accepted. */
  lemma Drained(c: Scenario)
    requires c.Legal()
    ensures Complete(FrameAt(c, c.StopClock() + 1).stream, Skew(c.phase), c.descriptors, c.Expected())
  {
    var f := FrameAt(c, c.StopClock() + 1);
    FrameAtValid(c, c.StopClock() + 1);
    NothingInProgress(c, f, c.StopClock() + 1);
    Wrapped(f.stream, Skew(c.phase), c.descriptors, c.StopClock() + 1);
  }

  lemma Wrapped(s: Stream, skew: int, descriptors: nat, t: int)
    requires s.current.None? && s.pending.None? && s.outstanding.None?
    requires History(s, skew) && Counts(s, t) && Ascending(s.Taken(), descriptors)
    ensures Complete(s, skew, descriptors, s.accepted)
  {
    assert s.Taken() == s.accepted;
    IssuedExactly(s, skew);
    if s.accepted != [] {
      LastFetched(s, skew);
      LastBelow(s.accepted, descriptors);
    }
  }

  /** The variables of run_case's clock loop; the `assert`s are the script's assertions. */
  class Streamer {
    const phase: int
    const limit: nat
    var current: Option<Job>
    var pending: Option<Job>
    var outstanding: Option<Response>
    var wordsIssued: int
    var maxPending: int
    var accepted: seq<nat>
    var acceptedAt: seq<int>
    var issuedFor: map<nat, seq<int>>

    constructor (phase: int, limit: nat)
      ensures this.phase == phase && this.limit == limit && State() == EMPTY_STREAM
    {
      this.phase, this.limit := phase, limit;
      current, pending, outstanding := None, None, None;
      wordsIssued, maxPending, accepted, acceptedAt, issuedFor := 0, 0, [], [], map[];
    }

    function State(): Stream
      reads this
    {
      Stream(current, pending, outstanding, wordsIssued, maxPending, accepted, acceptedAt, issuedFor)
    }

    method Arrive(descriptor: nat, clock: int, ghost skew: int)
      requires Registers(State(), skew, Entry, clock)
      requires (skew + phase) % 4 == 1 && clock == Arrival(skew, descriptor)
      modifies this
      ensures State() == OnArrival(old(State()), limit, descriptor, clock)
    {
      ArrivalSlot(phase, skew, descriptor);
      assert (clock + phase) % ARBITER_SLOTS in {3, 7};
      PendingIsFree(State(), skew, descriptor, clock);
      if |accepted| + (if current.Some? then 1 else 0) + (if pending.Some? then 1 else 0) < limit {
        var job := Job(descriptor, clock);
        if current.None? {
          current := Some(job);
        } else {
          assert pending.None?;
          pending := Some(job);
          maxPending := 1;
        }
      }
    }

    method Respond(clock: int, ghost skew: int)
      requires Registers(State(), skew, Arrived, clock)
      modifies this
      ensures State() == OnResponse(old(State()), clock)
    {
      if outstanding.Some? && outstanding.value.due == clock {
        var Response(_, responseJob, word) := outstanding.value;
        assert current == Some(responseJob);
        outstanding := None;
        if word == 1 {
          accepted := accepted + [responseJob.descriptor];
          acceptedAt := acceptedAt + [clock + 1];
          current := pending;
          pending := None;
        }
      }
    }

    method Request(clock: int, ghost skew: int)
      requires Registers(State(), skew, Responded, clock) && (skew + phase) % 4 == 1
      modifies this
      ensures State() == OnTileSlot(old(State()), phase, clock)
    {
      if current.Some? { TileSlotAge(State(), phase, skew, clock); }
      if (clock + phase) % ARBITER_SLOTS in TILE_REQUEST_SLOTS && current.Some? {
        assert outstanding.None?;
        var job := current.value;
        var issuedWords := Issued(issuedFor, job.descriptor);
        var word := |issuedWords|;
        assert word in {0, 1};
        assert clock > job.arrived;
        issuedFor := issuedFor[job.descriptor := issuedWords + [clock]];
        wordsIssued := wordsIssued + 1;
        outstanding := Some(Response(clock + TILE_RESPONSE_DELAY, job, word));
      }
    }
  }

  /** The body of the clock loop. */
  method Tick(streamer: Streamer, event: Option<nat>, clock: int, ghost skew: int, ghost arrived: nat)
    requires Valid(streamer.State(), skew, Entry, arrived, clock) && (skew + streamer.phase) % 4 == 1
    requires event.Some? ==> event.value == arrived && clock == Arrival(skew, arrived)
    modifies streamer
    ensures streamer.State() == OnClock(old(streamer.State()), streamer.phase, streamer.limit, event, clock)
  {
    ghost var s := streamer.State();
    ghost var next := if event.Some? then arrived + 1 else arrived;
    NoArrival(s, skew, arrived, clock);
    if event.Some? {
      ArrivalKeepsValid(s, skew, streamer.limit, arrived, clock);
      streamer.Arrive(event.value, clock, skew);
    }
    ResponseRegisters(streamer.State(), skew, next, clock);
    streamer.Respond(clock, skew);
    streamer.Request(clock, skew);
  }

  /** The clock loop of run_case. */
  method StreamFrame(c: Scenario) returns (s: Stream)
    requires c.Legal()
    ensures Complete(s, Skew(c.phase), c.descriptors, c.Expected())
  {
    var arrivals := DescriptorArrivals(c.phase, c.descriptors);
    SkewSlot(c.phase);
    var streamer := new Streamer(c.phase, c.limit);
    var arrived: nat := 0;   // descriptors whose arrival clock has passed
    for clock: nat := 0 to c.StopClock() + 1
      invariant streamer.phase == c.phase && streamer.limit == c.limit && fresh(streamer)
      invariant Frame(streamer.State(), arrived) == FrameAt(c, clock)
    {
      var event: Option<nat>, next: nat := None, arrived;
      if arrived < c.descriptors && clock == arrivals[arrived] {
        if arrived < c.count && arrived in c.active { event := Some(arrived); }
        next := arrived + 1;
      }
      ghost var frame := Frame(streamer.State(), arrived);
      NamedFrameValid(c, clock, frame);
      Tick(streamer, event, clock, Skew(c.phase), arrived);
      arrived := next;
      NamedFrameStep(c, clock, frame, Frame(streamer.State(), arrived));
    }
    s := streamer.State();
    Drained(c);
  }

  /** The first CE of row 0 after the last accepted sprite, as an offset from the nominal one. */
  method RowZeroStart(skew: int, descriptors: nat, accepted: seq<nat>, acceptedAt: seq<int>)
    returns (lastAccept: Option<int>, startOffset: int)
    requires 0 <= skew < 4 && |accepted| == |acceptedAt|
    requires accepted != [] ==>
               accepted[|accepted| - 1] < descriptors &&
               acceptedAt[|acceptedAt| - 1] == Arrival(skew, accepted[|accepted| - 1]) + 10
    ensures lastAccept == if accepted == [] then None else Some(acceptedAt[|acceptedAt| - 1])
    ensures startOffset == if accepted != [] && accepted[|accepted| - 1] == descriptors - 1 then 2 else 0
  {
    var firstRow0Ce := 2 * descriptors * FAST_CE_CLOCKS + FAST_CE_CLOCKS;
    var start := firstRow0Ce;
    ghost var steps: nat := 0;
    lastAccept := None;
    if acceptedAt != [] {
      lastAccept := Some(acceptedAt[|acceptedAt| - 1]);
      start, steps := FirstCeStrictlyAfter(acceptedAt[|acceptedAt| - 1], firstRow0Ce);
      StartOffset(skew, descriptors, accepted[|accepted| - 1], steps);
    }
    assert start - firstRow0Ce == 4 * steps;
    assert (start - firstRow0Ce) % FAST_CE_CLOCKS == 0;
    startOffset := (start - firstRow0Ce) / FAST_CE_CLOCKS;
    assert startOffset <= 2 && startOffset < SPRITE_PREROLL_CYCLES;
  }

  /** What one run of the schedule reports. */
  ghost predicate Reports(c: Scenario, r: CaseResult, issuedFor: map<nat, seq<int>>) {
    && r.accepted == c.Expected() && r.tileRequests == 2 * |r.accepted|
    && (forall d :: d in issuedFor <==> d in r.accepted)
    && (forall d :: d in r.accepted ==>
          issuedFor[d] == [Arrival(Skew(c.phase), d) + 3, Arrival(Skew(c.phase), d) + 7])
    && r.maxPending == (if HasNeighbours(r.accepted) then 1 else 0)
    && r.lastAcceptClock == (if r.accepted == [] then None
                             else Some(Arrival(Skew(c.phase), r.accepted[|r.accepted| - 1]) + 10))
    && r.startOffset == (if r.accepted != [] && r.accepted[|r.accepted| - 1] == c.descriptors - 1 then 2 else 0)
  }

  /** run_case: the streamed schedule and the row-0 start it leaves room for. */
  method RunCase(c: Scenario) returns (result: CaseResult, issuedFor: map<nat, seq<int>>)
    requires c.Legal()
    ensures Reports(c, result, issuedFor)
  {
    var s := StreamFrame(c);
    var lastAccept, startOffset := RowZeroStart(Skew(c.phase), c.descriptors, s.accepted, s.acceptedAt);
    result := CaseResult(s.accepted, s.maxPending, lastAccept, startOffset, s.wordsIssued);
    issuedFor := s.issuedFor;
  }
}
