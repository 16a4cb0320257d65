/** A resumable upload: chunks written in any order by requests that run at once, a few at a time, into a
    file of the final size, and a bitmap of the chunks that arrived. */
module Upload {
  import opened Base
  import opened Bitmap
  import opened Chunks

  /** Requests that may write at once. */
  const MAX_CONCURRENT: nat := 3

  // ---- One upload, and the requests on their way ----

  /** How far a request for a chunk has come since it counted itself in. */
  datatype Phase =
    | Counted(count: int, start: nat, body: seq<Byte>, retypes: bool)   // what the counter was with it
    | Holding(start: nat, body: seq<Byte>, retypes: bool)               // it has a slot
    | Written(start: nat)
    | Leaving                                                           // it will give its slot back
    | Settling(count: int)                                              // what the counter was without it

  datatype Upload = Upload(
    size: nat,
    file: seq<Byte>,
    bits: Bits,
    counter: int,
    requests: map<Id, Phase>,
    leaked: nat)

  /** A file of the final size, of zeros; no chunk yet. */
  function Started(size: nat): Upload {
    Upload(size, seq(size, _ => 0), [], 0, map[], 0)
  }

  /** What one request does next. `retypes`: the type detected in its bytes is not the one stored. */
  datatype Step =
    | Begin(request: Id, start: nat, end: nat, body: seq<Byte>, retypes: bool)   // check the size, count in
    | CountLost(request: Id)                // counted in, and the answer never came
    | ExpireFails(request: Id)              // counted in, but the expiry could not be set
    | Reject(request: Id)                   // over the limit: count out
    | RejectFails(request: Id)              // over the limit, but counting out failed
    | Enter(request: Id)                    // within the limit
    | TypeFails(request: Id)                // saving the new type failed: it ends here
    | WritePart(request: Id, length: nat)   // the write failed after some bytes
    | Write(request: Id)
    | Mark(request: Id)
    | MarkFails(request: Id)
    | Release(request: Id)                  // count out
    | ReleaseFails(request: Id)
    | Settle(request: Id)                   // set a counter below zero back to zero
    | Dropped(request: Id, length: nat)     // its client is gone, after some bytes if it was writing

  function In(u: Upload, request: Id, phase: Phase): Upload {
    u.(requests := u.requests[request := phase])
  }

  function Out(u: Upload, request: Id): Upload {
    u.(requests := u.requests - {request})
  }

  /** The request ends without counting out. */
  function Leak(u: Upload, request: Id): Upload {
    Out(u, request).(leaked := u.leaked + 1)
  }

  predicate Fits(step: Step)
    requires step.Begin?
  {
    step.start <= step.end && step.end - step.start <= CHUNK_SIZE && |step.body| == step.end - step.start
  }

  /** The upload after a step; a step the request is not at changes nothing. */
  function Apply(u: Upload, step: Step): Upload {
    var r := step.request;
    if step.Begin? then
      if r in u.requests || !Fits(step) then u
      else In(u, r, Counted(u.counter + 1, step.start, step.body, step.retypes)).(counter := u.counter + 1)
    else if step.CountLost? then
      if r in u.requests then u else Leak(u, r).(counter := u.counter + 1)
    else if r !in u.requests then u
    else
      match (step, u.requests[r])
      case (ExpireFails(_), Counted(_, _, _, _)) => Leak(u, r)
      case (Reject(_), Counted(count, _, _, _)) =>
        if count > MAX_CONCURRENT then Out(u, r).(counter := u.counter - 1) else u
      case (RejectFails(_), Counted(count, _, _, _)) => if count > MAX_CONCURRENT then Leak(u, r) else u
      case (Enter(_), Counted(count, start, body, retypes)) =>
        if count > MAX_CONCURRENT then u else In(u, r, Holding(start, body, retypes))
      case (TypeFails(_), Holding(start, _, retypes)) => if start == 0 && retypes then Leak(u, r) else u
      case (WritePart(_, length), Holding(start, body, _)) =>
        In(u, r, Leaving).(file := WriteAt(u.file, start, body[..Min(length, |body|)]))
      case (Write(_), Holding(start, body, _)) =>
        In(u, r, Written(start)).(file := WriteAt(u.file, start, body))
      case (Mark(_), Written(start)) =>
        In(u, r, Leaving).(bits := SetBit(u.bits, ChunkIndex(start)))
      case (MarkFails(_), Written(_)) => In(u, r, Leaving)
      case (Release(_), Leaving) => In(u, r, Settling(u.counter - 1)).(counter := u.counter - 1)
      case (ReleaseFails(_), Leaving) => Leak(u, r)
      case (Settle(_), Settling(count)) => Out(u, r).(counter := if count < 0 then 0 else u.counter)
      case (Dropped(_, length), Holding(start, body, _)) =>
        Leak(u, r).(file := WriteAt(u.file, start, body[..Min(length, |body|)]))
      case (Dropped(_, _), Settling(_)) => Out(u, r)
      case (Dropped(_, _), _) => Leak(u, r)
      case _ => u
  }

  function Run(u: Upload, steps: seq<Step>): Upload
    decreases |steps|
  {
    if steps == [] then u else Run(Apply(u, steps[0]), steps[1..])
  }

  // ---- Slots ----

  /** The requests that are counted in. */
  function Inside(u: Upload): set<Id> {
    set r | r in u.requests && !u.requests[r].Settling?
  }

  /** The requests that hold a slot. */
  function Holders(u: Upload): set<Id> {
    set r | r in Inside(u) && !u.requests[r].Counted?
  }

  /** Those, and the ones that will get one. */
  function Admitted(u: Upload): set<Id> {
    set r | r in Inside(u) && (u.requests[r].Counted? ==> u.requests[r].count <= MAX_CONCURRENT)
  }

  /** The counter is exactly the requests counted in and not out, and the ones that ended without counting
      out; at most three are admitted, and nobody counting out saw a counter below zero. */
  ghost predicate SlotInv(u: Upload) {
    && u.counter == |Inside(u)| + u.leaked
    && |Admitted(u)| <= MAX_CONCURRENT
    && forall r | r in u.requests && u.requests[r].Settling? :: u.requests[r].count >= 0
  }

  lemma {:induction false} SubsetSize(a: set<Id>, b: set<Id>)
    requires a <= b
    ensures |a| <= |b|
    decreases a
  {
    if a != {} {
      var x :| x in a;
      SubsetSize(a - {x}, b - {x});
    }
  }

  lemma CountedIn(u: Upload, v: Upload, r: Id, start: nat, body: seq<Byte>, retypes: bool)
    requires SlotInv(u) && r !in u.requests
    requires v.counter == u.counter + 1 && v.leaked == u.leaked
    requires v.requests == u.requests[r := Counted(v.counter, start, body, retypes)]
    ensures SlotInv(v)
  {
    assert Inside(v) == Inside(u) + {r};
    if v.counter <= MAX_CONCURRENT {
      SubsetSize(Admitted(v), Inside(v));
    } else {
      assert Admitted(v) == Admitted(u);
    }
  }

  /** An admitted request goes on. */
  lemma Moved(u: Upload, v: Upload, r: Id, phase: Phase)
    requires SlotInv(u) && r in Admitted(u) && !phase.Counted? && !phase.Settling?
    requires v.counter == u.counter && v.leaked == u.leaked && v.requests == u.requests[r := phase]
    ensures SlotInv(v)
  {
    assert Inside(v) == Inside(u) && Admitted(v) == Admitted(u);
  }

  /** A request leaves, and either counts out or leaks its slot. */
  lemma Left(u: Upload, v: Upload, r: Id)
    requires SlotInv(u) && r in Inside(u)
    requires v.counter - v.leaked == u.counter - u.leaked - 1
    requires v.requests == u.requests - {r}
          || (v.counter >= 0 && v.requests == u.requests[r := Settling(v.counter)])
    ensures SlotInv(v)
  {
    assert Inside(v) == Inside(u) - {r};
    SubsetSize(Admitted(v), Admitted(u));
  }

  lemma Settled(u: Upload, v: Upload, r: Id)
    requires SlotInv(u) && r in u.requests && u.requests[r].Settling?
    requires v.counter == u.counter && v.leaked == u.leaked && v.requests == u.requests - {r}
    ensures SlotInv(v)
  {
    assert Inside(v) == Inside(u) && Admitted(v) == Admitted(u);
  }

  lemma InsideCounted(u: Upload, r: Id)
    requires SlotInv(u) && r in Inside(u)
    ensures u.counter >= 1
  {
    SubsetSize({r}, Inside(u));
  }

  lemma ApplyKeepsSlots(u: Upload, step: Step)
    requires SlotInv(u)
    ensures SlotInv(Apply(u, step))
  {
    var v := Apply(u, step);
    var r := step.request;
    if v != u {
      match step
      case Begin(_, start, _, body, retypes) => CountedIn(u, v, r, start, body, retypes);
      case CountLost(_) =>
        assert v.requests == u.requests;
        assert Inside(v) == Inside(u) && Admitted(v) == Admitted(u);
      case Enter(_) => Moved(u, v, r, v.requests[r]);
      case WritePart(_, _) => Moved(u, v, r, Leaving);
      case Write(_) => Moved(u, v, r, v.requests[r]);
      case Mark(_) => Moved(u, v, r, Leaving);
      case MarkFails(_) => Moved(u, v, r, Leaving);
      case Settle(_) => Settled(u, v, r);
      case Dropped(_, _) =>
        if u.requests[r].Settling? {
          Settled(u, v, r);
        } else {
          Left(u, v, r);
        }
      case _ =>
        InsideCounted(u, r);
        Left(u, v, r);
    }
  }

  lemma {:induction false} RunKeepsSlots(u: Upload, steps: seq<Step>)
    requires SlotInv(u)
    ensures SlotInv(Run(u, steps))
    decreases |steps|
  {
    if steps != [] {
      ApplyKeepsSlots(u, steps[0]);
      RunKeepsSlots(Apply(u, steps[0]), steps[1..]);
    }
  }

  lemma StartedSlots(size: nat)
    ensures SlotInv(Started(size))
  {
    assert Inside(Started(size)) == {} && Admitted(Started(size)) == {};
  }

  /** In any interleaving at most three requests hold a slot, and the counter is the number of requests that
      counted in and not out, with the leaked ones: never below the number of holders. */
  lemma AtMostThreeHold(size: nat, steps: seq<Step>)
    ensures var u := Run(Started(size), steps);
            && |Holders(u)| <= MAX_CONCURRENT
            && u.counter == |Inside(u)| + u.leaked
            && u.counter >= |Holders(u)|
  {
    StartedSlots(size);
    RunKeepsSlots(Started(size), steps);
    var u := Run(Started(size), steps);
    SubsetSize(Holders(u), Admitted(u));
    SubsetSize(Holders(u), Inside(u));
  }

  /** The reset that keeps the counter from going below zero is never needed: settling leaves the counter. */
  lemma NeverReset(size: nat, steps: seq<Step>, request: Id)
    ensures var u := Run(Started(size), steps);
            u.counter >= 0 && Apply(u, Settle(request)).counter == u.counter
  {
    StartedSlots(size);
    RunKeepsSlots(Started(size), steps);
  }

  // ---- Leaked slots ----

  /** The request counts itself in, and ends on an error, or with its client gone, before it counts itself out. */
  predicate IsLeak(u: Upload, step: Step) {
    && (step.CountLost? || step.ExpireFails? || step.RejectFails? || step.TypeFails? || step.ReleaseFails?
        || (step.Dropped? && step.request in Inside(u)))
    && Apply(u, step) != u
  }

  function Leaks(u: Upload, steps: seq<Step>): nat
    decreases |steps|
  {
    if steps == [] then 0 else (if IsLeak(u, steps[0]) then 1 else 0) + Leaks(Apply(u, steps[0]), steps[1..])
  }

  /** What the counter has too many is the number of such ends. */
  lemma {:induction false} LeakedAreLeaks(u: Upload, steps: seq<Step>)
    ensures Run(u, steps).leaked == u.leaked + Leaks(u, steps)
    decreases |steps|
  {
    if steps != [] {
      LeakedAreLeaks(Apply(u, steps[0]), steps[1..]);
    }
  }

  /** With nothing on its way the next request is admitted exactly when fewer than three requests ended without
      giving back their slot. */
  lemma NextIsAdmitted(size: nat, steps: seq<Step>, request: Id, start: nat, body: seq<Byte>, retypes: bool)
    requires Run(Started(size), steps).requests == map[] && |body| <= CHUNK_SIZE
    ensures var u := Run(Started(size), steps);
            request in Admitted(Apply(u, Begin(request, start, start + |body|, body, retypes)))
            <==> Leaks(Started(size), steps) < MAX_CONCURRENT
  {
    AtMostThreeHold(size, steps);
    LeakedAreLeaks(Started(size), steps);
    assert Inside(Run(Started(size), steps)) == {};
  }

  /** In any interleaving a request that begins now, of at most 5 MiB as announced, gets a slot exactly when those
      counted in and those that never gave back their slot are fewer than three; otherwise it counts out again. */
  lemma AdmittedExactly(size: nat, steps: seq<Step>, request: Id, start: nat, end: nat, body: seq<Byte>, retypes: bool)
    requires request !in Run(Started(size), steps).requests
    ensures var u := Run(Started(size), steps);
            var begun := Apply(u, Begin(request, start, end, body, retypes));
            var free := |Inside(u)| + Leaks(Started(size), steps) < 3;
            if start <= end && end - start <= 5 * 1024 * 1024 && |body| == end - start
            then
              && begun == u.(counter := u.counter + 1, requests := begun.requests)
              && Apply(begun, Enter(request)).requests
                 == (if free then u.requests[request := Holding(start, body, retypes)] else begun.requests)
              && Apply(begun, Reject(request)) == if free then begun else u
            else begun == u
  {
    AtMostThreeHold(size, steps);
    LeakedAreLeaks(Started(size), steps);
    var u := Run(Started(size), steps);
    var begun := Apply(u, Begin(request, start, end, body, retypes));
    assert begun.requests - {request} == u.requests - {request} == u.requests;
    var holding := Holding(start, body, retypes);
    assert begun != u ==> begun.requests[request := holding] == u.requests[request := holding];
  }

  lemma RunCons(u: Upload, step: Step, rest: seq<Step>)
    ensures Run(u, [step] + rest) == Run(Apply(u, step), rest)
  {
    assert ([step] + rest)[1..] == rest;
  }

  lemma {:induction false} RunConcat(u: Upload, a: seq<Step>, b: seq<Step>)
    ensures Run(u, a + b) == Run(Run(u, a), b)
    decreases |a|
  {
    if a == [] {
      assert a + b == b;
    } else {
      assert (a + b)[1..] == a[1..] + b;
      RunConcat(Apply(u, a[0]), a[1..], b);
    }
  }

  /** A request for the first bytes of the file, which begins and enters and comes no further than `last`. */
  function BrokenOff(body: seq<Byte>, last: Step): seq<Step> {
    [Begin(0, 0, |body|, body, true)] + ([Enter(0)] + ([last] + []))
  }

  /** A type that is not the stored one cannot be saved, or the client is gone before the first byte is written. */
  predicate EndsHolding(step: Step) {
    step == TypeFails(0) || step == Dropped(0, 0)
  }

  lemma HoldingEnds(u: Upload, body: seq<Byte>, last: Step)
    requires u.requests == map[0 := Holding(0, body, true)] && EndsHolding(last)
    ensures Apply(u, last) == u.(requests := map[], leaked := u.leaked + 1)
  {
    assert u.requests - {0} == map[];
    assert last.Dropped? ==> body[..0] == [];
  }

  lemma BrokenOffLeaks(u: Upload, body: seq<Byte>, last: Step)
    requires u.requests == map[] && u.counter < MAX_CONCURRENT && |body| <= CHUNK_SIZE && EndsHolding(last)
    ensures Run(u, BrokenOff(body, last)) == u.(counter := u.counter + 1, leaked := u.leaked + 1)
  {
    SentHolds(u, 0, body, true, [last] + []);
    var held := u.(counter := u.counter + 1, requests := map[0 := Holding(0, body, true)]);
    RunCons(held, last, []);
    HoldingEnds(held, body, last);
  }

  /** Three requests that end so shut the upload: no request is admitted any more, though none is on its way. */
  lemma ThreeLeaksShut(size: nat, body: seq<Byte>, last: Step, request: Id, start: nat, chunk: seq<Byte>, retypes: bool)
    requires size > 3 * CHUNK_SIZE && |body| <= CHUNK_SIZE && |chunk| <= CHUNK_SIZE && EndsHolding(last)
    ensures var once := BrokenOff(body, last);
            var u := Run(Started(size), once + once + once);
            var asked := Apply(u, Begin(request, start, start + |chunk|, chunk, retypes));
            && u.requests == map[] && u.counter == MAX_CONCURRENT
            && Apply(asked, Enter(request)) == asked
            && Apply(asked, Reject(request)) == u
  {
    var once := BrokenOff(body, last);
    RunConcat(Started(size), once + once, once);
    RunConcat(Started(size), once, once);
    BrokenOffLeaks(Started(size), body, last);
    BrokenOffLeaks(Run(Started(size), once), body, last);
    BrokenOffLeaks(Run(Started(size), once + once), body, last);
    var u := Run(Started(size), once + once + once);
    var asked := Apply(u, Begin(request, start, start + |chunk|, chunk, retypes));
    assert asked.requests - {request} == map[];
  }

  /** What the failures of a request that holds a slot leave: only for the first bytes of the file and a new type it
      ends before writing; a write that is cut short has written that many bytes at the offset and marked nothing. */
  lemma FailsWhileHolding(u: Upload, request: Id, start: nat, body: seq<Byte>, retypes: bool, length: nat)
    requires request in u.requests && u.requests[request] == Holding(start, body, retypes) && length <= |body|
    ensures var ended := u.(requests := u.requests - {request}, leaked := u.leaked + 1);
            Apply(u, TypeFails(request)) == if start == 0 && retypes then ended else u
    ensures var cut, gone := Apply(u, WritePart(request, length)), Apply(u, Dropped(request, length));
            && cut == u.(file := cut.file, requests := u.requests[request := Leaving])
            && gone == u.(file := cut.file, requests := u.requests - {request}, leaked := u.leaked + 1)
            && cut.file == WriteAt(u.file, start, body[..length])
  {
  }

  // ---- The bytes ----

  ghost predicate RequestRight(u: Upload, source: seq<Byte>, phase: Phase) {
    match phase
    case Counted(_, start, body, _) => IsChunk(source, start, body)
    case Holding(start, body, _) => IsChunk(source, start, body)
    case Written(start) => start % CHUNK_SIZE == 0 && start < |source| && ChunkRight(u.file, source, ChunkIndex(start))
    case Leaving => true
    case Settling(_) => true
  }

  /** Every marked chunk, and every chunk written and not yet marked, is the source's. */
  ghost predicate BytesInv(u: Upload, source: seq<Byte>) {
    && u.size == |source| == |u.file|
    && (forall r | r in u.requests :: RequestRight(u, source, u.requests[r]))
    && (forall i | i in Marked(u.bits) :: i < TotalChunks(u.size) && ChunkRight(u.file, source, i))
  }

  /** The request sends a chunk of the source, or the step is another one. */
  ghost predicate Honest(source: seq<Byte>, step: Step) {
    step.Begin? ==> IsChunk(source, step.start, step.body)
  }

  lemma WriteKeepsBytes(u: Upload, v: Upload, source: seq<Byte>, start: nat, body: seq<Byte>)
    requires BytesInv(u, source) && start + |body| <= |source| && body == source[start..start + |body|]
    requires v == u.(file := WriteAt(u.file, start, body))
    ensures BytesInv(v, source)
  {
    forall index: nat ensures ChunkRight(u.file, source, index) ==> ChunkRight(v.file, source, index) {
      WriteKeepsRight(u.file, source, start, body, index);
    }
    WriteKeepsRight(u.file, source, start, body, 0);
    forall r | r in v.requests ensures RequestRight(v, source, v.requests[r]) {
      assert RequestRight(u, source, u.requests[r]);
    }
  }

  /** The file does not change, and one request comes to a phase that is right. */
  lemma PhaseKeepsBytes(u: Upload, v: Upload, source: seq<Byte>, request: Id, phase: Phase)
    requires BytesInv(u, source) && RequestRight(u, source, phase)
    requires v.size == u.size && v.file == u.file && v.bits == u.bits && v.requests == u.requests[request := phase]
    ensures BytesInv(v, source)
  {
    forall r | r in v.requests ensures RequestRight(v, source, v.requests[r]) {
      if r != request { assert RequestRight(u, source, u.requests[r]); }
    }
  }

  lemma OutKeepsBytes(u: Upload, v: Upload, source: seq<Byte>, request: Id)
    requires BytesInv(u, source)
    requires v.size == u.size && v.file == u.file && v.bits == u.bits && v.requests == u.requests - {request}
    ensures BytesInv(v, source)
  {
    forall r | r in v.requests ensures RequestRight(v, source, v.requests[r]) {
      assert RequestRight(u, source, u.requests[r]);
    }
  }

  /** The first bytes of a chunk of the source are written. */
  lemma PartKeepsBytes(u: Upload, source: seq<Byte>, start: nat, body: seq<Byte>, length: nat)
    requires BytesInv(u, source) && IsChunk(source, start, body)
    ensures BytesInv(u.(file := WriteAt(u.file, start, body[..Min(length, |body|)])), source)
  {
    var part := body[..Min(length, |body|)];
    ChunkPart(source, start, body, |part|);
    WriteKeepsBytes(u, u.(file := WriteAt(u.file, start, part)), source, start, part);
  }

  lemma WholeKeepsBytes(u: Upload, source: seq<Byte>, start: nat, body: seq<Byte>)
    requires BytesInv(u, source) && IsChunk(source, start, body)
    ensures var v := u.(file := WriteAt(u.file, start, body));
            BytesInv(v, source) && RequestRight(v, source, Written(start))
  {
    ChunkBounds(source, start);
    ChunkPart(source, start, body, |body|);
    assert body[..|body|] == body;
    WriteKeepsBytes(u, u.(file := WriteAt(u.file, start, body)), source, start, body);
    WriteKeepsRight(u.file, source, start, body, ChunkIndex(start));
  }

  lemma MarkKeepsBytes(u: Upload, source: seq<Byte>, start: nat)
    requires BytesInv(u, source) && RequestRight(u, source, Written(start))
    ensures BytesInv(u.(bits := SetBit(u.bits, ChunkIndex(start))), source)
  {
    ChunkBounds(source, start);
    SetBitMarks(u.bits, ChunkIndex(start));
    var v := u.(bits := SetBit(u.bits, ChunkIndex(start)));
    forall r | r in v.requests ensures RequestRight(v, source, v.requests[r]) {
      assert RequestRight(u, source, u.requests[r]);
    }
  }

  /** The request changes the file or the bitmap. */
  lemma StoringKeepsBytes(u: Upload, step: Step, source: seq<Byte>)
    requires BytesInv(u, source) && Apply(u, step) != u && step.request in u.requests
    requires step.WritePart? || step.Write? || step.Mark?
    ensures BytesInv(Apply(u, step), source)
  {
    var v := Apply(u, step);
    var r := step.request;
    var phase := u.requests[r];
    assert RequestRight(u, source, phase);
    match step
    case WritePart(_, length) =>
      PartKeepsBytes(u, source, phase.start, phase.body, length);
      PhaseKeepsBytes(u.(file := v.file), v, source, r, Leaving);
    case Write(_) =>
      WholeKeepsBytes(u, source, phase.start, phase.body);
      PhaseKeepsBytes(u.(file := v.file), v, source, r, Written(phase.start));
    case Mark(_) =>
      MarkKeepsBytes(u, source, phase.start);
      PhaseKeepsBytes(u.(bits := v.bits), v, source, r, Leaving);
  }

  lemma DroppedKeepsBytes(u: Upload, step: Step, source: seq<Byte>)
    requires BytesInv(u, source) && step.Dropped? && step.request in u.requests
    ensures BytesInv(Apply(u, step), source)
  {
    var v := Apply(u, step);
    var phase := u.requests[step.request];
    assert RequestRight(u, source, phase);
    if phase.Holding? {
      PartKeepsBytes(u, source, phase.start, phase.body, step.length);
    }
    OutKeepsBytes(u.(file := v.file), v, source, step.request);
  }

  lemma ApplyKeepsBytes(u: Upload, step: Step, source: seq<Byte>)
    requires BytesInv(u, source) && Honest(source, step)
    ensures BytesInv(Apply(u, step), source)
  {
    var v := Apply(u, step);
    var r := step.request;
    if v != u {
      if r in u.requests { assert RequestRight(u, source, u.requests[r]); }
      if step.WritePart? || step.Write? || step.Mark? {
        StoringKeepsBytes(u, step, source);
      } else if step.Dropped? {
        DroppedKeepsBytes(u, step, source);
      } else if r in v.requests && (step.Begin? || r in u.requests) {
        PhaseKeepsBytes(u, v, source, r, v.requests[r]);
      } else {
        OutKeepsBytes(u, v, source, r);
      }
    }
  }

  lemma {:induction false} RunKeepsBytes(u: Upload, steps: seq<Step>, source: seq<Byte>)
    requires BytesInv(u, source) && forall step | step in steps :: Honest(source, step)
    ensures BytesInv(Run(u, steps), source)
    decreases |steps|
  {
    if steps != [] {
      assert steps[0] in steps;
      ApplyKeepsBytes(u, steps[0], source);
      RunKeepsBytes(Apply(u, steps[0]), steps[1..], source);
    }
  }

  /** When chunks of the source are sent, in any order, with repeats, at once and with failed writes, every
      marked chunk has the source's bytes; the set bits are as many as the chunks exactly when none is
      missing, and then the file is the source. */
  lemma UploadReassembles(source: seq<Byte>, steps: seq<Step>)
    requires forall step | step in steps :: Honest(source, step)
    ensures var u := Run(Started(|source|), steps);
            && (forall i | i in Marked(u.bits) :: ChunkRight(u.file, source, i))
            && (BitCount(u.bits) >= TotalChunks(|source|) <==> MissingBelow(u.bits, TotalChunks(|source|)) == {})
            && (MissingBelow(u.bits, TotalChunks(|source|)) == {} ==> u.file == source)
  {
    assert Marked([]) == {};
    RunKeepsBytes(Started(|source|), steps, source);
    var u := Run(Started(|source|), steps);
    var total := TotalChunks(|source|);
    assert Strays(u.bits, total) == {};
    CompleteByCount(u.bits, total);
    if MissingBelow(u.bits, total) == {} {
      forall p | 0 <= p < |source| ensures u.file[p] == source[p] {
        var index := ChunkIndex(p);
        assert index < total;
        assert index !in MissingBelow(u.bits, total);
        MarkedBits(u.bits, index);
        assert ChunkStart(index) <= p < ChunkEnd(index, |source|);
      }
    }
  }

  // ---- Complete by count ----

  /** The request's offset is in one of the file's chunks, whatever it sends. */
  predicate AimsInside(size: nat, step: Step) {
    step.Begin? ==> ChunkIndex(step.start) < TotalChunks(size)
  }

  /** Counting the marked chunks tells whether one is missing. */
  ghost predicate CountTells(size: nat, steps: seq<Step>) {
    var u := Run(Started(size), steps);
    BitCount(u.bits) >= TotalChunks(size) <==> MissingBelow(u.bits, TotalChunks(size)) == {}
  }

  ghost predicate PhaseInside(size: nat, phase: Phase) {
    phase.Counted? || phase.Holding? || phase.Written? ==> ChunkIndex(phase.start) < TotalChunks(size)
  }

  ghost predicate InsideInv(u: Upload, size: nat) {
    && (forall i | i in Marked(u.bits) :: i < TotalChunks(size))
    && (forall r | r in u.requests :: PhaseInside(size, u.requests[r]))
  }

  lemma ApplyKeepsInside(u: Upload, step: Step, size: nat)
    requires InsideInv(u, size) && AimsInside(size, step)
    ensures InsideInv(Apply(u, step), size)
  {
    var r := step.request;
    if r in u.requests { assert PhaseInside(size, u.requests[r]); }
    if step.Mark? && r in u.requests && u.requests[r].Written? {
      SetBitMarks(u.bits, ChunkIndex(u.requests[r].start));
    }
  }

  lemma {:induction false} RunKeepsInside(u: Upload, steps: seq<Step>, size: nat)
    requires InsideInv(u, size) && forall step | step in steps :: AimsInside(size, step)
    ensures InsideInv(Run(u, steps), size)
    decreases |steps|
  {
    if steps != [] {
      assert steps[0] in steps;
      ApplyKeepsInside(u, steps[0], size);
      RunKeepsInside(Apply(u, steps[0]), steps[1..], size);
    }
  }

  /** Whatever bytes the requests send, as long as their offsets are in the file's chunks, an upload counts as
      complete exactly when no chunk is missing. */
  lemma CountDecides(size: nat, steps: seq<Step>)
    requires forall step | step in steps :: AimsInside(size, step)
    ensures CountTells(size, steps)
  {
    assert Marked([]) == {};
    RunKeepsInside(Started(size), steps, size);
    var u := Run(Started(size), steps);
    assert Strays(u.bits, TotalChunks(size)) == {};
    CompleteByCount(u.bits, TotalChunks(size));
  }

  /** An offset below the size is in one of the chunks, so an upload whose offsets all are needs no more. */
  lemma OffsetsBelowSize(size: nat, steps: seq<Step>)
    requires forall step | step in steps && step.Begin? :: step.start < size
    ensures CountTells(size, steps)
  {
    forall step | step in steps ensures AimsInside(size, step) {
      if step.Begin? { BelowSizeInside(size, step.start); }
    }
    CountDecides(size, steps);
  }

  /** One request on its own, from counting in to settling. */
  function Sent(start: nat, body: seq<Byte>): seq<Step> {
    [Begin(0, start, start + |body|, body, false)]
    + ([Enter(0)] + ([Write(0)] + ([Mark(0)] + ([Release(0)] + ([Settle(0)] + [])))))
  }

  lemma SentHolds(u: Upload, start: nat, body: seq<Byte>, retypes: bool, rest: seq<Step>)
    requires u.requests == map[] && u.counter < MAX_CONCURRENT && |body| <= CHUNK_SIZE
    ensures Run(u, [Begin(0, start, start + |body|, body, retypes)] + ([Enter(0)] + rest))
         == Run(u.(counter := u.counter + 1, requests := map[0 := Holding(start, body, retypes)]), rest)
  {
    var begin := Begin(0, start, start + |body|, body, retypes);
    RunCons(u, begin, [Enter(0)] + rest);
    RunCons(Apply(u, begin), Enter(0), rest);
    assert Apply(Apply(u, begin), Enter(0)).requests == map[0 := Holding(start, body, retypes)];
  }

  lemma HeldMarks(u: Upload, start: nat, body: seq<Byte>, rest: seq<Step>)
    requires u.requests == map[0 := Holding(start, body, false)]
    ensures Run(u, [Write(0)] + ([Mark(0)] + rest))
         == Run(u.(file := WriteAt(u.file, start, body), bits := SetBit(u.bits, ChunkIndex(start)),
                   requests := map[0 := Leaving]), rest)
  {
    var v := Apply(u, Write(0));
    RunCons(u, Write(0), [Mark(0)] + rest);
    RunCons(v, Mark(0), rest);
    assert v.requests == map[0 := Written(start)];
    assert Apply(v, Mark(0)).requests == map[0 := Leaving];
  }

  lemma LeavingReleases(u: Upload, release: Step)
    requires u.requests == map[0 := Leaving] && release == Release(0)
    ensures Apply(u, release) == u.(counter := u.counter - 1, requests := map[0 := Settling(u.counter - 1)])
  {
    assert Apply(u, release).requests == map[0 := Settling(u.counter - 1)];
  }

  lemma SettlingEnds(u: Upload, settle: Step, count: nat)
    requires u.requests == map[0 := Settling(count)] && settle == Settle(0)
    ensures Apply(u, settle) == u.(requests := map[])
  {
    assert u.requests - {0} == map[];
  }

  lemma LeavingSettles(u: Upload)
    requires u.requests == map[0 := Leaving] && u.counter > 0
    ensures Run(u, [Release(0)] + ([Settle(0)] + [])) == u.(counter := u.counter - 1, requests := map[])
  {
    var release, settle := Release(0), Settle(0);
    LeavingReleases(u, release);
    RunCons(u, release, [settle] + []);
    SettlingEnds(Apply(u, release), settle, u.counter - 1);
    RunCons(Apply(u, release), settle, []);
  }

  lemma SentMarks(u: Upload, start: nat, body: seq<Byte>)
    requires u.requests == map[] && 0 <= u.counter < MAX_CONCURRENT && |body| <= CHUNK_SIZE
    ensures Run(u, Sent(start, body))
         == u.(file := WriteAt(u.file, start, body), bits := SetBit(u.bits, ChunkIndex(start)))
  {
    var last := [Release(0)] + ([Settle(0)] + []);
    var held := u.(counter := u.counter + 1, requests := map[0 := Holding(start, body, false)]);
    SentHolds(u, start, body, false, [Write(0)] + ([Mark(0)] + last));
    HeldMarks(held, start, body, last);
    LeavingSettles(held.(file := WriteAt(u.file, start, body), bits := SetBit(u.bits, ChunkIndex(start)),
                         requests := map[0 := Leaving]));
  }

  /** The chunks from the second one to the `n`th after it, each sent in full. */
  function AllButFirst(size: nat, n: nat): seq<Step> {
    if n == 0 then [] else AllButFirst(size, n - 1) + Sent(ChunkStart(n), ChunkOfZeros(size, n))
  }

  lemma {:induction false} AllButFirstInside(size: nat, n: nat)
    requires n < TotalChunks(size)
    ensures forall step | step in AllButFirst(size, n) :: AimsInside(size, step)
  {
    if n > 0 {
      AllButFirstInside(size, n - 1);
      StartsItsChunk(n);
    }
  }

  lemma NextMarks(u: Upload, size: nat, n: nat)
    requires n > 0 && u.requests == map[] && u.counter == 0 && Marked(u.bits) == Below(n) - {0}
    ensures var v := Run(u, Sent(ChunkStart(n), ChunkOfZeros(size, n)));
            v.requests == map[] && v.counter == 0 && Marked(v.bits) == Below(n + 1) - {0}
  {
    SentMarks(u, ChunkStart(n), ChunkOfZeros(size, n));
    StartsItsChunk(n);
    SetBitMarks(u.bits, n);
  }

  lemma {:induction false} AllButFirstMark(size: nat, n: nat)
    ensures var u := Run(Started(size), AllButFirst(size, n));
            u.requests == map[] && u.counter == 0 && Marked(u.bits) == Below(n + 1) - {0}
  {
    if n == 0 {
      assert Marked([]) == {};
    } else {
      AllButFirstMark(size, n - 1);
      RunConcat(Started(size), AllButFirst(size, n - 1), Sent(ChunkStart(n), ChunkOfZeros(size, n)));
      NextMarks(Run(Started(size), AllButFirst(size, n - 1)), size, n);
    }
  }

  lemma StrayCounts(bits: Bits, total: nat, stray: nat)
    requires 0 < total <= stray && Marked(bits) == Below(total) - {0} + {stray}
    ensures BitCount(bits) >= total && 0 in MissingBelow(bits, total)
  {
    BitCountIsMarked(bits);
    assert Below(total) - {0} + {0} == Below(total);
    MarkedBits(bits, 0);
  }

  /** All chunks but the first, and one byte at `start`. */
  function StrayRun(size: nat, start: nat): seq<Step>
    requires size > 0
  {
    AllButFirst(size, TotalChunks(size) - 1) + Sent(start, [0])
  }

  lemma StrayMarks(size: nat, start: nat)
    requires size > 0
    ensures Marked(Run(Started(size), StrayRun(size, start)).bits)
         == Below(TotalChunks(size)) - {0} + {ChunkIndex(start)}
  {
    var steps := AllButFirst(size, TotalChunks(size) - 1);
    AllButFirstMark(size, TotalChunks(size) - 1);
    var before := Run(Started(size), steps);
    RunConcat(Started(size), steps, Sent(start, [0]));
    SentMarks(before, start, [0]);
    SetBitMarks(before.bits, ChunkIndex(start));
  }

  /** On any file large enough to be sent in chunks: all chunks but the first, and one byte past the last chunk,
      count as a complete upload, and the first chunk is missing. */
  lemma StrayCompletes(size: nat, start: nat)
    requires size > 3 * CHUNK_SIZE && ChunkIndex(start) >= TotalChunks(size)
    ensures !CountTells(size, StrayRun(size, start))
  {
    StrayMarks(size, start);
    var u := Run(Started(size), StrayRun(size, start));
    StrayCounts(u.bits, TotalChunks(size), ChunkIndex(start));
    assert MissingBelow(u.bits, TotalChunks(size)) != {};
  }

  /** Every step aims inside, or at this offset. */
  ghost predicate AimsInsideOrAt(size: nat, start: nat, steps: seq<Step>) {
    forall step | step in steps :: AimsInside(size, step) || (step.Begin? && step.start == start)
  }

  /** An offset is harmless exactly when it is in one of the file's chunks: then, and only then, counting tells the
      truth in every run whose other requests aim inside. */
  lemma HarmlessOffset(size: nat, start: nat)
    requires size > 3 * CHUNK_SIZE
    ensures ChunkIndex(start) < TotalChunks(size)
       <==> forall steps | AimsInsideOrAt(size, start, steps) :: CountTells(size, steps)
  {
    if ChunkIndex(start) < TotalChunks(size) {
      forall steps | AimsInsideOrAt(size, start, steps) ensures CountTells(size, steps) {
        CountDecides(size, steps);
      }
    } else {
      StrayCompletes(size, start);
      AllButFirstInside(size, TotalChunks(size) - 1);
      assert AimsInsideOrAt(size, start, StrayRun(size, start));
    }
  }
}
