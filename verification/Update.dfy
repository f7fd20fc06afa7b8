/**
 The resumable image update: a session that accepts chunks at its own offset, the chunk channel in
 front of it, and `run_update`, which may be interrupted at any chunk and resumed later. SHA-256 is
 a free constructor, so equal digests mean equal images. `accepted` is a history variable: the data
 of the chunks the session accepted since it was opened, laid end to end; `finished` is another: how
 often a finalisation succeeded.
 */
module Update {
  import opened Common

  const CHUNK_MAX: nat := 192
  const MAGIC: int := 0x96F3_B83D

  datatype Digest = NoDigest | ZeroDigest | Sha256(image: seq<byte>)

  datatype Status = Unavailable | InvalidArgument | Conflict | Busy | InternalError

  /** `FakeUpdateSession`, without the link simulation. */
  datatype Session = Session(
    id: nat, hash: Digest, total: nat, offset: nat, active: bool,
    confirmed: bool, slot: int, cancelled: bool, accepted: seq<byte>, finished: nat)

  function AfterOpen(s: Session, total: nat, hash: Digest): Session {
    Session(s.id + 1, hash, total, 0, true, false, s.slot, false, [], s.finished)
  }

  function AfterCancel(s: Session): Session {
    s.(active := false, cancelled := true, offset := 0, total := 0, id := 0)
  }

  function AfterWrite(s: Session, id: nat, offset: int, data: seq<byte>): Result<Session, Status> {
    if !s.active then Err(Busy)
    else if id != s.id then Err(Conflict)
    else if offset != s.offset then Err(InvalidArgument)
    else Ok(s.(offset := s.offset + |data|, accepted := s.accepted + data))
  }

  function AfterFinish(s: Session): Result<Session, Status> {
    if !s.active || s.offset != s.total then Err(InvalidArgument)
    else Ok(s.(active := false, confirmed := false, slot := 1 - s.slot, finished := s.finished + 1))
  }

  /** The channel opens a session by itself when none is active. */
  function Ensure(s: Session, total: nat): Session {
    if s.active then s
    else AfterOpen(s, total, if s.hash == NoDigest then ZeroDigest else s.hash)
  }

  /** `write_chunk`: the session after the call, and the new offset or the error raised. */
  function AfterWriteChunk(s: Session, offset: int, total: nat, data: seq<byte>): (Session, Result<nat, Status>) {
    if |data| > CHUNK_MAX then (s, Err(InvalidArgument))
    else
      var e := Ensure(s, total);
      match AfterWrite(e, e.id, offset, data)
      case Err(x) => (e, Err(x))
      case Ok(w) => (w, Ok(w.offset))
  }

  /** `data[a:b]` with Python's rules for negative bounds. */
  function PySlice(s: seq<byte>, a: int, b: int): seq<byte> {
    var from, to := Clamp(a, |s|), Clamp(b, |s|);
    if from <= to then s[from..to] else []
  }

  function Clamp(i: int, n: nat): (r: nat)
    ensures r <= n
  {
    var j := if i < 0 then i + n else i;
    if j < 0 then 0 else if j > n then n else j
  }

  // ----- one call of run_update

  datatype Resume = Resume(device: string, hash: Digest, total: nat, id: nat, offset: int)

  /**
   What happens around one chunk, or around the finalisation: nothing, a lost link, a cancel request,
   Ctrl-C before or after it, or another exception after the chunk.
   */
  datatype Event = Proceed | Disconnect | CancelRequest | CtrlCBefore | CtrlCAfter | Abort

  datatype Outcome = Finished | Raised(status: Status) | Interrupted | Aborted | BadImage

  datatype Ran = Ran(session: Session, outcome: Outcome)

  /** `verify_signed_image_local`: a header and the boot magic. */
  predicate ImageHeader(image: seq<byte>) {
    |image| >= 32
    && (var (a: int, b: int, c: int, d: int) := (image[0], image[1], image[2], image[3]);
        a + 0x100 * b + 0x1_0000 * c + 0x100_0000 * d == MAGIC)
  }

  predicate MayResume(s: Session, device: string, image: seq<byte>, r: Resume) {
    && r.device == device && r.hash == Sha256(image) && r.total == |image| && r.id != 0
    && s.id == r.id && s.hash == Sha256(image) && s.total == |image|
  }

  /** The session and the offset a call starts with: a matching resume, or a fresh session. */
  function Begin(s: Session, device: string, image: seq<byte>, resume: Option<Resume>): (Session, int) {
    match resume
    case None => (AfterOpen(s, |image|, Sha256(image)), 0)
    case Some(r) =>
      if MayResume(s, device, image, r) then (s, r.offset)
      else (AfterOpen(AfterCancel(s), |image|, Sha256(image)), 0)
  }

  function NextEvent(events: seq<Event>): Event {
    if events == [] then Proceed else events[0]
  }

  function Later(events: seq<Event>): seq<Event> {
    if events == [] then [] else events[1..]
  }

  /** The chunk loop and the finalisation; `events` runs out into undisturbed chunks. */
  function Transfer(s: Session, image: seq<byte>, offset: int, events: seq<Event>): Ran
    decreases if offset < |image| then |image| - offset else 0
  {
    var event := NextEvent(events);
    if event.CtrlCBefore? then Ran(AfterCancel(s), Interrupted)
    else if offset >= |image| then
      match AfterFinish(s)
      case Err(x) => Ran(s, Raised(x))
      case Ok(f) =>
        if event.CtrlCAfter? then Ran(AfterCancel(f), Interrupted)
        else Ran(f, if f.confirmed then Raised(InternalError) else Finished)
    else
      if event.CancelRequest? then Ran(AfterCancel(s), Raised(Unavailable))
      else
        var chunk := PySlice(image, offset, offset + CHUNK_MAX);
        var e := Ensure(s, |image|);
        if event.Disconnect? && offset == e.offset then Ran(e, Raised(Unavailable))
        else
          var (w, r) := AfterWriteChunk(s, offset, |image|, chunk);
          if r.Err? then Ran(w, Raised(r.error))
          else if event.CtrlCAfter? then Ran(AfterCancel(w), Interrupted)
          else if event.Abort? then Ran(w, Aborted)
          else
            ChunkAdvances(s, image, offset);
            Transfer(w, image, r.value, Later(events))
  }

  /** `total - offset` decreases with every accepted chunk. */
  lemma ChunkAdvances(s: Session, image: seq<byte>, offset: int)
    requires offset < |image|
    ensures var r := AfterWriteChunk(s, offset, |image|, PySlice(image, offset, offset + CHUNK_MAX)).1;
            r.Ok? ==> 0 <= offset < r.value <= |image| && r.value <= offset + CHUNK_MAX
  {
  }

  function RunUpdate(s: Session, device: string, image: seq<byte>, resume: Option<Resume>, events: seq<Event>): Ran {
    if !ImageHeader(image) then Ran(s, BadImage)
    else
      var (b, offset) := Begin(s, device, image, resume);
      Transfer(b, image, offset, events)
  }

  // ----- the session object and the call, as the tool runs them

  class UpdateSession {
    var sessionId: nat
    var imageHash: Digest
    var totalSize: nat
    var offset: nat
    var active: bool
    var confirmed: bool
    var activeSlot: int
    var cancelled: bool
    ghost var accepted: seq<byte>
    ghost var finished: nat

    ghost function State(): Session
      reads this
    {
      Session(sessionId, imageHash, totalSize, offset, active, confirmed, activeSlot, cancelled, accepted, finished)
    }

    constructor ()
      ensures State() == NEW
    {
      sessionId, imageHash, totalSize, offset := 0, NoDigest, 0, 0;
      active, confirmed, activeSlot, cancelled, accepted, finished := false, true, 0, false, [], 0;
    }

    method Open(total: nat, hash: Digest)
      modifies this
      ensures State() == AfterOpen(old(State()), total, hash)
    {
      sessionId := sessionId + 1;
      totalSize := total;
      imageHash := hash;
      offset := 0;
      active := true;
      cancelled := false;
      confirmed := false;
      accepted := [];
    }

    method Cancel()
      modifies this
      ensures State() == AfterCancel(old(State()))
    {
      active := false;
      cancelled := true;
      offset := 0;
      totalSize := 0;
      sessionId := 0;
    }

    method Write(id: nat, at: int, data: seq<byte>, linkDown: bool) returns (r: Result<nat, Status>)
      modifies this
      ensures match AfterWrite(old(State()), id, at, data)
              case Err(x) => r == Err(x) && State() == old(State())
              case Ok(w) => if linkDown then r == Err(Unavailable) && State() == old(State())
                            else r == Ok(w.offset) && State() == w
    {
      if !active {
        return Err(Busy);
      }
      if id != sessionId {
        return Err(Conflict);
      }
      if at != offset {
        return Err(InvalidArgument);
      }
      if linkDown {
        return Err(Unavailable);
      }
      offset := at + |data|;
      accepted := accepted + data;
      r := Ok(offset);
    }

    method Finish() returns (r: Result<int, Status>)
      modifies this
      ensures match AfterFinish(old(State()))
              case Err(x) => r == Err(x) && State() == old(State())
              case Ok(f) => State() == f && r == Ok(activeSlot)
    {
      if !active || offset != totalSize {
        return Err(InvalidArgument);
      }
      active := false;
      confirmed := false;
      activeSlot := 1 - activeSlot;
      finished := finished + 1;
      r := Ok(activeSlot);
    }

    /** The channel's `write_chunk`. */
    method WriteChunk(at: int, total: nat, data: seq<byte>, linkDown: bool) returns (r: Result<nat, Status>)
      modifies this
      ensures var (w, result) := AfterWriteChunk(old(State()), at, total, data);
              var e := Ensure(old(State()), total);
              if linkDown && |data| <= CHUNK_MAX && at == e.offset then r == Err(Unavailable) && State() == e
              else r == result && State() == w
    {
      if |data| > CHUNK_MAX {
        return Err(InvalidArgument);
      }
      if !active {
        Open(total, if imageHash == NoDigest then ZeroDigest else imageHash);
      }
      r := Write(sessionId, at, data, linkDown);
    }

    /** `run_update` */
    method Run(device: string, image: seq<byte>, resume: Option<Resume>, events: seq<Event>) returns (r: Outcome)
      modifies this
      ensures Ran(State(), r) == RunUpdate(old(State()), device, image, resume, events)
    {
      hide PySlice, AfterWrite, AfterWriteChunk;
      if !ImageHeader(image) {
        return BadImage;
      }
      var total, hash, at := |image|, Sha256(image), 0;
      var restart := true;
      if resume.Some? {
        var want := resume.value;
        if want.device != device || want.hash != hash || want.total != total || want.id == 0 {
          Cancel();
        } else if sessionId != want.id || imageHash != hash || totalSize != total {
          Cancel();
        } else {
          restart := false;
          at := want.offset;
        }
      }
      if restart {
        Open(total, hash);
      }
      ghost var whole := Transfer(State(), image, at, events);
      assert whole == RunUpdate(old(State()), device, image, resume, events);
      hide RunUpdate;
      var pending := events;
      while at < total
        invariant Transfer(State(), image, at, pending) == whole
        decreases total - at
      {
        var event := NextEvent(pending);
        if event.CtrlCBefore? {
          Cancel();
          return Interrupted;
        }
        if event.CancelRequest? {
          Cancel();
          return Raised(Unavailable);
        }
        var chunk := PySlice(image, at, at + CHUNK_MAX);
        ChunkAdvances(State(), image, at);
        SliceIsShort(image, at);
        var written := WriteChunk(at, total, chunk, event.Disconnect?);
        if written.Err? {
          return Raised(written.error);
        }
        at := written.value;
        if event.CtrlCAfter? {
          Cancel();
          return Interrupted;
        }
        if event.Abort? {
          return Aborted;
        }
        pending := Later(pending);
      }
      if NextEvent(pending).CtrlCBefore? {
        Cancel();
        return Interrupted;
      }
      var slot := Finish();
      if slot.Err? {
        return Raised(slot.error);
      }
      if NextEvent(pending).CtrlCAfter? {
        Cancel();
        return Interrupted;
      }
      if confirmed {
        return Raised(InternalError);
      }
      r := Finished;
    }
  }

  lemma SliceIsShort(image: seq<byte>, offset: int)
    ensures |PySlice(image, offset, offset + CHUNK_MAX)| <= CHUNK_MAX
  {
  }

  // ----- safety over every sequence of calls

  /** What is active is always a prefix of the one image the session was opened for. */
  predicate Safe(s: Session) {
    s.active ==>
      && s.hash.Sha256? && s.total == |s.hash.image| && s.offset <= s.total
      && s.accepted == s.hash.image[..s.offset]
  }

  /** One accepted chunk extends that prefix; a refused one changes nothing that was accepted. */
  lemma ChunkKeepsPrefix(s: Session, image: seq<byte>, offset: int)
    requires Safe(s) && s.hash == Sha256(image) && offset < |image|
    ensures var (w, r) := AfterWriteChunk(s, offset, |image|, PySlice(image, offset, offset + CHUNK_MAX));
            var e := Ensure(s, |image|);
            && Safe(w) && Safe(e) && w.hash == Sha256(image) && e.hash == Sha256(image)
            && w.slot == s.slot && e.slot == s.slot && w.finished == s.finished && e.finished == s.finished
            && (r.Ok? ==> w.active && w.offset == r.value)
            && (r.Err? ==> r.error == InvalidArgument && w == e && (s.active ==> w == s))
            && (r.Ok? <==> offset == e.offset)
  {
    SliceIsShort(image, offset);
    var e := Ensure(s, |image|);
    if offset == e.offset {
      var n := |PySlice(image, offset, offset + CHUNK_MAX)|;
      assert image[..offset] + image[offset..offset + n] == image[..offset + n];
    }
  }

  /**
   The channel itself only compares offsets: a chunk of any image is accepted exactly at the open
   session's offset. That no bytes are mixed rests on calls not running at the same time.
   */
  lemma ChannelComparesOffsetsOnly(s: Session, total: nat, offset: int, data: seq<byte>)
    ensures var e := Ensure(s, total);
            var (w, r) := AfterWriteChunk(s, offset, total, data);
            && (r.Ok? <==> |data| <= CHUNK_MAX && offset == e.offset)
            && (r.Ok? ==> w.accepted == e.accepted + data && w.hash == e.hash)
  {
  }

  /**
   What a call does to the slot: it flips if and only if a finalisation succeeded, and then exactly
   the image had been accepted; the call reports success, or was interrupted right afterwards.
   */
  predicate Finalised(s: Session, r: Ran, image: seq<byte>) {
    && s.finished <= r.session.finished <= s.finished + 1
    && r.session.slot == (if r.session.finished == s.finished then s.slot else 1 - s.slot)
    && (r.session.finished > s.finished ==>
          && r.session.accepted == image && !r.session.active && !r.session.confirmed
          && (r.outcome == Finished || r.outcome == Interrupted))
    && (r.outcome == Finished ==> r.session.finished > s.finished)
  }

  lemma {:induction false} TransferIsSafe(s: Session, image: seq<byte>, offset: int, events: seq<Event>)
    requires Safe(s) && s.hash == Sha256(image)
    ensures var r := Transfer(s, image, offset, events);
            && Safe(r.session)
            && Finalised(s, r, image)
            && !r.outcome.BadImage? && r.outcome != Raised(InternalError)
    decreases if offset < |image| then |image| - offset else 0
  {
    hide AfterWriteChunk, AfterWrite, AfterOpen, Ensure, PySlice;
    if offset >= |image| {
      assert image[..|image|] == image;
    } else if !NextEvent(events).CancelRequest? && !NextEvent(events).CtrlCBefore? {
      ChunkKeepsPrefix(s, image, offset);
      ChunkAdvances(s, image, offset);
      var (w, r) := AfterWriteChunk(s, offset, |image|, PySlice(image, offset, offset + CHUNK_MAX));
      if r.Ok? {
        TransferIsSafe(w, image, r.value, Later(events));
      }
    }
  }

  lemma BeginIsSafe(s: Session, device: string, image: seq<byte>, resume: Option<Resume>)
    requires Safe(s)
    ensures var b := Begin(s, device, image, resume).0;
            Safe(b) && b.hash == Sha256(image) && b.slot == s.slot && b.finished == s.finished
  {
  }

  /** One call, whatever disturbs it: the invariant is kept, the slot flips exactly with a finalisation of the image. */
  lemma CallIsSafe(s: Session, device: string, image: seq<byte>, resume: Option<Resume>, events: seq<Event>)
    requires Safe(s)
    ensures var r := RunUpdate(s, device, image, resume, events);
            && Safe(r.session)
            && Finalised(s, r, image)
  {
    if ImageHeader(image) {
      BeginIsSafe(s, device, image, resume);
      var (b, offset) := Begin(s, device, image, resume);
      TransferIsSafe(b, image, offset, events);
    }
  }

  // ----- when the slot flips, exactly

  /** How many chunks a transfer from `offset` needs. */
  function ChunksLeft(image: seq<byte>, offset: int): nat
    decreases if offset < |image| then |image| - offset else 0
  {
    if offset >= |image| then 0 else 1 + ChunksLeft(image, offset + CHUNK_MAX)
  }

  function EventAt(events: seq<Event>, i: nat): Event {
    if i < |events| then events[i] else Proceed
  }

  /** All `n` chunks go through, and Ctrl-C does not come before the finalisation behind them. */
  predicate ReachesEnd(events: seq<Event>, n: nat) {
    (forall i :: 0 <= i < n ==> EventAt(events, i).Proceed?) && !EventAt(events, n).CtrlCBefore?
  }

  /** The next byte the session wants is the one the call starts with; past the end, there is none. */
  predicate Connects(s: Session, image: seq<byte>, offset: int) {
    if offset < |image| then offset == Ensure(s, |image|).offset else s.active && s.offset == |image|
  }

  /** What decides a call: the session and the events before it, nothing computed by the call. */
  predicate Completes(s: Session, device: string, image: seq<byte>, resume: Option<Resume>, events: seq<Event>) {
    var (b, offset) := Begin(s, device, image, resume);
    ImageHeader(image) && Connects(b, image, offset) && ReachesEnd(events, ChunksLeft(image, offset))
  }

  function LastEvent(image: seq<byte>, offset: int, events: seq<Event>): Event {
    EventAt(events, ChunksLeft(image, offset))
  }

  lemma ReachesEndStep(events: seq<Event>, n: nat)
    ensures ReachesEnd(events, n + 1) <==> NextEvent(events).Proceed? && ReachesEnd(Later(events), n)
    ensures EventAt(events, n + 1) == EventAt(Later(events), n)
    ensures ReachesEnd(events, 0) <==> !NextEvent(events).CtrlCBefore?
    ensures EventAt(events, 0) == NextEvent(events)
  {
    assert EventAt(events, 0) == NextEvent(events);
    assert forall i: nat :: EventAt(events, i + 1) == EventAt(Later(events), i);
    if NextEvent(events).Proceed? && ReachesEnd(Later(events), n) {
      forall i | 0 <= i < n + 1 ensures EventAt(events, i).Proceed? {
        assert i > 0 ==> EventAt(events, i) == EventAt(Later(events), i - 1);
      }
    }
  }

  lemma ChunkReaches(s: Session, image: seq<byte>, offset: int)
    requires Safe(s) && s.hash == Sha256(image) && offset < |image| && offset == Ensure(s, |image|).offset
    ensures var (w, r) := AfterWriteChunk(s, offset, |image|, PySlice(image, offset, offset + CHUNK_MAX));
            && r.Ok? && offset < r.value && Connects(w, image, r.value)
            && ChunksLeft(image, offset) == 1 + ChunksLeft(image, r.value)
  {
    ChunkKeepsPrefix(s, image, offset);
    ChunkAdvances(s, image, offset);
    var r := AfterWriteChunk(s, offset, |image|, PySlice(image, offset, offset + CHUNK_MAX)).1;
    assert r.value == offset + CHUNK_MAX || (r.value == |image| && offset + CHUNK_MAX >= |image|);
  }

  /**
   A transfer flips the slot exactly when it starts where the session stands and its events let it
   reach the end; it reports success exactly when, besides, no Ctrl-C follows the finalisation.
   */
  lemma {:induction false} TransferFlipsExactly(s: Session, image: seq<byte>, offset: int, events: seq<Event>)
    requires Safe(s) && s.hash == Sha256(image)
    ensures var r := Transfer(s, image, offset, events);
            var completes := Connects(s, image, offset) && ReachesEnd(events, ChunksLeft(image, offset));
            && (r.session.slot != s.slot <==> completes)
            && (r.outcome == Finished <==> completes && !LastEvent(image, offset, events).CtrlCAfter?)
    decreases if offset < |image| then |image| - offset else 0
  {
    hide AfterWriteChunk, AfterWrite, AfterOpen, Ensure, PySlice, ReachesEnd;
    ReachesEndStep(events, 0);
    if offset < |image| {
      ChunkKeepsPrefix(s, image, offset);
      var (w, r) := AfterWriteChunk(s, offset, |image|, PySlice(image, offset, offset + CHUNK_MAX));
      assert r.Ok? <==> offset == Ensure(s, |image|).offset;
      if r.Ok? {
        ChunkReaches(s, image, offset);
        ReachesEndStep(events, ChunksLeft(image, r.value));
        TransferFlipsExactly(w, image, r.value, Later(events));
      }
    }
  }

  /** The same for a whole call, with any session, any resume record and any disturbances. */
  lemma SlotFlipsExactly(s: Session, device: string, image: seq<byte>, resume: Option<Resume>, events: seq<Event>)
    requires Safe(s)
    ensures var r := RunUpdate(s, device, image, resume, events);
            var completes := Completes(s, device, image, resume, events);
            var last := LastEvent(image, Begin(s, device, image, resume).1, events);
            && (r.session.slot != s.slot <==> completes)
            && (r.outcome == Finished <==> completes && !last.CtrlCAfter?)
            && (completes && last.CtrlCAfter? ==> r.outcome == Interrupted)
  {
    CallIsSafe(s, device, image, resume, events);
    if ImageHeader(image) {
      BeginIsSafe(s, device, image, resume);
      var (b, offset) := Begin(s, device, image, resume);
      TransferFlipsExactly(b, image, offset, events);
    }
  }

  /**
   Which calls flip the slot and still report an interruption: for a fresh upload those, and only
   those, whose first disturbance is a Ctrl-C right behind the finalisation.
   */
  lemma UnreportedFlipExactly(s: Session, device: string, image: seq<byte>, events: seq<Event>)
    requires Safe(s) && ImageHeader(image)
    ensures var r := RunUpdate(s, device, image, None, events);
            var n := ChunksLeft(image, 0);
            (r.session.slot != s.slot && r.outcome != Finished)
            <==> (|events| > n && events[n].CtrlCAfter? && forall i :: 0 <= i < n ==> events[i].Proceed?)
  {
    SlotFlipsExactly(s, device, image, None, events);
    var n := ChunksLeft(image, 0);
    if |events| > n {
      assert forall i :: 0 <= i < n ==> EventAt(events, i) == events[i];
    }
  }

  /** Such a run: a one-chunk image, and Ctrl-C between the finalisation and the report. */
  lemma InterruptedAfterFlip(rest: seq<byte>, s: Session)
    requires Safe(s) && 28 <= |rest| < CHUNK_MAX - 4
    ensures var image := [0x3D, 0xB8, 0xF3, 0x96] + rest;
            var r := RunUpdate(s, "core", image, None, [Proceed, CtrlCAfter]);
            r.session.slot != s.slot && r.outcome == Interrupted
  {
    var image := [0x3D, 0xB8, 0xF3, 0x96] + rest;
    assert ChunksLeft(image, 0) == 1;
    UnreportedFlipExactly(s, "core", image, [Proceed, CtrlCAfter]);
    SlotFlipsExactly(s, "core", image, None, [Proceed, CtrlCAfter]);
  }

  datatype Call = Call(device: string, image: seq<byte>, resume: Option<Resume>, events: seq<Event>)

  /** The session after a history, how many of its calls reported success, and how many met `Completes`. */
  datatype History = History(session: Session, reported: nat, completed: nat)

  /** Any calls one after the other, with any images, resume records and disturbances. */
  function RunAll(s: Session, calls: seq<Call>): History {
    if calls == [] then History(s, 0, 0)
    else
      var c := calls[|calls| - 1];
      var before := RunAll(s, calls[..|calls| - 1]);
      var r := RunUpdate(before.session, c.device, c.image, c.resume, c.events);
      var completes := Completes(before.session, c.device, c.image, c.resume, c.events);
      History(r.session,
              before.reported + (if r.outcome == Finished then 1 else 0),
              before.completed + if completes then 1 else 0)
  }

  const NEW: Session := Session(0, NoDigest, 0, 0, false, true, 0, false, [], 0)

  /** Over every history the invariant holds and the slot counts the calls that complete, reported or not. */
  lemma {:induction false} EveryHistoryIsSafe(calls: seq<Call>)
    ensures var h := RunAll(NEW, calls);
            && Safe(h.session) && h.session.slot == h.completed % 2
            && h.reported <= h.completed == h.session.finished
  {
    if calls != [] {
      EveryHistoryIsSafe(calls[..|calls| - 1]);
      var c := calls[|calls| - 1];
      var before := RunAll(NEW, calls[..|calls| - 1]).session;
      CallIsSafe(before, c.device, c.image, c.resume, c.events);
      SlotFlipsExactly(before, c.device, c.image, c.resume, c.events);
    }
  }

  // ----- resuming

  /**
   A resume with an offset other than the session's own accepts nothing, whatever else happens. Left
   undisturbed it is refused, unless the session already holds the whole image and the offset lies
   behind its end: then the complete image is finalised.
   */
  lemma StaleOffsetAcceptsNothing(s: Session, device: string, image: seq<byte>, r: Resume, events: seq<Event>)
    requires Safe(s) && s.active && ImageHeader(image) && MayResume(s, device, image, r)
    requires r.offset != s.offset
    ensures RunUpdate(s, device, image, Some(r), events).session.accepted == s.accepted
    ensures r.offset < |image| || s.offset < |image| ==>
              RunUpdate(s, device, image, Some(r), []) == Ran(s, Raised(InvalidArgument))
    ensures r.offset >= |image| && s.offset == |image| ==>
              RunUpdate(s, device, image, Some(r), []).outcome == Finished && s.accepted == image
  {
    if r.offset < |image| {
      ChunkKeepsPrefix(s, image, r.offset);
    } else {
      assert image[..|image|] == image;
    }
  }

  /** The record of an interrupted session, as its status reports it. */
  function Checkpoint(s: Session, device: string): Resume {
    Resume(device, s.hash, s.total, s.id, s.offset)
  }

  lemma {:induction false} UndisturbedTransferFinishes(s: Session, image: seq<byte>)
    requires Safe(s) && s.active && s.hash == Sha256(image)
    ensures Transfer(s, image, s.offset, []).outcome == Finished
    decreases |image| - s.offset
  {
    if s.offset < |image| {
      ChunkKeepsPrefix(s, image, s.offset);
      ChunkAdvances(s, image, s.offset);
      var w := AfterWriteChunk(s, s.offset, |image|, PySlice(image, s.offset, s.offset + CHUNK_MAX)).0;
      UndisturbedTransferFinishes(w, image);
    }
  }

  /** An interrupted update, resumed with its checkpoint and not disturbed again, completes the same image. */
  lemma ResumeCompletes(s: Session, device: string, image: seq<byte>)
    requires Safe(s) && s.active && s.id != 0 && s.hash == Sha256(image) && ImageHeader(image)
    ensures var r := RunUpdate(s, device, image, Some(Checkpoint(s, device)), []);
            r.outcome == Finished && r.session.accepted == image && r.session.slot == 1 - s.slot
  {
    UndisturbedTransferFinishes(s, image);
    TransferIsSafe(s, image, s.offset, []);
  }

  lemma {:induction false} InterruptionLeavesSession(s: Session, image: seq<byte>, offset: int, events: seq<Event>)
    requires Safe(s) && s.active && s.id != 0 && s.hash == Sha256(image)
    ensures var r := Transfer(s, image, offset, events);
            r.outcome == Aborted ==> r.session.active && r.session.id != 0 && r.session.hash == Sha256(image)
    decreases if offset < |image| then |image| - offset else 0
  {
    if offset < |image| && !NextEvent(events).CancelRequest? && !NextEvent(events).CtrlCBefore? {
      ChunkKeepsPrefix(s, image, offset);
      ChunkAdvances(s, image, offset);
      var (w, r) := AfterWriteChunk(s, offset, |image|, PySlice(image, offset, offset + CHUNK_MAX));
      if r.Ok? {
        InterruptionLeavesSession(w, image, r.value, Later(events));
      }
    }
  }

  /** So an update aborted after any chunk can always be completed from where it stopped. */
  lemma AbortedUpdateIsResumable(s: Session, device: string, image: seq<byte>, events: seq<Event>)
    requires Safe(s) && RunUpdate(s, device, image, None, events).outcome == Aborted
    ensures var t := RunUpdate(s, device, image, None, events).session;
            var r := RunUpdate(t, device, image, Some(Checkpoint(t, device)), []);
            r.outcome == Finished && r.session.accepted == image
  {
    var b := Begin(s, device, image, None).0;
    TransferIsSafe(b, image, 0, events);
    InterruptionLeavesSession(b, image, 0, events);
    ResumeCompletes(RunUpdate(s, device, image, None, events).session, device, image);
  }
}
