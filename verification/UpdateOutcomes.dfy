/**
 How an update call leaves the session, field by field: what a cancel undoes, where a lost link or an
 abort stops, and what the next call makes of a record taken before.
 */
module UpdateOutcomes {
  import opened Common
  import opened Update

  // ----- cancelled updates

  /** How many chunks go through before the first disturbance. */
  function Undisturbed(events: seq<Event>): (n: nat)
    ensures n <= |events| && (n < |events| ==> !events[n].Proceed?)
    ensures forall i :: 0 <= i < n ==> events[i].Proceed?
  {
    if events == [] || !events[0].Proceed? then 0 else 1 + Undisturbed(events[1..])
  }

  /**
   The first disturbance cancels: a cancel request or a Ctrl-C at a chunk the transfer gets to, or a
   Ctrl-C around the finalisation. Ctrl-C behind a step counts only when the step succeeds.
   */
  predicate CancelsFrom(s: Session, image: seq<byte>, offset: int, events: seq<Event>) {
    var i, n, connects := Undisturbed(events), ChunksLeft(image, offset), Connects(s, image, offset);
    && i < |events| && i <= n && (i > 0 ==> connects)
    && match events[i]
       case CtrlCBefore => true
       case CancelRequest => i < n
       case CtrlCAfter => connects
       case _ => false
  }

  predicate Cancels(s: Session, device: string, image: seq<byte>, resume: Option<Resume>, events: seq<Event>) {
    var (b, offset) := Begin(s, device, image, resume);
    CancelsFrom(b, image, offset, events)
  }

  /** Nothing is left of the update but a session nobody can continue. */
  predicate IsCancelled(s: Session) {
    !s.active && s.cancelled && s.offset == 0 && s.total == 0 && s.id == 0
  }

  lemma UndisturbedStep(events: seq<Event>)
    requires events != []
    ensures Undisturbed(events) == if events[0].Proceed? then 1 + Undisturbed(events[1..]) else 0
  {
  }

  /** A chunk at the session's offset goes through and leaves the session connected. */
  lemma ChunkGoesThrough(s: Session, image: seq<byte>, offset: int)
    requires offset < |image|
    ensures var (w, r) := AfterWriteChunk(s, offset, |image|, PySlice(image, offset, offset + CHUNK_MAX));
            var e := Ensure(s, |image|);
            && (r.Ok? <==> Connects(s, image, offset))
            && (r.Err? ==> w == e) && ChunksLeft(image, offset) > 0
            && (r.Ok? ==>
                  var to := if offset + 192 <= |image| then offset + 192 else |image|;
                  && 0 <= offset < to && r.value == to && Connects(w, image, to)
                  && w == e.(offset := to, accepted := e.accepted + image[offset..to])
                  && ChunksLeft(image, offset) == 1 + ChunksLeft(image, to))
  {
  }

  lemma CancelsLater(s: Session, image: seq<byte>, offset: int, events: seq<Event>)
    requires offset < |image| && NextEvent(events).Proceed? && Connects(s, image, offset)
    ensures var w := AfterWriteChunk(s, offset, |image|, PySlice(image, offset, offset + CHUNK_MAX)).0;
            CancelsFrom(s, image, offset, events) <==> CancelsFrom(w, image, w.offset, Later(events))
  {
    hide AfterWriteChunk, AfterWrite, PySlice, ChunksLeft, Connects, Ensure;
    ChunkGoesThrough(s, image, offset);
    if events != [] {
      UndisturbedStep(events);
    }
  }

  lemma {:induction false} TransferCancels(s: Session, image: seq<byte>, offset: int, events: seq<Event>)
    requires s.id != 0 && s.total == |image|
    ensures var r := Transfer(s, image, offset, events);
            && (CancelsFrom(s, image, offset, events) <==> r.session.id == 0)
            && (r.session.id == 0 ==>
                  && IsCancelled(r.session)
                  && r.outcome == if events[Undisturbed(events)].CancelRequest? then Raised(Unavailable)
                                  else Interrupted)
            && (r.outcome == Interrupted ==> r.session.id == 0)
    decreases if offset < |image| then |image| - offset else 0
  {
    hide AfterWriteChunk, AfterWrite, PySlice, ChunksLeft;
    if events != [] {
      UndisturbedStep(events);
    }
    if offset < |image| {
      ChunkGoesThrough(s, image, offset);
      ChunkAdvances(s, image, offset);
      if NextEvent(events).Proceed? && Connects(s, image, offset) {
        CancelsLater(s, image, offset, events);
        var (w, r) := AfterWriteChunk(s, offset, |image|, PySlice(image, offset, offset + CHUNK_MAX));
        TransferCancels(w, image, r.value, Later(events));
      }
    } else {
      assert ChunksLeft(image, offset) == 0 by {
        NoChunksLeft(image, offset);
      }
    }
  }

  lemma NoChunksLeft(image: seq<byte>, offset: int)
    requires offset >= |image|
    ensures ChunksLeft(image, offset) == 0
  {
  }

  /**
   When a call cancels, and what that leaves: no session id, no size, no offset, nothing active. The
   call then reports the cancel request, or the interruption; an interruption is reported only so.
   */
  lemma CancelledExactly(s: Session, device: string, image: seq<byte>, resume: Option<Resume>, events: seq<Event>)
    requires ImageHeader(image)
    ensures var r := RunUpdate(s, device, image, resume, events);
            && (Cancels(s, device, image, resume, events) <==> r.session.id == 0)
            && (r.session.id == 0 ==>
                  && !r.session.active && r.session.cancelled && r.session.offset == 0 && r.session.total == 0
                  && r.outcome == if events[Undisturbed(events)].CancelRequest? then Raised(Unavailable)
                                  else Interrupted)
            && (r.outcome == Interrupted ==> r.session.id == 0)
  {
    var (b, offset) := Begin(s, device, image, resume);
    TransferCancels(b, image, offset, events);
  }

  // ----- how far an update gets

  function Min(a: nat, b: nat): nat {
    if a < b then a else b
  }

  /** The session with its data extended from its own offset up to `to`. */
  function Filled(s: Session, image: seq<byte>, to: nat): Session
    requires s.offset <= to <= |image|
  {
    s.(offset := to, accepted := s.accepted + image[s.offset..to])
  }

  lemma FilledTwice(s: Session, image: seq<byte>, middle: nat, to: nat)
    requires s.offset <= middle <= to <= |image|
    ensures Filled(Filled(s, image, middle), image, to) == Filled(s, image, to)
  {
    assert image[s.offset..middle] + image[middle..to] == image[s.offset..to];
  }

  lemma FillsChunk(s: Session, image: seq<byte>)
    requires s.active && s.offset < |image|
    ensures var to := Min(|image|, s.offset + 192);
            AfterWriteChunk(s, s.offset, |image|, PySlice(image, s.offset, s.offset + CHUNK_MAX))
              == (Filled(s, image, to), Ok(to))
  {
  }

  lemma {:induction false} TransferStops(s: Session, image: seq<byte>, events: seq<Event>, k: nat)
    requires s.active && s.offset + 192 * k < |image| && k < |events|
    requires forall i :: 0 <= i < k ==> events[i].Proceed?
    ensures var (r, o) := (Transfer(s, image, s.offset, events), s.offset + 192 * k);
            && (events[k].Disconnect? ==> r == Ran(Filled(s, image, o), Raised(Unavailable)))
            && (events[k].Abort? ==> r == Ran(Filled(s, image, Min(|image|, o + 192)), Aborted))
    decreases k
  {
    hide AfterWriteChunk, AfterWrite, PySlice, Filled;
    FillsChunk(s, image);
    FillsNothing(s, image);
    if k > 0 {
      var w := Filled(s, image, s.offset + 192);
      FilledKeeps(s, image, s.offset + 192);
      ChunkAdvances(s, image, s.offset);
      TransferStops(w, image, events[1..], k - 1);
      FilledTwice(s, image, s.offset + 192, s.offset + 192 * k);
      FilledTwice(s, image, s.offset + 192, Min(|image|, s.offset + 192 * k + 192));
    }
  }

  lemma FillsNothing(s: Session, image: seq<byte>)
    requires s.offset <= |image|
    ensures Filled(s, image, s.offset) == s
  {
  }

  lemma FilledKeeps(s: Session, image: seq<byte>, to: nat)
    requires s.offset <= to <= |image|
    ensures Filled(s, image, to) == s.(offset := to, accepted := Filled(s, image, to).accepted)
  {
  }

  lemma {:induction false} TransferEnds(s: Session, image: seq<byte>, events: seq<Event>)
    requires s.active && s.offset <= |image| == s.total
    requires forall i :: 0 <= i < |events| ==> events[i].Proceed?
    ensures Transfer(s, image, s.offset, events)
         == Ran(Filled(s, image, |image|).(active := false, confirmed := false, slot := 1 - s.slot,
                                           finished := s.finished + 1), Finished)
    decreases |image| - s.offset
  {
    hide AfterWriteChunk, AfterWrite, PySlice, Filled;
    if s.offset < |image| {
      var to := Min(|image|, s.offset + 192);
      FillsChunk(s, image);
      FilledKeeps(s, image, to);
      ChunkAdvances(s, image, s.offset);
      FilledTwice(s, image, to, |image|);
      TransferEnds(Filled(s, image, to), image, Later(events));
    } else {
      FillsNothing(s, image);
    }
  }

  /** The record names this device, this image and the session that is open for it. */
  predicate Matches(s: Session, device: string, image: seq<byte>, resume: Option<Resume>) {
    && resume.Some? && s.id != 0
    && resume.value.device == device && resume.value.hash == s.hash == Sha256(image)
    && resume.value.total == s.total == |image| && resume.value.id == s.id
  }

  /** The session a fresh upload has filled up to `to`. */
  function Fresh(s: Session, image: seq<byte>, renewed: bool, to: nat): Session
    requires to <= |image|
  {
    Session(if renewed then 1 else s.id + 1, Sha256(image), |image|, to, true, false, s.slot, false,
            image[..to], s.finished)
  }

  /**
   An upload without a matching record starts over, under id 1 if it brought a useless record: a link
   lost at chunk `k` leaves exactly the first 192 * k bytes, an abort behind it one chunk more.
   */
  lemma FreshUploadStops(s: Session, device: string, image: seq<byte>, resume: Option<Resume>,
                         events: seq<Event>, k: nat)
    requires ImageHeader(image) && !Matches(s, device, image, resume)
    requires k < |events| && 192 * k < |image| && forall i :: 0 <= i < k ==> events[i].Proceed?
    ensures var (r, renewed) := (RunUpdate(s, device, image, resume, events), resume.Some?);
            && (events[k].Disconnect? ==> r == Ran(Fresh(s, image, renewed, 192 * k), Raised(Unavailable)))
            && (events[k].Abort? ==> r == Ran(Fresh(s, image, renewed, Min(|image|, 192 * k + 192)), Aborted))
  {
    hide RunUpdate, Transfer, Matches, ImageHeader, Filled;
    var b := Fresh(s, image, resume.Some?, 0);
    StartsFresh(s, device, image, resume, events);
    TransferStops(b, image, events, k);
    FillsFresh(s, image, resume.Some?, 192 * k);
    FillsFresh(s, image, resume.Some?, Min(|image|, 192 * k + 192));
  }

  /** Left alone it accepts the whole image and finalises it. */
  lemma FreshUploadEnds(s: Session, device: string, image: seq<byte>, resume: Option<Resume>, events: seq<Event>)
    requires ImageHeader(image) && !Matches(s, device, image, resume)
    requires forall i :: 0 <= i < |events| ==> events[i].Proceed?
    ensures RunUpdate(s, device, image, resume, events)
         == Ran(Fresh(s, image, resume.Some?, |image|).(active := false, slot := 1 - s.slot,
                                                        finished := s.finished + 1), Finished)
  {
    hide RunUpdate, Transfer, Matches, ImageHeader, Filled;
    StartsFresh(s, device, image, resume, events);
    TransferEnds(Fresh(s, image, resume.Some?, 0), image, events);
    FillsFresh(s, image, resume.Some?, |image|);
  }

  lemma FillsFresh(s: Session, image: seq<byte>, renewed: bool, to: nat)
    requires to <= |image|
    ensures Filled(Fresh(s, image, renewed, 0), image, to) == Fresh(s, image, renewed, to)
  {
    assert [] + image[0..to] == image[..to];
  }

  lemma StartsFresh(s: Session, device: string, image: seq<byte>, resume: Option<Resume>, events: seq<Event>)
    requires ImageHeader(image) && !Matches(s, device, image, resume)
    ensures RunUpdate(s, device, image, resume, events)
         == Transfer(Fresh(s, image, resume.Some?, 0), image, 0, events)
  {
  }

  /** An upload resumed at the session's own offset continues from there in the same way. */
  lemma ResumedUploadStops(s: Session, device: string, image: seq<byte>, resume: Option<Resume>,
                         events: seq<Event>, k: nat)
    requires ImageHeader(image) && Matches(s, device, image, resume) && s.active && resume.value.offset == s.offset
    requires k < |events| && s.offset + 192 * k < |image| && forall i :: 0 <= i < k ==> events[i].Proceed?
    ensures var (r, o) := (RunUpdate(s, device, image, resume, events), s.offset + 192 * k);
            && (events[k].Disconnect? ==> r == Ran(Filled(s, image, o), Raised(Unavailable)))
            && (events[k].Abort? ==> r == Ran(Filled(s, image, Min(|image|, o + 192)), Aborted))
  {
    hide RunUpdate, Transfer, Matches, ImageHeader, Filled;
    ContinuesSession(s, device, image, resume, events);
    TransferStops(s, image, events, k);
  }

  lemma ResumedUploadEnds(s: Session, device: string, image: seq<byte>, resume: Option<Resume>, events: seq<Event>)
    requires ImageHeader(image) && Matches(s, device, image, resume)
    requires s.active && resume.value.offset == s.offset <= |image|
    requires forall i :: 0 <= i < |events| ==> events[i].Proceed?
    ensures RunUpdate(s, device, image, resume, events)
         == Ran(Filled(s, image, |image|).(active := false, confirmed := false, slot := 1 - s.slot,
                                           finished := s.finished + 1), Finished)
  {
    ContinuesSession(s, device, image, resume, events);
    hide RunUpdate, Transfer, ImageHeader, Filled;
    TransferEnds(s, image, events);
  }

  lemma ContinuesSession(s: Session, device: string, image: seq<byte>, resume: Option<Resume>, events: seq<Event>)
    requires ImageHeader(image) && Matches(s, device, image, resume)
    ensures RunUpdate(s, device, image, resume, events) == Transfer(s, image, resume.value.offset, events)
  {
  }

  /** What is taken for an image: at least 32 bytes that start with the boot magic; anything else changes nothing. */
  lemma ImageIsRecognisedExactly(s: Session, device: string, image: seq<byte>, resume: Option<Resume>,
                                 events: seq<Event>)
    ensures var r := RunUpdate(s, device, image, resume, events);
            && (r.outcome == BadImage <==> |image| < 32 || image[..4] != [0x3D, 0xB8, 0xF3, 0x96])
            && (r.outcome == BadImage ==> r.session == s)
  {
    if |image| >= 32 {
      MagicBytes(image[0], image[1], image[2], image[3]);
      assert image[..4] == [image[0], image[1], image[2], image[3]];
    }
    if ImageHeader(image) {
      var (b, offset) := Begin(s, device, image, resume);
      NeverBadImage(b, image, offset, events);
    }
  }

  lemma {:induction false} NeverBadImage(s: Session, image: seq<byte>, offset: int, events: seq<Event>)
    ensures Transfer(s, image, offset, events).outcome != BadImage
    decreases if offset < |image| then |image| - offset else 0
  {
    hide PySlice, AfterWriteChunk;
    if offset < |image| {
      ChunkAdvances(s, image, offset);
      var (w, r) := AfterWriteChunk(s, offset, |image|, PySlice(image, offset, offset + CHUNK_MAX));
      if r.Ok? {
        NeverBadImage(w, image, r.value, Later(events));
      }
    }
  }

  lemma MagicBytes(a: byte, b: byte, c: byte, d: byte)
    ensures a + 0x100 * b + 0x1_0000 * c + 0x100_0000 * d == 0x96F3_B83D
       <==> [a, b, c, d] == [0x3D, 0xB8, 0xF3, 0x96]
  {
  }

  // ----- behind a cancel

  /**
   A record taken before the cancel is worth nothing to the next call: whatever record it brings, it
   does what it does without one, under session id 1, from offset 0 and with nothing accepted yet.
   */
  lemma CancelledUpdateRestarts(s: Session, device: string, image: seq<byte>, resume: Option<Resume>,
                                events: seq<Event>, device2: string, image2: seq<byte>, record: Resume,
                                events2: seq<Event>)
    requires ImageHeader(image) && ImageHeader(image2) && Cancels(s, device, image, resume, events)
    ensures var t := RunUpdate(s, device, image, resume, events).session;
            && RunUpdate(t, device2, image2, Some(record), events2) == RunUpdate(t, device2, image2, None, events2)
            && RunUpdate(t, device2, image2, Some(record), [Disconnect]).session
                 == Session(1, Sha256(image2), |image2|, 0, true, false, t.slot, false, [], t.finished)
            && RunUpdate(t, device2, image2, Some(record), []).outcome == Finished
            && RunUpdate(t, device2, image2, Some(record), []).session.accepted == image2
  {
    CancelledExactly(s, device, image, resume, events);
    var t := RunUpdate(s, device, image, resume, events).session;
    hide RunUpdate, Cancels;
    FreshUploadStops(t, device2, image2, Some(record), [Disconnect], 0);
    FreshUploadEnds(t, device2, image2, Some(record), []);
    RecordIsUseless(t, device2, image2, record, events2);
  }

  lemma RecordIsUseless(t: Session, device: string, image: seq<byte>, record: Resume, events: seq<Event>)
    requires IsCancelled(t)
    ensures RunUpdate(t, device, image, Some(record), events) == RunUpdate(t, device, image, None, events)
  {
    assert AfterCancel(t) == t;
  }

  /**
   That holds for the next call only. Ids start again at 1 behind a cancel, so the old record of a
   session with id 1 matches once more as soon as the same image was begun anew.
   */
  lemma OldRecordMatchesAgain(device: string, image: seq<byte>)
    requires ImageHeader(image)
    ensures var first := RunUpdate(NEW, device, image, None, [Abort]).session;
            var record := Some(Checkpoint(first, device));
            var cancelled := RunUpdate(first, device, image, record, [CtrlCBefore]).session;
            var again := RunUpdate(cancelled, device, image, None, [Disconnect]).session;
            IsCancelled(cancelled) && Matches(again, device, image, record) && again.offset != record.value.offset
  {
    hide RunUpdate, Transfer;
    FreshUploadStops(NEW, device, image, None, [Abort], 0);
    var first := RunUpdate(NEW, device, image, None, [Abort]).session;
    var record := Some(Checkpoint(first, device));
    CancelledExactly(first, device, image, record, [CtrlCBefore]);
    var cancelled := RunUpdate(first, device, image, record, [CtrlCBefore]).session;
    FreshUploadStops(cancelled, device, image, None, [Disconnect], 0);
  }
}
