/**
 One request to the Core over the COBS link: the reply parser, the byte-wise receive loop and the
 retries. The parser may also fail in a way the loop does not catch: where it expects the bytes of a
 submessage and finds a varint, it raises a type error that ends the whole exchange.
 */
module CoreLink {
  import opened Common
  import opened Cobs
  import opened CobsLink
  import opened Fields
  import opened FieldCodec

  const BODY_FIRST: nat := 10
  const BODY_LAST: nat := 14

  datatype Reply = Reply(nonce: Value, kind: Option<nat>, inner: FieldMap)

  /** A reply, a value error (the loop goes on), or a type error (it escapes the loop). */
  datatype Parsed = Good(reply: Reply) | Invalid | Escapes

  /** The lowest body field present, which alone decides how the message is read. */
  function BodyOf(top: FieldMap, from: nat): Option<nat>
    decreases BODY_LAST + 1 - from
  {
    if from > BODY_LAST then None else if from in top then Some(from) else BodyOf(top, from + 1)
  }

  /** `parse_core`, up to the display of the submessage it found. */
  function ParseCore(data: seq<byte>): Parsed {
    match ParseFields(data)
    case Err(_) => Invalid
    case Ok(es) =>
      var top := Group(es);
      var nonce, body := First(top, 1, Varint(0)), BodyOf(top, BODY_FIRST);
      if body.None? then Good(Reply(nonce, None, map[]))
      else
        match First(top, body.value, Varint(0))
        case Varint(_) => Escapes
        case Bytes(inner) =>
          match ParseFields(inner)
          case Err(_) => Invalid
          case Ok(entries) => Good(Reply(nonce, body, Group(entries)))
  }

  /** The nonce a request carries, by the same reader; a request that does not parse is refused. */
  function ExpectedNonce(payload: seq<byte>): Option<Value> {
    match ParseFields(payload)
    case Err(_) => None
    case Ok(es) => Some(First(Group(es), 1, Varint(0)))
  }

  // ----- what one received frame does to the exchange

  datatype Verdict = Ignored | Answer(reply: Reply) | Escape

  function Judge(nonce: Value, frame: Decoded): Verdict {
    if frame.Err? then Ignored
    else
      match ParseCore(frame.value)
      case Invalid => Ignored
      case Escapes => Escape
      case Good(reply) => if reply.nonce == nonce then Answer(reply) else Ignored
  }

  /** The verdict of the first frame that is not ignored. */
  function FirstVerdict(nonce: Value, frames: seq<Decoded>): Verdict {
    if frames == [] then Ignored
    else if Judge(nonce, frames[0]).Ignored? then FirstVerdict(nonce, frames[1..])
    else Judge(nonce, frames[0])
  }

  predicate AllIgnored(nonce: Value, frames: seq<Decoded>) {
    forall i :: 0 <= i < |frames| ==> Judge(nonce, frames[i]).Ignored?
  }

  lemma {:induction false} FirstVerdictSplit(nonce: Value, a: seq<Decoded>, b: seq<Decoded>)
    ensures FirstVerdict(nonce, a + b)
         == if AllIgnored(nonce, a) then FirstVerdict(nonce, b) else FirstVerdict(nonce, a)
    ensures FirstVerdict(nonce, a).Ignored? <==> AllIgnored(nonce, a)
  {
    hide Judge;
    if a == [] {
      assert a + b == b;
    } else {
      assert (a + b)[0] == a[0] && (a + b)[1..] == a[1..] + b;
      FirstVerdictSplit(nonce, a[1..], b);
      assert a == [a[0]] + a[1..];
    }
  }

  lemma SingleVerdict(nonce: Value, frame: Decoded)
    ensures FirstVerdict(nonce, [frame]) == Judge(nonce, frame)
  {
    hide Judge;
    assert [frame][1..] == [];
  }

  /** What the bytes of one attempt lead to. */
  function AttemptVerdict(nonce: Value, incoming: seq<byte>): Verdict {
    FirstVerdict(nonce, Receive([], incoming).frames)
  }

  /** Bytes after the deciding frame cannot change the verdict. */
  lemma VerdictStands(nonce: Value, a: seq<byte>, b: seq<byte>)
    requires !AttemptVerdict(nonce, a).Ignored?
    ensures AttemptVerdict(nonce, a + b) == AttemptVerdict(nonce, a)
  {
    hide Judge, FirstVerdict, Receive;
    ReceiveSplit([], a, b);
    FirstVerdictSplit(nonce, Receive([], a).frames, Receive(Receive([], a).pending, b).frames);
  }

  /** A byte that is not a delimiter leaves the attempt open; a delimiter decides on one more frame. */
  lemma ReadByte(nonce: Value, seen: seq<byte>, chunk: byte, reply: Decoded)
    requires AttemptVerdict(nonce, seen).Ignored?
    requires reply == Decode(Receive([], seen).pending + [0])
    ensures chunk != 0 ==> AttemptVerdict(nonce, seen + [chunk]).Ignored?
    ensures chunk == 0 ==> AttemptVerdict(nonce, seen + [chunk]) == Judge(nonce, reply)
  {
    hide Judge, FirstVerdict, Receive, Decode;
    ReceiveByte(seen, chunk);
    FirstVerdictSplit(nonce, Receive([], seen).frames, [reply]);
    SingleVerdict(nonce, reply);
  }

  /** The receive loop of one attempt. */
  method ReadReply(nonce: Value, incoming: seq<byte>) returns (r: Verdict)
    ensures r == AttemptVerdict(nonce, incoming)
  {
    hide Judge, FirstVerdict, Decode;
    var buf: seq<byte> := [];
    var i := 0;
    assert incoming[..0] == [];
    NothingReceived(nonce);
    while i < |incoming|
      invariant 0 <= i <= |incoming|
      invariant Receive([], incoming[..i]).pending == buf
      invariant AttemptVerdict(nonce, incoming[..i]).Ignored?
    {
      var chunk := incoming[i];
      ghost var seen := incoming[..i];
      ReceiveByte(seen, chunk);
      ReadByte(nonce, seen, chunk, Decode(buf + [0]));
      assert incoming[..i + 1] == seen + [chunk];
      buf := buf + [chunk];
      i := i + 1;
      if chunk == 0 {
        var frame := DecodeFrame(buf);
        buf := [];
        var verdict := Judge(nonce, frame);
        if !verdict.Ignored? {
          VerdictStands(nonce, incoming[..i], incoming[i..]);
          assert incoming == incoming[..i] + incoming[i..];
          return verdict;
        }
      }
    }
    assert incoming[..i] == incoming;
    r := Ignored;
  }

  lemma NothingReceived(nonce: Value)
    ensures Receive([], []) == Received([], []) && AttemptVerdict(nonce, []).Ignored?
  {
  }

  // ----- one exchange

  /** One attempt: how many bytes the port took, and every byte it delivered before the deadline. */
  datatype Attempt = Attempt(written: nat, incoming: seq<byte>)

  datatype Outcome = Answered(reply: Reply) | Escaped | PartialWrite | TimedOut | BadRequest

  predicate Complete(frame: seq<byte>, a: Attempt) {
    a.written == |frame|
  }

  /** What `made` attempts put on the wire when the last one was cut after `written` bytes. */
  function WireUpTo(frame: seq<byte>, made: nat, written: nat): seq<byte>
    requires made > 0
  {
    Wire(frame, made - 1) + (if made > 1 then [0] else []) + TakeFirst(frame, written)
  }

  /**
   `transact`. `attempts[k]` is what the port does on attempt `k`; after `retries + 1` of them
   without an answer the call times out.
   */
  method Transact(payload: seq<byte>, retries: nat, attempts: seq<Attempt>)
    returns (r: Outcome, wire: seq<byte>, made: nat)
    requires |attempts| == retries + 1
    ensures ExpectedNonce(payload).None? ==> r == BadRequest && wire == [] && made == 0
    ensures ExpectedNonce(payload).Some? ==>
              var (frame, nonce) := (Encode(payload), ExpectedNonce(payload).value);
              && 1 <= made <= retries + 1 && wire == WireUpTo(frame, made, attempts[made - 1].written)
              && (forall k :: 0 <= k < made - 1 ==>
                    Complete(frame, attempts[k]) && AttemptVerdict(nonce, attempts[k].incoming).Ignored?)
              && var last := attempts[made - 1];
                 r == if !Complete(frame, last) then PartialWrite
                      else match AttemptVerdict(nonce, last.incoming)
                           case Answer(v) => Answered(v)
                           case Escape => Escaped
                           case Ignored => TimedOut
    ensures r == TimedOut ==> made == retries + 1
    ensures r.Answered? ==> AnsweredBy(ExpectedNonce(payload).value, attempts[made - 1].incoming, r.reply)
  {
    hide AttemptVerdict, AnsweredBy, Encode, ExpectedNonce, Receive;
    var frame := EncodeFrame(payload);
    wire, made := [], 0;
    var expected := ExpectedNonce(payload);
    if expected.None? {
      return BadRequest, wire, made;
    }
    while made < retries + 1
      invariant 0 <= made <= retries + 1
      invariant wire == Wire(frame, made)
      invariant made > 0 ==> wire == WireUpTo(frame, made, attempts[made - 1].written)
      invariant forall k :: 0 <= k < made ==>
                  Complete(frame, attempts[k]) && AttemptVerdict(expected.value, attempts[k].incoming).Ignored?
    {
      var attempt := attempts[made];
      if made > 0 {
        wire := wire + [0];
      }
      WireGrows(frame, made, attempt.written);
      wire := wire + TakeFirst(frame, attempt.written);
      made := made + 1;
      if attempt.written != |frame| {
        return PartialWrite, wire, made;
      }
      var verdict := ReadReply(expected.value, attempt.incoming);
      match verdict
      case Answer(reply) =>
        AttemptAnswers(expected.value, attempt.incoming);
        return Answered(reply), wire, made;
      case Escape => return Escaped, wire, made;
      case Ignored =>
    }
    r := TimedOut;
  }

  lemma WireGrows(frame: seq<byte>, made: nat, written: nat)
    ensures var delimiter := if made > 0 then [0] else [];
            && WireUpTo(frame, made + 1, written) == Wire(frame, made) + delimiter + TakeFirst(frame, written)
            && (written == |frame| ==> WireUpTo(frame, made + 1, written) == Wire(frame, made + 1))
  {
    assert [] + TakeFirst(frame, written) == TakeFirst(frame, written);
    assert Wire(frame, 0) + [] == [];
  }

  // ----- when a reply gets through

  /** The first entry of field 1 is the nonce; without one it counts as zero. */
  predicate CarriesNonce(es: seq<Entry>, nonce: Value) {
    || (exists i :: 0 <= i < |es| && es[i] == Entry(1, nonce) && forall j :: 0 <= j < i ==> es[j].field != 1)
    || (nonce == Varint(0) && forall i :: 0 <= i < |es| ==> es[i].field != 1)
  }

  /** There is no body field, or the leading one holds a well-formed submessage. */
  predicate BodyReads(es: seq<Entry>) {
    || (forall i :: 0 <= i < |es| ==> !IsBody(es[i].field))
    || (exists i :: 0 <= i < |es| && LeadsBody(es, i) && es[i].value.Bytes? && ParseFields(es[i].value.data).Ok?)
  }

  predicate BodyIsNumber(es: seq<Entry>) {
    exists i :: 0 <= i < |es| && LeadsBody(es, i) && es[i].value.Varint?
  }

  /** The frame decodes to a well-formed message that carries the nonce and a readable body. */
  predicate Answers(nonce: Value, frame: Decoded) {
    && frame.Ok? && ParseFields(frame.value).Ok?
    && CarriesNonce(ParseFields(frame.value).value, nonce) && BodyReads(ParseFields(frame.value).value)
  }

  /** The frame decodes to a well-formed message with a number where the parser expects a submessage. */
  predicate Aborts(frame: Decoded) {
    frame.Ok? && ParseFields(frame.value).Ok? && BodyIsNumber(ParseFields(frame.value).value)
  }

  /** No frame of the garbage and no reply before `k` answers or aborts. */
  predicate ClearUntil(nonce: Value, head: seq<Decoded>, replies: seq<seq<byte>>, k: nat)
    requires k < |replies|
  {
    && (forall i :: 0 <= i < |head| ==> !Answers(nonce, head[i]) && !Aborts(head[i]))
    && (forall j :: 0 <= j < k ==> !Answers(nonce, Ok(replies[j])) && !Aborts(Ok(replies[j])))
  }

  lemma ClearIsIgnored(nonce: Value, head: seq<Decoded>, replies: seq<seq<byte>>, k: nat)
    requires k < |replies|
    ensures ClearUntil(nonce, head, replies, k)
       <==> AllIgnored(nonce, head) && forall j :: 0 <= j < k ==> Judge(nonce, Ok(replies[j])).Ignored?
  {
    hide Judge, Answers, Aborts;
    forall frame: Decoded
      ensures Judge(nonce, frame).Ignored? <==> !Answers(nonce, frame) && !Aborts(frame)
    {
      JudgedExactly(nonce, frame);
    }
  }

  lemma DecidedAmongReplies(nonce: Value, head: seq<Decoded>, replies: seq<seq<byte>>, k: nat)
    requires k < |replies| && Answers(nonce, Ok(replies[k]))
    ensures var frames := head + Delivered(replies);
            && (DecidedAt(nonce, frames) == Some(|head| + k) <==> ClearUntil(nonce, head, replies, k))
            && (DecidedAt(nonce, frames) == Some(|head| + k) ==>
                  FirstVerdict(nonce, frames) == Judge(nonce, Ok(replies[k])))
  {
    hide Judge, DecidedAt, FirstVerdict, ClearUntil, Answers, Aborts;
    var frames := head + Delivered(replies);
    ClearIsIgnored(nonce, head, replies, k);
    JudgedExactly(nonce, Ok(replies[k]));
    DecidedAtIsFirst(nonce, frames, |head| + k);
    assert frames[|head| + k] == Ok(replies[k]);
    assert forall i :: 0 <= i < |head| ==> frames[i] == head[i];
    assert forall j :: 0 <= j < k ==> frames[|head| + j] == Ok(replies[j]);
    assert forall i :: |head| <= i < |head| + k ==> frames[i] == Ok(replies[i - |head|]);
  }

  /**
   Among the frames behind the first delimiter, an answering reply `k` decides the attempt exactly
   when no earlier frame, garbage included, answers or aborts.
   */
  lemma ReplyIsFoundExactly(nonce: Value, garbage: seq<byte>, replies: seq<seq<byte>>, k: nat)
    requires k < |replies| && Answers(nonce, Ok(replies[k]))
    ensures var head := Receive([], garbage + [0]).frames;
            var stream := garbage + [0] + EncodeAll(replies);
            var decided := DecidedAt(nonce, Receive([], stream).frames);
            && (decided == Some(|head| + k) <==> ClearUntil(nonce, head, replies, k))
            && (decided == Some(|head| + k) ==> AttemptVerdict(nonce, stream) == Judge(nonce, Ok(replies[k])))
  {
    hide Judge, Receive, DecidedAt, FirstVerdict, ClearUntil, EncodeAll, Answers;
    SelfSynchronising([], garbage, replies);
    DecidedAmongReplies(nonce, Receive([], garbage + [0]).frames, replies, k);
  }

  /** The position of the frame that decides an attempt. */
  function DecidedAt(nonce: Value, frames: seq<Decoded>): Option<nat> {
    if frames == [] then None
    else if !Judge(nonce, frames[0]).Ignored? then Some(0)
    else
      match DecidedAt(nonce, frames[1..])
      case None => None
      case Some(i) => Some(i + 1)
  }

  lemma {:induction false} DecidedAtIsFirst(nonce: Value, frames: seq<Decoded>, n: nat)
    requires n < |frames|
    ensures DecidedAt(nonce, frames) == Some(n)
       <==> !Judge(nonce, frames[n]).Ignored? && forall j :: 0 <= j < n ==> Judge(nonce, frames[j]).Ignored?
    ensures DecidedAt(nonce, frames) == Some(n) ==> FirstVerdict(nonce, frames) == Judge(nonce, frames[n])
  {
    hide Judge;
    if n > 0 && Judge(nonce, frames[0]).Ignored? {
      DecidedAtIsFirst(nonce, frames[1..], n - 1);
      assert forall j :: 0 < j < |frames| ==> frames[j] == frames[1..][j - 1];
    }
  }

  predicate IsBody(field: nat) {
    BODY_FIRST <= field <= BODY_LAST
  }

  /** Entry `i` is the first entry of the lowest body field of the message. */
  predicate LeadsBody(es: seq<Entry>, i: nat)
    requires i < |es|
  {
    IsBody(es[i].field)
    && forall j :: 0 <= j < |es| && IsBody(es[j].field) ==>
         es[i].field < es[j].field || (es[i].field == es[j].field && i <= j)
  }

  lemma {:induction false} SelectFirst(es: seq<Entry>, field: nat) returns (i: nat)
    requires Select(es, field) != []
    ensures i < |es| && es[i].field == field && es[i].value == Select(es, field)[0]
    ensures forall j :: 0 <= j < i ==> es[j].field != field
  {
    if es[0].field == field {
      i := 0;
    } else {
      var k := SelectFirst(es[1..], field);
      i := k + 1;
      assert forall j :: 0 < j < |es| ==> es[j] == es[1..][j - 1];
    }
  }

  lemma {:induction false} PresentIsSelected(es: seq<Entry>, i: nat)
    requires i < |es|
    ensures Select(es, es[i].field) != []
  {
    if i > 0 {
      PresentIsSelected(es[1..], i - 1);
    }
  }

  lemma {:induction false} BodyIsLowest(top: FieldMap, from: nat)
    ensures match BodyOf(top, from)
            case None => forall f :: from <= f <= BODY_LAST ==> f !in top
            case Some(b) => from <= b <= BODY_LAST && b in top && forall f :: from <= f < b ==> f !in top
    decreases BODY_LAST + 1 - from
  {
    if from <= BODY_LAST && from !in top {
      BodyIsLowest(top, from + 1);
    }
  }

  /**
   Exactly which well-formed messages end the exchange with a type error: those whose lowest body
   field starts with a varint. All others are answered or ignored.
   */
  lemma EscapesExactly(data: seq<byte>)
    ensures ParseCore(data).Escapes?
       <==> ParseFields(data).Ok? && BodyIsNumber(ParseFields(data).value)
  {
    if ParseFields(data).Ok? {
      BodyDecides(ParseFields(data).value);
    }
  }

  /** The dictionary entry of a field is its first value among the entries. */
  lemma FirstInDictionary(es: seq<Entry>, field: nat)
    ensures field in Group(es) <==> exists i :: 0 <= i < |es| && es[i].field == field
    ensures field in Group(es) ==>
              exists i :: 0 <= i < |es| && es[i].field == field && First(Group(es), field, Varint(0)) == es[i].value
                          && forall j :: 0 <= j < i ==> es[j].field != field
  {
    GroupHoldsSelection(es, field);
    if Select(es, field) != [] {
      var i := SelectFirst(es, field);
    } else if exists i :: 0 <= i < |es| && es[i].field == field {
      var i :| 0 <= i < |es| && es[i].field == field;
      PresentIsSelected(es, i);
    }
  }

  /** The body the dictionary yields is the leading one among the entries. */
  lemma BodyDecides(es: seq<Entry>)
    ensures var (top, body) := (Group(es), BodyOf(Group(es), BODY_FIRST));
            && (body.None? <==> forall i :: 0 <= i < |es| ==> !IsBody(es[i].field))
            && (body.Some? ==>
                  exists i :: 0 <= i < |es| && LeadsBody(es, i) && First(top, body.value, Varint(0)) == es[i].value
                              && forall k :: 0 <= k < |es| && LeadsBody(es, k) ==> k == i)
  {
    hide Group, First, BodyOf, LeadsBody;
    var top := Group(es);
    BodyIsLowest(top, BODY_FIRST);
    forall j | 0 <= j < |es| ensures es[j].field in top {
      FirstInDictionary(es, es[j].field);
    }
    var body := BodyOf(top, BODY_FIRST);
    if body.Some? {
      FirstInDictionary(es, body.value);
      var i :| 0 <= i < |es| && es[i].field == body.value && First(top, body.value, Varint(0)) == es[i].value
               && forall j :: 0 <= j < i ==> es[j].field != body.value;
      BodyLeader(es, top, body.value, i);
    }
  }

  lemma NonceDecides(es: seq<Entry>, nonce: Value)
    ensures First(Group(es), 1, Varint(0)) == nonce <==> CarriesNonce(es, nonce)
  {
    hide Group;
    FirstInDictionary(es, 1);
    GroupHoldsSelection(es, 1);
  }

  /** What one frame does to the exchange, read off its entries. */
  lemma JudgedExactly(nonce: Value, frame: Decoded)
    ensures Judge(nonce, frame).Answer? <==> Answers(nonce, frame)
    ensures Judge(nonce, frame).Escape? <==> Aborts(frame)
  {
    hide Group, First, BodyOf, CarriesNonce, ParseFields;
    if frame.Ok? && ParseFields(frame.value).Ok? {
      NonceDecides(ParseFields(frame.value).value, nonce);
      BodyDecides(ParseFields(frame.value).value);
    }
  }

  // ----- what an answer holds

  /** The dictionary holds exactly the fields that occur, each with its values in order. */
  ghost predicate HoldsFields(m: FieldMap, es: seq<Entry>) {
    forall f: nat :: (f in m <==> Select(es, f) != []) && (f in m ==> m[f] == Select(es, f))
  }

  /**
   The reply's kind is the field of the leading body entry and its fields are those of the submessage
   that entry holds; without a body entry there is neither.
   */
  ghost predicate Holds(es: seq<Entry>, reply: Reply) {
    && CarriesNonce(es, reply.nonce)
    && match reply.kind
       case None => reply.inner == map[] && forall i :: 0 <= i < |es| ==> !IsBody(es[i].field)
       case Some(kind) => exists i :: 0 <= i < |es| && LeadsBody(es, i) && HoldsBody(es[i], kind, reply.inner)
  }

  ghost predicate HoldsBody(e: Entry, kind: nat, inner: FieldMap) {
    && e.field == kind && e.value.Bytes? && ParseFields(e.value.data).Ok?
    && HoldsFields(inner, ParseFields(e.value.data).value)
  }

  lemma GroupHoldsFields(es: seq<Entry>)
    ensures HoldsFields(Group(es), es)
  {
    forall f: nat
      ensures f in Group(es) <==> Select(es, f) != []
      ensures f in Group(es) ==> Group(es)[f] == Select(es, f)
    {
      GroupHoldsSelection(es, f);
    }
  }

  /** What a frame that answers is answered with, read off its entries and those of its submessage. */
  lemma AnswerHolds(nonce: Value, frame: Decoded)
    requires Answers(nonce, frame)
    ensures Judge(nonce, frame).Answer?
    ensures Judge(nonce, frame).reply.nonce == nonce && Holds(ParseFields(frame.value).value, Judge(nonce, frame).reply)
  {
    hide Group, First, BodyOf, CarriesNonce, ParseFields, LeadsBody, HoldsFields;
    JudgedExactly(nonce, frame);
    var es, reply := ParseFields(frame.value).value, Judge(nonce, frame).reply;
    NonceDecides(es, reply.nonce);
    BodyDecides(es);
    if reply.kind.Some? {
      var i :| 0 <= i < |es| && LeadsBody(es, i) && First(Group(es), reply.kind.value, Varint(0)) == es[i].value;
      assert es[i].field == reply.kind.value by {
        LeaderIsBody(es, i);
      }
      GroupHoldsFields(ParseFields(es[i].value.data).value);
    }
  }

  /** The dictionary's body field is the one of the leading entry. */
  lemma LeaderIsBody(es: seq<Entry>, i: nat)
    requires i < |es| && LeadsBody(es, i)
    ensures BodyOf(Group(es), BODY_FIRST) == Some(es[i].field)
  {
    hide Group;
    var top := Group(es);
    BodyIsLowest(top, BODY_FIRST);
    forall j | 0 <= j < |es| ensures es[j].field in top {
      FirstInDictionary(es, es[j].field);
    }
    var body := BodyOf(top, BODY_FIRST);
    if body.Some? {
      FirstInDictionary(es, body.value);
    }
  }

  /** The reply of an attempt comes from its first frame that answers, and none before it aborts. */
  ghost predicate AnsweredBy(nonce: Value, incoming: seq<byte>, reply: Reply) {
    var frames := Receive([], incoming).frames;
    exists k :: 0 <= k < |frames| && Answers(nonce, frames[k]) && Holds(ParseFields(frames[k].value).value, reply)
                && forall j :: 0 <= j < k ==> !Answers(nonce, frames[j]) && !Aborts(frames[j])
  }

  lemma {:induction false} AnswerComesFrom(nonce: Value, frames: seq<Decoded>) returns (k: nat)
    requires FirstVerdict(nonce, frames).Answer?
    ensures k < |frames| && Answers(nonce, frames[k]) && FirstVerdict(nonce, frames) == Judge(nonce, frames[k])
    ensures forall j :: 0 <= j < k ==> !Answers(nonce, frames[j]) && !Aborts(frames[j])
  {
    hide Judge, Answers, Aborts;
    JudgedExactly(nonce, frames[0]);
    k := 0;
    if Judge(nonce, frames[0]).Ignored? {
      var next := AnswerComesFrom(nonce, frames[1..]);
      k := next + 1;
      assert forall j :: 0 < j < |frames| ==> frames[j] == frames[1..][j - 1];
    }
  }

  lemma AttemptAnswers(nonce: Value, incoming: seq<byte>)
    requires AttemptVerdict(nonce, incoming).Answer?
    ensures AnsweredBy(nonce, incoming, AttemptVerdict(nonce, incoming).reply)
  {
    hide Judge, FirstVerdict, Receive, Answers, Aborts, Holds;
    var frames := Receive([], incoming).frames;
    var k := AnswerComesFrom(nonce, frames);
    AnswerHolds(nonce, frames[k]);
  }

  /** The nonce a request is waited for under: its first field 1, zero without one; a malformed request is refused. */
  lemma ExpectedNonceExactly(payload: seq<byte>, nonce: Value)
    ensures ExpectedNonce(payload) == Some(nonce)
       <==> ParseFields(payload).Ok? && CarriesNonce(ParseFields(payload).value, nonce)
  {
    hide CarriesNonce, Group;
    if ParseFields(payload).Ok? {
      NonceDecides(ParseFields(payload).value, nonce);
    }
  }

  lemma BodyLeader(es: seq<Entry>, top: FieldMap, body: nat, i: nat)
    requires i < |es| && es[i].field == body && IsBody(body)
    requires forall j :: 0 <= j < i ==> es[j].field != body
    requires forall f :: BODY_FIRST <= f < body ==> f !in top
    requires forall j :: 0 <= j < |es| ==> es[j].field in top
    ensures LeadsBody(es, i) && forall k :: 0 <= k < |es| && LeadsBody(es, k) ==> k == i
  {
  }

  lemma VarintBodyEscapes()
    ensures ParseFields([0x50, 1]) == Ok([Entry(10, Varint(1))])
    ensures ParseCore([0x50, 1]).Escapes?
  {
    hide ParseCore, ParseFields;
    var f, es := VarintField(10, 1), [Entry(10, Varint(1))];
    assert Low32(80) == 80 && Low32(1) == 1;
    assert VarintBytes(80) == [0x50] && VarintBytes(1) == [1];
    assert EncodeField(f) == [0x50, 1];
    SingleField(f);
    ReaderInvertsWriters([f]);
    assert LeadsBody(es, 0);
    EscapesExactly([0x50, 1]);
  }

  /** The shortest such message, as it arrives on the wire: every exchange that receives it first is aborted. */
  lemma FourBytesAbortAnyExchange(nonce: Value, rest: seq<byte>)
    ensures ParseFields([0x50, 1]) == Ok([Entry(10, Varint(1))])
    ensures AttemptVerdict(nonce, [3, 0x50, 1, 0] + rest) == Escape
  {
    hide ParseCore, ParseFields, FirstVerdict, Receive, Groups;
    var data: seq<byte> := [0x50, 1];
    VarintBodyEscapes();
    GroupLast(data);
    assert Encode(data) == [3, 0x50, 1, 0];
    ReceiveEncoded([], data);
    SingleVerdict(nonce, Ok(data));
    VerdictStands(nonce, Encode(data), rest);
  }

  /**
   A retry's bare delimiter is answered by an error reply without a nonce: a request ignores it exactly
   when its own nonce is not a multiple of 2^32, hence for every nonzero 32-bit nonce.
   */
  lemma DelimiterReplyIsIgnored(nonce: int, field: int, inner: seq<byte>, node: Option<int>, reply: seq<byte>)
    requires |inner| < U32 && GoodField(field)
    requires ParseCore(reply).Good? && ParseCore(reply).reply.nonce == Varint(0)
    ensures var expected := ExpectedNonce(HostMessage(nonce, field, inner, node));
            expected.Some? && (Judge(expected.value, Ok(reply)).Ignored? <==> nonce % U32 != 0)
  {
    HostNonce(nonce, field, inner, node);
  }
}
