/**
 The protobuf subset of the USB scripts: base-128 varints, tagged fields, and the host message.
 Wire types follow the Protocol Buffers encoding guide, section "Message Structure".
 Readers are specified on the unread suffix; the methods are the offset-moving loops.
 */
module Fields {
  import opened Common

  const U32: int := 0x1_0000_0000
  const FIELDS: int := 0x2000_0000

  datatype FieldError = TruncatedVarint | VarintTooLong | UnsupportedWire(wire: nat)

  datatype Value = Varint(v: nat) | Bytes(data: seq<byte>)

  /** A decoded value and how many bytes it took. */
  datatype Read = Read(v: nat, used: nat)

  datatype Entry = Entry(field: nat, value: Value)

  type FieldMap = map<nat, seq<Value>>

  // ----- varints

  function VarintBytes(v: nat): (r: seq<byte>)
    ensures r != []
  {
    if v < 128 then [v] else [v % 128 + 128] + VarintBytes(v / 128)
  }

  /** `encode_varint` keeps the low 32 bits, of negative numbers too. */
  function Low32(v: int): (r: nat)
    ensures r < U32
  {
    v % U32
  }

  method EncodeVarint(v: int) returns (out: seq<byte>)
    ensures out == VarintBytes(Low32(v))
  {
    var rest: nat := v % 0x1_0000_0000;
    out := [];
    assert out + VarintBytes(rest) == VarintBytes(Low32(v));
    while rest > 0x7F
      invariant out + VarintBytes(rest) == VarintBytes(Low32(v))
    {
      assert out + VarintBytes(rest) == out + [rest % 128 + 128] + VarintBytes(rest / 128);
      out := out + [rest % 128 + 128];
      rest := rest / 128;
    }
    out := out + [rest];
  }

  /** Reads group `k` and the following ones of a varint: at most five bytes in all. */
  function ReadVarint(s: seq<byte>, k: nat): (r: Result<Read, FieldError>)
    ensures r.Ok? ==> 1 <= r.value.used <= |s|
  {
    if s == [] then Err(TruncatedVarint)
    else if s[0] < 128 then Ok(Read(s[0], 1))
    else if k >= 4 then Err(VarintTooLong)
    else
      match ReadVarint(s[1..], k + 1)
      case Err(e) => Err(e)
      case Ok(rest) => Ok(Read(s[0] % 128 + 128 * rest.v, 1 + rest.used))
  }

  function Pow128(k: nat): (r: nat)
    ensures r >= 1
  {
    if k == 0 then 1 else 128 * Pow128(k - 1)
  }

  /** Adds the `k` groups already read to the value of the remaining ones. */
  function Resume(v: nat, k: nat, off: nat, rest: Result<Read, FieldError>): Result<(nat, nat), FieldError> {
    match rest
    case Err(e) => Err(e)
    case Ok(r) => Ok((v + Pow128(k) * r.v, off + r.used))
  }

  /** A suffix-relative read as the absolute value/offset pair of the scripts. */
  function At(start: nat, r: Result<Read, FieldError>): Result<(nat, nat), FieldError> {
    match r
    case Err(e) => Err(e)
    case Ok(x) => Ok((x.v, start + x.used))
  }

  /** `v | (b & 0x7F) << 7k`; the groups do not overlap, so the disjunction is a sum. */
  function AddGroup(v: nat, k: nat, b: byte): nat {
    v + Pow128(k) * (b % 128)
  }

  /** Loop invariant of the varint reader after `k` groups. */
  ghost predicate ReadingVarint(buf: seq<byte>, start: nat, v: nat, k: nat, off: nat) {
    && start <= off <= |buf|
    && At(start, ReadVarint(buf[start..], 0)) == Resume(v, k, off, ReadVarint(buf[off..], k))
  }

  lemma NextGroup(buf: seq<byte>, start: nat, v: nat, k: nat, off: nat)
    requires ReadingVarint(buf, start, v, k, off) && k < 5
    ensures off == |buf| ==> At(start, ReadVarint(buf[start..], 0)) == Err(TruncatedVarint)
    ensures off < |buf| && buf[off] < 128 ==>
              At(start, ReadVarint(buf[start..], 0)) == Ok((AddGroup(v, k, buf[off]), off + 1))
    ensures off < |buf| && buf[off] >= 128 && k == 4 ==>
              At(start, ReadVarint(buf[start..], 0)) == Err(VarintTooLong)
    ensures off < |buf| && buf[off] >= 128 && k < 4 ==>
              ReadingVarint(buf, start, AddGroup(v, k, buf[off]), k + 1, off + 1)
  {
    hide AddGroup, Pow128;
    if off < |buf| {
      assert buf[off..][0] == buf[off] && buf[off..][1..] == buf[off + 1..];
      if buf[off] < 128 {
        ResumeLast(v, k, off, buf[off..]);
      } else if k < 4 {
        ResumeStep(v, k, off, buf[off..]);
      }
    }
  }

  lemma ResumeLast(v: nat, k: nat, off: nat, s: seq<byte>)
    requires s != [] && s[0] < 128
    ensures Resume(v, k, off, ReadVarint(s, k)) == Ok((AddGroup(v, k, s[0]), off + 1))
  {
  }

  lemma ResumeStep(v: nat, k: nat, off: nat, s: seq<byte>)
    requires s != [] && s[0] >= 128 && k < 4
    ensures Resume(v, k, off, ReadVarint(s, k))
         == Resume(AddGroup(v, k, s[0]), k + 1, off + 1, ReadVarint(s[1..], k + 1))
  {
    match ReadVarint(s[1..], k + 1)
    case Err(_) =>
    case Ok(rest) => MulSplit(Pow128(k), s[0] % 128, rest.v);
  }

  lemma MulSplit(p: nat, a: nat, b: nat)
    ensures p * (a + 128 * b) == p * a + 128 * p * b
  {
  }

  method DecodeVarint(buf: seq<byte>, start: nat) returns (r: Result<(nat, nat), FieldError>)
    requires start <= |buf|
    ensures r == At(start, ReadVarint(buf[start..], 0))
  {
    var v: nat, k, off := 0, 0, start;
    ResumeStart(start, ReadVarint(buf[start..], 0));
    while off < |buf|
      invariant off <= |buf| && 0 <= k < 5
      invariant ReadingVarint(buf, start, v, k, off)
      decreases |buf| - off
    {
      NextGroup(buf, start, v, k, off);
      var b := buf[off];
      off := off + 1;
      v := AddGroup(v, k, b);
      if b < 128 {
        return Ok((v, off));
      }
      k := k + 1;
      if 7 * k >= 35 {
        return Err(VarintTooLong);
      }
    }
    NextGroup(buf, start, v, k, off);
    r := Err(TruncatedVarint);
  }

  lemma ResumeStart(start: nat, r: Result<Read, FieldError>)
    ensures Resume(0, 0, start, r) == At(start, r)
  {
  }

  /** Reading back what was written, for every value the five groups can hold. */
  lemma {:induction false} ReadInvertsWrite(v: nat, k: nat, rest: seq<byte>)
    requires k <= 4 && v < Pow128(5 - k)
    ensures ReadVarint(VarintBytes(v) + rest, k) == Ok(Read(v, |VarintBytes(v)|))
    decreases v
  {
    var s := VarintBytes(v) + rest;
    if v >= 128 {
      assert Pow128(1) == 128;
      assert k < 4;
      assert s[1..] == VarintBytes(v / 128) + rest;
      ReadInvertsWrite(v / 128, k + 1, rest);
    }
  }

  lemma VarintRoundTrip(v: int, rest: seq<byte>)
    ensures ReadVarint(VarintBytes(Low32(v)) + rest, 0) == Ok(Read(Low32(v), |VarintBytes(Low32(v))|))
  {
    assert Pow128(5) == 128 * (128 * (128 * (128 * 128)));
    ReadInvertsWrite(Low32(v), 0, rest);
  }

  /** Where a varint read succeeds: some byte below 128 among the first five, and it stops at the first one. */
  lemma {:induction false} VarintReadIsExact(s: seq<byte>, k: nat)
    requires k <= 4
    ensures ReadVarint(s, k).Ok? <==> exists n :: 0 <= n < |s| && n < 5 - k && s[n] < 128
    ensures ReadVarint(s, k).Ok? ==>
              var used := ReadVarint(s, k).value.used;
              s[used - 1] < 128 && forall n :: 0 <= n < used - 1 ==> s[n] >= 128
    ensures ReadVarint(s, k).Err? ==> ReadVarint(s, k).error == if |s| < 5 - k then TruncatedVarint else VarintTooLong
    decreases |s|
  {
    if s != [] && s[0] >= 128 && k < 4 {
      VarintReadIsExact(s[1..], k + 1);
      assert forall n :: 0 <= n < |s[1..]| ==> s[1..][n] == s[n + 1];
      if exists n :: 0 <= n < |s| && n < 5 - k && s[n] < 128 {
        var n :| 0 <= n < |s| && n < 5 - k && s[n] < 128;
        assert s[1..][n - 1] < 128;
      }
    }
  }

  /** The number in groups of seven bits, the first byte lowest: byte `i` counts 128^i times its low bits. */
  function GroupSum(s: seq<byte>): nat {
    if s == [] then 0 else GroupSum(s[..|s| - 1]) + Pow128(|s| - 1) * (s[|s| - 1] % 128)
  }

  lemma {:induction false} GroupSumFirst(s: seq<byte>)
    requires s != []
    ensures GroupSum(s) == s[0] % 128 + 128 * GroupSum(s[1..])
  {
    var n := |s| - 1;
    if n > 0 {
      GroupSumFirst(s[..n]);
      assert s[..n][1..] == s[1..][..n - 1] && s[1..][n - 1] == s[n];
      Associate(Pow128(n - 1), s[n] % 128);
    }
  }

  lemma Associate(p: nat, a: nat)
    ensures 128 * (p * a) == 128 * p * a
  {
  }

  /** The number a varint stands for, in canonical form or not, is the sum of its groups; nothing is cut off. */
  lemma {:induction false} VarintIsGroupSum(s: seq<byte>, k: nat)
    requires ReadVarint(s, k).Ok?
    ensures ReadVarint(s, k).value.v == GroupSum(s[..ReadVarint(s, k).value.used])
    decreases |s|
  {
    var used := ReadVarint(s, k).value.used;
    GroupSumFirst(s[..used]);
    if s[0] < 128 {
      assert s[..1][1..] == [];
    } else {
      VarintIsGroupSum(s[1..], k + 1);
      assert s[..used][1..] == s[1..][..used - 1];
    }
  }

  // ----- field writers

  function Varint32(v: int): seq<byte> {
    VarintBytes(Low32(v))
  }

  function EncodeKey(field: int, wire: nat): seq<byte>
    requires wire < 8
  {
    Varint32(field * 8 + wire)
  }

  function EncodeUint32(field: int, v: int): seq<byte> {
    if v == 0 then [] else EncodeKey(field, 0) + Varint32(v)
  }

  function EncodeBool(field: int, v: bool): seq<byte> {
    EncodeUint32(field, if v then 1 else 0)
  }

  function EncodeBytes(field: int, data: seq<byte>): seq<byte> {
    EncodeKey(field, 2) + Varint32(|data|) + data
  }

  function HostMessage(nonce: int, field: int, inner: seq<byte>, node: Option<int>): seq<byte> {
    var target := match node
                  case None => []
                  case Some(id) => EncodeUint32(2, id) + EncodeBool(3, true);
    EncodeUint32(1, nonce) + target + EncodeBytes(field, inner)
  }

  // ----- the field reader

  function DropFirst(s: seq<byte>, n: nat): seq<byte> {
    if n <= |s| then s[n..] else []
  }

  function TakeFirst(s: seq<byte>, n: nat): seq<byte> {
    if n <= |s| then s[..n] else s
  }

  function Cons(e: Entry, rest: Result<seq<Entry>, FieldError>): Result<seq<Entry>, FieldError> {
    match rest
    case Ok(es) => Ok([e] + es)
    case Err(x) => Err(x)
  }

  /** One field at the head of a message: what is kept of it and how far it reaches. */
  datatype Head = Head(kept: Option<Entry>, used: nat)

  /** A length-delimited value that runs past the end is cut short, as a slice is. */
  function ReadField(s: seq<byte>): (r: Result<Head, FieldError>)
    ensures r.Ok? ==> r.value.used > 0
  {
    match ReadVarint(s, 0)
    case Err(e) => Err(e)
    case Ok(key) => ReadValue(key.v / 8, key.v % 8, key.used, s[key.used..])
  }

  function ReadValue(field: nat, wire: nat, used: nat, t: seq<byte>): (r: Result<Head, FieldError>)
    ensures r.Ok? ==> r.value.used >= used
  {
    if wire == 1 then Ok(Head(None, used + 8))
    else if wire == 5 then Ok(Head(None, used + 4))
    else if wire != 0 && wire != 2 then Err(UnsupportedWire(wire))
    else
      match ReadVarint(t, 0)
      case Err(e) => Err(e)
      case Ok(n) =>
        if wire == 0 then Ok(Head(Some(Entry(field, Varint(n.v))), used + n.used))
        else Ok(Head(Some(Entry(field, Bytes(TakeFirst(t[n.used..], n.v)))), used + n.used + n.v))
  }

  /** The kept entries of a message, in order. */
  function ParseFields(s: seq<byte>): Result<seq<Entry>, FieldError>
    decreases |s|
  {
    if s == [] then Ok([])
    else
      match ReadField(s)
      case Err(e) => Err(e)
      case Ok(h) =>
        var rest := ParseFields(DropFirst(s, h.used));
        if h.kept.Some? then Cons(h.kept.value, rest) else rest
  }

  /** `fields.setdefault(field, []).append(value)` */
  function Append(m: FieldMap, e: Entry): FieldMap {
    m[e.field := (if e.field in m then m[e.field] else []) + [e.value]]
  }

  function Group(es: seq<Entry>): FieldMap {
    if es == [] then map[] else Append(Group(es[..|es| - 1]), es[|es| - 1])
  }

  function Parsed(done: seq<Entry>, rest: Result<seq<Entry>, FieldError>): Result<FieldMap, FieldError> {
    match rest
    case Err(e) => Err(e)
    case Ok(es) => Ok(Group(done + es))
  }

  lemma ParsedCons(done: seq<Entry>, e: Entry, rest: Result<seq<Entry>, FieldError>)
    ensures Parsed(done, Cons(e, rest)) == Parsed(done + [e], rest)
    ensures Group(done + [e]) == Append(Group(done), e)
  {
    assert (done + [e])[..|done|] == done;
    if rest.Ok? {
      assert done + ([e] + rest.value) == done + [e] + rest.value;
    }
  }

  lemma TailOf(buf: seq<byte>, off: nat, used: nat)
    requires off + used <= |buf|
    ensures buf[off..][used..] == buf[off + used..]
  {
  }

  lemma ClampedTail(buf: seq<byte>, off: nat, n: nat)
    requires off <= |buf|
    ensures DropFirst(buf[off..], n) == DropFirst(buf, off + n)
    ensures TakeFirst(buf[off..], n) == buf[off..if off + n <= |buf| then off + n else |buf|]
  {
  }

  /** Where the value of a field ends. */
  function SkipTo(buf: seq<byte>, off: nat, wire: nat): Result<nat, FieldError>
    requires off <= |buf|
  {
    match ReadValue(0, wire, off, buf[off..])
    case Err(e) => Err(e)
    case Ok(h) => Ok(h.used)
  }

  method SkipField(buf: seq<byte>, off: nat, wire: nat) returns (r: Result<nat, FieldError>)
    requires off <= |buf|
    ensures r == SkipTo(buf, off, wire)
  {
    if wire == 0 {
      var n := DecodeVarint(buf, off);
      return match n case Ok(p) => Ok(p.1) case Err(e) => Err(e);
    }
    if wire == 1 {
      return Ok(off + 8);
    }
    if wire == 5 {
      return Ok(off + 4);
    }
    if wire == 2 {
      var n := DecodeVarint(buf, off);
      return match n case Ok(p) => Ok(p.1 + p.0) case Err(e) => Err(e);
    }
    r := Err(UnsupportedWire(wire));
  }

  /** Loop invariant of the field reader: `done` is in the dictionary, the rest starts at `off`. */
  ghost predicate Reading(buf: seq<byte>, off: nat, done: seq<Entry>, fields: FieldMap) {
    && fields == Group(done)
    && Parsed([], ParseFields(buf)) == Parsed(done, ParseFields(DropFirst(buf, off)))
  }

  /** The varint at `from` is `v` and ends at `to`. */
  ghost predicate VarintAt(buf: seq<byte>, from: nat, v: nat, to: nat) {
    from <= |buf| && At(from, ReadVarint(buf[from..], 0)) == Ok((v, to))
  }

  ghost predicate FailsAt(buf: seq<byte>, from: nat, e: FieldError) {
    from <= |buf| && ReadVarint(buf[from..], 0) == Err(e)
  }

  lemma ReadingFails(buf: seq<byte>, off: nat, done: seq<Entry>, fields: FieldMap, e: FieldError)
    requires off < |buf| && Reading(buf, off, done, fields)
    requires ReadField(buf[off..]) == Err(e)
    ensures Parsed([], ParseFields(buf)) == Err(e)
  {
  }

  lemma KeyFails(buf: seq<byte>, off: nat, done: seq<Entry>, fields: FieldMap, e: FieldError)
    requires off < |buf| && Reading(buf, off, done, fields) && FailsAt(buf, off, e)
    ensures Parsed([], ParseFields(buf)) == Err(e)
  {
    ReadingFails(buf, off, done, fields, e);
  }

  lemma ValueFails(buf: seq<byte>, off: nat, done: seq<Entry>, fields: FieldMap, key: nat, next: nat, e: FieldError)
    requires off < |buf| && Reading(buf, off, done, fields)
    requires VarintAt(buf, off, key, next) && (key % 8 == 0 || key % 8 == 2) && FailsAt(buf, next, e)
    ensures Parsed([], ParseFields(buf)) == Err(e)
  {
    hide *;
    VarintSpan(buf, off, key, next);
    ValueError(buf, next, key, next - off, e);
    TailOf(buf, off, next - off);
    KeyedValue(buf[off..], key, next - off, Err(e));
    ReadingFails(buf, off, done, fields, e);
  }

  lemma ValueError(buf: seq<byte>, next: nat, key: nat, used: nat, e: FieldError)
    requires (key % 8 == 0 || key % 8 == 2) && FailsAt(buf, next, e)
    ensures ReadValue(key / 8, key % 8, used, buf[next..]) == Err(e)
  {
  }

  lemma SkipFails(buf: seq<byte>, off: nat, done: seq<Entry>, fields: FieldMap, key: nat, next: nat, e: FieldError)
    requires off < |buf| && Reading(buf, off, done, fields)
    requires VarintAt(buf, off, key, next) && key % 8 != 0 && key % 8 != 2
    requires next <= |buf| && SkipTo(buf, next, key % 8) == Err(e)
    ensures Parsed([], ParseFields(buf)) == Err(e)
  {
    VarintSpan(buf, off, key, next);
    TailOf(buf, off, next - off);
    KeyedValue(buf[off..], key, next - off, Err(e));
    ReadingFails(buf, off, done, fields, e);
  }

  lemma ReadingStarts(buf: seq<byte>)
    ensures Reading(buf, 0, [], map[])
  {
  }

  lemma ReadingEnds(buf: seq<byte>, off: nat, done: seq<Entry>, fields: FieldMap)
    requires off >= |buf| && Reading(buf, off, done, fields)
    ensures Parsed([], ParseFields(buf)) == Ok(fields)
  {
    assert done + [] == done;
  }

  /** The decoder method's result, as the facts the step lemmas ask for. */
  lemma VarintResult(buf: seq<byte>, from: nat, r: Result<(nat, nat), FieldError>)
    requires from <= |buf| && r == At(from, ReadVarint(buf[from..], 0))
    ensures r.Ok? ==> VarintAt(buf, from, r.value.0, r.value.1) && from < r.value.1 <= |buf|
    ensures r.Err? ==> FailsAt(buf, from, r.error)
  {
  }

  lemma ReadingKeeps(buf: seq<byte>, off: nat, done: seq<Entry>, fields: FieldMap, e: Entry, used: nat)
    requires off < |buf| && Reading(buf, off, done, fields)
    requires ReadField(buf[off..]) == Ok(Head(Some(e), used))
    ensures Reading(buf, off + used, done + [e], Append(fields, e))
  {
    ClampedTail(buf, off, used);
    ParsedCons(done, e, ParseFields(DropFirst(buf, off + used)));
  }

  lemma VarintValue(field: nat, used: nat, t: seq<byte>, n: nat, length: nat)
    requires ReadVarint(t, 0) == Ok(Read(n, length))
    ensures ReadValue(field, 0, used, t) == Ok(Head(Some(Entry(field, Varint(n))), used + length))
  {
  }

  lemma KeyedValue(s: seq<byte>, key: nat, used: nat, h: Result<Head, FieldError>)
    requires ReadVarint(s, 0) == Ok(Read(key, used))
    requires used <= |s| && ReadValue(key / 8, key % 8, used, s[used..]) == h
    ensures ReadField(s) == h
  {
  }

  lemma VarintField(buf: seq<byte>, off: nat, key: nat, next: nat, n: nat, end: nat)
    requires VarintAt(buf, off, key, next) && VarintAt(buf, next, n, end) && key % 8 == 0
    ensures off < end <= |buf|
    ensures ReadField(buf[off..]) == Ok(Head(Some(Entry(key / 8, Varint(n))), end - off))
  {
    hide *;
    VarintSpan(buf, off, key, next);
    VarintSpan(buf, next, n, end);
    TailOf(buf, off, next - off);
    VarintValue(key / 8, next - off, buf[next..], n, end - next);
    KeyedValue(buf[off..], key, next - off, Ok(Head(Some(Entry(key / 8, Varint(n))), end - off)));
  }

  lemma KeepVarint(buf: seq<byte>, off: nat, done: seq<Entry>, fields: FieldMap, key: nat, next: nat, n: nat, end: nat)
    requires off < |buf| && Reading(buf, off, done, fields)
    requires VarintAt(buf, off, key, next) && VarintAt(buf, next, n, end) && key % 8 == 0
    ensures var e := Entry(key / 8, Varint(n)); Reading(buf, end, done + [e], Append(fields, e))
  {
    hide *;
    VarintField(buf, off, key, next, n, end);
    ReadingKeeps(buf, off, done, fields, Entry(key / 8, Varint(n)), end - off);
  }

  lemma VarintSpan(buf: seq<byte>, from: nat, v: nat, to: nat)
    requires VarintAt(buf, from, v, to)
    ensures from < to <= |buf| && ReadVarint(buf[from..], 0) == Ok(Read(v, to - from))
  {
  }

  lemma BytesValue(field: nat, used: nat, t: seq<byte>, n: nat, length: nat)
    requires ReadVarint(t, 0) == Ok(Read(n, length))
    ensures length <= |t|
    ensures ReadValue(field, 2, used, t)
         == Ok(Head(Some(Entry(field, Bytes(TakeFirst(t[length..], n)))), used + length + n))
  {
  }

  lemma BytesField(buf: seq<byte>, off: nat, key: nat, next: nat, n: nat, data: nat)
    requires VarintAt(buf, off, key, next) && VarintAt(buf, next, n, data) && key % 8 == 2
    ensures off < data <= |buf|
    ensures ReadField(buf[off..]) == Ok(Head(Some(Entry(key / 8, Bytes(TakeFirst(buf[data..], n)))), data + n - off))
  {
    hide *;
    VarintSpan(buf, off, key, next);
    VarintSpan(buf, next, n, data);
    TailOf(buf, off, next - off);
    TailOf(buf, next, data - next);
    BytesValue(key / 8, next - off, buf[next..], n, data - next);
    KeyedValue(buf[off..], key, next - off,
               Ok(Head(Some(Entry(key / 8, Bytes(TakeFirst(buf[data..], n)))), data + n - off)));
  }

  lemma KeepBytes(buf: seq<byte>, off: nat, done: seq<Entry>, fields: FieldMap, key: nat, next: nat, n: nat, data: nat)
    requires off < |buf| && Reading(buf, off, done, fields)
    requires VarintAt(buf, off, key, next) && VarintAt(buf, next, n, data) && key % 8 == 2
    ensures var e := Entry(key / 8, Bytes(TakeFirst(DropFirst(buf, data), n)));
            Reading(buf, data + n, done + [e], Append(fields, e))
  {
    hide ReadVarint, ReadField, ReadValue, ParseFields, Group;
    var e := Entry(key / 8, Bytes(TakeFirst(DropFirst(buf, data), n)));
    BytesField(buf, off, key, next, n, data);
    ReadingKeeps(buf, off, done, fields, e, data + n - off);
  }

  lemma SkipAdvances(buf: seq<byte>, off: nat, wire: nat)
    requires off <= |buf|
    ensures SkipTo(buf, off, wire).Ok? ==> SkipTo(buf, off, wire).value >= off
  {
  }

  lemma SkipFixed(buf: seq<byte>, off: nat, done: seq<Entry>, fields: FieldMap, key: nat, next: nat, end: nat)
    requires off < |buf| && Reading(buf, off, done, fields)
    requires VarintAt(buf, off, key, next) && key % 8 != 0 && key % 8 != 2
    requires next <= |buf| && SkipTo(buf, next, key % 8) == Ok(end)
    ensures Reading(buf, end, done, fields)
  {
    hide *;
    SkippedField(buf, off, key, next, end);
    ReadingSkips(buf, off, done, fields, end - off);
  }

  lemma SkippedField(buf: seq<byte>, off: nat, key: nat, next: nat, end: nat)
    requires VarintAt(buf, off, key, next) && key % 8 != 0 && key % 8 != 2
    requires next <= |buf| && SkipTo(buf, next, key % 8) == Ok(end)
    ensures off < end && ReadField(buf[off..]) == Ok(Head(None, end - off))
  {
    hide ReadVarint, ReadField;
    VarintSpan(buf, off, key, next);
    TailOf(buf, off, next - off);
    KeyedValue(buf[off..], key, next - off, Ok(Head(None, end - off)));
  }

  lemma ReadingSkips(buf: seq<byte>, off: nat, done: seq<Entry>, fields: FieldMap, used: nat)
    requires off < |buf| && Reading(buf, off, done, fields)
    requires ReadField(buf[off..]) == Ok(Head(None, used))
    ensures Reading(buf, off + used, done, fields)
  {
    hide ReadField;
    ClampedTail(buf, off, used);
  }

  method DecodeFields(buf: seq<byte>) returns (r: Result<FieldMap, FieldError>)
    ensures r == Parsed([], ParseFields(buf))
  {
    hide *;
    var fields: FieldMap := map[];
    ghost var done: seq<Entry> := [];
    var off := 0;
    ReadingStarts(buf);
    while off < |buf|
      invariant Reading(buf, off, done, fields)
      decreases |buf| - off
    {
      ghost var start := off;
      var decoded := DecodeVarint(buf, off);
      VarintResult(buf, off, decoded);
      if decoded.Err? {
        KeyFails(buf, start, done, fields, decoded.error);
        return Err(decoded.error);
      }
      var key := decoded.value.0;
      off := decoded.value.1;
      var field, wire := key / 8, key % 8;
      if wire == 0 || wire == 2 {
        ghost var next := off;
        decoded := DecodeVarint(buf, off);
        VarintResult(buf, off, decoded);
        if decoded.Err? {
          ValueFails(buf, start, done, fields, key, off, decoded.error);
          return Err(decoded.error);
        }
        var n, value := decoded.value.0, Varint(decoded.value.0);
        off := decoded.value.1;
        if wire == 0 {
          KeepVarint(buf, start, done, fields, key, next, n, off);
        } else {
          KeepBytes(buf, start, done, fields, key, next, n, off);
          value := Bytes(TakeFirst(DropFirst(buf, off), n));
          off := off + n;
        }
        fields := Append(fields, Entry(field, value));
        done := done + [Entry(field, value)];
      } else {
        var skipped := SkipField(buf, off, wire);
        if skipped.Err? {
          SkipFails(buf, start, done, fields, key, off, skipped.error);
          return Err(skipped.error);
        }
        SkipFixed(buf, start, done, fields, key, off, skipped.value);
        SkipAdvances(buf, off, wire);
        off := skipped.value;
      }
    }
    ReadingEnds(buf, off, done, fields);
    r := Ok(fields);
  }
}
