/** What the field reader recovers from what the field writers produce. */
module FieldCodec {
  import opened Common
  import opened Fields

  /** A field as a writer means it; the fixed-width ones come from other writers and are ignored. */
  datatype WireField =
    | VarintField(field: int, v: int)
    | BytesField(field: int, data: seq<byte>)
    | Fixed64(field: int, raw: seq<byte>)
    | Fixed32(field: int, raw: seq<byte>)

  predicate WellFormed(f: WireField) {
    match f
    case VarintField(_, _) => true
    case BytesField(_, data) => |data| < U32
    case Fixed64(_, raw) => |raw| == 8
    case Fixed32(_, raw) => |raw| == 4
  }

  function EncodeField(f: WireField): seq<byte> {
    match f
    case VarintField(field, v) => EncodeKey(field, 0) + Varint32(v)
    case BytesField(field, data) => EncodeBytes(field, data)
    case Fixed64(field, raw) => EncodeKey(field, 1) + raw
    case Fixed32(field, raw) => EncodeKey(field, 5) + raw
  }

  function EncodeFields(fs: seq<WireField>): seq<byte> {
    if fs == [] then [] else EncodeField(fs[0]) + EncodeFields(fs[1..])
  }

  /** Field numbers survive modulo 2^29 and varints modulo 2^32; byte strings survive whole. */
  function Survives(f: WireField): Option<Entry> {
    match f
    case VarintField(field, v) => Some(Entry(field % FIELDS, Varint(Low32(v))))
    case BytesField(field, data) => Some(Entry(field % FIELDS, Bytes(data)))
    case _ => None
  }

  function AllSurviving(fs: seq<WireField>): seq<Entry> {
    if fs == [] then []
    else match Survives(fs[0])
      case Some(e) => [e] + AllSurviving(fs[1..])
      case None => AllSurviving(fs[1..])
  }

  lemma KeyParts(field: int, wire: nat)
    requires wire < 8
    ensures Low32(field * 8 + wire) / 8 == field % FIELDS
    ensures Low32(field * 8 + wire) % 8 == wire
  {
    var q, r := field / FIELDS, field % FIELDS;
    assert field * 8 + wire == q * U32 + (r * 8 + wire);
    assert Low32(field * 8 + wire) == r * 8 + wire by {
      LowOfSum(q, r * 8 + wire);
    }
  }

  lemma LowOfSum(q: int, r: nat)
    requires r < U32
    ensures Low32(q * U32 + r) == r
  {
  }

  /** The key of an encoded field is read back, whatever follows. */
  lemma ReadKey(field: int, wire: nat, t: seq<byte>)
    requires wire < 8
    ensures ReadField(EncodeKey(field, wire) + t)
         == ReadValue(field % FIELDS, wire, |EncodeKey(field, wire)|, t)
  {
    var key := EncodeKey(field, wire);
    VarintRoundTrip(field * 8 + wire, t);
    KeyParts(field, wire);
    assert (key + t)[|key|..] == t;
  }

  lemma ReadBytesValue(field: nat, used: nat, data: seq<byte>, rest: seq<byte>)
    requires |data| < U32
    ensures ReadValue(field, 2, used, Varint32(|data|) + data + rest)
         == Ok(Head(Some(Entry(field, Bytes(data))), used + |Varint32(|data|)| + |data|))
  {
    var len := Varint32(|data|);
    hide ReadVarint, ReadValue, VarintBytes;
    var tail := data + rest;
    Reassociated(len, data, rest);
    VarintRoundTrip(|data|, tail);
    BytesValue(field, used, len + tail, |data|, |len|);
    assert (len + tail)[|len|..] == tail;
    assert tail[..|data|] == data;
  }

  lemma ReadVarintValue(field: nat, used: nat, v: int, rest: seq<byte>)
    ensures ReadValue(field, 0, used, Varint32(v) + rest)
         == Ok(Head(Some(Entry(field, Varint(Low32(v)))), used + |Varint32(v)|))
  {
    VarintRoundTrip(v, rest);
  }

  lemma ReadVarintField(field: int, v: int, rest: seq<byte>)
    ensures var f := VarintField(field, v);
            ReadField(EncodeField(f) + rest) == Ok(Head(Survives(f), |EncodeField(f)|))
  {
    var key := EncodeKey(field, 0);
    ReadKey(field, 0, Varint32(v) + rest);
    ReadVarintValue(field % FIELDS, |key|, v, rest);
    assert key + Varint32(v) + rest == key + (Varint32(v) + rest);
  }

  lemma ReadBytesField(field: int, data: seq<byte>, rest: seq<byte>)
    requires |data| < U32
    ensures var f := BytesField(field, data);
            ReadField(EncodeField(f) + rest) == Ok(Head(Survives(f), |EncodeField(f)|))
  {
    var key, len := EncodeKey(field, 2), Varint32(|data|);
    ReadBytesValue(field % FIELDS, |key|, data, rest);
    ReadKeyed(field, 2, len + data, rest);
    assert key + len + data == key + (len + data);
  }

  lemma ReadKeyed(field: int, wire: nat, value: seq<byte>, rest: seq<byte>)
    requires wire < 8
    ensures ReadField(EncodeKey(field, wire) + value + rest)
         == ReadValue(field % FIELDS, wire, |EncodeKey(field, wire)|, value + rest)
  {
    ReadKey(field, wire, value + rest);
    assert EncodeKey(field, wire) + value + rest == EncodeKey(field, wire) + (value + rest);
  }

  lemma ReadFixedField(field: int, wire: nat, raw: seq<byte>, rest: seq<byte>)
    requires (wire == 1 && |raw| == 8) || (wire == 5 && |raw| == 4)
    ensures ReadField(EncodeKey(field, wire) + raw + rest) == Ok(Head(None, |EncodeKey(field, wire) + raw|))
  {
    ReadKey(field, wire, raw + rest);
    assert EncodeKey(field, wire) + raw + rest == EncodeKey(field, wire) + (raw + rest);
  }

  lemma ReadOneField(f: WireField, rest: seq<byte>)
    requires WellFormed(f)
    ensures ReadField(EncodeField(f) + rest) == Ok(Head(Survives(f), |EncodeField(f)|))
  {
    match f
    case VarintField(field, v) => ReadVarintField(field, v, rest);
    case BytesField(field, data) => ReadBytesField(field, data, rest);
    case Fixed64(field, raw) => ReadFixedField(field, 1, raw, rest);
    case Fixed32(field, raw) => ReadFixedField(field, 5, raw, rest);
  }

  lemma ParseUnfold(s: seq<byte>, h: Head)
    requires s != [] && ReadField(s) == Ok(h)
    ensures ParseFields(s)
         == if h.kept.Some? then Cons(h.kept.value, ParseFields(DropFirst(s, h.used)))
            else ParseFields(DropFirst(s, h.used))
  {
  }

  /** Any concatenation of fields is read back in order, the fixed-width ones skipped. */
  lemma {:induction false} ReaderInvertsWriters(fs: seq<WireField>)
    requires forall f :: f in fs ==> WellFormed(f)
    ensures ParseFields(EncodeFields(fs)) == Ok(AllSurviving(fs))
  {
    if fs != [] {
      var rest := EncodeFields(fs[1..]);
      ReaderInvertsWriters(fs[1..]);
      ReadOneField(fs[0], rest);
      var s := EncodeField(fs[0]) + rest;
      ParseUnfold(s, Head(Survives(fs[0]), |EncodeField(fs[0])|));
      assert DropFirst(s, |EncodeField(fs[0])|) == rest;
    }
  }

  lemma {:induction false} PrefixParses(fs: seq<WireField>, tail: seq<byte>)
    requires forall f :: f in fs ==> WellFormed(f)
    ensures ParseFields(EncodeFields(fs) + tail)
         == match ParseFields(tail)
            case Err(e) => Err(e)
            case Ok(es) => Ok(AllSurviving(fs) + es)
  {
    if fs == [] {
      assert [] + tail == tail;
      if ParseFields(tail).Ok? {
        assert [] + ParseFields(tail).value == ParseFields(tail).value;
      }
    } else {
      var first, rest := EncodeField(fs[0]), EncodeFields(fs[1..]) + tail;
      PrefixParses(fs[1..], tail);
      ReadOneField(fs[0], rest);
      assert first + EncodeFields(fs[1..]) + tail == first + rest;
      ParseUnfold(first + rest, Head(Survives(fs[0]), |first|));
      assert DropFirst(first + rest, |first|) == rest;
      if ParseFields(tail).Ok? {
        ConsAppend(Survives(fs[0]), AllSurviving(fs[1..]), ParseFields(tail).value);
      }
    }
  }

  lemma ConsAppend(e: Option<Entry>, a: seq<Entry>, b: seq<Entry>)
    ensures e.Some? ==> [e.value] + (a + b) == [e.value] + a + b
  {
  }

  /** A group or reserved wire type anywhere rejects the whole message. */
  lemma UnsupportedWireIsRejected(fs: seq<WireField>, field: int, wire: nat, tail: seq<byte>)
    requires forall f :: f in fs ==> WellFormed(f)
    requires wire == 3 || wire == 4 || wire == 6 || wire == 7
    ensures ParseFields(EncodeFields(fs) + (EncodeKey(field, wire) + tail)) == Err(UnsupportedWire(wire))
  {
    PrefixParses(fs, EncodeKey(field, wire) + tail);
    ReadKey(field, wire, tail);
  }

  /** A last fixed-width value that is cut short is accepted silently as well, whatever is left of it. */
  lemma CutShortFixedIsAccepted(fs: seq<WireField>, field: int, wire: nat, raw: seq<byte>)
    requires forall f :: f in fs ==> WellFormed(f)
    requires (wire == 1 && |raw| < 8) || (wire == 5 && |raw| < 4)
    ensures ParseFields(EncodeFields(fs) + (EncodeKey(field, wire) + raw)) == Ok(AllSurviving(fs))
  {
    hide ParseFields, ReadField, AllSurviving, EncodeFields, EncodeKey;
    var s := EncodeKey(field, wire) + raw;
    PrefixParses(fs, s);
    var used := ReadCutFixed(field, wire, raw);
    ParseNothing(s, used);
    assert AllSurviving(fs) + [] == AllSurviving(fs);
  }

  lemma ReadCutFixed(field: int, wire: nat, raw: seq<byte>) returns (used: nat)
    requires (wire == 1 && |raw| < 8) || (wire == 5 && |raw| < 4)
    ensures var s := EncodeKey(field, wire) + raw;
            s != [] && used > |s| && ReadField(s) == Ok(Head(None, used))
  {
    hide ReadField;
    ReadKey(field, wire, raw);
    used := |EncodeKey(field, wire)| + if wire == 1 then 8 else 4;
  }

  lemma ParseNothing(s: seq<byte>, used: nat)
    requires s != [] && used >= |s| && ReadField(s) == Ok(Head(None, used))
    ensures ParseFields(s) == Ok([])
  {
    ParseUnfold(s, Head(None, used));
    assert DropFirst(s, used) == [];
  }

  /** A last byte string shorter than its declared length is not an error: it is kept as far as it goes. */
  lemma CutShortIsKept(fs: seq<WireField>, field: int, declared: nat, data: seq<byte>)
    requires forall f :: f in fs ==> WellFormed(f)
    requires |data| < declared < U32
    ensures ParseFields(EncodeFields(fs) + (EncodeKey(field, 2) + (Varint32(declared) + data)))
         == Ok(AllSurviving(fs) + [Entry(field % FIELDS, Bytes(data))])
  {
    hide ReadVarint, ReadValue, VarintBytes, ParseFields, ReadField, Varint32, AllSurviving, EncodeFields;
    var s := EncodeKey(field, 2) + (Varint32(declared) + data);
    PrefixParses(fs, s);
    var used := ReadCutShort(field, declared, data);
    ParseLast(s, Entry(field % FIELDS, Bytes(data)), used);
  }

  lemma ParseLast(s: seq<byte>, e: Entry, used: nat)
    requires s != [] && used >= |s| && ReadField(s) == Ok(Head(Some(e), used))
    ensures ParseFields(s) == Ok([e])
  {
    ParseUnfold(s, Head(Some(e), used));
    assert DropFirst(s, used) == [] && [e] + [] == [e];
  }

  lemma ReadCutShort(field: int, declared: nat, data: seq<byte>) returns (used: nat)
    requires |data| < declared < U32
    ensures var s := EncodeKey(field, 2) + (Varint32(declared) + data);
            s != [] && used > |s| && ReadField(s) == Ok(Head(Some(Entry(field % FIELDS, Bytes(data))), used))
  {
    hide ReadVarint, ReadValue, ReadField, VarintBytes;
    var len, key := Varint32(declared), EncodeKey(field, 2);
    ReadKey(field, 2, len + data);
    VarintRoundTrip(declared, data);
    BytesValue(field % FIELDS, |key|, len + data, declared, |len|);
    assert (len + data)[|len|..] == data;
    used := |key| + |len| + declared;
  }

  // ----- the host message

  /** `top.get(field, [default])[0]` */
  function First(m: FieldMap, field: nat, default: Value): Value {
    if field in m && m[field] != [] then m[field][0] else default
  }

  predicate IsNumber(v: Value, n: int) {
    v.Varint? && v.v == n
  }

  /** With zero defaults, the decoded message says exactly what the caller passed. */
  predicate Recovers(m: FieldMap, nonce: int, field: int, inner: seq<byte>, node: Option<int>) {
    && IsNumber(First(m, 1, Varint(0)), nonce)
    && (3 in m <==> node.Some?)
    && (node.Some? ==> IsNumber(First(m, 2, Varint(0)), node.value))
    && field >= 0 && field in m && m[field] == [Bytes(inner)]
  }

  /** The numbers the 32-bit varints of the message can carry. */
  predicate IsUint32(n: int) {
    0 <= n < U32
  }

  predicate InRange(nonce: int, node: Option<int>) {
    IsUint32(nonce) && (node.Some? ==> IsUint32(node.value))
  }

  /** A number that can be written, and that the envelope does not use itself. */
  predicate GoodField(field: int) {
    0 <= field < FIELDS && field != 1 && field != 2 && field != 3
  }

  ghost predicate MessageRecovered(nonce: int, field: int, inner: seq<byte>, node: Option<int>) {
    match ParseFields(HostMessage(nonce, field, inner, node))
    case Err(_) => false
    case Ok(es) => Recovers(Group(es), nonce, field, inner, node)
  }

  // ----- the dictionary, looked up field by field

  /** The values of one field, in the order they were read. */
  function Select(es: seq<Entry>, field: nat): seq<Value> {
    if es == [] then []
    else if es[0].field == field then [es[0].value] + Select(es[1..], field)
    else Select(es[1..], field)
  }

  lemma {:induction false} SelectAppend(a: seq<Entry>, b: seq<Entry>, field: nat)
    ensures Select(a + b, field) == Select(a, field) + Select(b, field)
  {
    if a == [] {
      assert a + b == b;
    } else {
      assert (a + b)[1..] == a[1..] + b && (a + b)[0] == a[0];
      SelectAppend(a[1..], b, field);
    }
  }

  /** The dictionary holds, per field, exactly the values read for it, in order. */
  lemma {:induction false} GroupHoldsSelection(es: seq<Entry>, field: nat)
    ensures field in Group(es) <==> Select(es, field) != []
    ensures field in Group(es) ==> Group(es)[field] == Select(es, field)
  {
    if es != [] {
      var n := |es| - 1;
      GroupHoldsSelection(es[..n], field);
      SelectAppend(es[..n], [es[n]], field);
      assert es == es[..n] + [es[n]];
      assert [es[n]][1..] == [];
    }
  }

  // ----- what the host message is made of

  function Optional(field: int, v: int): seq<WireField> {
    if v == 0 then [] else [VarintField(field, v)]
  }

  function NodeFields(node: Option<int>): seq<WireField> {
    if node.None? then [] else Optional(2, node.value) + [VarintField(3, 1)]
  }

  /** The fields the message actually carries: zeros are left out. */
  function HostFields(nonce: int, field: int, inner: seq<byte>, node: Option<int>): seq<WireField> {
    Optional(1, nonce) + NodeFields(node) + [BytesField(field, inner)]
  }

  lemma {:induction false} EncodeFieldsAppend(a: seq<WireField>, b: seq<WireField>)
    ensures EncodeFields(a + b) == EncodeFields(a) + EncodeFields(b)
    ensures AllSurviving(a + b) == AllSurviving(a) + AllSurviving(b)
  {
    hide EncodeField, Survives;
    if a == [] {
      assert a + b == b;
      Neutral(EncodeFields(b));
      Neutral(AllSurviving(b));
    } else {
      assert (a + b)[1..] == a[1..] + b && (a + b)[0] == a[0];
      EncodeFieldsAppend(a[1..], b);
      Reassociated(EncodeField(a[0]), EncodeFields(a[1..]), EncodeFields(b));
      if Survives(a[0]).Some? {
        Reassociated([Survives(a[0]).value], AllSurviving(a[1..]), AllSurviving(b));
      }
    }
  }

  lemma Neutral<T>(s: seq<T>)
    ensures [] + s == s
  {
  }

  lemma Reassociated<T>(a: seq<T>, b: seq<T>, c: seq<T>)
    ensures a + (b + c) == a + b + c
  {
  }

  lemma SingleField(f: WireField)
    ensures EncodeFields([f]) == EncodeField(f)
    ensures AllSurviving([f]) == if Survives(f).Some? then [Survives(f).value] else []
  {
    assert [f][1..] == [];
    assert EncodeField(f) + [] == EncodeField(f);
  }

  lemma OptionalField(field: int, v: int)
    requires 0 <= field < FIELDS
    ensures EncodeFields(Optional(field, v)) == EncodeUint32(field, v)
    ensures AllSurviving(Optional(field, v)) == if v == 0 then [] else [Entry(field, Varint(Low32(v)))]
  {
    SingleField(VarintField(field, v));
  }

  lemma HostMessageIsItsFields(nonce: int, field: int, inner: seq<byte>, node: Option<int>)
    ensures HostMessage(nonce, field, inner, node) == EncodeFields(HostFields(nonce, field, inner, node))
  {
    OptionalField(1, nonce);
    SingleField(BytesField(field, inner));
    if node.Some? {
      OptionalField(2, node.value);
      SingleField(VarintField(3, 1));
      EncodeFieldsAppend(Optional(2, node.value), [VarintField(3, 1)]);
    }
    EncodeFieldsAppend(Optional(1, nonce), NodeFields(node));
    EncodeFieldsAppend(Optional(1, nonce) + NodeFields(node), [BytesField(field, inner)]);
  }

  function NonceEntries(nonce: int): seq<Entry> {
    if nonce == 0 then [] else [Entry(1, Varint(Low32(nonce)))]
  }

  function NodeEntries(node: Option<int>): seq<Entry> {
    if node.None? then []
    else (if node.value == 0 then [] else [Entry(2, Varint(Low32(node.value)))]) + [Entry(3, Varint(1))]
  }

  function HostEntries(nonce: int, field: int, inner: seq<byte>, node: Option<int>): seq<Entry> {
    NonceEntries(nonce) + NodeEntries(node) + [Entry(field % FIELDS, Bytes(inner))]
  }

  lemma NodeFieldsSurvive(node: Option<int>)
    ensures AllSurviving(NodeFields(node)) == NodeEntries(node)
  {
    hide AllSurviving, EncodeFields, EncodeField, EncodeUint32, Low32;
    if node.Some? {
      OptionalField(2, node.value);
      assert AllSurviving([VarintField(3, 1)]) == [Entry(3, Varint(1))] by {
        OneSurvives(3);
      }
      EncodeFieldsAppend(Optional(2, node.value), [VarintField(3, 1)]);
    } else {
      NothingSurvives();
    }
  }

  lemma OneSurvives(field: int)
    requires 0 <= field < FIELDS
    ensures AllSurviving([VarintField(field, 1)]) == [Entry(field, Varint(1))]
  {
    SingleField(VarintField(field, 1));
  }

  lemma NothingSurvives()
    ensures AllSurviving([]) == []
  {
  }

  lemma HostFieldsSurvive(nonce: int, field: int, inner: seq<byte>, node: Option<int>)
    ensures AllSurviving(HostFields(nonce, field, inner, node)) == HostEntries(nonce, field, inner, node)
  {
    hide AllSurviving, EncodeFields, EncodeField, EncodeUint32, NodeFields, NodeEntries, Optional;
    OptionalField(1, nonce);
    NodeFieldsSurvive(node);
    SingleField(BytesField(field, inner));
    EncodeFieldsAppend(Optional(1, nonce), NodeFields(node));
    EncodeFieldsAppend(Optional(1, nonce) + NodeFields(node), [BytesField(field, inner)]);
  }

  lemma HostMessageParses(nonce: int, field: int, inner: seq<byte>, node: Option<int>)
    requires |inner| < U32
    ensures ParseFields(HostMessage(nonce, field, inner, node)) == Ok(HostEntries(nonce, field, inner, node))
  {
    hide HostMessage, HostEntries, ParseFields, EncodeFields, AllSurviving;
    HostMessageIsItsFields(nonce, field, inner, node);
    HostFieldsSurvive(nonce, field, inner, node);
    ReaderInvertsWriters(HostFields(nonce, field, inner, node));
  }

  /** What the envelope itself contributes to field `f`. */
  function EnvelopeValues(nonce: int, node: Option<int>, f: nat): seq<Value> {
    if f == 1 && nonce != 0 then [Varint(Low32(nonce))]
    else if f == 2 && node.Some? && node.value != 0 then [Varint(Low32(node.value))]
    else if f == 3 && node.Some? then [Varint(1)]
    else []
  }

  lemma SelectEnvelope(nonce: int, node: Option<int>, f: nat)
    ensures Select(NonceEntries(nonce) + NodeEntries(node), f) == EnvelopeValues(nonce, node, f)
  {
    SelectAppend(NonceEntries(nonce), NodeEntries(node), f);
    SelectOne(Entry(1, Varint(Low32(nonce))), f);
    if node.Some? {
      SelectOne(Entry(2, Varint(Low32(node.value))), f);
      SelectOne(Entry(3, Varint(1)), f);
      SelectAppend(if node.value == 0 then [] else [Entry(2, Varint(Low32(node.value)))], [Entry(3, Varint(1))], f);
    }
  }

  lemma SelectHost(nonce: int, field: int, inner: seq<byte>, node: Option<int>, es: seq<Entry>, f: nat)
    requires es == HostEntries(nonce, field, inner, node)
    ensures Select(es, f) == if f == field % FIELDS then EnvelopeValues(nonce, node, f) + [Bytes(inner)]
                             else EnvelopeValues(nonce, node, f)
    ensures f in Group(es) <==> Select(es, f) != []
    ensures f in Group(es) ==> Group(es)[f] == Select(es, f)
  {
    SelectEnvelope(nonce, node, f);
    SelectAppend(NonceEntries(nonce) + NodeEntries(node), [Entry(field % FIELDS, Bytes(inner))], f);
    SelectOne(Entry(field % FIELDS, Bytes(inner)), f);
    GroupHoldsSelection(es, f);
  }

  lemma SelectOne(e: Entry, f: nat)
    ensures Select([e], f) == if e.field == f then [e.value] else []
  {
    assert [e][1..] == [];
  }

  /** The nonce a reader finds is the caller's modulo 2^32, zero when it was left out. */
  lemma HostNonce(nonce: int, field: int, inner: seq<byte>, node: Option<int>)
    requires |inner| < U32 && GoodField(field)
    ensures var r := ParseFields(HostMessage(nonce, field, inner, node));
            r.Ok? && First(Group(r.value), 1, Varint(0)) == Varint(Low32(nonce))
  {
    hide HostMessage, HostEntries, ParseFields, Group, Select;
    HostMessageParses(nonce, field, inner, node);
    SelectHost(nonce, field, inner, node, HostEntries(nonce, field, inner, node), 1);
  }

  /** For a usable field number: read back as passed exactly when both numbers fit their varints. */
  lemma HostMessageRecovered(nonce: int, field: int, inner: seq<byte>, node: Option<int>)
    requires |inner| < U32
    requires GoodField(field)
    ensures MessageRecovered(nonce, field, inner, node) <==> InRange(nonce, node)
  {
    HostMessageParses(nonce, field, inner, node);
    DictionaryRecovers(nonce, field, inner, node, HostEntries(nonce, field, inner, node));
  }

  lemma DictionaryRecovers(nonce: int, field: nat, inner: seq<byte>, node: Option<int>, es: seq<Entry>)
    requires es == HostEntries(nonce, field, inner, node)
    requires GoodField(field)
    ensures Recovers(Group(es), nonce, field, inner, node) <==> InRange(nonce, node)
  {
    hide Group, Select, HostEntries;
    var m := Group(es);
    assert First(m, 1, Varint(0)) == Varint(Low32(nonce)) by {
      SelectHost(nonce, field, inner, node, es, 1);
    }
    assert node.Some? ==> First(m, 2, Varint(0)) == Varint(Low32(node.value)) by {
      SelectHost(nonce, field, inner, node, es, 2);
    }
    assert 3 in m <==> node.Some? by {
      SelectHost(nonce, field, inner, node, es, 3);
    }
    assert field in m && m[field] == [Bytes(inner)] by {
      SelectHost(nonce, field, inner, node, es, field);
    }
  }

  lemma ReservedFieldFails(field: int)
    requires !GoodField(field)
    ensures !MessageRecovered(0, field, [], Some(0)) || !MessageRecovered(0, field, [], None)
  {
    var node := if field == 1 || field == 2 then Some(0) else None;
    HostMessageParses(0, field, [], node);
    var es := HostEntries(0, field, [], node);
    if field == 1 || field == 2 || field == 3 {
      SelectHost(0, field, [], node, es, field);
      SelectHost(0, field, [], node, es, 3);
    } else if field >= 0 {
      SelectHost(0, field, [], node, es, field);
    }
  }

  /**
   For which request fields the omission of zeros is harmless: every representable number but the
   three the envelope uses itself. All of the scripts' requests (10 to 17) qualify.
   */
  lemma HostMessageRoundTripIsExact(field: int)
    ensures (forall nonce: int, inner: seq<byte>, node: Option<int> | InRange(nonce, node) && |inner| < U32 ::
               MessageRecovered(nonce, field, inner, node))
       <==> GoodField(field)
  {
    if GoodField(field) {
      forall nonce: int, inner: seq<byte>, node: Option<int> | InRange(nonce, node) && |inner| < U32
        ensures MessageRecovered(nonce, field, inner, node)
      {
        HostMessageRecovered(nonce, field, inner, node);
      }
    } else {
      ReservedFieldFails(field);
      assert InRange(0, Some(0)) && InRange(0, None);
    }
  }
}
