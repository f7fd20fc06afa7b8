/**
 Messages that end too early. The reader takes slices, so it notices a cut only inside a varint: in a
 key, in a length, or in a varint value. Behind those it silently keeps what is left.
 */
module FieldCuts {
  import opened Common
  import opened Fields
  import opened FieldCodec

  lemma {:induction false} CutVarint(v: nat, k: nat, n: nat)
    requires k <= 4 && v < Pow128(5 - k) && n < |VarintBytes(v)|
    ensures ReadVarint(VarintBytes(v)[..n], k) == Err(TruncatedVarint)
    decreases v
  {
    if n > 0 {
      assert Pow128(1) == 128;
      assert k < 4;
      assert VarintBytes(v)[..n][1..] == VarintBytes(v / 128)[..n - 1];
      CutVarint(v / 128, k + 1, n - 1);
    }
  }

  lemma CutVarint32(v: int, n: nat)
    requires n < |Varint32(v)|
    ensures ReadVarint(Varint32(v)[..n], 0) == Err(TruncatedVarint)
  {
    assert Pow128(5) == 128 * (128 * (128 * (128 * 128)));
    CutVarint(Low32(v), 0, n);
  }

  /** The part of a field that says what follows: everything but the bytes of a string or a fixed-width value. */
  function HeaderLength(f: WireField): (r: nat)
    ensures 0 < r <= |EncodeField(f)|
  {
    match f
    case VarintField(_, _) => |EncodeField(f)|
    case BytesField(field, data) => |EncodeKey(field, 2)| + |Varint32(|data|)|
    case Fixed64(field, _) => |EncodeKey(field, 1)|
    case Fixed32(field, _) => |EncodeKey(field, 5)|
  }

  /** What is kept of a field that ends `n` bytes after its start, behind its header. */
  function KeptOf(f: WireField, n: nat): seq<Entry> {
    match f
    case BytesField(field, data) =>
      var m := n - HeaderLength(f);
      [Entry(field % FIELDS, Bytes(if 0 <= m <= |data| then data[..m] else data))]
    case _ => []
  }

  // ----- inside the header

  lemma KeyIsCut(field: int, wire: nat, n: nat)
    requires wire < 8 && n < |EncodeKey(field, wire)|
    ensures ReadField(EncodeKey(field, wire)[..n]) == Err(TruncatedVarint)
  {
    CutVarint32(field * 8 + wire, n);
  }

  lemma ValueIsCut(field: int, wire: nat, v: int, n: nat)
    requires (wire == 0 || wire == 2) && n < |Varint32(v)|
    ensures ReadField(EncodeKey(field, wire) + Varint32(v)[..n]) == Err(TruncatedVarint)
  {
    ReadKey(field, wire, Varint32(v)[..n]);
    CutVarint32(v, n);
  }

  lemma PrefixOfThree(a: seq<byte>, b: seq<byte>, c: seq<byte>, n: nat)
    requires n <= |a + b + c|
    ensures n <= |a| ==> (a + b + c)[..n] == a[..n]
    ensures |a| <= n <= |a + b| ==> (a + b + c)[..n] == a + b[..n - |a|]
    ensures |a + b| <= n ==> (a + b + c)[..n] == a + (b + c[..n - |a + b|])
  {
  }

  lemma CutInHeader(f: WireField, n: nat)
    requires WellFormed(f) && 0 < n < HeaderLength(f)
    ensures ReadField(EncodeField(f)[..n]) == Err(TruncatedVarint)
  {
    hide ReadField, Varint32, EncodeKey;
    match f
    case VarintField(field, v) =>
      assert EncodeField(f) == EncodeKey(field, 0) + Varint32(v) + [];
      CutTwoVarints(field, 0, v, [], n);
    case BytesField(field, data) => CutTwoVarints(field, 2, |data|, data, n);
    case Fixed64(field, raw) => CutOneVarint(field, 1, raw, n);
    case Fixed32(field, raw) => CutOneVarint(field, 5, raw, n);
  }

  lemma CutTwoVarints(field: int, wire: nat, v: int, behind: seq<byte>, n: nat)
    requires (wire == 0 || wire == 2) && n < |EncodeKey(field, wire)| + |Varint32(v)|
    ensures ReadField((EncodeKey(field, wire) + Varint32(v) + behind)[..n]) == Err(TruncatedVarint)
  {
    hide ReadField, Varint32, EncodeKey;
    var key := EncodeKey(field, wire);
    PrefixOfThree(key, Varint32(v), behind, n);
    if n < |key| {
      KeyIsCut(field, wire, n);
    } else {
      ValueIsCut(field, wire, v, n - |key|);
    }
  }

  lemma CutOneVarint(field: int, wire: nat, raw: seq<byte>, n: nat)
    requires wire < 8 && n < |EncodeKey(field, wire)|
    ensures ReadField((EncodeKey(field, wire) + raw)[..n]) == Err(TruncatedVarint)
  {
    hide ReadField, EncodeKey;
    KeyIsCut(field, wire, n);
    assert (EncodeKey(field, wire) + raw)[..n] == EncodeKey(field, wire)[..n];
  }

  // ----- behind the header

  lemma CutBehindHeader(fs: seq<WireField>, f: WireField, n: nat)
    requires (forall g :: g in fs ==> WellFormed(g)) && WellFormed(f)
    requires HeaderLength(f) <= n < |EncodeField(f)|
    ensures ParseFields(EncodeFields(fs) + EncodeField(f)[..n]) == Ok(AllSurviving(fs) + KeptOf(f, n))
  {
    hide ParseFields, EncodeFields, AllSurviving, Varint32, EncodeKey;
    assert AllSurviving(fs) + [] == AllSurviving(fs);
    match f
    case VarintField(_, _) =>
    case BytesField(field, data) =>
      PrefixOfThree(EncodeKey(field, 2), Varint32(|data|), data, n);
      CutShortIsKept(fs, field, |data|, data[..n - HeaderLength(f)]);
    case Fixed64(field, raw) => FixedBehindKey(fs, field, 1, raw, n);
    case Fixed32(field, raw) => FixedBehindKey(fs, field, 5, raw, n);
  }

  lemma FixedBehindKey(fs: seq<WireField>, field: int, wire: nat, raw: seq<byte>, n: nat)
    requires forall g :: g in fs ==> WellFormed(g)
    requires (wire == 1 && |raw| == 8) || (wire == 5 && |raw| == 4)
    requires var key := EncodeKey(field, wire); |key| <= n < |key + raw|
    ensures ParseFields(EncodeFields(fs) + (EncodeKey(field, wire) + raw)[..n]) == Ok(AllSurviving(fs))
  {
    hide ParseFields, EncodeFields, AllSurviving, EncodeKey;
    var key := EncodeKey(field, wire);
    CutShortFixedIsAccepted(fs, field, wire, raw[..n - |key|]);
    assert (key + raw)[..n] == key + raw[..n - |key|];
  }

  // ----- the exact condition

  /**
   A last field that is cut short is rejected exactly when the cut falls inside a varint, and then as
   a truncated varint; behind the header it is accepted with what is left of it.
   */
  lemma CutIsRejectedExactly(fs: seq<WireField>, f: WireField, n: nat)
    requires (forall g :: g in fs ==> WellFormed(g)) && WellFormed(f)
    requires 0 < n < |EncodeField(f)|
    ensures var r := ParseFields(EncodeFields(fs) + EncodeField(f)[..n]);
            && (r.Err? <==> n < HeaderLength(f))
            && r == if n < HeaderLength(f) then Err(TruncatedVarint) else Ok(AllSurviving(fs) + KeptOf(f, n))
  {
    hide EncodeFields, AllSurviving, EncodeField, ReadField, HeaderLength;
    if n < HeaderLength(f) {
      CutInHeader(f, n);
      PrefixParses(fs, EncodeField(f)[..n]);
    } else {
      CutBehindHeader(fs, f, n);
    }
  }

  /** The message, cut after `n` bytes, ends inside the header of field `k`. */
  predicate EndsInHeader(fs: seq<WireField>, n: nat, k: nat) {
    k < |fs|
    && var start := |EncodeFields(fs[..k])|;
       start < n < start + HeaderLength(fs[k])
  }

  lemma OneMoreField(fs: seq<WireField>, k: nat)
    requires k < |fs|
    ensures EncodeFields(fs[..k + 1]) == EncodeFields(fs[..k]) + EncodeField(fs[k])
  {
    assert fs[..k + 1] == fs[..k] + [fs[k]];
    EncodeFieldsAppend(fs[..k], [fs[k]]);
    SingleField(fs[k]);
  }

  lemma FieldsLieInOrder(fs: seq<WireField>, j: nat, k: nat)
    requires j <= k <= |fs|
    ensures EncodeFields(fs[..k]) == EncodeFields(fs[..j]) + EncodeFields(fs[j..k])
  {
    assert fs[..k] == fs[..j] + fs[j..k];
    EncodeFieldsAppend(fs[..j], fs[j..k]);
  }

  /** The field a cut falls into. */
  lemma {:induction false} FieldAt(fs: seq<WireField>, n: nat) returns (k: nat)
    requires n < |EncodeFields(fs)|
    ensures k < |fs| && |EncodeFields(fs[..k])| <= n < |EncodeFields(fs[..k + 1])|
    decreases |fs|
  {
    var last := |fs| - 1;
    assert fs[..last + 1] == fs;
    if |EncodeFields(fs[..last])| <= n {
      k := last;
    } else {
      k := FieldAt(fs[..last], n);
      assert fs[..last][..k] == fs[..k] && fs[..last][..k + 1] == fs[..k + 1];
    }
  }

  /** A header that holds the cut belongs to the field the cut falls into. */
  lemma HeaderIsUnique(fs: seq<WireField>, n: nat, k: nat, j: nat)
    requires k < |fs| && |EncodeFields(fs[..k])| <= n < |EncodeFields(fs[..k + 1])|
    requires EndsInHeader(fs, n, j)
    ensures j == k
  {
    hide EncodeFields, EncodeField, HeaderLength;
    OneMoreField(fs, j);
    if j < k {
      FieldsLieInOrder(fs, j + 1, k);
    } else if k < j {
      FieldsLieInOrder(fs, k + 1, j);
    }
  }

  /**
   Cutting any message anywhere: it is rejected if and only if the cut falls inside the header of one
   of its fields, and always as a truncated varint.
   */
  lemma MessageCutExactly(fs: seq<WireField>, n: nat)
    requires (forall g :: g in fs ==> WellFormed(g)) && n <= |EncodeFields(fs)|
    ensures var r := ParseFields(EncodeFields(fs)[..n]);
            && (r.Err? <==> exists k :: EndsInHeader(fs, n, k))
            && (r.Err? ==> r == Err(TruncatedVarint))
  {
    hide EncodeFields, EncodeField, HeaderLength, ParseFields;
    if n == |EncodeFields(fs)| {
      assert EncodeFields(fs)[..n] == EncodeFields(fs);
      ReaderInvertsWriters(fs);
      forall k: nat | k < |fs| ensures !EndsInHeader(fs, n, k) {
        EndIsInNoHeader(fs, k);
      }
    } else {
      var k := FieldAt(fs, n);
      CutAt(fs, n, k);
      forall j | EndsInHeader(fs, n, j) ensures j == k {
        HeaderIsUnique(fs, n, k, j);
      }
    }
  }

  lemma EndIsInNoHeader(fs: seq<WireField>, k: nat)
    requires k < |fs|
    ensures !EndsInHeader(fs, |EncodeFields(fs)|, k)
  {
    hide EncodeFields, EncodeField, HeaderLength;
    OneMoreField(fs, k);
    FieldsLieInOrder(fs, k + 1, |fs|);
    assert fs[..|fs|] == fs;
  }

  lemma CutAt(fs: seq<WireField>, n: nat, k: nat)
    requires forall g :: g in fs ==> WellFormed(g)
    requires k < |fs| && n < |EncodeFields(fs)|
    requires |EncodeFields(fs[..k])| <= n < |EncodeFields(fs[..k + 1])|
    ensures var r := ParseFields(EncodeFields(fs)[..n]);
            (r.Err? <==> EndsInHeader(fs, n, k)) && (r.Err? ==> r == Err(TruncatedVarint))
  {
    hide EncodeFields, EncodeField, HeaderLength, ParseFields;
    var before, m := fs[..k], n - |EncodeFields(fs[..k])|;
    OneMoreField(fs, k);
    FieldsLieInOrder(fs, k + 1, |fs|);
    assert fs[..|fs|] == fs;
    assert EncodeFields(fs)[..n] == EncodeFields(before) + EncodeField(fs[k])[..m];
    if m == 0 {
      assert EncodeFields(before) + EncodeField(fs[k])[..m] == EncodeFields(before);
      ReaderInvertsWriters(before);
    } else {
      CutIsRejectedExactly(before, fs[k], m);
    }
  }
}
