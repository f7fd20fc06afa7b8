/**
 The Config document: what the tool encodes, what it decodes, and the Core that replaces its Config
 by compare-and-swap on a generation. A document is the value handed to the canonical CBOR writer;
 equal documents are equal bytes and equal digests.
 */
module Config {
  import opened Common
  import opened WireValues

  const WIRE_VERSION: int := 4

  /** A JSON property dictionary in insertion order; its keys are distinct. */
  type Properties = seq<(string, Json)>

  /** The sorted wire dictionary of one entry. */
  type WireProperties = seq<(nat, Wire)>

  type Types = map<string, WireType>

  datatype Module = Module(key: int, port: int, typ: string, properties: Properties, types: Types,
                           bay: Option<int>, powerRail: Option<int>)
  datatype Schedule = Schedule(sourceKey: int, periodMs: int, enabled: bool)
  datatype Rule = Rule(key: int, typ: string, properties: Properties, types: Types)
  datatype Block = Block(key: int, typ: string, minVersion: int, exactVersion: int,
                         properties: Properties, types: Types)
  datatype Edge = Edge(sourceKey: int, sourcePort: int, targetKey: int, targetInput: int, sourceKind: int)
  datatype Mqtt = Mqtt(enabled: bool, host: string, port: int, baseTopic: string, security: int, credentialId: int)
  datatype Energy = Energy(availability: int, windowMs: int, periodMs: int)

  datatype Config = Config(version: int, modules: seq<Module>, schedules: seq<Schedule>, rules: seq<Rule>,
                           blocks: seq<Block>, edges: seq<Edge>, policy: int, energy: Energy, mqtt: Mqtt)

  datatype WireModule = WireModule(key: int, port: int, typ: string, properties: WireProperties,
                                   bay: Option<int>, powerRail: Option<int>)
  datatype WireRule = WireRule(key: int, typ: string, properties: WireProperties)
  datatype WireBlock = WireBlock(key: int, typ: string, minVersion: int, exactVersion: int, properties: WireProperties)

  datatype Document = Document(version: int, modules: seq<WireModule>, schedules: seq<Schedule>, rules: seq<WireRule>,
                               mqtt: Mqtt, policy: int, energy: Energy, blocks: seq<WireBlock>, edges: seq<Edge>)

  // ----- property dictionaries

  predicate Ascending(items: WireProperties) {
    forall i, j :: 0 <= i < j < |items| ==> items[i].0 < items[j].0
  }

  predicate NonZeroIds(items: WireProperties) {
    forall i :: 0 <= i < |items| ==> items[i].0 != 0
  }

  /** `encoded[id] = value`, keeping the dictionary sorted. */
  function Put(items: WireProperties, id: nat, value: Wire): WireProperties {
    if items == [] || id < items[0].0 then [(id, value)] + items
    else if id == items[0].0 then [(id, value)] + items[1..]
    else [items[0]] + Put(items[1..], id, value)
  }

  /** The field id of a property name; only numeric, nonzero names are known here. */
  function FieldId(name: string): Option<nat> {
    if !IsDigits(name) || ParseNat(name) == 0 then None else Some(ParseNat(name))
  }

  /**
   The type recorded under the name (an empty one counts as not recorded), else under the canonical
   number, else inferred.
   */
  function TypeOf(name: string, id: nat, value: Json, types: Types): Option<WireType> {
    if name in types then Some(types[name])
    else if NatToString(id) in types then Some(types[NatToString(id)])
    else InferWireType(value)
  }

  function EncodeProperty(name: string, value: Json, types: Types): Option<(nat, Wire)> {
    match FieldId(name)
    case None => None
    case Some(id) =>
      match TypeOf(name, id, value, types)
      case None => None
      case Some(t) =>
        match WireFromJson(value, t)
        case None => None
        case Some(w) => Some((id, w))
  }

  /** Properties are written in dictionary order, so of two names for one field the later wins. */
  function EncodeProperties(properties: Properties, types: Types): Option<WireProperties> {
    if properties == [] then Some([])
    else
      var n := |properties| - 1;
      match EncodeProperties(properties[..n], types)
      case None => None
      case Some(items) =>
        match EncodeProperty(properties[n].0, properties[n].1, types)
        case None => None
        case Some(p) => Some(Put(items, p.0, p.1))
  }

  function DecodedProperties(items: WireProperties): Properties {
    if items == [] then []
    else
      var n := |items| - 1;
      DecodedProperties(items[..n]) + [(NatToString(items[n].0), WireToJson(items[n].1))]
  }

  function DecodedTypes(items: WireProperties): Types {
    if items == [] then map[]
    else
      var n := |items| - 1;
      DecodedTypes(items[..n])[NatToString(items[n].0) := DecodedType(items[n].1)]
  }

  /** `_encode_properties` as the tool runs it. */
  method EncodePropertiesLoop(properties: Properties, types: Types) returns (r: Option<WireProperties>)
    ensures r == EncodeProperties(properties, types)
  {
    var encoded: WireProperties := [];
    assert properties[..0] == [];
    for i := 0 to |properties|
      invariant EncodeProperties(properties[..i], types) == Some(encoded)
    {
      var (name, value) := properties[i];
      assert properties[..i + 1][..i] == properties[..i];
      var p := EncodeProperty(name, value, types);
      if p.None? {
        FailureStays(properties, types, i + 1);
        return None;
      }
      encoded := Put(encoded, p.value.0, p.value.1);
    }
    assert properties[..|properties|] == properties;
    r := Some(encoded);
  }

  lemma {:induction false} FailureStays(properties: Properties, types: Types, i: nat)
    requires i <= |properties| && EncodeProperties(properties[..i], types) == None
    ensures EncodeProperties(properties, types) == None
    decreases |properties|
  {
    if i == |properties| {
      assert properties[..i] == properties;
    } else {
      var n := |properties| - 1;
      assert properties[..n][..i] == properties[..i];
      FailureStays(properties[..n], types, i);
    }
  }

  /** `_decode_properties` as the tool runs it. */
  method DecodePropertiesLoop(raw: WireProperties) returns (properties: Properties, types: Types)
    ensures properties == DecodedProperties(raw) && types == DecodedTypes(raw)
  {
    properties, types := [], map[];
    assert raw[..0] == [];
    for i := 0 to |raw|
      invariant properties == DecodedProperties(raw[..i]) && types == DecodedTypes(raw[..i])
    {
      assert raw[..i + 1][..i] == raw[..i];
      var key := NatToString(raw[i].0);
      properties := properties + [(key, WireToJson(raw[i].1))];
      types := types[key := DecodedType(raw[i].1)];
    }
    assert raw[..|raw|] == raw;
  }

  lemma {:induction false} PutKeepsSorted(items: WireProperties, id: nat, value: Wire)
    requires Ascending(items)
    ensures Ascending(Put(items, id, value))
    ensures NonZeroIds(items) && id != 0 ==> NonZeroIds(Put(items, id, value))
  {
    if items != [] && id > items[0].0 {
      PutKeepsSorted(items[1..], id, value);
      PutIsAbove(items[1..], id, value, items[0].0);
    }
  }

  lemma {:induction false} PutIsAbove(items: WireProperties, id: nat, value: Wire, bound: nat)
    requires bound < id && forall j :: 0 <= j < |items| ==> bound < items[j].0
    ensures forall j :: 0 <= j < |Put(items, id, value)| ==> bound < Put(items, id, value)[j].0
  {
    if items != [] && id > items[0].0 {
      PutIsAbove(items[1..], id, value, bound);
    }
  }

  /** The value a sorted dictionary holds for a field. */
  function Lookup(items: WireProperties, id: nat): Option<Wire> {
    if items == [] then None
    else if items[0].0 == id then Some(items[0].1)
    else Lookup(items[1..], id)
  }

  /** Storing a field replaces its value, whichever name it came under, and touches no other field. */
  lemma {:induction false} PutIsUpdate(items: WireProperties, id: nat, value: Wire, k: nat)
    requires Ascending(items)
    ensures Lookup(Put(items, id, value), k) == if k == id then Some(value) else Lookup(items, k)
  {
    if items == [] || id < items[0].0 {
      assert ([(id, value)] + items)[1..] == items;
    } else if id == items[0].0 {
      assert ([(id, value)] + items[1..])[1..] == items[1..];
    } else {
      PutIsUpdate(items[1..], id, value, k);
      assert ([items[0]] + Put(items[1..], id, value))[1..] == Put(items[1..], id, value);
    }
  }

  lemma {:induction false} PutLargest(items: WireProperties, id: nat, value: Wire)
    requires forall i :: 0 <= i < |items| ==> items[i].0 < id
    ensures Put(items, id, value) == items + [(id, value)]
  {
    if items != [] {
      PutLargest(items[1..], id, value);
      assert [items[0]] + (items[1..] + [(id, value)]) == items + [(id, value)];
    }
  }

  /** Whatever is encoded is sorted and has no field zero: the shape decoding can rely on. */
  lemma {:induction false} EncodedIsSorted(properties: Properties, types: Types)
    ensures var r := EncodeProperties(properties, types);
            r.Some? ==> Ascending(r.value) && NonZeroIds(r.value)
  {
    if properties != [] {
      var n := |properties| - 1;
      EncodedIsSorted(properties[..n], types);
      var before := EncodeProperties(properties[..n], types);
      var p := EncodeProperty(properties[n].0, properties[n].1, types);
      if before.Some? && p.Some? {
        PutKeepsSorted(before.value, p.value.0, p.value.1);
      }
    }
  }

  lemma NamesAreDistinct(a: nat, b: nat)
    requires a != b
    ensures NatToString(a) != NatToString(b)
  {
    NatRoundTrip(a);
    NatRoundTrip(b);
  }

  lemma {:induction false} DecodedTypeOf(items: WireProperties, i: nat)
    requires Ascending(items) && i < |items|
    ensures NatToString(items[i].0) in DecodedTypes(items)
    ensures DecodedTypes(items)[NatToString(items[i].0)] == DecodedType(items[i].1)
  {
    var n := |items| - 1;
    if i < n {
      DecodedTypeOf(items[..n], i);
      NamesAreDistinct(items[i].0, items[n].0);
    }
  }

  lemma DecodedPropertyEncodes(id: nat, value: Wire, types: Types)
    requires id != 0 && NatToString(id) in types && types[NatToString(id)] == DecodedType(value)
    ensures EncodeProperty(NatToString(id), WireToJson(value), types) == Some((id, value))
  {
    NatRoundTrip(id);
    WireValueRoundTrip(value);
  }

  lemma {:induction false} DecodedPrefixEncodes(items: WireProperties, i: nat)
    requires Ascending(items) && NonZeroIds(items) && i <= |items|
    ensures EncodeProperties(DecodedProperties(items[..i]), DecodedTypes(items)) == Some(items[..i])
    decreases i
  {
    if i == 0 {
      assert items[..0] == [];
    } else {
      var n := i - 1;
      DecodedPrefixEncodes(items, n);
      DecodedEntryEncodes(items, n);
    }
  }

  lemma DecodedEntryEncodes(items: WireProperties, n: nat)
    requires Ascending(items) && NonZeroIds(items) && n < |items|
    requires EncodeProperties(DecodedProperties(items[..n]), DecodedTypes(items)) == Some(items[..n])
    ensures EncodeProperties(DecodedProperties(items[..n + 1]), DecodedTypes(items)) == Some(items[..n + 1])
  {
    hide EncodeProperties, EncodeProperty, Put, WireToJson, NatToString, DecodedTypes;
    var (id, value) := items[n];
    DecodedTypeOf(items, n);
    DecodedPropertyEncodes(id, value, DecodedTypes(items));
    PutLargest(items[..n], id, value);
    assert items[..n + 1][..n] == items[..n] && items[..n + 1] == items[..n] + [items[n]];
    EncodeOneMore(DecodedProperties(items[..n]), NatToString(id), WireToJson(value), DecodedTypes(items),
                  items[..n], id, value);
  }

  lemma EncodeOneMore(ps: Properties, name: string, json: Json, types: Types, items: WireProperties, id: nat, w: Wire)
    requires EncodeProperties(ps, types) == Some(items)
    requires EncodeProperty(name, json, types) == Some((id, w))
    ensures EncodeProperties(ps + [(name, json)], types) == Some(Put(items, id, w))
  {
    assert (ps + [(name, json)])[..|ps|] == ps;
  }

  /** Decoding and encoding again is the identity on every sorted dictionary without a field zero. */
  lemma PropertiesRoundTrip(items: WireProperties)
    requires Ascending(items) && NonZeroIds(items)
    ensures EncodeProperties(DecodedProperties(items), DecodedTypes(items)) == Some(items)
  {
    DecodedPrefixEncodes(items, |items|);
    assert items[..|items|] == items;
  }

  // ----- documents

  function EncodeModule(m: Module): Option<WireModule> {
    match EncodeProperties(m.properties, m.types)
    case None => None
    case Some(ps) => Some(WireModule(m.key, m.port, m.typ, ps, m.bay, m.powerRail))
  }

  function DecodeModule(w: WireModule): Module {
    Module(w.key, w.port, w.typ, DecodedProperties(w.properties), DecodedTypes(w.properties), w.bay, w.powerRail)
  }

  function EncodeRule(r: Rule): Option<WireRule> {
    match EncodeProperties(r.properties, r.types)
    case None => None
    case Some(ps) => Some(WireRule(r.key, r.typ, ps))
  }

  function DecodeRule(w: WireRule): Rule {
    Rule(w.key, w.typ, DecodedProperties(w.properties), DecodedTypes(w.properties))
  }

  function EncodeBlock(b: Block): Option<WireBlock> {
    match EncodeProperties(b.properties, b.types)
    case None => None
    case Some(ps) => Some(WireBlock(b.key, b.typ, b.minVersion, b.exactVersion, ps))
  }

  function DecodeBlock(w: WireBlock): Block {
    Block(w.key, w.typ, w.minVersion, w.exactVersion, DecodedProperties(w.properties), DecodedTypes(w.properties))
  }

  /** Encodes every element, or nothing if one of them fails. */
  function EncodeEach<A, B>(f: A -> Option<B>, xs: seq<A>): (r: Option<seq<B>>)
    ensures r.Some? ==> |r.value| == |xs| && forall i :: 0 <= i < |xs| ==> f(xs[i]) == Some(r.value[i])
    ensures r.None? ==> exists i :: 0 <= i < |xs| && f(xs[i]).None?
  {
    if xs == [] then Some([])
    else
      match f(xs[0])
      case None => None
      case Some(y) =>
        match EncodeEach(f, xs[1..])
        case None => None
        case Some(ys) => Some([y] + ys)
  }

  function Each<A, B>(f: A -> B, xs: seq<A>): (r: seq<B>)
    ensures |r| == |xs| && forall i :: 0 <= i < |xs| ==> r[i] == f(xs[i])
  {
    seq(|xs|, i requires 0 <= i < |xs| => f(xs[i]))
  }

  function EncodeConfig(c: Config): Option<Document> {
    var modules, rules, blocks := EncodeEach(EncodeModule, c.modules), EncodeEach(EncodeRule, c.rules),
                                  EncodeEach(EncodeBlock, c.blocks);
    if modules.None? || rules.None? || blocks.None? then None
    else Some(Document(if c.version == 0 then WIRE_VERSION else c.version, modules.value, c.schedules, rules.value,
                       c.mqtt, c.policy, c.energy, blocks.value, c.edges))
  }

  function DecodeConfig(d: Document): Config {
    Config(d.version, Each(DecodeModule, d.modules), d.schedules, Each(DecodeRule, d.rules),
           Each(DecodeBlock, d.blocks), d.edges, d.policy, d.energy, d.mqtt)
  }

  predicate Sorted(items: WireProperties) {
    Ascending(items) && NonZeroIds(items)
  }

  /** The shape of every document the encoder produces. */
  predicate Canonical(d: Document) {
    && d.version != 0
    && (forall i :: 0 <= i < |d.modules| ==> Sorted(d.modules[i].properties))
    && (forall i :: 0 <= i < |d.rules| ==> Sorted(d.rules[i].properties))
    && (forall i :: 0 <= i < |d.blocks| ==> Sorted(d.blocks[i].properties))
  }

  lemma EncodedIsCanonical(c: Config)
    ensures EncodeConfig(c).Some? ==> Canonical(EncodeConfig(c).value)
  {
    if EncodeConfig(c).Some? {
      var d := EncodeConfig(c).value;
      forall i | 0 <= i < |d.modules| ensures Sorted(d.modules[i].properties) {
        assert EncodeModule(c.modules[i]) == Some(d.modules[i]);
        EncodedIsSorted(c.modules[i].properties, c.modules[i].types);
      }
      forall i | 0 <= i < |d.rules| ensures Sorted(d.rules[i].properties) {
        assert EncodeRule(c.rules[i]) == Some(d.rules[i]);
        EncodedIsSorted(c.rules[i].properties, c.rules[i].types);
      }
      forall i | 0 <= i < |d.blocks| ensures Sorted(d.blocks[i].properties) {
        assert EncodeBlock(c.blocks[i]) == Some(d.blocks[i]);
        EncodedIsSorted(c.blocks[i].properties, c.blocks[i].types);
      }
    }
  }

  lemma EachRoundTrips<A, B>(encode: A -> Option<B>, decode: B -> A, ys: seq<B>)
    requires forall i :: 0 <= i < |ys| ==> encode(decode(ys[i])) == Some(ys[i])
    ensures EncodeEach(encode, Each(decode, ys)) == Some(ys)
  {
    var r := EncodeEach(encode, Each(decode, ys));
    assert forall i :: 0 <= i < |ys| ==> Each(decode, ys)[i] == decode(ys[i]);
    if r.Some? {
      forall i | 0 <= i < |ys| ensures r.value[i] == ys[i] {
        assert encode(Each(decode, ys)[i]) == Some(r.value[i]);
      }
      assert r.value == ys;
    }
  }

  /** Decoding a canonical document and encoding it again gives the same document. */
  lemma CanonicalRoundTrip(d: Document)
    requires Canonical(d)
    ensures EncodeConfig(DecodeConfig(d)) == Some(d)
  {
    forall i | 0 <= i < |d.modules| ensures EncodeModule(DecodeModule(d.modules[i])) == Some(d.modules[i]) {
      PropertiesRoundTrip(d.modules[i].properties);
    }
    forall i | 0 <= i < |d.rules| ensures EncodeRule(DecodeRule(d.rules[i])) == Some(d.rules[i]) {
      PropertiesRoundTrip(d.rules[i].properties);
    }
    forall i | 0 <= i < |d.blocks| ensures EncodeBlock(DecodeBlock(d.blocks[i])) == Some(d.blocks[i]) {
      PropertiesRoundTrip(d.blocks[i].properties);
    }
    EachRoundTrips(EncodeModule, DecodeModule, d.modules);
    EachRoundTrips(EncodeRule, DecodeRule, d.rules);
    EachRoundTrips(EncodeBlock, DecodeBlock, d.blocks);
  }

  /** Encoding is stable through decoding, for every Config that can be encoded at all. */
  lemma EncodingIsStable(c: Config)
    requires EncodeConfig(c).Some?
    ensures var d := EncodeConfig(c).value; EncodeConfig(DecodeConfig(d)) == Some(d)
  {
    EncodedIsCanonical(c);
    CanonicalRoundTrip(EncodeConfig(c).value);
  }
}
