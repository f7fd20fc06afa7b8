/** What a Config document and its property values hold, entry by entry, for every spelling the tool accepts. */
module ConfigContents {
  import opened Common
  import opened WireValues
  import opened Config

  // ----- decimal numbers

  /** Decimal notation, digit by digit. */
  lemma DecimalDigits(n: nat, d: nat)
    requires d < 10
    ensures NatToString(d) == [['0', '1', '2', '3', '4', '5', '6', '7', '8', '9'][d]]
    ensures n > 0 ==> NatToString(10 * n + d) == NatToString(n) + NatToString(d)
  {
    assert ('0' as int + d) as char == ['0', '1', '2', '3', '4', '5', '6', '7', '8', '9'][d];
  }

  lemma AppendDigit(m: nat, c: char)
    requires IsDigit(c)
    ensures NatToString(10 * m + Digit(c)) == (if m > 0 then NatToString(m) else []) + [c]
  {
    assert ('0' as int + Digit(c)) as char == c;
  }

  lemma ParseAppended(front: string, c: char)
    requires IsDigits(front) && IsDigit(c)
    ensures IsDigits(front + [c]) && ParseNat(front + [c]) == 10 * ParseNat(front) + Digit(c)
  {
    assert (front + [c])[..|front|] == front;
  }

  lemma ParseSingle(c: char)
    requires IsDigit(c)
    ensures IsDigits([c]) && ParseNat([c]) == Digit(c)
    ensures IsDigits(['0', c]) && ParseNat(['0', c]) == Digit(c)
  {
    assert ['0', c] == ['0'] + [c];
    ParseAppended(['0'], c);
  }

  /** Leading zeros do not count, and apart from them the digits of a number are unique. */
  lemma {:induction false} DecimalIsCanonical(s: string)
    requires IsDigits(s)
    ensures IsDigits(['0'] + s) && ParseNat(['0'] + s) == ParseNat(s)
    ensures |s| == 1 || s[0] != '0' <==> NatToString(ParseNat(s)) == s
    ensures s[0] != '0' ==> ParseNat(s) > 0
    decreases |s|
  {
    hide ParseNat, NatToString;
    var n := |s| - 1;
    var front, c := s[..n], s[n];
    assert s == front + [c];
    if n == 0 {
      ParseSingle(c);
      AppendDigit(0, c);
      assert s == [c] && ['0'] + s == ['0', c];
      assert c != '0' ==> Digit(c) > 0;
    } else {
      DecimalIsCanonical(front);
      ParseAppended(front, c);
      ParseAppended(['0'] + front, c);
      assert ['0'] + s == ['0'] + front + [c];
      AppendDigit(ParseNat(front), c);
      if s[0] == '0' {
        CanonicalLength(s);
      }
    }
  }

  /** A number written without leading zeros never starts with one. */
  lemma {:induction false} CanonicalStart(n: nat)
    ensures n > 0 ==> NatToString(n)[0] != '0'
    ensures n == 0 ==> NatToString(n) == "0"
  {
    if n >= 10 {
      CanonicalStart(n / 10);
    }
  }

  lemma CanonicalLength(s: string)
    requires IsDigits(s) && |s| > 1 && s[0] == '0'
    ensures NatToString(ParseNat(s)) != s
  {
    CanonicalStart(ParseNat(s));
  }

  // ----- hex strings

  predicate HasDigitValue(c: char, v: int) {
    || ('0' <= c <= '9' && v == c as int - '0' as int)
    || ('a' <= c <= 'f' && v == c as int - 'a' as int + 10)
    || ('A' <= c <= 'F' && v == c as int - 'A' as int + 10)
  }

  /** Two hex digits per byte, the high one first, in either case. */
  predicate HexDigits(s: string, data: seq<byte>) {
    && |s| == 2 * |data|
    && forall i :: 0 <= i < |data| ==>
         HasDigitValue(s[2 * i], data[i] / 16) && HasDigitValue(s[2 * i + 1], data[i] % 16)
  }

  predicate Blank(s: string) {
    forall i :: 0 <= i < |s| ==> IsSpace(s[i])
  }

  predicate HexPrefix(s: string) {
    |s| >= 2 && s[0] == '0' && (s[1] == 'x' || s[1] == 'X')
  }

  /** Blanks around, at most one prefix, and then the digits. */
  predicate Spells(text: string, data: seq<byte>) {
    exists i, j :: 0 <= i <= j <= |text| && Blank(text[..i]) && Blank(text[j..]) && SpellsCore(text[i..j], data)
  }

  predicate SpellsCore(core: string, data: seq<byte>) {
    HexDigits(core, data) || (HexPrefix(core) && HexDigits(core[2..], data))
  }

  lemma {:induction false} StripIsSlice(s: string) returns (i: nat, j: nat)
    ensures i <= j <= |s| && Strip(s) == s[i..j] && Blank(s[..i]) && Blank(s[j..])
    decreases |s|
  {
    StripUnfold(s);
    hide Blank, Strip;
    i, j := 0, |s|;
    if s != [] && IsSpace(s[0]) {
      i, j := StripIsSlice(s[1..]);
      ShiftedSlices(s, i, j);
      i, j := i + 1, j + 1;
    } else if s != [] && IsSpace(s[|s| - 1]) {
      i, j := StripIsSlice(s[..|s| - 1]);
      CutSlices(s, i, j);
    } else {
      WholeSlice(s);
    }
  }

  lemma StripUnfold(s: string)
    ensures s != [] && IsSpace(s[0]) ==> Strip(s) == Strip(s[1..])
    ensures s != [] && !IsSpace(s[0]) && IsSpace(s[|s| - 1]) ==> Strip(s) == Strip(s[..|s| - 1])
    ensures s == [] || (!IsSpace(s[0]) && !IsSpace(s[|s| - 1])) ==> Strip(s) == s
  {
  }

  lemma ShiftedSlices(s: string, i: nat, j: nat)
    requires s != [] && IsSpace(s[0]) && i <= j < |s| && Blank(s[1..][..i]) && Blank(s[1..][j..])
    ensures s[1..][i..j] == s[i + 1..j + 1] && Blank(s[..i + 1]) && Blank(s[j + 1..])
  {
    assert s[..i + 1] == [s[0]] + s[1..][..i] && s[1..][j..] == s[j + 1..];
  }

  lemma CutSlices(s: string, i: nat, j: nat)
    requires s != [] && IsSpace(s[|s| - 1]) && i <= j < |s|
    requires Blank(s[..|s| - 1][..i]) && Blank(s[..|s| - 1][j..])
    ensures s[..|s| - 1][i..j] == s[i..j] && Blank(s[..i]) && Blank(s[j..])
  {
    assert s[..|s| - 1][..i] == s[..i] && s[j..] == s[..|s| - 1][j..] + [s[|s| - 1]];
  }

  lemma WholeSlice(s: string)
    ensures s[0..|s|] == s && Blank(s[..0]) && Blank(s[|s|..])
  {
  }

  lemma {:induction false} StripsTo(s: string, i: nat, j: nat)
    requires i <= j <= |s| && Blank(s[..i]) && Blank(s[j..])
    requires i < j ==> !IsSpace(s[i]) && !IsSpace(s[j - 1])
    ensures Strip(s) == s[i..j]
    decreases |s|
  {
    if i > 0 {
      BlankFront(s, i, j);
      StripsTo(s[1..], i - 1, j - 1);
    } else if j == |s| {
      assert s[0..|s|] == s;
    } else if j == 0 {
      BlankFront(s, |s|, |s|);
      assert s[0..] == s == s[..|s|] && s[1..][..0] == [] == s[1..][0..0] && s[1..][0..] == s[1..];
      assert s[0..0] == [];
      AllBlank(s[1..]);
    } else {
      var n := |s| - 1;
      assert s[j..][n - j] == s[n];
      assert s[..n][j..] == s[j..][..n - j];
      assert s[..n][..0] == s[..0] == [];
      StripsTo(s[..n], 0, j);
      assert s[..n][0..j] == s[0..j];
    }
  }

  lemma {:induction false} AllBlank(s: string)
    requires Blank(s)
    ensures Strip(s) == []
    decreases |s|
  {
    if s != [] {
      AllBlank(s[1..]);
    }
  }

  lemma BlankFront(s: string, i: nat, j: nat)
    requires 0 < i <= j <= |s| && Blank(s[..i])
    ensures IsSpace(s[0]) && Blank(s[1..][..i - 1])
    ensures s[1..][j - 1..] == s[j..] && s[1..][i - 1..j - 1] == s[i..j]
  {
    assert s[..i][0] == s[0] && s[1..][..i - 1] == s[..i][1..];
  }

  /** Hex digits in either case are those that are hex digits in lower case. */
  lemma LowerDigit(c: char, v: int)
    ensures HasDigitValue(c, v) <==> IsHex(Lower(c)) && HexValue(Lower(c)) == v
  {
  }

  lemma {:induction false} FromHexReadsDigits(s: string, data: seq<byte>)
    requires |s| % 2 == 0 && forall i :: 0 <= i < |s| ==> IsHex(Lower(s[i]))
    ensures FromHex(LowerAll(s)) == data <==> HexDigits(s, data)
    decreases |s|
  {
    if s == [] {
      assert LowerAll(s) == [];
    } else {
      var t := LowerAll(s);
      assert t[2..] == LowerAll(s[2..]);
      LowerDigit(s[0], HexValue(t[0]));
      LowerDigit(s[1], HexValue(t[1]));
      var first: byte := HexValue(t[0]) * 16 + HexValue(t[1]);
      assert FromHex(t) == [first] + FromHex(t[2..]);
      if data != [] {
        FromHexReadsDigits(s[2..], data[1..]);
        HexDigitsStep(s, data, first);
        assert data == [data[0]] + data[1..];
      }
    }
  }

  lemma HexDigitsStep(s: string, data: seq<byte>, first: byte)
    requires |s| >= 2 && data != []
    requires HasDigitValue(s[0], first / 16) && HasDigitValue(s[1], first % 16)
    ensures HexDigits(s, data) <==> first == data[0] && HexDigits(s[2..], data[1..])
  {
    var t, rest := s[2..], data[1..];
    if first == data[0] && HexDigits(t, rest) {
      forall i | 0 <= i < |data|
        ensures HasDigitValue(s[2 * i], data[i] / 16) && HasDigitValue(s[2 * i + 1], data[i] % 16)
      {
        if i > 0 {
          assert t[2 * (i - 1)] == s[2 * i] && t[2 * (i - 1) + 1] == s[2 * i + 1] && rest[i - 1] == data[i];
        }
      }
    }
    if HexDigits(s, data) {
      assert HasDigitValue(s[2 * 0], data[0] / 16) && HasDigitValue(s[2 * 0 + 1], data[0] % 16);
      assert first / 16 == data[0] / 16 && first % 16 == data[0] % 16;
      forall i | 0 <= i < |rest|
        ensures HasDigitValue(t[2 * i], rest[i] / 16) && HasDigitValue(t[2 * i + 1], rest[i] % 16)
      {
        assert HasDigitValue(s[2 * (i + 1)], data[i + 1] / 16) && HasDigitValue(s[2 * (i + 1) + 1], data[i + 1] % 16);
        assert s[2 * (i + 1)] == t[2 * i] && s[2 * (i + 1) + 1] == t[2 * i + 1];
      }
    }
  }

  lemma DigitsAreHex(s: string, data: seq<byte>)
    requires HexDigits(s, data)
    ensures forall i :: 0 <= i < |s| ==> IsHex(Lower(s[i])) && !IsSpace(s[i])
  {
    forall i | 0 <= i < |s| ensures IsHex(Lower(s[i])) && !IsSpace(s[i]) {
      assert s[2 * (i / 2)] == s[i] || s[2 * (i / 2) + 1] == s[i];
    }
  }

  predicate Reads(clean: string, data: seq<byte>) {
    IsHexText(clean) && FromHex(clean) == data
  }

  lemma ReadsDigits(s: string, data: seq<byte>)
    ensures Reads(LowerAll(s), data) <==> HexDigits(s, data)
  {
    if HexDigits(s, data) {
      DigitsAreHex(s, data);
      FromHexReadsDigits(s, data);
    }
    if Reads(LowerAll(s), data) {
      assert forall i :: 0 <= i < |s| ==> LowerAll(s)[i] == Lower(s[i]);
      FromHexReadsDigits(s, data);
    }
  }

  lemma CoreIsRead(core: string, data: seq<byte>)
    ensures Reads(Cleaned(core), data) <==> SpellsCore(core, data)
  {
    hide Reads, FromHex;
    var lowered := LowerAll(core);
    ReadsDigits(core, data);
    if |core| >= 2 {
      assert lowered[..2] == [Lower(core[0]), Lower(core[1])] && "0x" == ['0', 'x'];
      assert lowered[..2] == "0x" <==> HexPrefix(core);
      assert lowered[2..] == LowerAll(core[2..]);
      ReadsDigits(core[2..], data);
      if HexPrefix(core) && HexDigits(core, data) {
        DigitsAreHex(core, data);
        assert false;
      }
    }
  }

  lemma CoreHasNoBlankEnds(core: string, data: seq<byte>)
    requires SpellsCore(core, data) && core != []
    ensures !IsSpace(core[0]) && !IsSpace(core[|core| - 1])
  {
    if HexDigits(core, data) {
      DigitsAreHex(core, data);
    } else {
      DigitsAreHex(core[2..], data);
      assert |core| > 2 ==> core[|core| - 1] == core[2..][|core| - 3];
    }
  }

  lemma HexByCore(text: string, data: seq<byte>)
    ensures HexToBytes(text) == Some(data) <==> SpellsCore(Strip(text), data)
  {
    hide SpellsCore, Cleaned, Strip, FromHex;
    CoreIsRead(Strip(text), data);
  }

  lemma SpelledCore(text: string, data: seq<byte>, i: nat, j: nat)
    requires i <= j <= |text| && Blank(text[..i]) && Blank(text[j..]) && SpellsCore(text[i..j], data)
    ensures Strip(text) == text[i..j]
  {
    hide SpellsCore, Blank, Strip;
    if i < j {
      CoreHasNoBlankEnds(text[i..j], data);
    }
    StripsTo(text, i, j);
  }

  /** Which texts are read as which bytes: blanks around, an optional prefix, two digits per byte in either case. */
  lemma HexIsReadExactly(text: string, data: seq<byte>)
    ensures HexToBytes(text) == Some(data) <==> Spells(text, data)
  {
    hide HexToBytes, SpellsCore, Blank, Strip;
    HexByCore(text, data);
    if Spells(text, data) {
      var i, j :| 0 <= i <= j <= |text| && Blank(text[..i]) && Blank(text[j..]) && SpellsCore(text[i..j], data);
      SpelledCore(text, data, i, j);
    } else {
      var i, j := StripIsSlice(text);
    }
  }

  // ----- values

  /** A number JSON holds exactly, or a decimal text of any size. */
  predicate MeansInt(j: Json, n: int) {
    || (j == JInt(n) && -9007199254740991 <= n <= 9007199254740991)
    || (j.JText? && IsInteger(j.s) && ParseInt(j.s) == n)
  }

  /** Which wire value a JSON value stands for under a type; under `TOther` none. */
  predicate Converts(j: Json, t: WireType, w: Wire) {
    match w
    case WBool(b) => t.TBool? && j == JBool(b)
    case WText(s) => t.TText? && j == JText(s)
    case WInt(n) => (t.TInt64? || (t.TUint64? && n >= 0)) && MeansInt(j, n)
    case WBytes(data) => t.TBytes? && j.JText? && Spells(j.s, data)
  }

  lemma ConvertsExactly(j: Json, t: WireType, w: Wire)
    ensures WireFromJson(j, t) == Some(w) <==> Converts(j, t, w)
  {
    hide HexToBytes, Spells, ParseInt, IsInteger;
    if t.TBytes? && j.JText? && w.WBytes? {
      HexIsReadExactly(j.s, w.data);
    }
  }

  predicate IsHexDigit(c: char) {
    '0' <= c <= '9' || 'a' <= c <= 'f' || 'A' <= c <= 'F'
  }

  /** What a value stands for when no type is recorded: a text is a number, else bytes, else itself. */
  predicate Inferred(j: Json, w: Wire) {
    match j
    case JBool(b) => w == WBool(b)
    case JInt(n) => w == WInt(n) && -9007199254740991 <= n <= 9007199254740991
    case JText(s) =>
      if IsInteger(s) then w == WInt(ParseInt(s))
      else if s != [] && |s| % 2 == 0 && forall i :: 0 <= i < |s| ==> IsHexDigit(s[i])
      then w.WBytes? && HexDigits(s, w.data)
      else w == WText(s)
    case JOther => false
  }

  lemma AllHexText(s: string, data: seq<byte>)
    requires s != [] && |s| % 2 == 0 && forall i :: 0 <= i < |s| ==> IsHexDigit(s[i])
    ensures HexToBytes(s) == Some(data) <==> HexDigits(s, data)
  {
    hide HexDigits, FromHex, Strip;
    assert IsHexDigit(s[0]) && IsHexDigit(s[1]) && IsHexDigit(s[|s| - 1]);
    assert s[..0] == [] == s[|s|..] && s[0..|s|] == s;
    StripsTo(s, 0, |s|);
    ReadsDigits(s, data);
    assert LowerAll(s)[..2] == [Lower(s[0]), Lower(s[1])] && "0x" == ['0', 'x'];
    assert HexToBytes(s) == Some(data) <==> Reads(LowerAll(s), data);
  }

  lemma InferredExactly(j: Json, w: Wire)
    ensures (InferWireType(j).Some? && WireFromJson(j, InferWireType(j).value) == Some(w)) <==> Inferred(j, w)
  {
    hide HexToBytes, HexDigits, ParseInt, IsInteger;
    match j
    case JBool(_) =>
    case JInt(_) =>
    case JOther =>
    case JText(s) =>
      assert forall c: char :: IsHexDigit(c) <==> IsHex(Lower(c));
      if IsInteger(s) {
        NegativeTexts(s);
      } else if LooksLikeHex(s) && w.WBytes? {
        AllHexText(s, w.data);
      }
  }

  lemma NegativeTexts(s: string)
    requires IsInteger(s)
    ensures s[0] != '-' ==> ParseInt(s) >= 0
  {
  }

  // ----- property dictionaries

  /** The property is for field `id`: its name is that number, however it is spelled. */
  predicate Names(name: string, id: nat) {
    id != 0 && IsDigits(name) && ParseNat(name) == id
  }

  /** A property is written by the type recorded under its own name, else under the plain number, else by inference. */
  predicate Written(name: string, value: Json, types: Types, id: nat, w: Wire) {
    && Names(name, id)
    && if name in types then Converts(value, types[name], w)
       else if NatToString(id) in types then Converts(value, types[NatToString(id)], w)
       else Inferred(value, w)
  }

  lemma WrittenExactly(name: string, value: Json, types: Types, id: nat, w: Wire)
    ensures EncodeProperty(name, value, types) == Some((id, w)) <==> Written(name, value, types, id, w)
  {
    hide WireFromJson, InferWireType, Converts, Inferred, IsDigits, ParseNat, NatToString;
    InferredExactly(value, w);
    if name in types {
      ConvertsExactly(value, types[name], w);
    } else if NatToString(id) in types {
      ConvertsExactly(value, types[NatToString(id)], w);
    }
  }

  /** The last property written for a field. */
  predicate LastFor(ps: Properties, types: Types, id: nat, w: Wire) {
    exists i :: 0 <= i < |ps| && LastAt(ps, types, id, w, i)
  }

  ghost predicate Writable(name: string, value: Json, types: Types) {
    exists id: nat, w :: Written(name, value, types, id, w)
  }

  ghost predicate AllWritable(ps: Properties, types: Types) {
    forall i :: 0 <= i < |ps| ==> Writable(ps[i].0, ps[i].1, types)
  }

  lemma WritableExactly(name: string, value: Json, types: Types)
    ensures EncodeProperty(name, value, types).Some? <==> Writable(name, value, types)
  {
    hide EncodeProperty, Written;
    var p := EncodeProperty(name, value, types);
    if p.Some? {
      WrittenExactly(name, value, types, p.value.0, p.value.1);
    }
    if Writable(name, value, types) {
      var id: nat, w :| Written(name, value, types, id, w);
      WrittenExactly(name, value, types, id, w);
    }
  }

  lemma EncodedNames(name: string, value: Json, types: Types, id: nat)
    requires EncodeProperty(name, value, types).Some?
    ensures EncodeProperty(name, value, types).value.0 == id <==> Names(name, id)
  {
  }

  /** The dictionary holds, per field, the last value written for it and nothing else; every property is writable. */
  lemma {:induction false} PropertiesHold(ps: Properties, types: Types, id: nat, w: Wire)
    ensures EncodeProperties(ps, types).Some? <==> AllWritable(ps, types)
    ensures EncodeProperties(ps, types).Some? ==>
              (Lookup(EncodeProperties(ps, types).value, id) == Some(w) <==> LastFor(ps, types, id, w))
  {
    hide Lookup, Put, EncodeProperty, Written, Names, Writable;
    if ps == [] {
      EmptyLookup(id);
    } else {
      var n := |ps| - 1;
      var front := ps[..n];
      PropertiesHold(front, types, id, w);
      assert forall i :: 0 <= i < n ==> front[i] == ps[i];
      WritableExactly(ps[n].0, ps[n].1, types);
      if EncodeProperties(ps, types).Some? {
        var p := EncodeProperty(ps[n].0, ps[n].1, types).value;
        EncodedIsSorted(front, types);
        PutIsUpdate(EncodeProperties(front, types).value, p.0, p.1, id);
        EncodedNames(ps[n].0, ps[n].1, types, id);
        WrittenExactly(ps[n].0, ps[n].1, types, id, w);
        LastForStep(ps, types, id, w);
      }
    }
  }

  lemma EmptyLookup(id: nat)
    ensures Lookup([], id) == None
  {
  }

  /** Property `i` is the last one for the field, and written as `w`. */
  predicate LastAt(ps: Properties, types: Types, id: nat, w: Wire, i: nat)
    requires i < |ps|
  {
    Written(ps[i].0, ps[i].1, types, id, w) && forall j :: i < j < |ps| ==> !Names(ps[j].0, id)
  }

  lemma LastForStep(ps: Properties, types: Types, id: nat, w: Wire)
    requires ps != []
    ensures var (name, value) := ps[|ps| - 1];
            LastFor(ps, types, id, w) == if Names(name, id) then Written(name, value, types, id, w)
                                         else LastFor(ps[..|ps| - 1], types, id, w)
  {
    hide LastAt;
    var n := |ps| - 1;
    WrittenIsNamed(ps[n].0, ps[n].1, types, id, w);
    LastIsLast(ps, types, id, w);
    if !Names(ps[n].0, id) {
      if LastFor(ps[..n], types, id, w) {
        var i :| 0 <= i < n && LastAt(ps[..n], types, id, w, i);
        LastAtFront(ps, types, id, w, i);
      }
      if LastFor(ps, types, id, w) {
        var i :| 0 <= i < |ps| && LastAt(ps, types, id, w, i);
        LastAtFront(ps, types, id, w, i);
      }
    }
  }

  lemma LastIsLast(ps: Properties, types: Types, id: nat, w: Wire)
    requires ps != []
    ensures var n := |ps| - 1;
            && (LastAt(ps, types, id, w, n) <==> Written(ps[n].0, ps[n].1, types, id, w))
            && (Names(ps[n].0, id) ==> forall i :: 0 <= i < n ==> !LastAt(ps, types, id, w, i))
  {
    hide Written, Names;
  }

  lemma LastAtFront(ps: Properties, types: Types, id: nat, w: Wire, i: nat)
    requires ps != [] && i < |ps| && !Names(ps[|ps| - 1].0, id)
    ensures i < |ps| - 1 ==> (LastAt(ps, types, id, w, i) <==> LastAt(ps[..|ps| - 1], types, id, w, i))
    ensures i == |ps| - 1 ==> !LastAt(ps, types, id, w, i)
  {
    WrittenIsNamed(ps[i].0, ps[i].1, types, id, w);
    hide Written, Names;
    var front := ps[..|ps| - 1];
    assert forall j :: 0 <= j < |front| ==> front[j] == ps[j];
  }

  lemma WrittenIsNamed(name: string, value: Json, types: Types, id: nat, w: Wire)
    ensures Written(name, value, types, id, w) ==> Names(name, id)
  {
  }

  /** What is decoded: per field the plain number as its name, its value, and the type that brings it back. */
  lemma {:induction false} DecodedHold(items: WireProperties, i: nat)
    requires i < |items|
    ensures |DecodedProperties(items)| == |items|
    ensures var (name, value) := DecodedProperties(items)[i];
            && name == NatToString(items[i].0)
            && Converts(value, DecodedType(items[i].1), items[i].1)
            && (items[i].1.WInt? ==> (value.JInt? <==> -9007199254740991 <= items[i].1.n <= 9007199254740991))
    decreases |items|
  {
    hide Converts, NatToString;
    var n := |items| - 1;
    if i < n {
      DecodedHold(items[..n], i);
    } else {
      if n > 0 {
        DecodedHold(items[..n], 0);
      }
      WireValueRoundTrip(items[n].1);
      ConvertsExactly(WireToJson(items[n].1), DecodedType(items[n].1), items[n].1);
    }
  }

  // ----- documents

  /** A document carries every part of its Config in its place; only an unset version is filled in. */
  lemma EncodedConfigHolds(c: Config, d: Document)
    requires EncodeConfig(c) == Some(d)
    ensures d.version == (if c.version == 0 then 4 else c.version)
    ensures d.schedules == c.schedules && d.edges == c.edges && d.mqtt == c.mqtt
    ensures d.policy == c.policy && d.energy == c.energy
    ensures |d.modules| == |c.modules| && |d.rules| == |c.rules| && |d.blocks| == |c.blocks|
    ensures forall i :: 0 <= i < |c.modules| ==>
              var (m, w) := (c.modules[i], d.modules[i]);
              && w.key == m.key && w.port == m.port && w.typ == m.typ && w.bay == m.bay && w.powerRail == m.powerRail
              && EncodeProperties(m.properties, m.types) == Some(w.properties)
    ensures forall i :: 0 <= i < |c.rules| ==>
              var (r, w) := (c.rules[i], d.rules[i]);
              w.key == r.key && w.typ == r.typ && EncodeProperties(r.properties, r.types) == Some(w.properties)
    ensures forall i :: 0 <= i < |c.blocks| ==>
              var (b, w) := (c.blocks[i], d.blocks[i]);
              && w.key == b.key && w.typ == b.typ && w.minVersion == b.minVersion && w.exactVersion == b.exactVersion
              && EncodeProperties(b.properties, b.types) == Some(w.properties)
  {
    hide EncodeProperties;
    forall i | 0 <= i < |c.modules| ensures EncodeModule(c.modules[i]) == Some(d.modules[i]) {
    }
    forall i | 0 <= i < |c.rules| ensures EncodeRule(c.rules[i]) == Some(d.rules[i]) {
    }
    forall i | 0 <= i < |c.blocks| ensures EncodeBlock(c.blocks[i]) == Some(d.blocks[i]) {
    }
  }

  /** A Config can be encoded exactly when every property in it can be written. */
  lemma EncodableExactly(c: Config)
    ensures EncodeConfig(c).Some? <==>
              && (forall i :: 0 <= i < |c.modules| ==> AllWritable(c.modules[i].properties, c.modules[i].types))
              && (forall i :: 0 <= i < |c.rules| ==> AllWritable(c.rules[i].properties, c.rules[i].types))
              && (forall i :: 0 <= i < |c.blocks| ==> AllWritable(c.blocks[i].properties, c.blocks[i].types))
  {
    hide EncodeProperties, AllWritable;
    forall ps: Properties, types: Types ensures EncodeProperties(ps, types).Some? <==> AllWritable(ps, types) {
      PropertiesHold(ps, types, 0, WBool(true));
    }
    EachEncodes(EncodeModule, c.modules);
    EachEncodes(EncodeRule, c.rules);
    EachEncodes(EncodeBlock, c.blocks);
  }

  lemma EachEncodes<A, B>(f: A -> Option<B>, xs: seq<A>)
    ensures EncodeEach(f, xs).Some? <==> forall i :: 0 <= i < |xs| ==> f(xs[i]).Some?
  {
    var r := EncodeEach(f, xs);
    assert r.Some? ==> forall i :: 0 <= i < |xs| ==> f(xs[i]) == Some(r.value[i]);
  }
}
