/**
 Property values between JSON and the wire: 64-bit integers that JSON cannot hold exactly travel as
 decimal strings, byte strings as hex. `None` stands for the codec error the tool raises.
 */
module WireValues {
  import opened Common

  const SAFE_MIN: int := -0x20_0000_0000_0000 + 1
  const SAFE_MAX: int := 0x20_0000_0000_0000 - 1

  datatype Json = JBool(b: bool) | JInt(n: int) | JText(s: string) | JOther

  datatype Wire = WBool(b: bool) | WInt(n: int) | WText(s: string) | WBytes(data: seq<byte>)

  datatype WireType = TBool | TInt64 | TUint64 | TText | TBytes | TOther

  // ----- decimal strings

  predicate IsDigit(c: char) {
    '0' <= c <= '9'
  }

  predicate IsDigits(s: string) {
    s != [] && forall i :: 0 <= i < |s| ==> IsDigit(s[i])
  }

  function Digit(c: char): nat
    requires IsDigit(c)
  {
    c as int - '0' as int
  }

  function ParseNat(s: string): nat
    requires IsDigits(s)
  {
    if |s| == 1 then Digit(s[0]) else 10 * ParseNat(s[..|s| - 1]) + Digit(s[|s| - 1])
  }

  function NatToString(n: nat): (s: string)
    ensures IsDigits(s)
  {
    var d := [('0' as int + n % 10) as char];
    if n < 10 then d else NatToString(n / 10) + d
  }

  lemma {:induction false} NatRoundTrip(n: nat)
    ensures ParseNat(NatToString(n)) == n
  {
    if n >= 10 {
      NatRoundTrip(n / 10);
      var s := NatToString(n);
      assert s[..|s| - 1] == NatToString(n / 10);
    }
  }

  /** `-?\d+`, over ASCII digits. */
  predicate IsInteger(s: string) {
    IsDigits(if s != [] && s[0] == '-' then s[1..] else s)
  }

  function ParseInt(s: string): int
    requires IsInteger(s)
  {
    if s[0] == '-' then -(ParseNat(s[1..]) as int) else ParseNat(s)
  }

  function IntToString(n: int): string {
    if n < 0 then ['-'] + NatToString(-n) else NatToString(n)
  }

  lemma IntRoundTrip(n: int)
    ensures IsInteger(IntToString(n)) && ParseInt(IntToString(n)) == n
  {
    if n < 0 {
      NatRoundTrip(-n);
      assert IntToString(n)[1..] == NatToString(-n);
    } else {
      NatRoundTrip(n);
      assert IsDigit(NatToString(n)[0]);
    }
  }

  // ----- hex strings

  predicate IsHex(c: char) {
    IsDigit(c) || 'a' <= c <= 'f'
  }

  function Lower(c: char): char {
    if 'A' <= c <= 'Z' then (c as int + 32) as char else c
  }

  function LowerAll(s: string): (r: string)
    ensures |r| == |s| && forall i :: 0 <= i < |s| ==> r[i] == Lower(s[i])
  {
    seq(|s|, i requires 0 <= i < |s| => Lower(s[i]))
  }

  predicate IsSpace(c: char) {
    c == ' ' || '\t' <= c <= '\r' || '\U{1C}' <= c <= '\U{1F}'
  }

  function Strip(s: string): string {
    if s == [] then []
    else if IsSpace(s[0]) then Strip(s[1..])
    else if IsSpace(s[|s| - 1]) then Strip(s[..|s| - 1])
    else s
  }

  function HexDigit(n: nat): (c: char)
    requires n < 16
    ensures IsHex(c)
  {
    if n < 10 then ('0' as int + n) as char else ('a' as int + n - 10) as char
  }

  function HexValue(c: char): (n: nat)
    requires IsHex(c)
    ensures n < 16
  {
    if IsDigit(c) then Digit(c) else c as int - 'a' as int + 10
  }

  function BytesToHex(data: seq<byte>): (s: string)
    ensures |s| == 2 * |data| && forall i :: 0 <= i < |s| ==> IsHex(s[i])
  {
    if data == [] then [] else [HexDigit(data[0] / 16), HexDigit(data[0] % 16)] + BytesToHex(data[1..])
  }

  function FromHex(s: string): seq<byte>
    requires |s| % 2 == 0 && forall i :: 0 <= i < |s| ==> IsHex(s[i])
  {
    if s == [] then [] else [HexValue(s[0]) * 16 + HexValue(s[1])] + FromHex(s[2..])
  }

  /** What is left of the stripped text for `bytes.fromhex`. */
  function Cleaned(core: string): string {
    var lowered := LowerAll(core);
    if |lowered| >= 2 && lowered[..2] == "0x" then lowered[2..] else lowered
  }

  predicate IsHexText(s: string) {
    |s| % 2 == 0 && forall i :: 0 <= i < |s| ==> IsHex(s[i])
  }

  /** `hex_to_bytes`: surrounding blanks, upper case and an 0x prefix are accepted. */
  function HexToBytes(text: string): Option<seq<byte>> {
    var clean := Cleaned(Strip(text));
    if IsHexText(clean) then Some(FromHex(clean)) else None
  }

  lemma {:induction false} FromHexInverts(data: seq<byte>)
    ensures FromHex(BytesToHex(data)) == data
  {
    if data != [] {
      FromHexInverts(data[1..]);
      assert BytesToHex(data)[2..] == BytesToHex(data[1..]);
    }
  }

  lemma HexIsClean(s: string)
    requires forall i :: 0 <= i < |s| ==> IsHex(s[i])
    ensures Strip(s) == s && LowerAll(s) == s
    ensures |s| >= 2 ==> s[..2] != "0x"
  {
    assert "0x"[1] == 'x' && !IsHex('x');
    if s != [] {
      assert IsHex(s[0]) && IsHex(s[|s| - 1]);
    }
    if |s| >= 2 {
      assert IsHex(s[1]) && s[..2][1] == s[1];
    }
  }

  lemma CleanHexParses(s: string)
    requires |s| % 2 == 0 && forall i :: 0 <= i < |s| ==> IsHex(s[i])
    ensures HexToBytes(s) == Some(FromHex(s))
  {
    HexIsClean(s);
  }

  lemma HexRoundTrip(data: seq<byte>)
    ensures HexToBytes(BytesToHex(data)) == Some(data)
  {
    hide *;
    FromHexInverts(data);
    CleanHexParses(BytesToHex(data));
  }

  // ----- values

  /** `integer_from_json`: a safe number, or an integer string of any size. */
  function IntegerFromJson(j: Json): Option<int> {
    match j
    case JText(s) => if IsInteger(s) then Some(ParseInt(s)) else None
    case JInt(n) => if SAFE_MIN <= n <= SAFE_MAX then Some(n) else None
    case _ => None
  }

  function IntegerToJson(n: int): Json {
    if SAFE_MIN <= n <= SAFE_MAX then JInt(n) else JText(IntToString(n))
  }

  /** A nonempty even number of hex digits, in either case. */
  predicate LooksLikeHex(s: string) {
    s != [] && |s| % 2 == 0 && forall i :: 0 <= i < |s| ==> IsHex(Lower(s[i]))
  }

  /** `infer_wire_type`; the last text test is for an even number of hex digits. */
  function InferWireType(j: Json): Option<WireType> {
    match j
    case JBool(_) => Some(TBool)
    case JInt(n) =>
      if n < SAFE_MIN || n > SAFE_MAX then None else Some(if n < 0 then TInt64 else TUint64)
    case JText(s) =>
      if IsInteger(s) then Some(if s[0] == '-' then TInt64 else TUint64)
      else if LooksLikeHex(s) then Some(TBytes)
      else Some(TText)
    case JOther => None
  }

  function WireFromJson(j: Json, t: WireType): Option<Wire> {
    match t
    case TBool => if j.JBool? then Some(WBool(j.b)) else None
    case TText => if j.JText? then Some(WText(j.s)) else None
    case TInt64 =>
      (match IntegerFromJson(j) case None => None case Some(n) => Some(WInt(n)))
    case TUint64 =>
      (match IntegerFromJson(j) case None => None case Some(n) => if n < 0 then None else Some(WInt(n)))
    case TBytes =>
      if !j.JText? then None
      else (match HexToBytes(j.s) case None => None case Some(data) => Some(WBytes(data)))
    case TOther => None
  }

  /** The type a decoded value is given; the sign alone tells the integer types apart. */
  function DecodedType(w: Wire): WireType {
    match w
    case WBool(_) => TBool
    case WInt(n) => if n < 0 then TInt64 else TUint64
    case WText(_) => TText
    case WBytes(_) => TBytes
  }

  function WireToJson(w: Wire): Json {
    match w
    case WBool(b) => JBool(b)
    case WInt(n) => IntegerToJson(n)
    case WText(s) => JText(s)
    case WBytes(data) => JText(BytesToHex(data))
  }

  lemma IntegerSurvives(n: int)
    ensures IntegerFromJson(IntegerToJson(n)) == Some(n)
  {
    hide ParseNat, NatToString, ParseInt, IsInteger, IntToString;
    IntRoundTrip(n);
  }

  /** Any wire value survives the trip through JSON with its decoded type, integers of any size included. */
  lemma WireValueRoundTrip(w: Wire)
    ensures WireFromJson(WireToJson(w), DecodedType(w)) == Some(w)
  {
    hide IntegerFromJson, IntegerToJson, HexToBytes, BytesToHex;
    match w
    case WBool(_) =>
    case WInt(n) => IntegerSurvives(n);
    case WText(_) =>
    case WBytes(data) => HexRoundTrip(data);
  }

  predicate InferenceRecovers(w: Wire) {
    match InferWireType(WireToJson(w))
    case None => false
    case Some(t) => WireFromJson(WireToJson(w), t) == Some(w)
  }

  lemma InferredInteger(n: int)
    ensures InferenceRecovers(WInt(n))
    ensures InferWireType(WireToJson(WInt(n))) == Some(DecodedType(WInt(n)))
  {
    hide ParseNat, NatToString, ParseInt, IsInteger;
    IntRoundTrip(n);
    SignOfString(n);
  }

  lemma SignOfString(n: int)
    ensures IntToString(n) != [] && (IntToString(n)[0] == '-' <==> n < 0)
  {
    if n >= 0 {
      assert IsDigit(NatToString(n)[0]);
    }
  }

  lemma InferredHex(s: string, data: seq<byte>)
    requires |s| % 2 == 0 && forall i :: 0 <= i < |s| ==> IsHex(s[i])
    ensures InferWireType(JText(s)) == Some(TBytes) <==> s != [] && !IsDigits(s)
    ensures IsDigits(s) ==>
              InferWireType(JText(s)) == Some(TUint64) && WireFromJson(JText(s), TUint64) != Some(WBytes(data))
    ensures s == [] ==> InferWireType(JText(s)) == Some(TText)
  {
    if s != [] {
      assert IsHex(s[0]);
      assert forall i :: 0 <= i < |s| ==> Lower(s[i]) == s[i] by {
        forall i | 0 <= i < |s| ensures Lower(s[i]) == s[i] {
          assert IsHex(s[i]);
        }
      }
    }
  }

  /** Without the recorded type it survives exactly when inference lands on the same kind of value. */
  lemma InferredRoundTrip(w: Wire)
    ensures InferenceRecovers(w)
       <==> match w
            case WBool(_) => true
            case WInt(_) => true
            case WText(s) => !IsInteger(s) && !LooksLikeHex(s)
            case WBytes(data) => data != [] && !IsDigits(BytesToHex(data))
  {
    match w
    case WBool(_) =>
    case WText(s) =>
    case WInt(n) => InferredInteger(n);
    case WBytes(data) => InferredBytes(data);
  }

  lemma InferredBytes(data: seq<byte>)
    ensures InferenceRecovers(WBytes(data)) <==> data != [] && !IsDigits(BytesToHex(data))
  {
    hide BytesToHex, HexToBytes, InferWireType, IsDigits;
    HexRoundTrip(data);
    InferredHex(BytesToHex(data), data);
  }
}
