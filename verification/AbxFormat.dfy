/**
 Android binary XML (ABX): the token stream, the XML text it stands for, how its bytes are
 parsed, and the encoder that is the inverse of the parser.
 */
module AbxFormat {
  import opened Common

  const START_TAG: nat := 2
  const LAST_EVENT: nat := 10
  const ATTRIBUTE: nat := 15
  const NEW_STRING: nat := 0xffff

  /** A typed value. BadType and BadId are what the decoder makes of bytes it cannot interpret. */
  datatype Data =
    | Null
    | Str(s: Bytes)
    | Interned(s: Bytes)
    | BytesHex(s: Bytes)
    | BytesBase64(s: Bytes)
    | Int(i: int)
    | IntHex(i: int)
    | Long(i: int)
    | LongHex(i: int)
    | Float(raw: Bytes)
    | Double(raw: Bytes)
    | True
    | False
    | BadType
    | BadId

  datatype Token = Attribute(name: Data, value: Data) | Event(code: nat, data: Data)

  /** The ostream formatting of float and double, which this model does not look into. */
  datatype Format = Format(float: Bytes -> Bytes, double: Bytes -> Bytes)

  // ---- Text ----

  function Ascii(s: string): Bytes { seq(|s|, i requires 0 <= i < |s| => s[i] as int % 256) }

  function Signed(i: int): string { if i < 0 then "-" + Decimal(-i) else Decimal(i) }

  const HEX_DIGITS: string := "0123456789abcdef"

  function Hex(s: Bytes): Bytes {
    if s == [] then [] else Ascii([HEX_DIGITS[s[0] / 16], HEX_DIGITS[s[0] % 16]]) + Hex(s[1..])
  }

  /** The base 64 alphabet: letters, digits, '+' and '/'. */
  function Base64Digit(v: nat): char
    requires v < 64
  {
    if v < 26 then ('A' as int + v) as char
    else if v < 52 then ('a' as int + (v - 26)) as char
    else if v < 62 then ('0' as int + (v - 52)) as char
    else if v == 62 then '+'
    else '/'
  }

  /** Up to three bytes as four characters. */
  function Base64Quad(s: Bytes): (r: string)
    requires s != []
    ensures |r| == 4
  {
    var b1 := if 1 < |s| then s[1] else 0;
    var b2 := if 2 < |s| then s[2] else 0;
    [Base64Digit(s[0] / 4), Base64Digit(s[0] % 4 * 16 + b1 / 16),
     if 1 < |s| then Base64Digit(b1 % 16 * 4 + b2 / 64) else '=', if 2 < |s| then Base64Digit(b2 % 64) else '=']
  }

  /** The base 64 encoding of section 4 of RFC 4648. */
  function Base64(s: Bytes): string {
    if s == [] then "" else Base64Quad(s[..if |s| < 3 then |s| else 3]) + Base64(s[if |s| < 3 then |s| else 3..])
  }

  /** EVP_EncodeBlock's result always has the length that read_data expects. */
  lemma {:induction false} Base64Length(s: Bytes)
    ensures |Base64(s)| == (|s| + 2) / 3 * 4
    decreases |s|
  {
    hide Base64Quad;
    if s != [] {
      Base64Length(s[if |s| < 3 then |s| else 3..]);
    }
  }

  predicate Faulty(d: Data) { d.BadType? || d.BadId? }

  function DataText(f: Format, d: Data): Bytes {
    match d
    case Null => []
    case Str(s) => s
    case Interned(s) => s
    case BytesHex(s) => Hex(s)
    case BytesBase64(s) => Ascii(Base64(s))
    case Int(i) => Ascii(Signed(i))
    case IntHex(i) => Ascii(Signed(i))
    case Long(i) => Ascii(Signed(i))
    case LongHex(i) => Ascii(Signed(i))
    case Float(raw) => f.float(raw)
    case Double(raw) => f.double(raw)
    case True => Ascii("1")
    case False => Ascii("0")
    case BadType => Ascii("#error: invalid type")
    case BadId => Ascii("#error: invalid string ID")
  }

  function AttributeText(f: Format, name: Data, value: Data): Bytes {
    Ascii(" ") + DataText(f, name) + Ascii("=\"") + DataText(f, value) + Ascii("\"")
  }

  function EventText(code: nat, text: Bytes): Bytes {
    if code <= 1 then []  // START_DOCUMENT, END_DOCUMENT
    else if code == START_TAG then Ascii("<") + text
    else if code == 3 then Ascii("</") + text + Ascii(">")
    else if code == 5 then Ascii("<![CDATA[") + text + Ascii("]]>")
    else if code <= LAST_EVENT then text
    else Ascii("#error: Invalid event ") + Ascii(Decimal(code))
  }

  /** The number of attributes at the front of a token list. */
  function AttributeRun(tokens: seq<Token>): (k: nat)
    ensures k <= |tokens|
    ensures forall i | 0 <= i < k :: tokens[i].Attribute?
    ensures k < |tokens| ==> tokens[k].Event?
  {
    if tokens == [] || tokens[0].Event? then 0 else 1 + AttributeRun(tokens[1..])
  }

  function AttributesText(f: Format, tokens: seq<Token>): Bytes
    requires forall i | 0 <= i < |tokens| :: tokens[i].Attribute?
  {
    if tokens == [] then [] else AttributeText(f, tokens[0].name, tokens[0].value) + AttributesText(f, tokens[1..])
  }

  /**
   The document a token list stands for: every start tag takes the attributes that follow it
   and is closed by one '>' unless the stream ends there.
   */
  function Document(f: Format, tokens: seq<Token>): Bytes
    decreases |tokens|
  {
    if tokens == [] then []
    else if tokens[0].Attribute? then
      AttributeText(f, tokens[0].name, tokens[0].value) + Document(f, tokens[1..])
    else if tokens[0].code != START_TAG then
      EventText(tokens[0].code, DataText(f, tokens[0].data)) + Document(f, tokens[1..])
    else
      var k := AttributeRun(tokens[1..]);
      var rest := tokens[1 + k..];
      assert forall i | 0 <= i < k :: tokens[1..][i] == tokens[1..1 + k][i];
      EventText(START_TAG, DataText(f, tokens[0].data)) + AttributesText(f, tokens[1..1 + k])
      + (if rest == [] then [] else Ascii(">")) + Document(f, rest)
  }

  predicate SoundToken(t: Token) {
    match t
    case Attribute(n, v) => !Faulty(n) && !Faulty(v)
    case Event(code, d) => code <= LAST_EVENT && !Faulty(d)
  }

  predicate Sound(tokens: seq<Token>) { forall i | 0 <= i < |tokens| :: SoundToken(tokens[i]) }

  // ---- Numbers ----

  function Pow256(k: nat): (p: nat)
    ensures 1 <= p
  {
    if k == 0 then 1 else 256 * Pow256(k - 1)
  }

  function FromBE(bs: Bytes): (n: nat)
    ensures n < Pow256(|bs|)
  {
    if bs == [] then 0 else FromBE(bs[..|bs| - 1]) * 256 + bs[|bs| - 1]
  }

  function ToBE(n: nat, k: nat): (bs: Bytes)
    ensures |bs| == k
  {
    if k == 0 then [] else ToBE(n / 256, k - 1) + [n % 256]
  }

  lemma FromBEOneMore(front: Bytes, last: byte)
    ensures FromBE(front + [last]) == FromBE(front) * 256 + last
  {
    assert (front + [last])[..|front|] == front;
  }

  lemma {:induction false} BigEndianRoundTrip(n: nat, k: nat)
    requires n < Pow256(k)
    ensures FromBE(ToBE(n, k)) == n
  {
    hide FromBE;
    if k == 0 {
      assert FromBE([]) == 0 by { NoBytes(); }
    } else {
      assert n < 256 * Pow256(k - 1);
      BigEndianRoundTrip(n / 256, k - 1);
      FromBEOneMore(ToBE(n / 256, k - 1), n % 256);
    }
  }

  lemma NoBytes()
    ensures FromBE([]) == 0
  {
  }

  /** Two's complement in k bytes. */
  function Unsigned(i: int, k: nat): int { if i < 0 then i + Pow256(k) else i }

  function FromTwos(n: nat, k: nat): int { if 2 * n < Pow256(k) then n else n - Pow256(k) }

  predicate InRange(i: int, k: nat) { -(Pow256(k) as int) <= 2 * i < Pow256(k) }

  // ---- Parsing ----

  datatype Parsed<T> = Truncated | Parsed(value: T, rest: Bytes, pool: seq<Bytes>)

  function ParseString(bs: Bytes): Option<(Bytes, Bytes)> {
    if |bs| < 2 then None else
      var n := FromBE(bs[..2]);
      if |bs| < 2 + n then None else Some((bs[2..2 + n], bs[2 + n..]))
  }

  function ParseInterned(bs: Bytes, pool: seq<Bytes>): Parsed<Data> {
    if |bs| < 2 then Truncated else
      var id := FromBE(bs[..2]);
      if id == NEW_STRING then
        match ParseString(bs[2..])
        case None => Truncated
        case Some(p) => Parsed(Interned(p.0), p.1, pool + [p.0])
      else Parsed(if id < |pool| then Interned(pool[id]) else BadId, bs[2..], pool)
  }

  function ParseFixed(bs: Bytes, k: nat, make: Bytes -> Data, pool: seq<Bytes>): Parsed<Data> {
    if |bs| < k then Truncated else Parsed(make(bs[..k]), bs[k..], pool)
  }

  function ParseText(bs: Bytes, make: Bytes -> Data, pool: seq<Bytes>): Parsed<Data> {
    match ParseString(bs)
    case None => Truncated
    case Some(p) => Parsed(make(p.0), p.1, pool)
  }

  /** The value of type nibble `ty` at the front of `bs`. */
  function ParseData(ty: nat, bs: Bytes, pool: seq<Bytes>): Parsed<Data> {
    if ty == 1 then Parsed(Null, bs, pool)
    else if ty == 2 then ParseText(bs, s => Str(s), pool)
    else if ty == 3 then ParseInterned(bs, pool)
    else if ty == 4 then ParseText(bs, s => BytesHex(s), pool)
    else if ty == 5 then ParseText(bs, s => BytesBase64(s), pool)
    else if ty == 6 then ParseFixed(bs, 4, w => Int(FromTwos(FromBE(w), 4)), pool)
    else if ty == 7 then ParseFixed(bs, 4, w => IntHex(FromTwos(FromBE(w), 4)), pool)
    else if ty == 8 then ParseFixed(bs, 8, w => Long(FromTwos(FromBE(w), 8)), pool)
    else if ty == 9 then ParseFixed(bs, 8, w => LongHex(FromTwos(FromBE(w), 8)), pool)
    else if ty == 10 then ParseFixed(bs, 4, w => Float(w), pool)
    else if ty == 11 then ParseFixed(bs, 8, w => Double(w), pool)
    else if ty == 12 then Parsed(True, bs, pool)
    else if ty == 13 then Parsed(False, bs, pool)
    else Parsed(BadType, bs, pool)
  }

  function ParseToken(bs: Bytes, pool: seq<Bytes>): Parsed<Token>
    requires bs != []
  {
    var code, ty := bs[0] % 16, bs[0] / 16;
    if code == ATTRIBUTE then
      match ParseInterned(bs[1..], pool)
      case Truncated => Truncated
      case Parsed(name, rest, pool') =>
        match ParseData(ty, rest, pool')
        case Truncated => Truncated
        case Parsed(value, rest', pool'') => Parsed(Attribute(name, value), rest', pool'')
    else
      match ParseData(ty, bs[1..], pool)
      case Truncated => Truncated
      case Parsed(d, rest, pool') => Parsed(Event(code, d), rest, pool')
  }

  lemma ParseDataShrinks(ty: nat, bs: Bytes, pool: seq<Bytes>)
    ensures ParseData(ty, bs, pool).Parsed? ==> |ParseData(ty, bs, pool).rest| <= |bs|
  {
  }

  lemma ParseTokenShrinks(bs: Bytes, pool: seq<Bytes>)
    requires bs != []
    ensures ParseToken(bs, pool).Parsed? ==> |ParseToken(bs, pool).rest| < |bs|
  {
    hide ParseData;
    var ty := bs[0] / 16;
    ParseDataShrinks(ty, bs[1..], pool);
    var n := ParseInterned(bs[1..], pool);
    if n.Parsed? { ParseDataShrinks(ty, n.rest, n.pool); }
  }

  /** All tokens of a stream that ends after a whole token, and the strings interned by then. */
  function ParseAll(bs: Bytes, pool: seq<Bytes>): Option<(seq<Token>, seq<Bytes>)>
    decreases |bs|
  {
    if bs == [] then Some(([], pool)) else
      ParseTokenShrinks(bs, pool);
      match ParseToken(bs, pool)
      case Truncated => None
      case Parsed(t, rest, pool') =>
        match ParseAll(rest, pool')
        case None => None
        case Some(r) => Some(([t] + r.0, r.1))
  }

  // ---- Encoding ----

  function IndexOf(pool: seq<Bytes>, s: Bytes): nat { FindFrom(pool, s, 0) }

  function Word(n: nat): (w: Bytes)
    ensures |w| == 2
  {
    ToBE(n, 2)
  }

  function EncodeString(s: Bytes): Bytes { Word(|s|) + s }

  function EncodeInterned(s: Bytes, pool: seq<Bytes>): Bytes {
    if s in pool then Word(IndexOf(pool, s)) else Word(NEW_STRING) + EncodeString(s)
  }

  function TypeOf(d: Data): (ty: nat)
    ensures ty < 16
  {
    match d
    case Null => 1 case Str(_) => 2 case Interned(_) => 3 case BytesHex(_) => 4 case BytesBase64(_) => 5
    case Int(_) => 6 case IntHex(_) => 7 case Long(_) => 8 case LongHex(_) => 9
    case Float(_) => 10 case Double(_) => 11 case True => 12 case False => 13
    case BadType => 0 case BadId => 3
  }

  predicate LegalData(d: Data) {
    match d
    case Str(s) => |s| <= NEW_STRING
    case Interned(s) => |s| <= NEW_STRING
    case BytesHex(s) => |s| <= NEW_STRING
    case BytesBase64(s) => |s| <= NEW_STRING
    case Int(i) => InRange(i, 4)
    case IntHex(i) => InRange(i, 4)
    case Long(i) => InRange(i, 8)
    case LongHex(i) => InRange(i, 8)
    case Float(raw) => |raw| == 4
    case Double(raw) => |raw| == 8
    case BadType => false
    case BadId => false
    case _ => true
  }

  function EncodeData(d: Data, pool: seq<Bytes>): Bytes
    requires LegalData(d)
  {
    match d
    case Str(s) => EncodeString(s)
    case Interned(s) => EncodeInterned(s, pool)
    case BytesHex(s) => EncodeString(s)
    case BytesBase64(s) => EncodeString(s)
    case Int(i) => ToBE(Unsigned(i, 4), 4)
    case IntHex(i) => ToBE(Unsigned(i, 4), 4)
    case Long(i) => ToBE(Unsigned(i, 8), 8)
    case LongHex(i) => ToBE(Unsigned(i, 8), 8)
    case Float(raw) => raw
    case Double(raw) => raw
    case _ => []
  }

  /** The pool after a value: a string that is interned for the first time is added to it. */
  function PoolAfter(d: Data, pool: seq<Bytes>): seq<Bytes> {
    if d.Interned? && d.s !in pool then pool + [d.s] else pool
  }

  function PoolAfterToken(t: Token, pool: seq<Bytes>): seq<Bytes> {
    match t
    case Attribute(n, v) => PoolAfter(v, PoolAfter(n, pool))
    case Event(_, d) => PoolAfter(d, pool)
  }

  function PoolAfterAll(tokens: seq<Token>, pool: seq<Bytes>): seq<Bytes> {
    if tokens == [] then pool else PoolAfterAll(tokens[1..], PoolAfterToken(tokens[0], pool))
  }

  predicate LegalToken(t: Token) {
    match t
    case Attribute(n, v) => n.Interned? && LegalData(n) && LegalData(v)
    case Event(code, d) => code <= LAST_EVENT && LegalData(d)
  }

  predicate Legal(tokens: seq<Token>) { forall i | 0 <= i < |tokens| :: LegalToken(tokens[i]) }

  function EncodeToken(t: Token, pool: seq<Bytes>): Bytes
    requires LegalToken(t)
  {
    match t
    case Attribute(n, v) =>
      [TypeOf(v) * 16 + ATTRIBUTE] + (EncodeData(n, pool) + EncodeData(v, PoolAfter(n, pool)))
    case Event(code, d) => [TypeOf(d) * 16 + code] + EncodeData(d, pool)
  }

  function Encode(tokens: seq<Token>, pool: seq<Bytes>): Bytes
    requires Legal(tokens)
  {
    if tokens == [] then [] else
      EncodeToken(tokens[0], pool) + Encode(tokens[1..], PoolAfterToken(tokens[0], pool))
  }

  // ---- Parsing inverts encoding ----

  lemma WordRoundTrip(n: nat, rest: Bytes)
    requires n <= NEW_STRING
    ensures FromBE((Word(n) + rest)[..2]) == n && (Word(n) + rest)[2..] == rest
  {
    assert Pow256(2) == 65536;
    BigEndianRoundTrip(n, 2);
    assert (Word(n) + rest)[..2] == Word(n);
  }

  lemma StringRoundTrip(s: Bytes, rest: Bytes)
    requires |s| <= NEW_STRING
    ensures ParseString(EncodeString(s) + rest) == Some((s, rest))
  {
    var bs := EncodeString(s) + rest;
    assert bs == Word(|s|) + (s + rest);
    WordRoundTrip(|s|, s + rest);
    assert bs[2..2 + |s|] == s && bs[2 + |s|..] == rest;
  }

  lemma InternedRoundTrip(s: Bytes, pool: seq<Bytes>, rest: Bytes)
    requires |s| <= NEW_STRING && |PoolAfter(Interned(s), pool)| <= NEW_STRING
    ensures ParseInterned(EncodeInterned(s, pool) + rest, pool) ==
            Parsed(Interned(s), rest, PoolAfter(Interned(s), pool))
  {
    hide FromBE, Word, EncodeString, ParseString;
    if s in pool {
      WordRoundTrip(IndexOf(pool, s), rest);
    } else {
      var tail := EncodeString(s) + rest;
      assert EncodeInterned(s, pool) + rest == Word(NEW_STRING) + tail;
      WordRoundTrip(NEW_STRING, tail);
      StringRoundTrip(s, rest);
    }
  }

  lemma NumberRoundTrip(i: int, k: nat, rest: Bytes)
    requires InRange(i, k)
    ensures 0 <= Unsigned(i, k)
    ensures var bs := ToBE(Unsigned(i, k), k) + rest;
            k <= |bs| && FromTwos(FromBE(bs[..k]), k) == i && bs[k..] == rest
  {
    BigEndianRoundTrip(Unsigned(i, k), k);
    assert (ToBE(Unsigned(i, k), k) + rest)[..k] == ToBE(Unsigned(i, k), k);
  }

  lemma DataRoundTrip(d: Data, pool: seq<Bytes>, rest: Bytes)
    requires LegalData(d) && |PoolAfter(d, pool)| <= NEW_STRING
    ensures ParseData(TypeOf(d), EncodeData(d, pool) + rest, pool) == Parsed(d, rest, PoolAfter(d, pool))
  {
    hide ParseString, ParseInterned, EncodeString, EncodeInterned, FromBE, ToBE, FromTwos, Unsigned, InRange;
    match d
    case Str(s) => StringRoundTrip(s, rest);
    case Interned(s) => InternedRoundTrip(s, pool, rest);
    case BytesHex(s) => StringRoundTrip(s, rest);
    case BytesBase64(s) => StringRoundTrip(s, rest);
    case Int(i) => NumberRoundTrip(i, 4, rest);
    case IntHex(i) => NumberRoundTrip(i, 4, rest);
    case Long(i) => NumberRoundTrip(i, 8, rest);
    case LongHex(i) => NumberRoundTrip(i, 8, rest);
    case Float(raw) => assert (raw + rest)[..4] == raw && (raw + rest)[4..] == rest;
    case Double(raw) => assert (raw + rest)[..8] == raw && (raw + rest)[8..] == rest;
    case Null => assert [] + rest == rest;
    case True => assert [] + rest == rest;
    case False => assert [] + rest == rest;
  }

  /** Every value that can be parsed is legal, so the legal values are all that a stream can hold. */
  lemma ParsedIsLegal(ty: nat, bs: Bytes, pool: seq<Bytes>)
    requires forall s <- pool :: |s| <= 0xffff
    ensures var p := ParseData(ty, bs, pool); p.Parsed? && !Faulty(p.value) ==> LegalData(p.value)
  {
    hide FromBE, FromTwos, InRange;
    assert Pow256(2) == 0x1_0000;
    TwosInRange(FromBE(if 4 <= |bs| then bs[..4] else []), 4);
    TwosInRange(FromBE(if 8 <= |bs| then bs[..8] else []), 8);
  }

  lemma TwosInRange(n: nat, k: nat)
    requires 1 <= k && n < Pow256(k)
    ensures InRange(FromTwos(n, k), k)
  {
  }

  lemma HeaderByte(ty: nat, code: nat)
    requires ty < 16 && code < 16
    ensures (ty * 16 + code) % 16 == code && (ty * 16 + code) / 16 == ty
  {
  }

  lemma EventRoundTrip(t: Token, pool: seq<Bytes>, rest: Bytes)
    requires LegalToken(t) && t.Event? && |PoolAfterToken(t, pool)| <= NEW_STRING
    ensures ParseToken(EncodeToken(t, pool) + rest, pool) == Parsed(t, rest, PoolAfterToken(t, pool))
  {
    hide ParseData, EncodeData, ParseInterned, LegalData, TypeOf, PoolAfter;
    var bs := EncodeToken(t, pool) + rest;
    HeaderByte(TypeOf(t.data), t.code);
    assert bs[0] == TypeOf(t.data) * 16 + t.code;
    assert bs[1..] == EncodeData(t.data, pool) + rest;
    DataRoundTrip(t.data, pool, rest);
  }

  lemma AttributeRoundTrip(t: Token, pool: seq<Bytes>, rest: Bytes)
    requires LegalToken(t) && t.Attribute?
    requires |PoolAfterToken(t, pool)| <= NEW_STRING && |PoolAfter(t.name, pool)| <= NEW_STRING
    ensures ParseToken(EncodeToken(t, pool) + rest, pool) == Parsed(t, rest, PoolAfterToken(t, pool))
  {
    hide ParseData, EncodeData, ParseInterned, LegalData, TypeOf, PoolAfter;
    var bs := EncodeToken(t, pool) + rest;
    HeaderByte(TypeOf(t.value), ATTRIBUTE);
    assert bs[0] == TypeOf(t.value) * 16 + ATTRIBUTE;
    var pool' := PoolAfter(t.name, pool);
    var tail := EncodeData(t.value, pool') + rest;
    assert bs[1..] == EncodeData(t.name, pool) + tail;
    NameRoundTrip(t.name, pool, tail);
    DataRoundTrip(t.value, pool', rest);
  }

  lemma TokenRoundTrip(t: Token, pool: seq<Bytes>, rest: Bytes)
    requires LegalToken(t) && |PoolAfterToken(t, pool)| <= NEW_STRING
    ensures ParseToken(EncodeToken(t, pool) + rest, pool) == Parsed(t, rest, PoolAfterToken(t, pool))
  {
    hide ParseToken, EncodeToken, LegalToken;
    if t.Event? { EventRoundTrip(t, pool, rest); } else { AttributeRoundTrip(t, pool, rest); }
  }

  lemma NameRoundTrip(n: Data, pool: seq<Bytes>, rest: Bytes)
    requires n.Interned? && LegalData(n) && |PoolAfter(n, pool)| <= NEW_STRING
    ensures ParseInterned(EncodeData(n, pool) + rest, pool) == Parsed(n, rest, PoolAfter(n, pool))
  {
    InternedRoundTrip(n.s, pool, rest);
  }

  lemma {:induction false} PoolGrows(tokens: seq<Token>, pool: seq<Bytes>)
    ensures |pool| <= |PoolAfterAll(tokens, pool)|
  {
    if tokens != [] { PoolGrows(tokens[1..], PoolAfterToken(tokens[0], pool)); }
  }

  /**
   Parsing inverts encoding, for every legal token list that interns at most 65535 strings:
   the same tokens, and the same pool, come back.
   */
  lemma {:induction false} RoundTrip(tokens: seq<Token>, pool: seq<Bytes>)
    requires Legal(tokens) && |PoolAfterAll(tokens, pool)| <= NEW_STRING
    ensures ParseAll(Encode(tokens, pool), pool) == Some((tokens, PoolAfterAll(tokens, pool)))
    decreases |tokens|
  {
    hide ParseToken, EncodeToken, LegalToken, PoolAfterToken;
    if tokens != [] {
      var t, rest, pool' := tokens[0], tokens[1..], PoolAfterToken(tokens[0], pool);
      PoolGrows(rest, pool');
      RoundTrip(rest, pool');
      TokenRoundTrip(t, pool, Encode(rest, pool'));
      EncodedTokenIsNotEmpty(t, pool);
      assert tokens == [t] + rest;
    }
  }

  lemma EncodedTokenIsNotEmpty(t: Token, pool: seq<Bytes>)
    requires LegalToken(t)
    ensures EncodeToken(t, pool) != []
  {
  }

  lemma LegalIsSound(tokens: seq<Token>)
    requires Legal(tokens)
    ensures Sound(tokens)
  {
    forall i | 0 <= i < |tokens| ensures SoundToken(tokens[i]) {
      assert LegalToken(tokens[i]);
    }
  }
}
