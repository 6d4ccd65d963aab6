/** What the texts of read_data mean: each one is read back to the bytes of the value it was written from. */
module AbxText {
  import opened Common
  import opened AbxFormat

  /** The characters of a text. */
  function Chars(text: Bytes): string { seq(|text|, i requires 0 <= i < |text| => text[i] as char) }

  lemma CharsOfAscii(s: string)
    requires forall c <- s :: c as int < 128
    ensures Chars(Ascii(s)) == s
  {
    forall i | 0 <= i < |s| ensures Chars(Ascii(s))[i] == s[i] {
      assert s[i] in s;
    }
  }

  // ---- Integers ----

  /** A decimal number with an optional minus sign. */
  function ReadSigned(s: string): Option<int> {
    var negative := s != "" && s[0] == '-';
    var digits := if negative then s[1..] else s;
    var n := Digits(digits, 10);
    if digits == "" || n.None? then None else
      var i: int := n.value;
      Some(if negative then -i else i)
  }

  /** The text of an integer has a minus sign exactly if it is negative, and reads back as the integer. */
  lemma SignedReadsBack(i: int)
    ensures ReadSigned(Signed(i)) == Some(i) && (Signed(i)[0] == '-' <==> i < 0)
    ensures forall c <- Signed(i) :: c as int < 128
  {
    hide Digits, Decimal;
    var s := Signed(i);
    if i < 0 {
      DigitsOfDecimal(-i);
      assert s[1..] == Decimal(-i);
      assert forall k | 1 <= k < |s| :: s[k] == Decimal(-i)[k - 1];
    } else {
      DigitsOfDecimal(i);
    }
  }

  // ---- Hexadecimal ----

  predicate LowerHex(c: char) { '0' <= c <= '9' || 'a' <= c <= 'f' }

  lemma HexDigit(v: nat)
    requires v < 16
    ensures var c := HEX_DIGITS[v];
            LowerHex(c) && DigitValue(c) == v && Ascii([c])[0] as char == c
  {
  }

  /** Two lower-case digits for each byte, the high one first. */
  lemma {:induction false} HexReadsBack(s: Bytes)
    ensures |Hex(s)| == 2 * |s|
    ensures forall i | 0 <= i < |s| ::
              var high, low := Hex(s)[2 * i] as char, Hex(s)[2 * i + 1] as char;
              LowerHex(high) && LowerHex(low) && DigitValue(high) * 16 + DigitValue(low) == s[i]
  {
    hide LowerHex, DigitValue;
    if s != [] {
      HexReadsBack(s[1..]);
      HexDigit(s[0] / 16);
      HexDigit(s[0] % 16);
      var pair := Ascii([HEX_DIGITS[s[0] / 16], HEX_DIGITS[s[0] % 16]]);
      assert Hex(s) == pair + Hex(s[1..]);
      forall i | 0 <= i < |s|
        ensures var high, low := Hex(s)[2 * i] as char, Hex(s)[2 * i + 1] as char;
                LowerHex(high) && LowerHex(low) && DigitValue(high) * 16 + DigitValue(low) == s[i]
      {
        if i > 0 {
          assert Hex(s)[2 * i] == Hex(s[1..])[2 * (i - 1)] && Hex(s)[2 * i + 1] == Hex(s[1..])[2 * (i - 1) + 1];
          assert s[i] == s[1..][i - 1];
        }
      }
    }
  }

  // ---- Base 64 ----

  /** The value of a character of the base 64 alphabet; 64 for any other one. */
  function Sextet(c: char): (v: nat)
    ensures v <= 64
  {
    if 'A' <= c <= 'Z' then c as int - 'A' as int
    else if 'a' <= c <= 'z' then c as int - 'a' as int + 26
    else if '0' <= c <= '9' then c as int - '0' as int + 52
    else if c == '+' then 62
    else if c == '/' then 63
    else 64
  }

  /** The bytes of four characters, one of them for each '=' less. */
  function ReadQuad(q: string): Bytes
    requires |q| == 4
  {
    var n := ((Sextet(q[0]) * 64 + Sextet(q[1])) * 64 + Sextet(q[2]) % 64) * 64 + Sextet(q[3]) % 64;
    var all: Bytes := [n / 65536 % 256, n / 256 % 256, n % 256];
    if q[2] == '=' then all[..1] else if q[3] == '=' then all[..2] else all
  }

  /** Decoding by section 4 of RFC 4648. */
  function ReadBase64(s: string): Bytes {
    if |s| < 4 then [] else ReadQuad(s[..4]) + ReadBase64(s[4..])
  }

  predicate Base64Char(c: char) { Sextet(c) < 64 || c == '=' }

  lemma SextetOfDigit(v: nat)
    requires v < 64
    ensures Sextet(Base64Digit(v)) == v && Base64Digit(v) != '='
  {
  }

  /** The four sextets of three bytes. */
  lemma SextetsOfBytes(a: byte, b: byte, c: byte)
    ensures var n := ((a / 4 * 64 + (a % 4 * 16 + b / 16)) * 64 + (b % 16 * 4 + c / 64)) * 64 + c % 64;
            n == a * 65536 + b * 256 + c
  {
    assert a == a / 4 * 4 + a % 4 && b == b / 16 * 16 + b % 16 && c == c / 64 * 64 + c % 64;
    assert a / 4 * 64 + (a % 4 * 16 + b / 16) == a * 16 + b / 16;
    assert (a * 16 + b / 16) * 64 + (b % 16 * 4 + c / 64) == a * 1024 + b * 4 + c / 64;
  }

  lemma BytesOfNumber(a: byte, b: byte, c: byte)
    ensures var n := a * 65536 + b * 256 + c;
            n / 65536 % 256 == a && n / 256 % 256 == b && n % 256 == c
  {
    var n := a * 65536 + b * 256 + c;
    assert n / 65536 == a;
    assert n / 256 == a * 256 + b;
  }

  lemma QuadReadsBack(s: Bytes)
    requires 1 <= |s| <= 3
    ensures ReadQuad(Base64Quad(s)) == s
    ensures forall c <- Base64Quad(s) :: Base64Char(c)
  {
    hide Base64Quad, Sextet;
    var b1, b2 := if 1 < |s| then s[1] else 0, if 2 < |s| then s[2] else 0;
    QuadSextets(s);
    SextetsOfBytes(s[0], b1, b2);
    BytesOfNumber(s[0], b1, b2);
    QuadChars(s);
  }

  lemma QuadChars(s: Bytes)
    requires 1 <= |s| <= 3
    ensures forall c <- Base64Quad(s) :: Base64Char(c)
  {
  }

  /** The sextets of a quad, with 0 for padding. */
  lemma QuadSextets(s: Bytes)
    requires 1 <= |s| <= 3
    ensures var q := Base64Quad(s);
            var b1, b2 := if 1 < |s| then s[1] else 0, if 2 < |s| then s[2] else 0;
            && Sextet(q[0]) == s[0] / 4 && Sextet(q[1]) == s[0] % 4 * 16 + b1 / 16
            && Sextet(q[2]) % 64 == b1 % 16 * 4 + b2 / 64 && Sextet(q[3]) % 64 == b2 % 64
            && (q[2] == '=' <==> |s| == 1) && (q[3] == '=' <==> |s| < 3)
  {
    hide Base64Digit;
    var b1, b2 := if 1 < |s| then s[1] else 0, if 2 < |s| then s[2] else 0;
    SextetOfDigit(s[0] / 4);
    SextetOfDigit(s[0] % 4 * 16 + b1 / 16);
    SextetOfDigit(b1 % 16 * 4 + b2 / 64);
    SextetOfDigit(b2 % 64);
  }

  /** The base 64 text of every byte string decodes to it. */
  lemma {:induction false} Base64ReadsBack(s: Bytes)
    ensures ReadBase64(Base64(s)) == s
    ensures forall c <- Base64(s) :: Base64Char(c)
    decreases |s|
  {
    hide ReadQuad, Base64Quad, Base64Char;
    if s != [] {
      var k := if |s| < 3 then |s| else 3;
      QuadReadsBack(s[..k]);
      Base64ReadsBack(s[k..]);
      var quad, more := Base64Quad(s[..k]), Base64(s[k..]);
      assert (quad + more)[..4] == quad && (quad + more)[4..] == more;
      assert s == s[..k] + s[k..];
    }
  }

  // ---- What each type nibble on the wire means ----

  function Two(bs: Bytes): nat
    requires |bs| == 2
  {
    var high: int := bs[0];
    256 * high + bs[1]
  }

  function Four(bs: Bytes): nat
    requires |bs| == 4
  {
    0x1_0000 * Two(bs[..2]) + Two(bs[2..])
  }

  lemma {:induction false} FromBEOfTwo(bs: Bytes)
    requires |bs| == 2
    ensures FromBE(bs) == Two(bs)
  {
    assert FromBE(bs[..0]) == 0 && bs[..1][..0] == bs[..0];
    assert FromBE(bs[..1]) == bs[0];
  }

  lemma {:induction false} FromBEAppend(a: Bytes, b: Bytes)
    ensures FromBE(a + b) == FromBE(a) * Pow256(|b|) + FromBE(b)
  {
    if b == [] {
      assert a + b == a;
    } else {
      var init := b[..|b| - 1];
      assert (a + b)[..|a + b| - 1] == a + init;
      FromBEAppend(a, init);
      Distribute(FromBE(a), Pow256(|init|), FromBE(init));
    }
  }

  lemma Distribute(x: int, p: int, y: int)
    ensures (x * p + y) * 256 == x * (256 * p) + y * 256
  {
  }

  lemma FromBEOfFour(bs: Bytes)
    requires |bs| == 4
    ensures FromBE(bs) == Four(bs)
  {
    hide FromBE;
    assert bs == bs[..2] + bs[2..];
    FromBEAppend(bs[..2], bs[2..]);
    FromBEOfTwo(bs[..2]);
    FromBEOfTwo(bs[2..]);
    assert Pow256(2) == 0x1_0000;
  }

  lemma FromBEOfEight(bs: Bytes)
    requires |bs| == 8
    ensures FromBE(bs) == Four(bs[..4]) * 0x1_0000_0000 + Four(bs[4..])
  {
    hide FromBE;
    assert bs == bs[..4] + bs[4..];
    FromBEAppend(bs[..4], bs[4..]);
    FromBEOfFour(bs[..4]);
    FromBEOfFour(bs[4..]);
    assert Pow256(4) == 0x1_0000_0000;
  }

  /** The integers: two's complement in 4 or 8 bytes, written as the decimal number they stand for. */
  lemma IntegerTexts(f: Format, ty: nat, bs: Bytes, pool: seq<Bytes>)
    requires 6 <= ty <= 9
    ensures var p, k := ParseData(ty, bs, pool), if ty <= 7 then 4 else 8;
            && (p.Parsed? <==> k <= |bs|)
            && (p.Parsed? ==> p.rest == bs[k..] && p.pool == pool && !Faulty(p.value))
    ensures ty <= 7 && 4 <= |bs| ==>
              var n, text := Four(bs[..4]), DataText(f, ParseData(ty, bs, pool).value);
              ReadSigned(Chars(text)) == Some(if n < 0x8000_0000 then n else n - 0x1_0000_0000)
    ensures 8 <= ty && 8 <= |bs| ==>
              var n := Four(bs[..4]) * 0x1_0000_0000 + Four(bs[4..8]);
              var text := DataText(f, ParseData(ty, bs, pool).value);
              ReadSigned(Chars(text)) ==
              Some(if n < 0x8000_0000_0000_0000 then n else n - 0x1_0000_0000_0000_0000)
  {
    hide Four, ReadSigned, Signed, FromBE, Ascii, Chars;
    assert Pow256(4) == 0x1_0000_0000;
    assert Pow256(8) == 0x1_0000_0000_0000_0000;
    var k := if ty <= 7 then 4 else 8;
    if k <= |bs| {
      var i := FromTwos(FromBE(bs[..k]), k);
      SignedReadsBack(i);
      CharsOfAscii(Signed(i));
      if k == 4 { FromBEOfFour(bs[..4]); } else {
        FromBEOfEight(bs[..8]);
        assert bs[..8][..4] == bs[..4] && bs[..8][4..] == bs[4..8];
      }
    }
  }

  /** The strings behind a length of two bytes: as they are, in hexadecimal, or in base 64. */
  lemma StringTexts(f: Format, ty: nat, bs: Bytes, pool: seq<Bytes>)
    requires ty == 2 || ty == 4 || ty == 5
    ensures var p := ParseData(ty, bs, pool);
            && (p.Parsed? <==> 2 <= |bs| && 2 + Two(bs[..2]) <= |bs|)
            && (p.Parsed? ==>
                  var s, text := bs[2..2 + Two(bs[..2])], DataText(f, p.value);
                  && p.rest == bs[2 + Two(bs[..2])..] && p.pool == pool && !Faulty(p.value)
                  && (ty == 2 ==> text == s)
                  && (ty == 4 ==>
                        && |text| == 2 * |s|
                        && forall i | 0 <= i < |s| ::
                             && LowerHex(text[2 * i] as char) && LowerHex(text[2 * i + 1] as char)
                             && DigitValue(text[2 * i] as char) * 16 + DigitValue(text[2 * i + 1] as char) == s[i])
                  && (ty == 5 ==> ReadBase64(Chars(text)) == s))
  {
    hide FromBE, Two, Hex, Base64, ReadBase64, Chars, Ascii, DigitValue, LowerHex;
    if 2 <= |bs| {
      FromBEOfTwo(bs[..2]);
      if 2 + Two(bs[..2]) <= |bs| {
        var s := bs[2..2 + Two(bs[..2])];
        HexReadsBack(s);
        Base64ReadsBack(s);
        Base64IsAscii(Base64(s));
        CharsOfAscii(Base64(s));
      }
    }
  }

  lemma Base64IsAscii(s: string)
    requires forall c <- s :: Base64Char(c)
    ensures forall c <- s :: c as int < 128
  {
    forall c <- s ensures c as int < 128 {
      assert Base64Char(c);
    }
  }

  /** A reference to an interned string, or a new one behind 0xffff. */
  lemma InternedTexts(f: Format, bs: Bytes, pool: seq<Bytes>)
    requires 2 <= |bs|
    ensures var p, id := ParseData(3, bs, pool), Two(bs[..2]);
            && (id < 0xffff ==>
                  && p.Parsed? && p.rest == bs[2..] && p.pool == pool && (Faulty(p.value) <==> |pool| <= id)
                  && (id < |pool| ==> DataText(f, p.value) == pool[id]))
            && (id == 0xffff ==>
                  (p.Parsed? <==> 4 <= |bs| && 4 + Two(bs[2..4]) <= |bs|)
                  && (p.Parsed? ==>
                        var s := bs[4..4 + Two(bs[2..4])];
                        && p.rest == bs[4 + |s|..] && p.pool == pool + [s]
                        && DataText(f, p.value) == s && !Faulty(p.value)))
  {
    hide FromBE, Two;
    FromBEOfTwo(bs[..2]);
    if 4 <= |bs| {
      FromBEOfTwo(bs[2..4]);
      assert bs[2..][..2] == bs[2..4];
      var n := Two(bs[2..4]);
      if 4 + n <= |bs| { assert bs[2..][2..2 + n] == bs[4..4 + n] && bs[2..][2 + n..] == bs[4 + n..]; }
    }
  }

  /** The types without a payload, the two floating-point types, and what is no type. */
  lemma OtherTexts(f: Format, ty: nat, bs: Bytes, pool: seq<Bytes>)
    requires ty < 2 || 10 <= ty
    ensures var p, k := ParseData(ty, bs, pool), if ty == 10 then 4 else if ty == 11 then 8 else 0;
            && (p.Parsed? <==> k <= |bs|)
            && (p.Parsed? ==>
                  var text := DataText(f, p.value);
                  && p.rest == bs[k..] && p.pool == pool
                  && (Faulty(p.value) <==> ty == 0 || 13 < ty)
                  && (ty == 1 ==> text == [])
                  && (ty == 12 ==> text == ['1' as int]) && (ty == 13 ==> text == ['0' as int])
                  && (ty == 10 ==> text == f.float(bs[..4])) && (ty == 11 ==> text == f.double(bs[..8])))
  {
  }

  // ---- Markup ----

  /** The characters of a document: what is written around a name, a text or a value. */
  lemma Markup(f: Format, code: nat, text: Bytes, name: Data, value: Data)
    ensures code == 2 ==> Chars(EventText(code, text)) == "<" + Chars(text)
    ensures code == 3 ==> Chars(EventText(code, text)) == "</" + Chars(text) + ">"
    ensures code == 5 ==> Chars(EventText(code, text)) == "<![CDATA[" + Chars(text) + "]]>"
    ensures code == 4 || 6 <= code <= 10 ==> EventText(code, text) == text
    ensures code <= 1 ==> EventText(code, text) == []
    ensures 10 < code ==> Chars(EventText(code, text)) == "#error: Invalid event " + Decimal(code)
    ensures SoundToken(Event(code, name)) <==> code <= 10 && !Faulty(name)
    ensures Chars(AttributeText(f, name, value)) ==
            " " + Chars(DataText(f, name)) + "=\"" + Chars(DataText(f, value)) + "\""
  {
    hide DataText, Ascii, Chars;
    if code == 3 {
      Around("</", text, ">");
    } else if code == 5 {
      Around("<![CDATA[", text, "]]>");
    } else if code == 2 {
      CharsOfAscii("<");
      CharsAppend(Ascii("<"), text);
    }
    if 10 < code {
      DigitsOfDecimal(code);
      CharsOfAscii(Decimal(code));
      CharsOfAscii("#error: Invalid event ");
      CharsAppend(Ascii("#error: Invalid event "), Ascii(Decimal(code)));
    }
    var n, v := DataText(f, name), DataText(f, value);
    Around(" ", n, "=\"");
    CharsOfAscii("\"");
    CharsAppend(Ascii(" ") + n + Ascii("=\""), v);
    CharsAppend(Ascii(" ") + n + Ascii("=\"") + v, Ascii("\""));
  }

  lemma CharsAppend(a: Bytes, b: Bytes)
    ensures Chars(a + b) == Chars(a) + Chars(b)
  {
  }

  lemma Around(before: string, text: Bytes, after: string)
    requires forall c <- before + after :: c as int < 128
    ensures Chars(Ascii(before) + text + Ascii(after)) == before + Chars(text) + after
  {
    hide Ascii, Chars;
    forall c <- before ensures c as int < 128 { assert c in before + after; }
    forall c <- after ensures c as int < 128 { assert c in before + after; }
    CharsOfAscii(before);
    CharsOfAscii(after);
    CharsAppend(Ascii(before), text);
    CharsAppend(Ascii(before) + text, Ascii(after));
  }

  /** The first byte of a token: the event in its low half, the type of the value in its high half. */
  lemma TokenHeader(bs: Bytes, pool: seq<Bytes>)
    requires bs != [] && ParseToken(bs, pool).Parsed?
    ensures var p := ParseToken(bs, pool);
            && (p.value.Attribute? <==> bs[0] % 16 == 15)
            && (p.value.Event? ==>
                  && p.value.code == bs[0] % 16
                  && ParseData(bs[0] / 16, bs[1..], pool) == Parsed(p.value.data, p.rest, p.pool))
            && (p.value.Attribute? ==>
                  var n := ParseData(3, bs[1..], pool);
                  && n.Parsed? && n.value == p.value.name
                  && ParseData(bs[0] / 16, n.rest, n.pool) == Parsed(p.value.value, p.rest, p.pool))
  {
    hide ParseInterned, ParseString, ParseText, ParseFixed;
  }

  function ElementTokens(tag: Data, name: Data, value: Data, text: Data): seq<Token> {
    [Event(2, tag), Attribute(name, value), Event(4, text), Event(3, tag)]
  }

  lemma ElementDocument(f: Format, tag: Data, name: Data, value: Data, text: Data)
    ensures Document(f, ElementTokens(tag, name, value, text)) ==
            EventText(2, DataText(f, tag)) + AttributeText(f, name, value) + Ascii(">")
            + (EventText(4, DataText(f, text)) + EventText(3, DataText(f, tag)))
  {
    hide DataText, Ascii, EventText, AttributeText;
    var all := ElementTokens(tag, name, value, text);
    var attribute, rest := all[1..2], all[2..];
    assert AttributeRun(all[1..]) == 1;
    assert AttributesText(f, attribute) == AttributeText(f, name, value) by {
      assert attribute[1..] == [] && AttributesText(f, []) == [];
    }
    assert rest[1..] == [all[3]] && rest[1..][1..] == [] && Document(f, []) == [];
    assert Document(f, rest[1..]) == EventText(3, DataText(f, tag)) + [];
    assert Document(f, rest) == EventText(4, DataText(f, text)) + EventText(3, DataText(f, tag));
  }

  /** An element with an attribute and a text. */
  lemma Element(f: Format, tag: Data, name: Data, value: Data, text: Data)
    ensures Chars(Document(f, ElementTokens(tag, name, value, text))) ==
            "<" + Chars(DataText(f, tag)) + " " + Chars(DataText(f, name)) + "=\"" + Chars(DataText(f, value)) + "\">"
            + Chars(DataText(f, text)) + "</" + Chars(DataText(f, tag)) + ">"
  {
    hide DataText, Ascii, Chars, EventText, AttributeText, Document;
    ElementDocument(f, tag, name, value, text);
    var start, attribute := EventText(2, DataText(f, tag)), AttributeText(f, name, value);
    var inside, end := EventText(4, DataText(f, text)), EventText(3, DataText(f, tag));
    Markup(f, 2, DataText(f, tag), name, value);
    Markup(f, 3, DataText(f, tag), name, value);
    Markup(f, 4, DataText(f, text), name, value);
    CharsOfAscii(">");
    CharsAppend(start, attribute);
    CharsAppend(start + attribute, Ascii(">"));
    CharsAppend(start + attribute + Ascii(">"), inside + end);
    CharsAppend(inside, end);
  }
}
