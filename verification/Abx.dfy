/** AbxToXml: the streaming decoder from Android binary XML to text. */
module Abx {
  import opened Common
  import opened AbxFormat

  /** The text of a token list as the decoder writes it, with a flag for a start tag not yet closed. */
  function Emit(f: Format, tokens: seq<Token>, open: bool): Bytes {
    if tokens == [] then [] else
      match tokens[0]
      case Attribute(n, v) => AttributeText(f, n, v) + Emit(f, tokens[1..], open)
      case Event(code, d) =>
        (if open then Ascii(">") else []) + EventText(code, DataText(f, d)) + Emit(f, tokens[1..], code == START_TAG)
  }

  lemma {:induction false} EmitAfterStart(f: Format, tokens: seq<Token>)
    ensures var k := AttributeRun(tokens);
            Emit(f, tokens, true) ==
            AttributesText(f, tokens[..k]) + (if tokens[k..] == [] then [] else Ascii(">"))
            + Emit(f, tokens[k..], false)
  {
    hide AttributeText, EventText, DataText, Ascii;
    var k := AttributeRun(tokens);
    if tokens == [] || tokens[0].Event? {
      assert tokens[k..] == tokens && tokens[..k] == [];
    } else {
      EmitAfterStart(f, tokens[1..]);
      assert tokens[1..][..k - 1] == tokens[..k][1..] && tokens[1..][k - 1..] == tokens[k..];
    }
  }

  /** The flag closes every start tag exactly where the document does. */
  lemma {:induction false} EmitIsDocument(f: Format, tokens: seq<Token>)
    ensures Emit(f, tokens, false) == Document(f, tokens)
    decreases |tokens|
  {
    hide AttributeText, AttributesText, EventText, DataText, Ascii;
    if tokens != [] {
      if tokens[0].Event? && tokens[0].code == START_TAG {
        var k := AttributeRun(tokens[1..]);
        EmitAfterStart(f, tokens[1..]);
        assert tokens[1..][..k] == tokens[1..1 + k] && tokens[1..][k..] == tokens[1 + k..];
        EmitIsDocument(f, tokens[1 + k..]);
      } else {
        EmitIsDocument(f, tokens[1..]);
      }
    }
  }

  lemma SoundCons(t: Token, rest: seq<Token>)
    ensures Sound([t] + rest) <==> SoundToken(t) && Sound(rest)
  {
    var all := [t] + rest;
    assert all[0] == t && forall i | 0 <= i < |rest| :: all[i + 1] == rest[i];
    if Sound(all) {
      forall i | 0 <= i < |rest| ensures SoundToken(rest[i]) { assert SoundToken(all[i + 1]); }
    }
  }

  const HEADER: Bytes := [0x41, 0x42, 0x58, 0]  // "ABX", version 0

  class AbxToXml {
    const input: Bytes
    const format: Format
    var pos: nat
    var good: bool  // the state of the input stream
    var out: Bytes
    var tagOpen: bool
    var pool: seq<Bytes>
    var error: bool

    constructor (is_: Bytes, f: Format)
      ensures Valid() && input == is_ && format == f && Rest() == is_ && good
      ensures out == [] && !tagOpen && pool == [] && error
    {
      input, format, pos, good := is_, f, 0, true;
      out, tagOpen, pool, error := [], false, [], true;
    }

    predicate Valid() reads this { pos <= |input| }

    function Rest(): Bytes
      reads this
      requires Valid()
    {
      input[pos..]
    }

    /** istream::read into a buffer that held `before`; a short read takes what is there. */
    method Read(n: nat, before: Bytes) returns (buffer: Bytes)
      requires Valid() && |before| == n
      modifies this`pos, this`good
      ensures Valid() && old(pos) <= pos && |buffer| == n
      ensures old(good) && n <= |old(Rest())| ==>
                good && buffer == old(Rest())[..n] && Rest() == old(Rest())[n..]
      ensures !(old(good) && n <= |old(Rest())|) ==> !good
    {
      if good && n <= |input| - pos {
        buffer := input[pos..pos + n];
        pos := pos + n;
      } else {
        var k := if good then |input| - pos else 0;
        buffer := input[pos..pos + k] + before[k..];
        pos, good := pos + k, false;
      }
    }

    /** read_bswap: `n` bytes of an integer, most significant first, from an uninitialised buffer. */
    method ReadFixed(n: nat) returns (buffer: Bytes)
      requires Valid()
      modifies this`pos, this`good
      ensures Valid() && old(pos) <= pos && |buffer| == n
      ensures old(good) && n <= |old(Rest())| ==>
                good && buffer == old(Rest())[..n] && Rest() == old(Rest())[n..]
      ensures !(old(good) && n <= |old(Rest())|) ==> !good
    {
      assert |Repeat<byte>(0, n)| == n;
      var junk: Bytes :| |junk| == n;
      buffer := Read(n, junk);
    }

    method ReadString() returns (s: Bytes)
      requires Valid()
      modifies this`pos, this`good
      ensures Valid() && old(pos) <= pos
      ensures var p := ParseString(old(Rest()));
              old(good) && p.Some? ==> good && s == p.value.0 && Rest() == p.value.1
    {
      var word := ReadFixed(2);
      var length := FromBE(word);
      s := Read(length, Repeat(0, length));
    }

    method ReadInterned() returns (text: Bytes)
      requires Valid()
      modifies this`pos, this`good, this`pool, this`error
      ensures Valid() && old(pos) <= pos && (old(error) ==> error)
      ensures var p := ParseInterned(old(Rest()), old(pool));
              old(good) && p.Parsed? ==>
                && good && Rest() == p.rest && pool == p.pool
                && text == DataText(format, p.value) && error == (old(error) || Faulty(p.value))
    {
      hide FromBE, Ascii, ParseString;
      var word := ReadFixed(2);
      var id := FromBE(word);
      if id == NEW_STRING {
        text := ReadString();
        pool := pool + [text];
      } else if |pool| <= id {
        error := true;
        text := Ascii("#error: invalid string ID");
      } else {
        text := pool[id];
      }
    }

    method ReadData(ty: nat) returns (text: Bytes)
      requires Valid()
      modifies this`pos, this`good, this`pool, this`error
      ensures Valid() && old(pos) <= pos && (old(error) ==> error)
      ensures var p := ParseData(ty, old(Rest()), old(pool));
              old(good) && p.Parsed? ==>
                && good && Rest() == p.rest && pool == p.pool
                && text == DataText(format, p.value) && error == (old(error) || Faulty(p.value))
    {
      hide FromBE, FromTwos, Ascii, ParseString, ParseInterned, Hex, Base64, Signed;
      if ty == 1 {
        text := [];
      } else if ty == 2 {
        text := ReadString();
      } else if ty == 3 {
        text := ReadInterned();
      } else if ty == 4 {
        var s := ReadString();
        text := HexDigits(s);
      } else if ty == 5 {
        var s := ReadString();
        var b64 := Base64(s);
        Base64Length(s);
        assert |b64| == (|s| + 2) / 3 * 4;  // so the error for another length cannot occur
        text := Ascii(b64);
      } else if ty == 6 || ty == 7 {
        var word := ReadFixed(4);
        text := Ascii(Signed(FromTwos(FromBE(word), 4)));
      } else if ty == 8 || ty == 9 {
        var word := ReadFixed(8);
        text := Ascii(Signed(FromTwos(FromBE(word), 8)));
      } else if ty == 10 {
        var word := ReadFixed(4);
        text := format.float(word);
      } else if ty == 11 {
        var word := ReadFixed(8);
        text := format.double(word);
      } else if ty == 12 {
        text := Ascii("1");
      } else if ty == 13 {
        text := Ascii("0");
      } else {
        error := true;
        text := Ascii("#error: invalid type");
      }
    }

    /** The hex digits of a byte string, in a loop over its characters. */
    static method HexDigits(s: Bytes) returns (hex: Bytes)
      ensures hex == Hex(s)
    {
      hide Ascii;
      hex := [];
      var i := 0;
      while i < |s|
        invariant 0 <= i <= |s|
        invariant hex + Hex(s[i..]) == Hex(s)
      {
        assert s[i..][1..] == s[i + 1..];
        hex := hex + Ascii([HEX_DIGITS[s[i] / 16], HEX_DIGITS[s[i] % 16]]);
        i := i + 1;
      }
      assert s[i..] == [];
    }

    method DispatchEvent(code: nat, data: Bytes)
      modifies this`out, this`tagOpen, this`error
      ensures out == old(out) + EventText(code, data)
      ensures tagOpen == (old(tagOpen) || code == START_TAG)
      ensures error == (old(error) || LAST_EVENT < code)
    {
      hide Ascii;
      if code == 0 || code == 1 {
        // not written
      } else if code == START_TAG {
        out := out + (Ascii("<") + data);
        tagOpen := true;
      } else if code == 3 {
        out := out + (Ascii("</") + data + Ascii(">"));
      } else if code == 5 {
        out := out + (Ascii("<![CDATA[") + data + Ascii("]]>"));
      } else if code <= LAST_EVENT {
        out := out + data;
      } else {
        out := out + (Ascii("#error: Invalid event ") + Ascii(Decimal(code)));
        error := true;
      }
    }

    /** An attribute: its interned name and its value; the tag is expected to be open still. */
    method ConvertAttribute(ty: nat)
      requires Valid()
      modifies this
      ensures Valid() && old(pos) <= pos && (old(error) ==> error) && tagOpen == old(tagOpen)
      ensures var n := ParseInterned(old(Rest()), old(pool));
              old(good) && n.Parsed? ==>
                var v := ParseData(ty, n.rest, n.pool);
                v.Parsed? ==>
                  && good && Rest() == v.rest && pool == v.pool
                  && out == old(out) + AttributeText(format, n.value, v.value)
                  && error == (old(error) || Faulty(n.value) || Faulty(v.value))
    {
      hide ParseData, ParseInterned, DataText, Ascii, Faulty;
      var name := ReadInterned();
      out := out + (Ascii(" ") + name);
      out := out + Ascii("=\"");
      var value := ReadData(ty);
      out := out + value;
      out := out + Ascii("\"");
    }

    /** Any other token: an open start tag is closed before it. */
    method ConvertEvent(code: nat, ty: nat)
      requires Valid()
      modifies this
      ensures Valid() && old(pos) <= pos && (old(error) ==> error) && tagOpen == (code == START_TAG)
      ensures var d := ParseData(ty, old(Rest()), old(pool));
              old(good) && d.Parsed? ==>
                && good && Rest() == d.rest && pool == d.pool
                && out == old(out)
                          + ((if old(tagOpen) then Ascii(">") else []) + EventText(code, DataText(format, d.value)))
                && error == (old(error) || LAST_EVENT < code || Faulty(d.value))
    {
      hide ParseData, DataText, Ascii, EventText, Faulty;
      if tagOpen {
        out := out + Ascii(">");
        tagOpen := false;
      }
      var data := ReadData(ty);
      DispatchEvent(code, data);
    }

    /** One round of the decode loop after its first byte `b` was read. */
    method ConvertToken(b: byte)
      requires Valid()
      modifies this
      ensures Valid() && old(pos) <= pos && (old(error) ==> error)
      ensures var p := ParseToken([b] + old(Rest()), old(pool));
              old(good) && p.Parsed? ==>
                && good && Rest() == p.rest && pool == p.pool
                && out == old(out) + Emit(format, [p.value], old(tagOpen))
                && tagOpen == (if p.value.Attribute? then old(tagOpen) else p.value.code == START_TAG)
                && error == (old(error) || !SoundToken(p.value))
    {
      hide ParseData, ParseInterned, DataText, Ascii, EventText, AttributeText, Faulty, Emit, SoundToken, Rest;
      ghost var p := ParseToken([b] + Rest(), pool);
      if p.Parsed? { EmitOne(format, p.value, tagOpen); }
      assert ([b] + Rest())[1..] == Rest();
      var code, ty := b % 16, b / 16;
      if code == ATTRIBUTE {
        ConvertAttribute(ty);
      } else {
        ConvertEvent(code, ty);
      }
    }

    /** convert_abx_content: tokens up to the end of the stream. */
    method ConvertContent() returns (ok: bool)
      requires Valid()
      modifies this
      ensures Valid() && (old(error) ==> !ok)
      ensures !old(good) ==> ok == !old(error) && out == old(out)
      ensures var all := ParseAll(old(Rest()), old(pool));
              old(good) && all.Some? ==>
                && out == old(out) + Emit(format, all.value.0, old(tagOpen)) && pool == all.value.1
                && ok == (!old(error) && Sound(all.value.0))
    {
      hide Emit, Sound, ParseToken, ParseAll;
      ghost var all := ParseAll(Rest(), pool);
      ghost var done: seq<Token> := [];
      ghost var todo := if all.Some? then all.value.0 else [];
      while good && pos < |input|
        invariant Valid() && (old(error) ==> error)
        invariant !old(good) ==> !good && out == old(out) && error == old(error)
        invariant old(good) && all.Some? ==> good && ParseAll(Rest(), pool) == Some((todo, all.value.1))
        invariant old(good) && all.Some? ==>
                    out + Emit(format, todo, tagOpen) == old(out) + Emit(format, all.value.0, old(tagOpen))
        invariant old(good) && all.Some? ==> (error || !Sound(todo) <==> old(error) || !Sound(all.value.0))
        decreases |input| - pos
      {
        ghost var bs, pool0, out0, open0, error0 := Rest(), pool, out, tagOpen, error;
        var b := input[pos];
        pos := pos + 1;
        assert bs == [b] + Rest();
        ParseStep(bs, pool0);
        ConvertToken(b);
        if all.Some? {
          var t := todo[0];
          EmitStep(format, todo, open0);
          assert todo == [t] + todo[1..];
          SoundCons(t, todo[1..]);
          todo := todo[1..];
        }
      }
      ParseEnd(pool);
      NothingEmitted(format, tagOpen);
      assert old(good) && all.Some? ==> Rest() == [];
      ok := !error;
    }

    /** Checks the header and converts the rest. */
    method Run() returns (ok: bool)
      requires Valid() && good
      modifies this
      ensures Valid()
      ensures |old(Rest())| < 4 ==> out == old(out)
      ensures 4 <= |old(Rest())| && old(Rest())[..4] != [0x41, 0x42, 0x58, 0] ==> !ok && error && out == old(out)
      ensures 4 <= |old(Rest())| && old(Rest())[..4] == [0x41, 0x42, 0x58, 0] ==>
                var all := ParseAll(old(Rest())[4..], old(pool));
                all.Some? ==>
                  && out == old(out) + Emit(format, all.value.0, old(tagOpen)) && pool == all.value.1
                  && ok == Sound(all.value.0)
    {
      hide ParseAll, Emit, Sound;
      error := true;
      var buffer := ReadFixed(4);
      if buffer[..3] != HEADER[..3] || buffer[3] != 0 {
        assert buffer != HEADER;
        return false;
      }
      assert buffer == HEADER;
      error := false;
      ok := ConvertContent();
    }
  }

  lemma NothingEmitted(f: Format, open: bool)
    ensures Emit(f, [], open) == [] && Sound([])
  {
  }

  lemma EmitOne(f: Format, t: Token, open: bool)
    ensures Emit(f, [t], open) ==
            match t
            case Attribute(n, v) => AttributeText(f, n, v)
            case Event(code, d) => (if open then Ascii(">") else []) + EventText(code, DataText(f, d))
    ensures SoundToken(t) <==>
            match t
            case Attribute(n, v) => !Faulty(n) && !Faulty(v)
            case Event(code, d) => code <= LAST_EVENT && !Faulty(d)
  {
    hide AttributeText, EventText, DataText, Ascii;
    assert [t][1..] == [];
  }

  lemma ParseEnd(pool: seq<Bytes>)
    ensures ParseAll([], pool) == Some(([], pool))
  {
  }

  /** The first token of a stream that can be parsed to its end. */
  lemma ParseStep(bs: Bytes, pool: seq<Bytes>)
    requires bs != []
    ensures var all := ParseAll(bs, pool);
            all.Some? ==>
              && all.value.0 != [] && ParseToken(bs, pool).Parsed?
              && var p := ParseToken(bs, pool);
                 all.value.0[0] == p.value && ParseAll(p.rest, p.pool) == Some((all.value.0[1..], all.value.1))
  {
    hide ParseToken;
    if ParseAll(bs, pool).Some? {
      var p := ParseToken(bs, pool);
      ParseTokenShrinks(bs, pool);
      assert ([p.value] + ParseAll(p.rest, p.pool).value.0)[1..] == ParseAll(p.rest, p.pool).value.0;
    }
  }

  lemma EmitStep(f: Format, tokens: seq<Token>, open: bool)
    requires tokens != []
    ensures var t := tokens[0];
            Emit(f, tokens, open) ==
            Emit(f, [t], open) + Emit(f, tokens[1..], if t.Attribute? then open else t.code == START_TAG)
  {
    hide AttributeText, EventText, DataText, Ascii;
    assert [tokens[0]][1..] == [];
  }

  /**
   Decoding inverts encoding: the bytes of every legal token list that interns at most 65535
   strings are converted without error into its document, and the decoder ends with the
   encoder's pool.
   */
  method DecodeEncoded(f: Format, tokens: seq<Token>) returns (ok: bool, text: Bytes, pool: seq<Bytes>)
    requires Legal(tokens) && |PoolAfterAll(tokens, [])| <= NEW_STRING
    ensures ok && text == Document(f, tokens) && pool == PoolAfterAll(tokens, [])
  {
    hide ParseAll, Encode, Emit, Document, Legal, Sound;
    var stream := HEADER + Encode(tokens, []);
    var decoder := new AbxToXml(stream, f);
    assert stream[..4] == HEADER && stream[4..] == Encode(tokens, []);
    RoundTrip(tokens, []);
    EmitIsDocument(f, tokens);
    LegalIsSound(tokens);
    ok := decoder.Run();
    text, pool := decoder.out, decoder.pool;
  }
}
