/** SUTF-16 words (Extensions/sutf16.h) and their SUST-16 byte serializations (Extensions/sust16.h). */
module Sutf16 {
  import opened Bytes
  import opened PrefixCode
  import opened Sutf8

  type word = x: int | 0 <= x < 0x1_0000

  // ---- words -----------------------------------------------------------------------------

  /** One literal word with bit 15 clear, or a marker word with the high 15 bits and a second
      word with the low 16; nothing for a codepoint outside SUCS. */
  function Words(cp: nat): (ws: seq<word>)
    ensures |ws| == if !IsValid(cp) then 0 else if cp <= 0x7FFF then 1 else 2
  {
    if !IsValid(cp) then []
    else if cp <= 0x7FFF then [cp]
    else [0x8000 + cp / 0x1_0000 % 0x8000, cp % 0x1_0000]
  }

  /** The codepoint of a marker word and the word after it. */
  function Join(w0: word, w1: word): nat
    requires w0 >= 0x8000
  {
    (w0 as int - 0x8000) * 0x1_0000 + w1 as int
  }

  function FromWords(ws: seq<word>): Decoded {
    if ws == [] then Bad
    else if ws[0] >= 0x8000 then
      if |ws| < 2 then Bad
      else
        var cp := Join(ws[0], ws[1]);
        if cp <= 0x7FFF || !IsValid(cp) then Bad else Good(cp, 2)
    else Good(ws[0], 1)
  }

  /** sutf16_encode_char. */
  method EncodeWords(cp: nat, out: array?<word>, room: nat) returns (n: nat)
    requires out != null ==> room <= out.Length
    modifies out
    ensures n == if out == null || |Words(cp)| > room then 0 else |Words(cp)|
    ensures n != 0 ==> out[..n] == Words(cp) && out[n..] == old(out[n..])
    ensures n == 0 && out != null ==> out[..] == old(out[..])
  {
    if out == null || !IsValid(cp) { return 0; }
    if cp <= 0x7FFF {
      if room < 1 { return 0; }
      out[0] := cp % 0x8000;
      return 1;
    } else {
      if room < 2 { return 0; }
      out[0] := 0x8000 + cp / 0x1_0000 % 0x8000;
      out[1] := cp % 0x1_0000;
      return 2;
    }
  }

  /** sutf16_decode_char. */
  method DecodeWords(buf: array?<word>, size: nat) returns (n: nat, cp: nat)
    requires buf != null ==> size <= buf.Length
    ensures match if buf == null then Bad else FromWords(buf[..size])
            case Bad => n == 0 && cp == INVALID_CODEPOINT
            case Good(c, k) => n == k && cp == c
  {
    cp := INVALID_CODEPOINT;
    if buf == null || size == 0 { return 0, cp; }
    if buf[0] >= 0x8000 {
      if size < 2 { return 0, cp; }
      var c := Join(buf[0], buf[1]);
      if c <= 0x7FFF { return 0, cp; }
      if !IsValid(c) { return 0, cp; }
      return 2, c;
    }
    return 1, buf[0];
  }

  lemma FromWordsIff(ws: seq<word>, cp: nat, n: nat)
    ensures FromWords(ws) == Good(cp, n) <==> IsValid(cp) && n == |Words(cp)| && Words(cp) <= ws
  {
    if FromWords(ws) == Good(cp, n) {
      if n == 2 { assert Words(cp) == [ws[0], ws[1]]; }
    }
    if IsValid(cp) && Words(cp) <= ws {
      assert ws[0] == Words(cp)[0];
      if cp > 0x7FFF { assert ws[1] == Words(cp)[1]; }
    }
  }

  lemma WordsCanonical()
    ensures Canonical(Words, FromWords)
  {
    forall s: seq<word>, cp: nat, n: nat {:trigger FromWords(s), Good(cp, n)}
      ensures FromWords(s) == Good(cp, n) <==> 0 < |Words(cp)| == n && Words(cp) <= s
    {
      FromWordsIff(s, cp, n);
    }
  }

  /** Streams of words: decoding undoes encoding, and encoding undoes decoding. */
  lemma WordStreamsRoundTrip(cps: seq<nat>, ws: seq<word>)
    requires forall i :: 0 <= i < |cps| ==> IsValid(cps[i])
    ensures DecodeAll(FromWords, EncodeAll(Words, cps)) == Stream(cps)
    ensures DecodeAll(FromWords, ws).Stream? ==> EncodeAll(Words, DecodeAll(FromWords, ws).cps) == ws
  {
    WordsCanonical();
    DecodeEncoded(Words, FromWords, cps);
    if DecodeAll(FromWords, ws).Stream? { EncodeDecoded(Words, FromWords, ws); }
  }

  // ---- bytes -----------------------------------------------------------------------------

  datatype Order = BigEndian | LittleEndian

  function Pack(o: Order, w: word): (s: seq<byte>)
    ensures |s| == 2
  {
    if o == BigEndian then [w / 0x100, w % 0x100] else [w % 0x100, w / 0x100]
  }

  function Unpack(o: Order, a: byte, b: byte): word {
    if o == BigEndian then a * 0x100 + b else b * 0x100 + a
  }

  /** Words one after another in the given byte order. */
  function Serial(o: Order, ws: seq<word>): (s: seq<byte>)
    ensures |s| == 2 * |ws|
  {
    if ws == [] then [] else Pack(o, ws[0]) + Serial(o, ws[1..])
  }

  function FromBytes(o: Order, s: seq<byte>): Decoded {
    if |s| < 2 then Bad
    else
      var w0 := Unpack(o, s[0], s[1]);
      if w0 >= 0x8000 then
        if |s| < 4 then Bad
        else
          var cp := Join(w0, Unpack(o, s[2], s[3]));
          if cp <= 0x7FFF || !IsValid(cp) then Bad else Good(cp, 4)
      else Good(w0, 2)
  }

  /** The encoding functions of the two orders, as functions of the codepoint alone. */
  function EncBe(cp: nat): seq<byte> { Serial(BigEndian, Words(cp)) }
  function EncLe(cp: nat): seq<byte> { Serial(LittleEndian, Words(cp)) }
  function DecBe(s: seq<byte>): Decoded { FromBytes(BigEndian, s) }
  function DecLe(s: seq<byte>): Decoded { FromBytes(LittleEndian, s) }

  lemma SerialOne(o: Order, w: word)
    ensures Serial(o, [w]) == Pack(o, w)
  {
    assert [w][1..] == [];
  }

  lemma SerialTwo(o: Order, v: word, w: word)
    ensures Serial(o, [v, w]) == Pack(o, v) + Pack(o, w)
  {
    assert [v, w][1..] == [w];
    SerialOne(o, w);
  }

  /** The bytes in either order, spelled out. */
  lemma ByteOrders(cp: nat)
    requires IsValid(cp)
    ensures cp <= 0x7FFF ==> EncBe(cp) == [cp / 0x100, cp % 0x100] && EncLe(cp) == [cp % 0x100, cp / 0x100]
    ensures cp > 0x7FFF ==>
              && EncBe(cp) == [0x80 + cp / 0x100_0000, cp / 0x1_0000 % 0x100, cp / 0x100 % 0x100, cp % 0x100]
              && EncLe(cp) == [cp / 0x1_0000 % 0x100, 0x80 + cp / 0x100_0000, cp % 0x100, cp / 0x100 % 0x100]
  {
    if cp <= 0x7FFF {
      SerialOne(BigEndian, cp);
      SerialOne(LittleEndian, cp);
    } else {
      var v, w := 0x8000 + cp / 0x1_0000, cp % 0x1_0000;
      assert Words(cp) == [v, w];
      SerialTwo(BigEndian, v, w);
      SerialTwo(LittleEndian, v, w);
      TopBytes(cp);
    }
  }

  lemma TopBytes(cp: nat)
    requires cp < 0x8000_0000
    ensures (0x8000 + cp / 0x1_0000) / 0x100 == 0x80 + cp / 0x100_0000
    ensures (0x8000 + cp / 0x1_0000) % 0x100 == cp / 0x1_0000 % 0x100
    ensures cp % 0x1_0000 / 0x100 == cp / 0x100 % 0x100 && cp % 0x1_0000 % 0x100 == cp % 0x100
  {
  }

  lemma PackUnpack(o: Order, w: word, a: byte, b: byte)
    ensures Unpack(o, a, b) == w <==> Pack(o, w) == [a, b]
  {
  }

  /** The whole words of a byte string. */
  function Parse(o: Order, s: seq<byte>): (ws: seq<word>)
    ensures |ws| == |s| / 2
  {
    if |s| < 2 then [] else [Unpack(o, s[0], s[1])] + Parse(o, s[2..])
  }

  lemma {:induction false} SerialPrefix(o: Order, ws: seq<word>, s: seq<byte>)
    ensures Serial(o, ws) <= s <==> ws <= Parse(o, s)
    decreases |ws|
  {
    if ws == [] || |s| < 2 {
    } else {
      PackUnpack(o, ws[0], s[0], s[1]);
      SerialPrefix(o, ws[1..], s[2..]);
      ConsPrefix(Pack(o, ws[0]), Serial(o, ws[1..]), s);
      ConsPrefix([ws[0]], ws[1..], Parse(o, s));
    }
  }

  lemma ConsPrefix<T>(front: seq<T>, rest: seq<T>, s: seq<T>)
    requires |front| <= |s|
    ensures front + rest <= s <==> front == s[..|front|] && rest <= s[|front|..]
  {
    if front == s[..|front|] && rest <= s[|front|..] {
      assert s == front + s[|front|..];
    }
    if front + rest <= s {
      assert s[..|front|] == (front + rest)[..|front|] == front;
      assert s[|front|..][..|rest|] == (front + rest)[|front|..] == rest;
    }
  }

  /** The byte decoders are the word decoder on the unpacked words. */
  lemma FromBytesParses(o: Order, s: seq<byte>)
    ensures FromBytes(o, s) == match FromWords(Parse(o, s)) case Bad => Bad case Good(cp, n) => Good(cp, 2 * n)
  {
    if |s| >= 4 {
      assert s[2..][0] == s[2] && s[2..][1] == s[3];
      assert Parse(o, s)[1] == Unpack(o, s[2], s[3]);
    }
  }

  /** In either order the decoder accepts exactly the serialized words of valid codepoints. */
  lemma FromBytesIff(o: Order, s: seq<byte>, cp: nat, n: nat)
    ensures FromBytes(o, s) == Good(cp, n) <==> IsValid(cp) && n == 2 * |Words(cp)| && Serial(o, Words(cp)) <= s
  {
    FromBytesParses(o, s);
    FromWordsIff(Parse(o, s), cp, |Words(cp)|);
    SerialPrefix(o, Words(cp), s);
    if FromBytes(o, s) == Good(cp, n) { FromWordsIff(Parse(o, s), cp, n / 2); }
  }

  lemma BytesCanonical()
    ensures Canonical(EncBe, DecBe) && Canonical(EncLe, DecLe)
  {
    forall s: seq<byte>, cp: nat, n: nat {:trigger DecBe(s), Good(cp, n)}
      ensures DecBe(s) == Good(cp, n) <==> 0 < |EncBe(cp)| == n && EncBe(cp) <= s
    {
      FromBytesIff(BigEndian, s, cp, n);
    }
    forall s: seq<byte>, cp: nat, n: nat {:trigger DecLe(s), Good(cp, n)}
      ensures DecLe(s) == Good(cp, n) <==> 0 < |EncLe(cp)| == n && EncLe(cp) <= s
    {
      FromBytesIff(LittleEndian, s, cp, n);
    }
  }

  /** Streams in either order: decoding undoes encoding, and encoding undoes decoding. */
  lemma StreamsRoundTrip(cps: seq<nat>, s: seq<byte>)
    requires forall i :: 0 <= i < |cps| ==> IsValid(cps[i])
    ensures DecodeAll(DecBe, EncodeAll(EncBe, cps)) == Stream(cps)
    ensures DecodeAll(DecLe, EncodeAll(EncLe, cps)) == Stream(cps)
    ensures DecodeAll(DecBe, s).Stream? ==> EncodeAll(EncBe, DecodeAll(DecBe, s).cps) == s
    ensures DecodeAll(DecLe, s).Stream? ==> EncodeAll(EncLe, DecodeAll(DecLe, s).cps) == s
  {
    BytesCanonical();
    DecodeEncoded(EncBe, DecBe, cps);
    DecodeEncoded(EncLe, DecLe, cps);
    if DecodeAll(DecBe, s).Stream? { EncodeDecoded(EncBe, DecBe, s); }
    if DecodeAll(DecLe, s).Stream? { EncodeDecoded(EncLe, DecLe, s); }
  }

  // ---- buffers --------------------------------------------------------------------------------

  /** sust16_encode_bytes_be and sust16_encode_bytes_le. */
  method EncodeBytes(o: Order, cp: nat, out: array?<byte>, room: nat) returns (n: nat)
    requires out != null ==> room <= out.Length
    modifies out
    ensures n == if out == null || 2 * |Words(cp)| > room then 0 else 2 * |Words(cp)|
    ensures n != 0 ==> out[..n] == Serial(o, Words(cp)) && out[n..] == old(out[n..])
    ensures n == 0 && out != null ==> out[..] == old(out[..])
  {
    if out == null || !IsValid(cp) { return 0; }
    SerialOfTwo(o, Words(cp));
    if cp <= 0x7FFF {
      if room < 2 { return 0; }
      var hi, lo := cp / 0x100 % 0x80, cp % 0x100;
      if o == BigEndian { out[0], out[1] := hi, lo; } else { out[0], out[1] := lo, hi; }
      return 2;
    }
    if room < 4 { return 0; }
    var w0, w1 := 0x8000 + cp / 0x1_0000 % 0x8000, cp % 0x1_0000;
    if o == BigEndian {
      out[0], out[1], out[2], out[3] := w0 / 0x100, w0 % 0x100, w1 / 0x100, w1 % 0x100;
    } else {
      out[0], out[1], out[2], out[3] := w0 % 0x100, w0 / 0x100, w1 % 0x100, w1 / 0x100;
    }
    return 4;
  }

  /** sust16_decode_bytes_be and sust16_decode_bytes_le. */
  method DecodeBytes(o: Order, buf: array?<byte>, size: nat) returns (n: nat, cp: nat)
    requires buf != null ==> size <= buf.Length
    ensures match if buf == null then Bad else FromBytes(o, buf[..size])
            case Bad => n == 0 && cp == INVALID_CODEPOINT
            case Good(c, k) => n == k && cp == c
  {
    cp := INVALID_CODEPOINT;
    if buf == null || size < 2 { return 0, cp; }
    var w0 := Unpack(o, buf[0], buf[1]);
    if w0 >= 0x8000 {
      if size < 4 { return 0, cp; }
      var w1 := Unpack(o, buf[2], buf[3]);
      var c := Join(w0, w1);
      if c <= 0x7FFF { return 0, cp; }
      if !IsValid(c) { return 0, cp; }
      return 4, c;
    }
    return 2, w0;
  }

  lemma SerialOfTwo(o: Order, ws: seq<word>)
    ensures |ws| == 1 ==> Serial(o, ws) == Pack(o, ws[0])
    ensures |ws| == 2 ==> Serial(o, ws) == Pack(o, ws[0]) + Pack(o, ws[1])
  {
    if |ws| == 2 { assert Serial(o, ws[1..]) == Pack(o, ws[1]) + Serial(o, ws[1..][1..]); }
  }
}
