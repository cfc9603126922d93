/** Streams of self-delimiting codes, for any unit type: what follows from a decoder accepting
    exactly the encodings. */
module PrefixCode {

  /** What a decoder makes of the front of its input: a codepoint and the units it took. */
  datatype Decoded = Bad | Good(cp: nat, len: nat)

  /** The decoder accepts exactly the encodings; codepoints without one encode to nothing. */
  ghost predicate Canonical<T(!new)>(enc: nat -> seq<T>, dec: seq<T> -> Decoded) {
    forall s: seq<T>, cp: nat, n: nat {:trigger dec(s), Good(cp, n)} ::
      dec(s) == Good(cp, n) <==> 0 < |enc(cp)| == n && enc(cp) <= s
  }

  ghost predicate Encodable<T>(enc: nat -> seq<T>, cps: seq<nat>) {
    forall i :: 0 <= i < |cps| ==> 0 < |enc(cps[i])|
  }

  function EncodeAll<T>(enc: nat -> seq<T>, cps: seq<nat>): seq<T> {
    if cps == [] then [] else enc(cps[0]) + EncodeAll(enc, cps[1..])
  }

  datatype Stream = Malformed | Stream(cps: seq<nat>)

  /** Decodes a whole stream, front to back. */
  function DecodeAll<T>(dec: seq<T> -> Decoded, s: seq<T>): Stream
    decreases |s|
  {
    if s == [] then Stream([])
    else
      match dec(s)
      case Bad => Malformed
      case Good(cp, n) =>
        if !(0 < n <= |s|) then Malformed
        else
          match DecodeAll(dec, s[n..])
          case Malformed => Malformed
          case Stream(cps) => Stream([cp] + cps)
  }

  /** Decoding concatenated encodings returns the codepoints. */
  lemma {:induction false} DecodeEncoded<T(!new)>(enc: nat -> seq<T>, dec: seq<T> -> Decoded, cps: seq<nat>)
    requires Canonical(enc, dec) && Encodable(enc, cps)
    ensures DecodeAll(dec, EncodeAll(enc, cps)) == Stream(cps)
  {
    if cps == [] {
    } else {
      var s, n := EncodeAll(enc, cps), |enc(cps[0])|;
      assert dec(s) == Good(cps[0], n);
      assert s[n..] == EncodeAll(enc, cps[1..]);
      DecodeEncoded(enc, dec, cps[1..]);
    }
  }

  lemma AcceptedIsEncoding<T(!new)>(enc: nat -> seq<T>, dec: seq<T> -> Decoded, s: seq<T>)
    requires Canonical(enc, dec) && dec(s).Good?
    ensures 0 < |enc(dec(s).cp)| == dec(s).len <= |s| && s == enc(dec(s).cp) + s[dec(s).len..]
  {
    assert dec(s) == Good(dec(s).cp, dec(s).len);
  }

  lemma EncodableCons<T>(enc: nat -> seq<T>, cp: nat, cps: seq<nat>)
    requires 0 < |enc(cp)| && Encodable(enc, cps)
    ensures Encodable(enc, [cp] + cps) && EncodeAll(enc, [cp] + cps) == enc(cp) + EncodeAll(enc, cps)
  {
    assert ([cp] + cps)[1..] == cps;
  }

  /** Whatever is accepted is the encoding of what it was decoded to. */
  lemma {:induction false} EncodeDecoded<T(!new)>(enc: nat -> seq<T>, dec: seq<T> -> Decoded, s: seq<T>)
    requires Canonical(enc, dec) && DecodeAll(dec, s).Stream?
    ensures Encodable(enc, DecodeAll(dec, s).cps)
    ensures EncodeAll(enc, DecodeAll(dec, s).cps) == s
    decreases |s|
  {
    if s == [] {
    } else {
      var d := dec(s);
      AcceptedIsEncoding(enc, dec, s);
      var rest := s[d.len..];
      EncodeDecoded(enc, dec, rest);
      EncodableCons(enc, d.cp, DecodeAll(dec, rest).cps);
    }
  }

  /** Different streams decode differently. */
  lemma DecodingInjective<T(!new)>(enc: nat -> seq<T>, dec: seq<T> -> Decoded, s: seq<T>, t: seq<T>)
    requires Canonical(enc, dec)
    requires DecodeAll(dec, s).Stream? && DecodeAll(dec, s) == DecodeAll(dec, t)
    ensures s == t
  {
    EncodeDecoded(enc, dec, s);
    EncodeDecoded(enc, dec, t);
  }

  /** Unique decodability: different codepoint sequences have different encodings. */
  lemma EncodingInjective<T(!new)>(enc: nat -> seq<T>, dec: seq<T> -> Decoded, a: seq<nat>, b: seq<nat>)
    requires Canonical(enc, dec) && Encodable(enc, a) && Encodable(enc, b) && EncodeAll(enc, a) == EncodeAll(enc, b)
    ensures a == b
  {
    DecodeEncoded(enc, dec, a);
    DecodeEncoded(enc, dec, b);
  }

  /** No encoding begins another. */
  lemma PrefixFree<T(!new)>(enc: nat -> seq<T>, dec: seq<T> -> Decoded, a: nat, b: nat)
    requires Canonical(enc, dec) && 0 < |enc(a)| && enc(a) <= enc(b)
    ensures a == b
  {
    assert dec(enc(b)) == Good(a, |enc(a)|);
    assert dec(enc(b)) == Good(b, |enc(b)|);
  }

  lemma {:induction false} EncodeConcat<T>(enc: nat -> seq<T>, a: seq<nat>, b: seq<nat>)
    ensures EncodeAll(enc, a + b) == EncodeAll(enc, a) + EncodeAll(enc, b)
    decreases |a|
  {
    if a == [] {
      assert a + b == b;
    } else {
      assert (a + b)[1..] == a[1..] + b;
      EncodeConcat(enc, a[1..], b);
    }
  }
}
