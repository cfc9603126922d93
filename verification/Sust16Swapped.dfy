/** SUST-16 streams decoded in the wrong byte order (Extensions/sust16.h). */
module Sust16Swapped {
  import opened Bytes
  import opened PrefixCode
  import opened Sutf8
  import opened Sutf16

  function Flip(o: Order): Order {
    if o == BigEndian then LittleEndian else BigEndian
  }

  /** A word with its bytes exchanged. */
  function Swap(w: word): word {
    w % 0x100 * 0x100 + w / 0x100
  }

  function SwapAll(ws: seq<word>): (r: seq<word>)
    ensures |r| == |ws| && forall i :: 0 <= i < |ws| ==> r[i] == Swap(ws[i])
  {
    if ws == [] then [] else [Swap(ws[0])] + SwapAll(ws[1..])
  }

  /** The wrong decoder takes the word for a marker. */
  predicate Marks(w: word) {
    w % 0x100 >= 0x80
  }

  /** A word taken for a marker and the word after it make no codepoint. */
  predicate Clashes(w: word, v: word) {
    (w == 0x80 && !Marks(v)) || (w == 0xFFFF && v >= 0xF0FF && v % 0x100 == 0xFF)
  }

  // ---- one codepoint ----------------------------------------------------------------------

  lemma Halves(hi: byte, lo: byte)
    ensures (hi * 0x100 + lo) / 0x100 == hi && (hi * 0x100 + lo) % 0x100 == lo
  {
  }

  lemma PackSwapped(o: Order, w: word)
    ensures Pack(o, w) == Pack(Flip(o), Swap(w))
  {
    Halves(w % 0x100, w / 0x100);
  }

  lemma {:induction false} SerialSwapped(o: Order, ws: seq<word>)
    ensures Serial(o, ws) == Serial(Flip(o), SwapAll(ws))
  {
    if ws == [] {
    } else {
      PackSwapped(o, ws[0]);
      SerialSwapped(o, ws[1..]);
      assert SwapAll(ws)[1..] == SwapAll(ws[1..]);
    }
  }

  lemma ParsePack(o: Order, w: word, rest: seq<byte>)
    ensures Parse(o, Pack(o, w) + rest) == [w] + Parse(o, rest)
  {
    var s := Pack(o, w) + rest;
    PackUnpack(o, w, s[0], s[1]);
    assert s[2..] == rest;
  }

  lemma Reassociate<T>(a: seq<T>, b: seq<T>, c: seq<T>)
    ensures a + b + c == a + (b + c)
  {
  }

  lemma {:induction false} ParseSerial(o: Order, ws: seq<word>, rest: seq<byte>)
    ensures Parse(o, Serial(o, ws) + rest) == ws + Parse(o, rest)
    decreases |ws|
  {
    if ws == [] {
      assert [] + rest == rest;
    } else {
      var more := Serial(o, ws[1..]);
      ParseSerial(o, ws[1..], rest);
      ParsePack(o, ws[0], more + rest);
      Reassociate(Pack(o, ws[0]), more, rest);
      Reassociate([ws[0]], ws[1..], Parse(o, rest));
      assert [ws[0]] + ws[1..] == ws;
    }
  }

  /** The wrong decoder reads the words swapped. */
  lemma ReadsSwapped(o: Order, ws: seq<word>, rest: seq<byte>)
    ensures Parse(Flip(o), Serial(o, ws) + rest) == SwapAll(ws) + Parse(Flip(o), rest)
  {
    SerialSwapped(o, ws);
    ParseSerial(Flip(o), SwapAll(ws), rest);
  }

  lemma SwapMarks(w: word)
    ensures Swap(w) >= 0x8000 <==> Marks(w)
  {
  }

  lemma PairFails(w: word, v: word)
    requires Marks(w)
    ensures Swap(w) >= 0x8000
    ensures Join(Swap(w), Swap(v)) <= 0x7FFF || !IsValid(Join(Swap(w), Swap(v))) <==> Clashes(w, v)
  {
    var a, b := Swap(w), Swap(v);
    assert a == 0x8000 <==> w == 0x80;
    assert a == 0xFFFF <==> w == 0xFFFF;
    assert b >= 0xFFF0 <==> v >= 0xF0FF && v % 0x100 == 0xFF;
    assert b >= 0x8000 <==> Marks(v);
  }

  lemma SwapTwice(w: word)
    ensures Swap(Swap(w)) == w
  {
    Halves(w % 0x100, w / 0x100);
  }

  /** What the wrong decoder makes of a stream of swapped words beginning with `w` and, if it goes
      on, `v`. */
  lemma FrontSwapped(all: seq<word>, w: word, v: word)
    requires all != [] && all[0] == Swap(w) && (|all| >= 2 ==> all[1] == Swap(v))
    ensures !Marks(w) ==> FromWords(all) == Good(Swap(w), 1)
    ensures Marks(w) && (|all| == 1 || Clashes(w, v)) ==> FromWords(all) == Bad
    ensures Marks(w) && |all| >= 2 && !Clashes(w, v) ==>
              Swap(w) >= 0x8000 && FromWords(all) == Good(Join(Swap(w), Swap(v)), 2)
  {
    SwapMarks(w);
    if Marks(w) { PairFails(w, v); }
  }

  /** The header says a stream in the other byte order fails loudly. For every codepoint, whatever
      follows it and in either direction, the decoder fails on it exactly when: a one-word
      codepoint has a low byte of 0x80 or more and nothing follows, or it is 0x80 and no marker
      follows; a two-word codepoint is one of the fifteen from 0x7FFFF0FF on with low byte 0xFF. */
  lemma WrongOrderFailsIff(o: Order, cp: nat, rest: seq<byte>)
    requires IsValid(cp)
    ensures FromBytes(Flip(o), Serial(o, Words(cp)) + rest) == Bad <==>
              if cp <= 0x7FFF then
                cp % 0x100 >= 0x80 && (|rest| < 2 || (cp == 0x80 && Unpack(Flip(o), rest[0], rest[1]) < 0x8000))
              else
                cp >= 0x7FFF_F0FF && cp % 0x100 == 0xFF
  {
    var ws, more := Words(cp), Parse(Flip(o), rest);
    ReadsSwapped(o, ws, rest);
    FromBytesParses(Flip(o), Serial(o, ws) + rest);
    if cp <= 0x7FFF {
      var v := if more == [] then 0 else Swap(more[0]);
      if more != [] {
        SwapTwice(more[0]);
        OneWordClash(cp, more[0]);
      }
      FrontSwapped(SwapAll(ws) + more, cp, v);
    } else {
      FrontSwapped(SwapAll(ws) + more, ws[0], ws[1]);
      TwoWordClash(cp);
    }
  }

  lemma OneWordClash(w: word, v: word)
    requires w <= 0x7FFF
    ensures Clashes(w, Swap(v)) <==> w == 0x80 && v < 0x8000
  {
  }

  lemma TwoWordClash(cp: nat)
    requires IsValid(cp) && cp > 0x7FFF
    ensures Marks(Words(cp)[0]) && Clashes(Words(cp)[0], Words(cp)[1]) <==> cp >= 0x7FFF_F0FF && cp % 0x100 == 0xFF
  {
    var hi, lo := cp / 0x1_0000, cp % 0x1_0000;
    assert Words(cp) == [0x8000 + hi, lo];
    LowByte(hi, lo);
    TopClash(hi, lo);
  }

  lemma LowByte(hi: nat, lo: nat)
    ensures (hi * 0x1_0000 + lo) % 0x100 == lo % 0x100
  {
  }

  lemma TopClash(hi: nat, lo: word)
    requires hi < 0x8000
    ensures Marks(0x8000 + hi) && Clashes(0x8000 + hi, lo) <==> hi * 0x1_0000 + lo >= 0x7FFF_F0FF && lo % 0x100 == 0xFF
  {
    if hi == 0x7FFF {
    } else {
      assert 0x8000 + hi != 0xFFFF && 0x8000 + hi != 0x80;
    }
  }

  // ---- whole streams ------------------------------------------------------------------------

  /** How many words taken for markers stand directly before word `i`. */
  function MarksBefore(ws: seq<word>, i: nat): nat
    requires i <= |ws|
  {
    if i == 0 || !Marks(ws[i - 1]) then 0 else 1 + MarksBefore(ws, i - 1)
  }

  /** The wrong decoder fails at word `i`: it is taken for a marker, being at an even place of its
      run of such words, and the next word is missing or does not go with it. */
  predicate Trips(ws: seq<word>, i: nat) {
    && i < |ws| && Marks(ws[i]) && MarksBefore(ws, i) % 2 == 0
    && (i + 1 == |ws| || Clashes(ws[i], ws[i + 1]))
  }

  /** Cutting off one unmarked word, or a marked one with its partner, keeps the parity of runs. */
  lemma {:induction false} ParityKept(ws: seq<word>, n: nat, i: nat)
    requires n <= i <= |ws| && (n == 1 || n == 2) && (n == 1 ==> !Marks(ws[0])) && (n == 2 ==> Marks(ws[0]))
    ensures MarksBefore(ws, i) % 2 == MarksBefore(ws[n..], i - n) % 2
    decreases i
  {
    if i == n {
      if n == 2 && Marks(ws[1]) { assert MarksBefore(ws, 1) == 1 && MarksBefore(ws, 2) == 2; }
    } else {
      ParityKept(ws, n, i - 1);
    }
  }

  lemma TripsLater(ws: seq<word>, n: nat, i: nat)
    requires n <= i < |ws| && (n == 1 || n == 2) && (n == 1 ==> !Marks(ws[0])) && (n == 2 ==> Marks(ws[0]))
    ensures Trips(ws, i) <==> Trips(ws[n..], i - n)
  {
    ParityKept(ws, n, i);
  }

  lemma PairsDoNotTrip(ws: seq<word>)
    requires |ws| >= 2 && Marks(ws[0])
    ensures !Trips(ws, 1)
  {
    if Marks(ws[1]) { assert MarksBefore(ws, 1) == 1; }
  }

  /** A word stream read with its bytes exchanged is rejected exactly when it trips somewhere. */
  lemma {:induction false} SwappedStreamFailsIff(ws: seq<word>)
    ensures DecodeAll(FromWords, SwapAll(ws)) == Malformed <==> exists i :: Trips(ws, i)
    decreases |ws|
  {
    if ws == [] {
    } else {
      var n := if Marks(ws[0]) then 2 else 1;
      var all := SwapAll(ws);
      FrontSwapped(all, ws[0], if |ws| >= 2 then ws[1] else 0);
      if FromWords(all) == Bad {
        assert Trips(ws, 0);
      } else {
        assert all[n..] == SwapAll(ws[n..]);
        SwappedStreamFailsIff(ws[n..]);
        RestTrips(ws, n);
      }
    }
  }

  lemma RestTrips(ws: seq<word>, n: nat)
    requires (n == 1 || n == 2) && n <= |ws| && (n == 1 ==> !Marks(ws[0])) && (n == 2 ==> Marks(ws[0]))
    requires n == 2 ==> !Clashes(ws[0], ws[1])
    ensures (exists i :: Trips(ws, i)) <==> exists i :: Trips(ws[n..], i)
  {
    if i: nat :| Trips(ws, i) {
      if n == 2 { PairsDoNotTrip(ws); }
      TripsLater(ws, n, i);
      assert Trips(ws[n..], i - n);
    }
    if i: nat :| Trips(ws[n..], i) {
      TripsLater(ws, n, i + n);
      assert Trips(ws, i + n);
    }
  }

  lemma {:induction false} StreamParses(o: Order, dec: seq<byte> -> Decoded, s: seq<byte>)
    requires |s| % 2 == 0 && forall t {:trigger dec(t)} :: dec(t) == FromBytes(o, t)
    ensures DecodeAll(dec, s) == DecodeAll(FromWords, Parse(o, s))
    decreases |s|
  {
    if s == [] {
    } else {
      FromBytesParses(o, s);
      var d := dec(s);
      if d.Good? {
        ParseDrop(o, s, d.len / 2);
        StreamParses(o, dec, s[d.len..]);
      }
    }
  }

  lemma {:induction false} ParseDrop(o: Order, s: seq<byte>, n: nat)
    requires 2 * n <= |s|
    ensures Parse(o, s[2 * n..]) == Parse(o, s)[n..]
    decreases n
  {
    if n == 0 {
      assert s[0..] == s;
    } else {
      ParseDrop(o, s[2..], n - 1);
      assert s[2..][2 * (n - 1)..] == s[2 * n..];
    }
  }

  lemma {:induction false} EncodeSerial(o: Order, enc: nat -> seq<byte>, cps: seq<nat>)
    requires forall cp {:trigger enc(cp)} :: enc(cp) == Serial(o, Words(cp))
    ensures EncodeAll(enc, cps) == Serial(o, EncodeAll(Words, cps))
  {
    if cps == [] {
    } else {
      EncodeSerial(o, enc, cps[1..]);
      SerialConcat(o, Words(cps[0]), EncodeAll(Words, cps[1..]));
    }
  }

  lemma {:induction false} SerialConcat(o: Order, a: seq<word>, b: seq<word>)
    ensures Serial(o, a + b) == Serial(o, a) + Serial(o, b)
    decreases |a|
  {
    if a == [] {
      assert a + b == b;
    } else {
      assert (a + b)[1..] == a[1..] + b;
      SerialConcat(o, a[1..], b);
    }
  }

  lemma AllSwapped(o: Order, ws: seq<word>)
    ensures Parse(Flip(o), Serial(o, ws)) == SwapAll(ws)
  {
    ReadsSwapped(o, ws, []);
    assert Serial(o, ws) + [] == Serial(o, ws) && SwapAll(ws) + [] == SwapAll(ws);
  }

  /** A stream of any codepoints in the wrong byte order is decoded as its swapped words, and is
      rejected exactly when these trip somewhere. */
  lemma WrongOrderStreamFailsIff(cps: seq<nat>)
    ensures DecodeAll(DecBe, EncodeAll(EncLe, cps)) == DecodeAll(FromWords, SwapAll(EncodeAll(Words, cps)))
    ensures DecodeAll(DecLe, EncodeAll(EncBe, cps)) == DecodeAll(FromWords, SwapAll(EncodeAll(Words, cps)))
    ensures DecodeAll(DecBe, EncodeAll(EncLe, cps)) == Malformed <==> exists i :: Trips(EncodeAll(Words, cps), i)
    ensures DecodeAll(DecLe, EncodeAll(EncBe, cps)) == Malformed <==> exists i :: Trips(EncodeAll(Words, cps), i)
  {
    OtherOrder(LittleEndian, EncLe, DecBe, cps);
    OtherOrder(BigEndian, EncBe, DecLe, cps);
    SwappedStreamFailsIff(EncodeAll(Words, cps));
  }

  lemma OtherOrder(o: Order, enc: nat -> seq<byte>, dec: seq<byte> -> Decoded, cps: seq<nat>)
    requires forall cp {:trigger enc(cp)} :: enc(cp) == Serial(o, Words(cp))
    requires forall t {:trigger dec(t)} :: dec(t) == FromBytes(Flip(o), t)
    ensures DecodeAll(dec, EncodeAll(enc, cps)) == DecodeAll(FromWords, SwapAll(EncodeAll(Words, cps)))
  {
    EncodeSerial(o, enc, cps);
    SerialDecoded(o, dec, EncodeAll(Words, cps));
  }

  lemma SerialDecoded(o: Order, dec: seq<byte> -> Decoded, ws: seq<word>)
    requires forall t {:trigger dec(t)} :: dec(t) == FromBytes(Flip(o), t)
    ensures DecodeAll(dec, Serial(o, ws)) == DecodeAll(FromWords, SwapAll(ws))
  {
    StreamParses(Flip(o), dec, Serial(o, ws));
    AllSwapped(o, ws);
  }

  /** Codepoint `i` has a low byte of 0x80 or more, stands at an even place of its run of such
      codepoints, and is the last of all, or is 0x80 and the last of its run. */
  predicate OneWordTrips(cps: seq<word>, i: nat) {
    && i < |cps| && Marks(cps[i]) && MarksBefore(cps, i) % 2 == 0
    && (i + 1 == |cps| || (cps[i] == 0x80 && !Marks(cps[i + 1])))
  }

  lemma OneWordTripsIff(cps: seq<word>)
    requires forall i :: 0 <= i < |cps| ==> cps[i] <= 0x7FFF
    ensures (exists i :: Trips(cps, i)) <==> exists i :: OneWordTrips(cps, i)
  {
    forall i: nat ensures Trips(cps, i) <==> OneWordTrips(cps, i) { }
  }

  /** The same for codepoints of one word. */
  lemma OneWordStreamFailsIff(cps: seq<word>)
    requires forall i :: 0 <= i < |cps| ==> cps[i] <= 0x7FFF
    ensures DecodeAll(DecBe, EncodeAll(EncLe, cps)) == Malformed <==> exists i :: OneWordTrips(cps, i)
    ensures DecodeAll(DecLe, EncodeAll(EncBe, cps)) == Malformed <==> exists i :: OneWordTrips(cps, i)
  {
    OneWordTripsIff(cps);
    OneWordSwapped(cps);
    SwappedStreamFailsIff(cps);
  }

  lemma OneWordSwapped(cps: seq<word>)
    requires forall i :: 0 <= i < |cps| ==> cps[i] <= 0x7FFF
    ensures DecodeAll(DecBe, EncodeAll(EncLe, cps)) == DecodeAll(FromWords, SwapAll(cps))
    ensures DecodeAll(DecLe, EncodeAll(EncBe, cps)) == DecodeAll(FromWords, SwapAll(cps))
  {
    OneWordEach(cps);
    WrongOrderStreamFailsIff(cps);
  }

  lemma {:induction false} OneWordEach(cps: seq<word>)
    requires forall i :: 0 <= i < |cps| ==> cps[i] <= 0x7FFF
    ensures EncodeAll(Words, cps) == cps
  {
    if cps == [] {
    } else {
      OneWordEach(cps[1..]);
    }
  }

  /** Two codepoints of one word pass as a single other one, unless the first is 0x80 or would not
      be taken for a marker: 0x180 and 0x41 pass as 0x14100. */
  lemma TwoPassAsOne(cps: seq<word>)
    requires |cps| == 2 && cps[0] <= 0x7FFF && cps[1] <= 0x7FFF && Marks(cps[0]) && cps[0] != 0x80
    ensures Swap(cps[0]) >= 0x8000
    ensures DecodeAll(DecBe, EncodeAll(EncLe, cps)) == Stream([Join(Swap(cps[0]), Swap(cps[1]))])
  {
    OneWordSwapped(cps);
    SwappedPair(cps);
  }

  lemma SwappedPair(cps: seq<word>)
    requires |cps| == 2 && cps[0] <= 0x7FFF && Marks(cps[0]) && cps[0] != 0x80
    ensures Swap(cps[0]) >= 0x8000
    ensures DecodeAll(FromWords, SwapAll(cps)) == Stream([Join(Swap(cps[0]), Swap(cps[1]))])
  {
    var ws := SwapAll(cps);
    FrontSwapped(ws, cps[0], cps[1]);
    assert ws[2..] == [];
  }
}
