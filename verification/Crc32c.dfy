/** CRC32C (section 12.1 of RFC 3720) in the reflected, bit-serial form of Extensions/bdmp_core.h.
    A 32-bit word is the list of its bits, least significant first. */
module Crc32c {
  import opened Bytes

  /** 0xFFFFFFFF, the initial register. */
  const ONES_8: seq<bool> := [true, true, true, true, true, true, true, true]
  const ONES: seq<bool> := ONES_8 + ONES_8 + ONES_8 + ONES_8

  type Reg = r: seq<bool> | |r| == 32 witness ONES

  /** A reflected generator polynomial without its leading term. The set top bit, its constant
      term, is what makes a step undoable; everything below holds for any such polynomial. */
  type Poly = p: seq<bool> | |p| == 32 && p[31] witness ONES

  /** The four bytes of 0x82F63B78, least significant first, each with its least significant
      bit first. */
  const POLY_0: seq<bool> := [false, false, false, true, true, true, true, false]
  const POLY_1: seq<bool> := [true, true, false, true, true, true, false, false]
  const POLY_2: seq<bool> := [false, true, true, false, true, true, true, true]
  const POLY_3: seq<bool> := [false, true, false, false, false, false, false, true]

  const CASTAGNOLI: Poly := POLY_0 + POLY_1 + POLY_2 + POLY_3

  // ---- words ------------------------------------------------------------------------------

  /** The bits above are those of the Castagnoli polynomial. */
  lemma CastagnoliIs()
    ensures POLY_0 == Bits(0x78) && POLY_1 == Bits(0x3B) && POLY_2 == Bits(0xF6) && POLY_3 == Bits(0x82)
  {
    BitsOfByte(POLY_0);
    BitsOfByte(POLY_1);
    BitsOfByte(POLY_2);
    BitsOfByte(POLY_3);
  }

  /** The bits of a word stored least significant byte first. */
  function Load(s: seq<byte>): (r: seq<bool>)
    ensures |r| == 8 * |s|
  {
    if s == [] then [] else Bits(s[0]) + Load(s[1..])
  }

  /** The bytes a word is stored as. */
  function Store(r: seq<bool>): (s: seq<byte>)
    requires |r| % 8 == 0
    ensures 8 * |s| == |r|
  {
    if r == [] then [] else [ByteOf(r[..8])] + Store(r[8..])
  }

  lemma {:induction false} LoadStore(r: seq<bool>)
    requires |r| % 8 == 0
    ensures Load(Store(r)) == r
  {
    if r == [] {
    } else {
      BitsOfByte(r[..8]);
      LoadStore(r[8..]);
      assert Store(r)[1..] == Store(r[8..]);
      assert r == r[..8] + r[8..];
    }
  }

  lemma {:induction false} LoadInjective(s: seq<byte>, t: seq<byte>)
    requires |s| == |t| && Load(s) == Load(t)
    ensures s == t
  {
    if s == [] {
    } else {
      assert Bits(s[0]) == Load(s)[..8] && Bits(t[0]) == Load(t)[..8];
      BitsInjective(s[0], t[0]);
      assert Load(s[1..]) == Load(s)[8..] && Load(t[1..]) == Load(t)[8..];
      LoadInjective(s[1..], t[1..]);
      assert s == [s[0]] + s[1..] && t == [t[0]] + t[1..];
    }
  }

  // ---- the checksum --------------------------------------------------------------------

  function Xor(a: seq<bool>, b: seq<bool>): (r: seq<bool>)
    requires |a| == |b|
    ensures |r| == |a|
  {
    if a == [] then [] else [a[0] != b[0]] + Xor(a[1..], b[1..])
  }

  function Not(a: seq<bool>): (r: seq<bool>)
    ensures |r| == |a|
  {
    if a == [] then [] else [!a[0]] + Not(a[1..])
  }

  /** One bit of the division: shift right, fold the polynomial in if the bit shifted out was set. */
  function BitStep(poly: Poly, crc: Reg): Reg {
    if crc[0] then Xor(crc[1..] + [false], poly) else crc[1..] + [false]
  }

  function BitSteps(poly: Poly, crc: Reg, n: nat): Reg
    decreases n, crc
  {
    if n == 0 then crc else BitSteps(poly, BitStep(poly, crc), n - 1)
  }

  /** The low byte of the register xored with `b`. */
  function XorByte(crc: Reg, b: byte): Reg {
    Xor(crc[..8], Bits(b)) + crc[8..]
  }

  function ByteStep(poly: Poly, crc: Reg, b: byte): Reg {
    BitSteps(poly, XorByte(crc, b), 8)
  }

  /** The running value after feeding `data`, un-inverted. */
  function Feed(poly: Poly, crc: Reg, data: seq<byte>): Reg
    decreases |data|, crc
  {
    if data == [] then crc else Feed(poly, ByteStep(poly, crc, data[0]), data[1..])
  }

  function Crc(poly: Poly, data: seq<byte>): Reg {
    Not(Feed(poly, ONES, data))
  }

  // ---- the loops ---------------------------------------------------------------------

  /** The inner loop of bdmp_crc32c_pass. */
  method FoldByte(poly: Poly, crc: Reg) returns (r: Reg)
    ensures r == BitSteps(poly, crc, 8)
  {
    r := crc;
    var bit := 0;
    while bit < 8
      invariant 0 <= bit <= 8
      invariant BitSteps(poly, r, 8 - bit) == BitSteps(poly, crc, 8)
    {
      r := BitStep(poly, r);
      bit := bit + 1;
    }
  }

  /** bdmp_crc32c_pass over `data[from..from + n]`. */
  method Pass(poly: Poly, crc: Reg, data: array<byte>, from: nat, n: nat) returns (r: Reg)
    requires from + n <= data.Length
    ensures r == Feed(poly, crc, data[from..from + n])
  {
    r := crc;
    var i := 0;
    while i < n
      invariant 0 <= i <= n
      invariant Feed(poly, r, data[from + i..from + n]) == Feed(poly, crc, data[from..from + n])
    {
      assert data[from + i..from + n][1..] == data[from + i + 1..from + n];
      r := FoldByte(poly, XorByte(r, data[from + i]));
      i := i + 1;
    }
  }

  // ---- bit by bit ----------------------------------------------------------------------

  lemma {:induction false} XorAt(a: seq<bool>, b: seq<bool>, i: nat)
    requires |a| == |b| && i < |a|
    ensures Xor(a, b)[i] == (a[i] != b[i])
  {
    if i == 0 {
    } else {
      XorAt(a[1..], b[1..], i - 1);
    }
  }

  lemma {:induction false} NotInjective(x: seq<bool>, y: seq<bool>)
    requires |x| == |y| && Not(x) == Not(y)
    ensures x == y
  {
    if x == [] {
    } else {
      assert Not(x)[0] == !x[0] && Not(y)[0] == !y[0];
      assert Not(x)[1..] == Not(x[1..]) && Not(y)[1..] == Not(y[1..]);
      NotInjective(x[1..], y[1..]);
      assert x == [x[0]] + x[1..] && y == [y[0]] + y[1..];
    }
  }

  /** Bit `i` after a step is bit `i + 1` before it, flipped where the polynomial is folded in. */
  lemma BitStepAt(poly: Poly, crc: Reg, i: nat)
    requires i < 32
    ensures BitStep(poly, crc)[i] == ((if i < 31 then crc[i + 1] else false) != (crc[0] && poly[i]))
  {
    XorAt(crc[1..] + [false], poly, i);
  }

  lemma XorByteAt(crc: Reg, b: byte, i: nat)
    requires i < 32
    ensures XorByte(crc, b)[i] == if i < 8 then crc[i] != Bits(b)[i] else crc[i]
  {
    if i < 8 { XorAt(crc[..8], Bits(b), i); }
  }

  // ---- algebra -----------------------------------------------------------------------

  /** Feeding `a` and then `b` is feeding `a + b`. */
  lemma {:induction false} FeedConcat(poly: Poly, crc: Reg, a: seq<byte>, b: seq<byte>)
    ensures Feed(poly, crc, a + b) == Feed(poly, Feed(poly, crc, a), b)
    decreases |a|
  {
    if a == [] {
      assert a + b == b;
    } else {
      assert (a + b)[1..] == a[1..] + b;
      FeedConcat(poly, ByteStep(poly, crc, a[0]), a[1..], b);
    }
  }

  lemma FeedSplit(poly: Poly, crc: Reg, x: seq<byte>, m: nat)
    requires m < |x|
    ensures Feed(poly, crc, x) == Feed(poly, ByteStep(poly, Feed(poly, crc, x[..m]), x[m]), x[m + 1..])
  {
    assert x == x[..m] + x[m..];
    FeedConcat(poly, crc, x[..m], x[m..]);
    assert x[m..][1..] == x[m + 1..];
  }

  /** The bit step undone: the top bit tells whether the polynomial was folded in. */
  function BitBack(poly: Poly, crc: Reg): Reg {
    [crc[31]] + if crc[31] then Xor(crc, poly)[..31] else crc[..31]
  }

  lemma BitBackAt(poly: Poly, crc: Reg, i: nat)
    requires i < 32
    ensures BitBack(poly, crc)[i] == if i == 0 then crc[31] else crc[i - 1] != (crc[31] && poly[i - 1])
  {
    if i > 0 { XorAt(crc, poly, i - 1); }
  }

  lemma BackAfterStep(poly: Poly, crc: Reg)
    ensures BitBack(poly, BitStep(poly, crc)) == crc
  {
    BitStepAt(poly, crc, 31);
    forall i | 0 <= i < 32 ensures BitBack(poly, BitStep(poly, crc))[i] == crc[i] {
      BitBackAt(poly, BitStep(poly, crc), i);
      if i > 0 { BitStepAt(poly, crc, i - 1); }
    }
  }

  lemma StepAfterBack(poly: Poly, crc: Reg)
    ensures BitStep(poly, BitBack(poly, crc)) == crc
  {
    BitBackAt(poly, crc, 0);
    forall i | 0 <= i < 32 ensures BitStep(poly, BitBack(poly, crc))[i] == crc[i] {
      BitStepAt(poly, BitBack(poly, crc), i);
      if i < 31 { BitBackAt(poly, crc, i + 1); }
    }
  }

  function BitsBack(poly: Poly, crc: Reg, n: nat): Reg
    decreases n, crc
  {
    if n == 0 then crc else BitBack(poly, BitsBack(poly, crc, n - 1))
  }

  lemma {:induction false} BackAfterSteps(poly: Poly, crc: Reg, n: nat)
    ensures BitsBack(poly, BitSteps(poly, crc, n), n) == crc
    decreases n
  {
    if n == 0 {
    } else {
      BackAfterSteps(poly, BitStep(poly, crc), n - 1);
      BackAfterStep(poly, crc);
    }
  }

  lemma {:induction false} StepsAfterBack(poly: Poly, crc: Reg, n: nat)
    ensures BitSteps(poly, BitsBack(poly, crc, n), n) == crc
    decreases n
  {
    if n == 0 {
    } else {
      StepAfterBack(poly, BitsBack(poly, crc, n - 1));
      StepsAfterBack(poly, crc, n - 1);
    }
  }

  /** The state before a byte was fed. */
  function ByteBack(poly: Poly, crc: Reg, b: byte): Reg {
    XorByte(BitsBack(poly, crc, 8), b)
  }

  lemma XorByteTwice(crc: Reg, b: byte)
    ensures XorByte(XorByte(crc, b), b) == crc
  {
    forall i | 0 <= i < 32 ensures XorByte(XorByte(crc, b), b)[i] == crc[i] {
      XorByteAt(crc, b, i);
      XorByteAt(XorByte(crc, b), b, i);
    }
  }

  /** For every byte the update is a bijection on 32-bit states. */
  lemma ByteStepBijective(poly: Poly, crc: Reg, b: byte)
    ensures ByteBack(poly, ByteStep(poly, crc, b), b) == crc && ByteStep(poly, ByteBack(poly, crc, b), b) == crc
  {
    BackAfterSteps(poly, XorByte(crc, b), 8);
    StepsAfterBack(poly, crc, 8);
    XorByteTwice(crc, b);
    XorByteTwice(BitsBack(poly, crc, 8), b);
  }

  /** Different states stay different whatever is fed next. */
  lemma {:induction false} FeedInjective(poly: Poly, x: Reg, y: Reg, data: seq<byte>)
    requires Feed(poly, x, data) == Feed(poly, y, data)
    ensures x == y
    decreases |data|
  {
    if data == [] {
    } else {
      FeedInjective(poly, ByteStep(poly, x, data[0]), ByteStep(poly, y, data[0]), data[1..]);
      ByteStepBijective(poly, x, data[0]);
      ByteStepBijective(poly, y, data[0]);
    }
  }

  // ---- bursts --------------------------------------------------------------------------

  /** A difference moves down one place per step; one that falls out reappears at the top,
      because the new top bit is the old low bit. */
  lemma StepKeepsDifference(poly: Poly, x: Reg, y: Reg, i: nat) returns (k: nat)
    requires 0 < i < 32 && x[i] != y[i]
    ensures i - 1 <= k < 32 && BitStep(poly, x)[k] != BitStep(poly, y)[k]
  {
    k := if x[0] != y[0] then 31 else i - 1;
    BitStepAt(poly, x, k);
    BitStepAt(poly, y, k);
  }

  lemma {:induction false} StepsKeepDifference(poly: Poly, x: Reg, y: Reg, i: nat, n: nat) returns (j: nat)
    requires n <= i < 32 && x[i] != y[i]
    ensures i - n <= j < 32 && BitSteps(poly, x, n)[j] != BitSteps(poly, y, n)[j]
    decreases n
  {
    if n == 0 {
      j := i;
    } else {
      var k := StepKeepsDifference(poly, x, y, i);
      j := StepsKeepDifference(poly, BitStep(poly, x), BitStep(poly, y), k, n - 1);
    }
  }

  /** Registers whose lowest difference is bit `p` differ, `n` steps later, at or above bit
      `32 - n + p`. */
  lemma {:induction false} LowDifferenceSurfaces(poly: Poly, x: Reg, y: Reg, p: nat, n: nat) returns (j: nat)
    requires p < n <= 8 && x[p] != y[p] && forall i :: 0 <= i < p ==> x[i] == y[i]
    ensures 32 - n + p <= j < 32 && BitSteps(poly, x, n)[j] != BitSteps(poly, y, n)[j]
    decreases n
  {
    LowestMovesDown(poly, x, y, p);
    if p == 0 {
      j := StepsKeepDifference(poly, BitStep(poly, x), BitStep(poly, y), 31, n - 1);
    } else {
      j := LowDifferenceSurfaces(poly, BitStep(poly, x), BitStep(poly, y), p - 1, n - 1);
    }
  }

  lemma LowestMovesDown(poly: Poly, x: Reg, y: Reg, p: nat)
    requires p < 8 && x[p] != y[p] && forall i :: 0 <= i < p ==> x[i] == y[i]
    ensures p == 0 ==> BitStep(poly, x)[31] != BitStep(poly, y)[31]
    ensures p > 0 ==> BitStep(poly, x)[p - 1] != BitStep(poly, y)[p - 1]
    ensures forall i :: 0 <= i < p - 1 ==> BitStep(poly, x)[i] == BitStep(poly, y)[i]
  {
    var k := if p == 0 then 31 else p - 1;
    BitStepAt(poly, x, k);
    BitStepAt(poly, y, k);
    forall i | 0 <= i < p - 1 ensures BitStep(poly, x)[i] == BitStep(poly, y)[i] {
      BitStepAt(poly, x, i);
      BitStepAt(poly, y, i);
    }
  }

  /** `p` is the lowest bit in which the bytes differ. */
  ghost predicate FirstBit(a: byte, b: byte, p: nat) {
    p < 8 && Bits(a)[p] != Bits(b)[p] && forall i :: 0 <= i < p ==> Bits(a)[i] == Bits(b)[i]
  }

  lemma FirstDifference(a: byte, b: byte) returns (p: nat)
    requires a != b
    ensures FirstBit(a, b, p)
  {
    if Bits(a) == Bits(b) { BitsInjective(a, b); }
    p := FirstIndex(Bits(a), Bits(b));
  }

  lemma FirstIndex<T>(u: seq<T>, v: seq<T>) returns (p: nat)
    requires |u| == |v| && u != v
    ensures p < |u| && u[p] != v[p] && forall i :: 0 <= i < p ==> u[i] == v[i]
  {
    assert exists q :: 0 <= q < |u| && u[q] != v[q];
    p := 0;
    while u[p] == v[p]
      invariant p < |u| && forall i :: 0 <= i < p ==> u[i] == v[i]
      invariant exists q :: p <= q < |u| && u[q] != v[q]
      decreases |u| - p
    {
      p := p + 1;
    }
  }

  /** Two bytes first differing in bit `p`, fed into equal registers, leave a difference high up. */
  lemma ByteDiffers(poly: Poly, x: Reg, a: byte, b: byte, p: nat) returns (j: nat)
    requires FirstBit(a, b, p)
    ensures 24 + p <= j < 32 && ByteStep(poly, x, a)[j] != ByteStep(poly, x, b)[j]
  {
    forall i | 0 <= i <= p ensures XorByte(x, a)[i] == XorByte(x, b)[i] <==> i != p {
      XorByteAt(x, a, i);
      XorByteAt(x, b, i);
    }
    j := LowDifferenceSurfaces(poly, XorByte(x, a), XorByte(x, b), p, 8);
  }

  /** A later byte can only touch the low eight bits before stepping. */
  lemma ByteKeepsDifference(poly: Poly, x: Reg, y: Reg, a: byte, b: byte, i: nat) returns (j: nat)
    requires 8 <= i < 32 && x[i] != y[i]
    ensures i - 8 <= j < 32 && ByteStep(poly, x, a)[j] != ByteStep(poly, y, b)[j]
  {
    XorByteAt(x, a, i);
    XorByteAt(y, b, i);
    j := StepsKeepDifference(poly, XorByte(x, a), XorByte(y, b), i, 8);
  }

  /** Bytes that agree from bit `p` on cannot hide a difference at or above bit `p`. */
  lemma LastByteDiffers(poly: Poly, x: Reg, y: Reg, a: byte, b: byte, p: nat, i: nat)
    requires p <= i < 32 && x[i] != y[i] && forall q :: p <= q < 8 ==> Bits(a)[q] == Bits(b)[q]
    ensures ByteStep(poly, x, a) != ByteStep(poly, y, b)
  {
    XorByteAt(x, a, i);
    XorByteAt(y, b, i);
    BackAfterSteps(poly, XorByte(x, a), 8);
    BackAfterSteps(poly, XorByte(y, b), 8);
  }

  /** `u` and `v` may differ in their first `c` bytes and below bit `p` of the next. */
  ghost predicate Settles(u: seq<byte>, v: seq<byte>, c: nat, p: nat) {
    && |u| == |v| && p < 8
    && (forall i :: c < i < |u| ==> u[i] == v[i])
    && (c < |u| ==> forall i :: p <= i < 8 ==> Bits(u[c])[i] == Bits(v[c])[i])
  }

  lemma {:induction false} TailKeepsDifference(poly: Poly, x: Reg, y: Reg, u: seq<byte>, v: seq<byte>, c: nat, p: nat,
                                               i: nat)
    requires c <= 3 && Settles(u, v, c, p) && 8 * c + p <= i < 32 && x[i] != y[i]
    ensures Feed(poly, x, u) != Feed(poly, y, v)
    decreases |u|
  {
    if u == [] {
    } else if c > 0 {
      var j := ByteKeepsDifference(poly, x, y, u[0], v[0], i);
      TailKeepsDifference(poly, ByteStep(poly, x, u[0]), ByteStep(poly, y, v[0]), u[1..], v[1..], c - 1, p, j);
    } else {
      LastByteDiffers(poly, x, y, u[0], v[0], p, i);
      assert u[1..] == v[1..];
      if Feed(poly, x, u) == Feed(poly, y, v) {
        FeedInjective(poly, ByteStep(poly, x, u[0]), ByteStep(poly, y, v[0]), u[1..]);
      }
    }
  }

  /** Bit `j` of a string, counting the bits of each byte from the least significant. */
  function BitAt(s: seq<byte>, j: nat): bool
    requires j < 8 * |s|
  {
    Bits(s[j / 8])[j % 8]
  }

  /** `x` and `y` agree outside the 32 bits from bit `k` on. */
  ghost predicate Burst(x: seq<byte>, y: seq<byte>, k: nat) {
    |x| == |y| && forall j :: 0 <= j < 8 * |x| && !(k <= j < k + 32) ==> BitAt(x, j) == BitAt(y, j)
  }

  /** Two strings that differ, but only within 32 consecutive bits, have different checksums. */
  lemma BurstDetected(poly: Poly, x: seq<byte>, y: seq<byte>, k: nat)
    requires Burst(x, y, k) && x != y
    ensures Crc(poly, x) != Crc(poly, y)
  {
    var m := FirstIndex(x, y);
    var p := FirstDifference(x[m], y[m]);
    BurstSettles(x, y, k, m, p);
    FromFirstDifference(poly, ONES, x, y, m, p);
    if Crc(poly, x) == Crc(poly, y) {
      NotInjective(Feed(poly, ONES, x), Feed(poly, ONES, y));
    }
  }

  lemma FromFirstDifference(poly: Poly, start: Reg, x: seq<byte>, y: seq<byte>, m: nat, p: nat)
    requires |x| == |y| && m < |x| && x[..m] == y[..m] && FirstBit(x[m], y[m], p)
    requires Settles(x[m + 1..], y[m + 1..], 3, p)
    ensures Feed(poly, start, x) != Feed(poly, start, y)
  {
    var crc := Feed(poly, start, x[..m]);
    var j := ByteDiffers(poly, crc, x[m], y[m], p);
    TailKeepsDifference(poly, ByteStep(poly, crc, x[m]), ByteStep(poly, crc, y[m]), x[m + 1..], y[m + 1..], 3, p, j);
    FeedSplit(poly, start, x, m);
    FeedSplit(poly, start, y, m);
  }

  /** Bits outside the burst agree, byte by byte. */
  lemma OutsideBurst(x: seq<byte>, y: seq<byte>, k: nat, i: nat, q: nat)
    requires Burst(x, y, k) && i < |x| && q < 8 && !(k <= 8 * i + q < k + 32)
    ensures Bits(x[i])[q] == Bits(y[i])[q]
  {
    assert BitAt(x, 8 * i + q) == BitAt(y, 8 * i + q);
    assert (8 * i + q) / 8 == i && (8 * i + q) % 8 == q;
  }

  /** Everything after the first differing bit lies within the next 32 bits. */
  lemma BurstSettles(x: seq<byte>, y: seq<byte>, k: nat, m: nat, p: nat)
    requires Burst(x, y, k) && m < |x| && FirstBit(x[m], y[m], p)
    ensures Settles(x[m + 1..], y[m + 1..], 3, p)
  {
    if !(k <= 8 * m + p < k + 32) {
      OutsideBurst(x, y, k, m, p);
    }
    var u, v := x[m + 1..], y[m + 1..];
    forall i | 3 < i < |u| ensures u[i] == v[i] {
      SameByte(x, y, k, m + 1 + i);
    }
    if 3 < |u| {
      forall i | p <= i < 8 ensures Bits(u[3])[i] == Bits(v[3])[i] {
        OutsideBurst(x, y, k, m + 4, i);
      }
    }
  }

  lemma SameByte(x: seq<byte>, y: seq<byte>, k: nat, i: nat)
    requires Burst(x, y, k) && i < |x| && (8 * i + 8 <= k || k + 32 <= 8 * i)
    ensures x[i] == y[i]
  {
    forall q | 0 <= q < 8 ensures Bits(x[i])[q] == Bits(y[i])[q] {
      OutsideBurst(x, y, k, i, q);
    }
    assert Bits(x[i]) == Bits(y[i]);
    BitsInjective(x[i], y[i]);
  }

  /** A difference in byte `i` leaves bytes five or more places away alone. */
  lemma BurstReach(x: seq<byte>, y: seq<byte>, k: nat, i: nat, j: nat)
    requires Burst(x, y, k) && i < |x| && j < |x| && x[i] != y[i] && (j + 5 <= i || i + 5 <= j)
    ensures x[j] == y[j]
  {
    if 8 * i + 8 <= k || k + 32 <= 8 * i {
      SameByte(x, y, k, i);
    } else {
      SameByte(x, y, k, j);
    }
  }

  /** Part of a burst is a burst of that part. */
  lemma BurstSlice(x: seq<byte>, y: seq<byte>, k: nat, lo: nat, hi: nat) returns (k': nat)
    requires Burst(x, y, k) && lo <= hi <= |x|
    ensures Burst(x[lo..hi], y[lo..hi], k')
  {
    k' := if k < 8 * lo then 0 else k - 8 * lo;
    var u, v := x[lo..hi], y[lo..hi];
    forall j | 0 <= j < 8 * |u| && !(k' <= j < k' + 32) ensures BitAt(u, j) == BitAt(v, j) {
      OutsideBurst(x, y, k, lo + j / 8, j % 8);
    }
  }

  /** Any change of one byte is a burst. */
  lemma ByteBurst(x: seq<byte>, i: nat, b: byte)
    requires i < |x|
    ensures Burst(x, x[i := b], 8 * i)
  {
  }

  // ---- parity ------------------------------------------------------------------------------

  /** An odd number of bits is set. */
  function Odd(r: seq<bool>): bool {
    if r == [] then false else r[0] != Odd(r[1..])
  }

  function OddBytes(s: seq<byte>): bool {
    if s == [] then false else Odd(Bits(s[0])) != OddBytes(s[1..])
  }

  lemma {:induction false} OddConcat(a: seq<bool>, b: seq<bool>)
    ensures Odd(a + b) <==> Odd(a) != Odd(b)
    decreases |a|
  {
    if a == [] {
      assert a + b == b;
    } else {
      assert (a + b)[0] == a[0] && (a + b)[1..] == a[1..] + b;
      OddConcat(a[1..], b);
    }
  }

  lemma {:induction false} OddXor(a: seq<bool>, b: seq<bool>)
    requires |a| == |b|
    ensures Odd(Xor(a, b)) <==> Odd(a) != Odd(b)
    decreases |a|
  {
    if a == [] {
    } else {
      OddXor(a[1..], b[1..]);
    }
  }

  lemma {:induction false} OddNot(a: seq<bool>)
    ensures Odd(Not(a)) <==> Odd(a) != (|a| % 2 == 1)
    decreases |a|
  {
    if a == [] {
    } else {
      OddNot(a[1..]);
    }
  }

  /** With an odd polynomial a step keeps the parity: the bit it loses is made up for. */
  lemma StepKeepsParity(poly: Poly, crc: Reg)
    requires Odd(poly)
    ensures Odd(BitStep(poly, crc)) == Odd(crc)
  {
    OddConcat(crc[1..], [false]);
    OddXor(crc[1..] + [false], poly);
  }

  lemma {:induction false} StepsKeepParity(poly: Poly, crc: Reg, n: nat)
    requires Odd(poly)
    ensures Odd(BitSteps(poly, crc, n)) == Odd(crc)
    decreases n
  {
    if n == 0 {
    } else {
      StepKeepsParity(poly, crc);
      StepsKeepParity(poly, BitStep(poly, crc), n - 1);
    }
  }

  lemma ByteParity(poly: Poly, crc: Reg, b: byte)
    requires Odd(poly)
    ensures Odd(ByteStep(poly, crc, b)) <==> Odd(crc) != Odd(Bits(b))
  {
    StepsKeepParity(poly, XorByte(crc, b), 8);
    OddXor(crc[..8], Bits(b));
    OddConcat(Xor(crc[..8], Bits(b)), crc[8..]);
    OddConcat(crc[..8], crc[8..]);
    assert crc[..8] + crc[8..] == crc;
  }

  lemma {:induction false} FeedParity(poly: Poly, crc: Reg, data: seq<byte>)
    requires Odd(poly)
    ensures Odd(Feed(poly, crc, data)) <==> Odd(crc) != OddBytes(data)
    decreases |data|
  {
    if data == [] {
    } else {
      ByteParity(poly, crc, data[0]);
      FeedParity(poly, ByteStep(poly, crc, data[0]), data[1..]);
    }
  }

  /** In how many bits the strings differ. */
  function Distance(x: seq<byte>, y: seq<byte>): nat
    requires |x| == |y|
  {
    if x == [] then 0 else BitDistance(Bits(x[0]), Bits(y[0])) + Distance(x[1..], y[1..])
  }

  function BitDistance(a: seq<bool>, b: seq<bool>): nat
    requires |a| == |b|
  {
    if a == [] then 0 else (if a[0] != b[0] then 1 else 0) + BitDistance(a[1..], b[1..])
  }

  lemma {:induction false} BitDistanceParity(a: seq<bool>, b: seq<bool>)
    requires |a| == |b|
    ensures BitDistance(a, b) % 2 == 1 <==> Odd(a) != Odd(b)
    decreases |a|
  {
    if a == [] {
    } else {
      BitDistanceParity(a[1..], b[1..]);
    }
  }

  lemma {:induction false} DistanceParity(x: seq<byte>, y: seq<byte>)
    requires |x| == |y|
    ensures Distance(x, y) % 2 == 1 <==> OddBytes(x) != OddBytes(y)
    decreases |x|
  {
    if x == [] {
    } else {
      BitDistanceParity(Bits(x[0]), Bits(y[0]));
      DistanceParity(x[1..], y[1..]);
    }
  }

  lemma OddFour(a: bool, b: bool, c: bool, d: bool)
    ensures Odd([a, b, c, d]) <==> a != (b != (c != d))
  {
    OddConcat([a, b], [c, d]);
    OddConcat([a], [b]);
    OddConcat([c], [d]);
    assert [a, b, c, d] == [a, b] + [c, d] && [a, b] == [a] + [b] && [c, d] == [c] + [d];
    assert Odd([a]) == a && Odd([b]) == b && Odd([c]) == c && Odd([d]) == d;
  }

  lemma OddHalves(r: seq<bool>, a: seq<bool>, b: seq<bool>)
    requires r == a + b
    ensures Odd(r) <==> Odd(a) != Odd(b)
  {
    OddConcat(a, b);
  }

  lemma PolyBytesParity()
    ensures !Odd(POLY_0) && Odd(POLY_1) && !Odd(POLY_2) && !Odd(POLY_3)
  {
    OddFour(false, false, false, true);
    OddFour(true, true, true, false);
    OddHalves(POLY_0, [false, false, false, true], [true, true, true, false]);
    OddFour(true, true, false, true);
    OddFour(true, true, false, false);
    OddHalves(POLY_1, [true, true, false, true], [true, true, false, false]);
    OddFour(false, true, true, false);
    OddFour(true, true, true, true);
    OddHalves(POLY_2, [false, true, true, false], [true, true, true, true]);
    OddFour(false, true, false, false);
    OddFour(false, false, false, true);
    OddHalves(POLY_3, [false, true, false, false], [false, false, false, true]);
  }

  lemma CastagnoliIsOdd()
    ensures Odd(CASTAGNOLI)
  {
    PolyBytesParity();
    OddConcat(POLY_0, POLY_1);
    OddConcat(POLY_0 + POLY_1, POLY_2);
    OddConcat(POLY_0 + POLY_1 + POLY_2, POLY_3);
  }

  lemma {:induction false} OddBytesConcat(a: seq<byte>, b: seq<byte>)
    ensures OddBytes(a + b) <==> OddBytes(a) != OddBytes(b)
    decreases |a|
  {
    if a == [] {
      assert a + b == b;
    } else {
      assert (a + b)[0] == a[0] && (a + b)[1..] == a[1..] + b;
      OddBytesConcat(a[1..], b);
    }
  }

  lemma {:induction false} LoadParity(s: seq<byte>)
    ensures Odd(Load(s)) == OddBytes(s)
  {
    if s == [] {
    } else {
      LoadParity(s[1..]);
      OddConcat(Bits(s[0]), Load(s[1..]));
    }
  }

  lemma OnesAreEven()
    ensures !Odd(ONES)
  {
    OddConcat(ONES_8, ONES_8);
    OddConcat(ONES_8 + ONES_8, ONES_8);
    OddConcat(ONES_8 + ONES_8 + ONES_8, ONES_8);
  }

  /** A checksum has as many set bits, modulo two, as the string. */
  lemma CrcParity(poly: Poly, x: seq<byte>)
    requires Odd(poly)
    ensures Odd(Crc(poly, x)) == OddBytes(x)
  {
    OnesAreEven();
    FeedParity(poly, ONES, x);
    OddNot(Feed(poly, ONES, x));
  }

  /** Strings that differ in an odd number of bits, wherever they are, have different checksums. */
  lemma OddDetected(poly: Poly, x: seq<byte>, y: seq<byte>)
    requires Odd(poly) && |x| == |y| && Distance(x, y) % 2 == 1
    ensures Crc(poly, x) != Crc(poly, y)
  {
    DistanceParity(x, y);
    CrcParity(poly, x);
    CrcParity(poly, y);
  }
}
