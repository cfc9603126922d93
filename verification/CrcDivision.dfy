/** What the checksum is: the complemented remainder of a division of polynomials over the field of
    two elements. A polynomial is the list of its coefficients, that of the highest power first; the
    divisor is x^32 + `poly`. */
module CrcDivision {
  import opened Bytes
  import opened Crc32c

  function Zero(n: nat): (z: seq<bool>)
    ensures |z| == n && forall i :: 0 <= i < n ==> !z[i]
  {
    seq(n, _ => false)
  }

  // ---- multiplication and division -----------------------------------------------------------

  /** The divisor times the polynomial `q`. */
  function Product(poly: Poly, q: seq<bool>): (p: seq<bool>)
    ensures |p| == |q| + 32
  {
    if q == [] then Zero(32)
    else Xor((if q[0] then [true] + poly else Zero(33)) + Zero(|q| - 1), [false] + Product(poly, q[1..]))
  }

  /** `r` is what is left of `m` after `q` times the divisor is taken away. */
  predicate Divides(poly: Poly, m: seq<bool>, q: seq<bool>, r: seq<bool>) {
    |r| == 32 && |m| == |q| + 32 && m == Xor(Product(poly, q), Zero(|q|) + r)
  }

  /** One step of long division: the divisor is taken away from the front, if that is not zero. */
  function Reduce(poly: Poly, m: seq<bool>): (r: seq<bool>)
    requires |m| > 32
    ensures |r| == |m| - 1
  {
    (if m[0] then Xor(m[1..33], poly) else m[1..33]) + m[33..]
  }

  function Remainder(poly: Poly, m: seq<bool>): Reg
    requires |m| >= 32
    decreases |m|
  {
    if |m| == 32 then m else Remainder(poly, Reduce(poly, m))
  }

  lemma ReduceAt(poly: Poly, m: seq<bool>, i: nat)
    requires |m| > 32 && i < |m| - 1
    ensures Reduce(poly, m)[i] == (m[i + 1] != (m[0] && i < 32 && poly[i]))
  {
    if m[0] && i < 32 { XorAt(m[1..33], poly, i); }
  }

  lemma ProductAt(poly: Poly, q: seq<bool>, i: nat)
    requires q != [] && i < |q| + 32
    ensures Product(poly, q)[i]
         == ((q[0] && (i == 0 || (i <= 32 && poly[i - 1]))) != (i > 0 && Product(poly, q[1..])[i - 1]))
  {
    XorAt((if q[0] then [true] + poly else Zero(33)) + Zero(|q| - 1), [false] + Product(poly, q[1..]), i);
  }

  /** The `i`-th coefficient of quotient times divisor plus remainder. */
  function Sum(poly: Poly, q: seq<bool>, r: seq<bool>, i: nat): bool
    requires |r| == 32 && i < |q| + 32
  {
    Product(poly, q)[i] != (i >= |q| && r[i - |q|])
  }

  lemma DividesAt(poly: Poly, m: seq<bool>, q: seq<bool>, r: seq<bool>)
    requires |r| == 32 && |m| == |q| + 32
    ensures Divides(poly, m, q, r) <==> forall i :: 0 <= i < |m| ==> m[i] == Sum(poly, q, r, i)
  {
    forall i | 0 <= i < |m| ensures Xor(Product(poly, q), Zero(|q|) + r)[i] == Sum(poly, q, r, i) {
      XorAt(Product(poly, q), Zero(|q|) + r, i);
    }
  }

  /** Taking one coefficient off the quotient is one step of the division. */
  lemma SumStep(poly: Poly, q: seq<bool>, r: seq<bool>, i: nat)
    requires q != [] && |r| == 32 && i < |q| + 31
    ensures Sum(poly, q, r, i + 1) == (Sum(poly, q[1..], r, i) != (q[0] && i < 32 && poly[i]))
    ensures Sum(poly, q, r, 0) == q[0]
  {
    ProductAt(poly, q, i + 1);
    ProductAt(poly, q, 0);
  }

  lemma DivideStep(poly: Poly, m: seq<bool>, q: seq<bool>, r: seq<bool>)
    requires |r| == 32 && |m| == |q| + 32 && q != []
    ensures Divides(poly, m, q, r) <==> q[0] == m[0] && Divides(poly, Reduce(poly, m), q[1..], r)
  {
    DividesAt(poly, m, q, r);
    DividesAt(poly, Reduce(poly, m), q[1..], r);
    SumStep(poly, q, r, 0);
    if Divides(poly, m, q, r) {
      forall i | 0 <= i < |m| - 1 ensures Reduce(poly, m)[i] == Sum(poly, q[1..], r, i) {
        SumStep(poly, q, r, i);
        ReduceAt(poly, m, i);
      }
    }
    if q[0] == m[0] && Divides(poly, Reduce(poly, m), q[1..], r) {
      forall i | 0 <= i < |m| ensures m[i] == Sum(poly, q, r, i) {
        if i > 0 {
          SumStep(poly, q, r, i - 1);
          ReduceAt(poly, m, i - 1);
        }
      }
    }
  }

  function Quotient(poly: Poly, m: seq<bool>): (q: seq<bool>)
    requires |m| >= 32
    ensures |q| == |m| - 32
    decreases |m|
  {
    if |m| == 32 then [] else [m[0]] + Quotient(poly, Reduce(poly, m))
  }

  /** Long division divides, and there is only one way to divide. */
  lemma {:induction false} DividesIff(poly: Poly, m: seq<bool>, q: seq<bool>, r: seq<bool>)
    requires |m| >= 32 && |q| == |m| - 32 && |r| == 32
    ensures Divides(poly, m, q, r) <==> q == Quotient(poly, m) && r == Remainder(poly, m)
    decreases |m|
  {
    if q == [] {
      DividesAt(poly, m, q, r);
      assert forall i :: 0 <= i < 32 ==> Sum(poly, q, r, i) == r[i];
      assert (forall i :: 0 <= i < 32 ==> m[i] == r[i]) <==> m == r;
    } else {
      DivideStep(poly, m, q, r);
      DividesIff(poly, Reduce(poly, m), q[1..], r);
      assert q == [q[0]] + q[1..];
    }
  }

  /** The remainder is the one polynomial of degree below 32 that differs from `m` by a multiple of
      the divisor. */
  lemma RemainderIff(poly: Poly, m: seq<bool>, r: seq<bool>)
    requires |m| >= 32 && |r| == 32
    ensures r == Remainder(poly, m) <==> exists q :: Divides(poly, m, q, r)
  {
    if r == Remainder(poly, m) {
      DividesIff(poly, m, Quotient(poly, m), r);
    }
    if q :| Divides(poly, m, q, r) {
      DividesIff(poly, m, q, r);
    }
  }

  // ---- the register ------------------------------------------------------------------------------

  /** The string as a polynomial times x^32, with the register added to its front. */
  function Message(crc: Reg, data: seq<byte>): (m: seq<bool>)
    ensures |m| == 8 * |data| + 32
  {
    Xor(Load(data) + Zero(32), crc + Zero(8 * |data|))
  }

  /** The register in front, times x^k, plus what is yet to come, `n` places further on. */
  function Pending(crc: Reg, k: nat, n: nat, w: seq<bool>): (m: seq<bool>)
    requires n <= k && |w| == 32 + k - n
    ensures |m| == 32 + k
    ensures forall i :: 0 <= i < |m| ==> m[i] == ((i < 32 && crc[i]) != (i >= n && w[i - n]))
  {
    seq(32 + k, i requires 0 <= i < 32 + k => (i < 32 && crc[i]) != (i >= n && w[i - n]))
  }

  lemma StepAt(poly: Poly, crc: Reg, m: seq<bool>, i: nat, x: bool)
    requires |m| > 32 && i < |m| - 1 && m[0] == crc[0] && m[i + 1] == ((i + 1 < 32 && crc[i + 1]) != x)
    ensures Reduce(poly, m)[i] == ((i < 32 && BitStep(poly, crc)[i]) != x)
  {
    ReduceAt(poly, m, i);
    if i < 32 { BitStepAt(poly, crc, i); }
  }

  /** One step of the register is one step of the division, whatever is yet to come. */
  lemma StepDivides(poly: Poly, crc: Reg, k: nat, n: nat, w: seq<bool>)
    requires 0 < n <= k && |w| == 32 + k - n
    ensures Reduce(poly, Pending(crc, k, n, w)) == Pending(BitStep(poly, crc), k - 1, n - 1, w)
  {
    var m, m' := Pending(crc, k, n, w), Pending(BitStep(poly, crc), k - 1, n - 1, w);
    forall i | 0 <= i < |m'| ensures Reduce(poly, m)[i] == m'[i] {
      StepAt(poly, crc, m, i, i + 1 >= n && w[i + 1 - n]);
    }
  }

  lemma {:induction false} StepsDivide(poly: Poly, crc: Reg, k: nat, n: nat, w: seq<bool>)
    requires n <= k && |w| == 32 + k - n
    ensures Remainder(poly, Pending(crc, k, n, w)) == Remainder(poly, Pending(BitSteps(poly, crc, n), k - n, 0, w))
    decreases n
  {
    if n == 0 {
    } else {
      StepDivides(poly, crc, k, n, w);
      StepsDivide(poly, BitStep(poly, crc), k - 1, n - 1, w);
    }
  }

  /** The string times x^32. */
  function Raised(data: seq<byte>): (w: seq<bool>)
    ensures |w| == 8 * |data| + 32
  {
    Load(data) + Zero(32)
  }

  lemma MessageIs(crc: Reg, data: seq<byte>)
    ensures Message(crc, data) == Pending(crc, 8 * |data|, 0, Raised(data))
  {
    forall i | 0 <= i < 8 * |data| + 32
      ensures Message(crc, data)[i] == Pending(crc, 8 * |data|, 0, Raised(data))[i]
    {
      XorAt(Raised(data), crc + Zero(8 * |data|), i);
    }
  }

  /** The first byte goes into the register, the others wait. */
  lemma FirstByteIn(crc: Reg, data: seq<byte>)
    requires data != []
    ensures Pending(crc, 8 * |data|, 0, Raised(data))
         == Pending(XorByte(crc, data[0]), 8 * |data|, 8, Raised(data[1..]))
  {
    var w, rest := Raised(data), Raised(data[1..]);
    forall i | 0 <= i < 8 * |data| + 32
      ensures Pending(crc, 8 * |data|, 0, w)[i] == Pending(XorByte(crc, data[0]), 8 * |data|, 8, rest)[i]
    {
      assert w[i] == if i < 8 then Bits(data[0])[i] else rest[i - 8];
      if i < 32 { XorByteAt(crc, data[0], i); }
    }
  }

  /** Feeding a string is dividing it. */
  lemma {:induction false} FeedDivides(poly: Poly, crc: Reg, data: seq<byte>)
    ensures Feed(poly, crc, data) == Remainder(poly, Pending(crc, 8 * |data|, 0, Raised(data)))
    decreases |data|
  {
    if data == [] {
      assert Pending(crc, 0, 0, Raised(data)) == crc;
    } else {
      FirstByteIn(crc, data);
      StepsDivide(poly, XorByte(crc, data[0]), 8 * |data|, 8, Raised(data[1..]));
      FeedDivides(poly, ByteStep(poly, crc, data[0]), data[1..]);
    }
  }

  lemma FeedIsRemainder(poly: Poly, crc: Reg, data: seq<byte>)
    ensures Feed(poly, crc, data) == Remainder(poly, Message(crc, data))
  {
    FeedDivides(poly, crc, data);
    MessageIs(crc, data);
  }

  lemma {:induction false} NotAt(a: seq<bool>, i: nat)
    requires i < |a|
    ensures Not(a)[i] == !a[i]
    decreases |a|
  {
    if i > 0 {
      NotAt(a[1..], i - 1);
    } else {
      assert Not(a)[0] == !a[0];
    }
  }

  lemma OnesAt(i: nat)
    requires i < 32
    ensures ONES[i]
  {
    assert ONES[i] == ONES_8[i % 8];
  }

  /** The polynomial CRC32C divides: the string times x^32, its first 32 coefficients inverted. */
  function Dividend(data: seq<byte>): (m: seq<bool>)
    ensures |m| == 8 * |data| + 32
  {
    Xor(Load(data) + Zero(32), seq(32, _ => true) + Zero(8 * |data|))
  }

  /** The checksum is the complement of the remainder. */
  lemma CrcIsRemainder(poly: Poly, data: seq<byte>, i: nat)
    requires i < 32
    ensures Crc(poly, data)[i] == !Remainder(poly, Dividend(data))[i]
  {
    forall j | 0 <= j < 32 ensures ONES[j] { OnesAt(j); }
    assert ONES == seq(32, _ => true);
    FeedIsRemainder(poly, ONES, data);
    NotAt(Feed(poly, ONES, data), i);
  }
}
