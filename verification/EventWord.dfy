/** The 32-bit `message` word of a PortMidi event, and the bytes it carries.

    PortMidi stores a short MIDI message in one 32-bit word, first byte in the
    least-significant position. The Python port turns a word back into bytes by
    masking with 0xff and shifting right by 8, and builds a word from bytes by
    walking them backwards, shifting left by 8 and OR-ing each byte in.

    Shifts and masks are modelled with arithmetic on non-negative integers:
    for 0 <= b < 256, `(v << 8) | b` is `v * 256 + b`, `v & 0xff` is `v % 256`
    and `v >> 8` is `v / 256`. */
module EventWord {

  /** One byte on the wire. */
  type byte = x: int | 0 <= x < 256

  /** 2^32: the number of distinct event words. */
  const WordRange: nat := 0x1_0000_0000

  /** 256^n, the weight of byte position n in a word. */
  function Pow256(n: nat): (r: nat)
    ensures r >= 1
  {
    if n == 0 then 1 else 256 * Pow256(n - 1)
  }

  /** n zero bytes. */
  function Zeros(n: nat): (r: seq<byte>)
    ensures |r| == n
    ensures forall i :: 0 <= i < n ==> r[i] == 0
  {
    if n == 0 then [] else [0] + Zeros(n - 1)
  }

  /** The value built from `bs`, `bs[0]` in the least-significant byte
      (Horner's rule, the same order as the shift-and-OR loop read backwards). */
  function Pack(bs: seq<byte>): (r: nat)
  {
    if |bs| == 0 then 0 else bs[0] + 256 * Pack(bs[1..])
  }

  /** Reference definition: the sum of bs[i] * 256^i, accumulated from the last byte. */
  function WeightedSum(bs: seq<byte>): (r: nat)
  {
    if |bs| == 0 then 0
    else WeightedSum(bs[..|bs| - 1]) + bs[|bs| - 1] * Pow256(|bs| - 1)
  }

  /** The n low-order bytes of v, least-significant first. */
  function Digits(v: nat, n: nat): (r: seq<byte>)
    ensures |r| == n
  {
    if n == 0 then [] else [v % 256] + Digits(v / 256, n - 1)
  }

  /** The four bytes handed to the parser for an event whose message field is
      `message`: the field is first masked to 32 bits (for a negative field this
      is the two's-complement pattern, as Python's `&` gives). */
  function EventBytes(message: int): (r: seq<byte>)
    ensures |r| == 4
  {
    Digits(message % WordRange, 4)
  }

  /** Packing and the weighted sum agree: byte i carries weight 256^i. */
  lemma {:induction false} PackIsWeightedSum(bs: seq<byte>)
    ensures Pack(bs) == WeightedSum(bs)
  {
    if |bs| > 0 {
      PackIsWeightedSum(bs[1..]);
      WeightedSumCons(bs);
    }
  }

  /** WeightedSum peeled from the front: bs[0] + 256 * WeightedSum(bs[1..]). */
  lemma {:induction false} WeightedSumCons(bs: seq<byte>)
    requires |bs| > 0
    ensures WeightedSum(bs) == bs[0] + 256 * WeightedSum(bs[1..])
  {
    var n := |bs|;
    if n > 1 {
      var init := bs[..n - 1];
      assert init[1..] == bs[1..][..n - 2];
      WeightedSumCons(init);
      calc {
        WeightedSum(bs);
        WeightedSum(init) + bs[n - 1] * Pow256(n - 1);
        init[0] + 256 * WeightedSum(init[1..]) + bs[n - 1] * (256 * Pow256(n - 2));
        { assert bs[n - 1] * (256 * Pow256(n - 2)) == 256 * (bs[n - 1] * Pow256(n - 2)); }
        bs[0] + 256 * (WeightedSum(bs[1..][..n - 2]) + bs[1..][n - 2] * Pow256(n - 2));
        bs[0] + 256 * WeightedSum(bs[1..]);
      }
    } else {
      assert bs[1..] == [];
      assert bs[..0] == [];
    }
  }

  /** A packed value fits in as many bytes as it was built from. */
  lemma {:induction false} PackBound(bs: seq<byte>)
    ensures Pack(bs) < Pow256(|bs|)
  {
    if |bs| > 0 {
      PackBound(bs[1..]);
    }
  }

  /** At most four bytes always give a value that fits in a 32-bit event word. */
  lemma PackFitsWord(bs: seq<byte>)
    requires |bs| <= 4
    ensures Pack(bs) < WordRange
  {
    PackBound(bs);
    PowMonotone(|bs|, 4);
    assert Pow256(4) == WordRange;
  }

  lemma {:induction false} PowMonotone(m: nat, n: nat)
    requires m <= n
    ensures Pow256(m) <= Pow256(n)
  {
    if m < n {
      PowMonotone(m, n - 1);
    }
  }

  /** Unpacking a packed value restores the bytes, followed by zero padding up
      to the requested width. */
  lemma {:induction false} DigitsOfPack(bs: seq<byte>, n: nat)
    requires |bs| <= n
    ensures Digits(Pack(bs), n) == bs + Zeros(n - |bs|)
  {
    if |bs| == 0 {
      DigitsOfZero(n);
    } else {
      DigitsOfPack(bs[1..], n - 1);
      assert Pack(bs) % 256 == bs[0];
      assert Pack(bs) / 256 == Pack(bs[1..]);
      assert bs == [bs[0]] + bs[1..];
    }
  }

  lemma {:induction false} DigitsOfZero(n: nat)
    ensures Digits(0, n) == Zeros(n)
  {
    if n > 0 {
      DigitsOfZero(n - 1);
    }
  }

  /** Packing the n low-order bytes of a value below 256^n gives the value back. */
  lemma {:induction false} PackOfDigits(v: nat, n: nat)
    requires v < Pow256(n)
    ensures Pack(Digits(v, n)) == v
  {
    if n > 0 {
      assert v / 256 < Pow256(n - 1);
      PackOfDigits(v / 256, n - 1);
      assert Digits(v, n)[1..] == Digits(v / 256, n - 1);
    }
  }

  /** Round trip at the event boundary: a short message of at most four bytes,
      packed on the sending side and unpacked on the receiving side, reaches the
      parser as the same bytes followed by 4 - |bs| zero bytes. */
  lemma EventBytesOfPack(bs: seq<byte>)
    requires |bs| <= 4
    ensures EventBytes(Pack(bs)) == bs + Zeros(4 - |bs|)
  {
    assert Pow256(4) == WordRange;
    DigitsOfPackMasked(bs, 4);
  }

  /** DigitsOfPack after masking to n bytes, which leaves the packed value unchanged. */
  lemma DigitsOfPackMasked(bs: seq<byte>, n: nat)
    requires |bs| <= n
    ensures Digits(Pack(bs) % Pow256(n), n) == bs + Zeros(n - |bs|)
  {
    PackBound(bs);
    PowMonotone(|bs|, n);
    SmallModulus(Pack(bs), Pow256(n));
    DigitsOfPack(bs, n);
  }

  lemma SmallModulus(x: nat, m: nat)
    requires x < m
    ensures x % m == x
  {
  }

  /** The other round trip: the four bytes taken from an event word pack back
      into that word, after its masking to 32 bits. */
  lemma PackOfEventBytes(message: int)
    ensures Pack(EventBytes(message)) == message % WordRange
    ensures 0 <= message < WordRange ==> Pack(EventBytes(message)) == message
  {
    assert Pow256(4) == WordRange;
    PackOfDigits(message % WordRange, 4);
  }

  /** Byte i of the four bytes is the i-th least-significant byte of the
      masked word: `(value >> 8 * i) & 0xff`. */
  lemma EventBytesAt(message: int)
    ensures forall i :: 0 <= i < 4 ==>
      EventBytes(message)[i] == message % WordRange / Pow256(i) % 256
  {
    forall i | 0 <= i < 4
      ensures EventBytes(message)[i] == message % WordRange / Pow256(i) % 256
    {
      DigitsAt(message % WordRange, 4, i);
    }
  }

  /** Digit i of v is v divided by 256^i, reduced modulo 256. */
  lemma {:induction false} DigitsAt(v: nat, n: nat, i: nat)
    requires i < n
    ensures Digits(v, n)[i] == v / Pow256(i) % 256
  {
    if i > 0 {
      DigitsAt(v / 256, n - 1, i - 1);
      DivDiv(v, Pow256(i - 1));
    }
  }

  /** Dividing by 256 and then by p is dividing by 256 * p. */
  lemma DivDiv(v: nat, p: nat)
    requires p > 0
    ensures v / 256 / p == v / (256 * p)
  {
    var q, r2, r1 := v / 256 / p, v / 256 % p, v % 256;
    assert v / 256 == p * q + r2;
    calc {
      v;
      256 * (v / 256) + r1;
      256 * (p * q + r2) + r1;
      { assert 256 * (p * q) == (256 * p) * q; }
      (256 * p) * q + (256 * r2 + r1);
    }
    DivUnique(v, 256 * p, q, 256 * r2 + r1);
  }

  /** Division is the unique quotient with a remainder in range. */
  lemma DivUnique(v: nat, d: nat, q: nat, r: nat)
    requires d > 0 && r < d && v == d * q + r
    ensures v / d == q
  {
    var q', r' := v / d, v % d;
    assert v == d * q' + r';
    if q' < q {
      MulStep(d, q', q);
      assert false;
    } else if q' > q {
      MulStep(d, q, q');
      assert false;
    }
  }

  /** A larger multiplier adds at least one whole d. */
  lemma MulStep(d: nat, a: nat, b: nat)
    requires a < b
    ensures d * a + d <= d * b
  {
    assert d * b == d * a + d * (b - a);
    assert d * (b - a) == d + d * (b - a - 1);
  }

  /** The unpack loop of the input side: four times, take the low byte and
      shift the value right by 8. The result lists the bytes in the order they
      are pushed into the parser. */
  method UnpackEvent(message: int) returns (bytes: seq<byte>)
    ensures bytes == EventBytes(message)
    ensures |bytes| == 4 && Pack(bytes) == message % WordRange
  {
    var value: nat := message % WordRange;
    bytes := [];
    for i := 0 to 4
      invariant |bytes| == i
      invariant bytes + Digits(value, 4 - i) == EventBytes(message)
    {
      var b: byte := value % 256;
      bytes := bytes + [b];
      value := value / 256;
    }
    PackOfEventBytes(message);
  }

  /** The accumulation loop of `send_event`: walk the bytes backwards, shift
      the value left by 8 and OR the byte in. */
  method PackEvent(bytes: seq<byte>) returns (value: nat)
    ensures value == WeightedSum(bytes)
    ensures value < Pow256(|bytes|)
    ensures |bytes| <= 4 ==> value < WordRange && EventBytes(value) == bytes + Zeros(4 - |bytes|)
  {
    value := 0;
    var i := |bytes|;
    while i > 0
      invariant 0 <= i <= |bytes|
      invariant value == Pack(bytes[i..])
    {
      i := i - 1;
      assert bytes[i..][1..] == bytes[i + 1..];
      value := value * 256 + bytes[i];
    }
    assert bytes[0..] == bytes;
    PackIsWeightedSum(bytes);
    PackBound(bytes);
    if |bytes| <= 4 {
      PackFitsWord(bytes);
      EventBytesOfPack(bytes);
    }
  }
}
