/** Fixed-width big-endian codec for unsigned 64-bit integers (encoding.go). */
module Encoding {

  /** One octet. */
  type Byte = x: int | 0 <= x < 256

  /** The values of Go's `uint64`. */
  type U64 = x: nat | x < 0x1_0000_0000_0000_0000

  /** Width in bytes of an encoded `uint64`. */
  const Width: nat := 8

  /** 256^k. */
  function Pow256(k: nat): (p: nat)
    ensures p > 0
  {
    if k == 0 then 1 else 256 * Pow256(k - 1)
  }

  /** The number whose big-endian base-256 digits are `b`: the reference meaning of a
      byte string, most significant byte first. */
  function Value(b: seq<Byte>): (v: nat)
    ensures v < Pow256(|b|)
  {
    if |b| == 0 then 0
    else
      var rest := Value(b[1..]);
      DigitBound(b[0], Pow256(|b| - 1), rest);
      b[0] * Pow256(|b| - 1) + rest
  }

  /** The low `k` base-256 digits of `u`, most significant first; written the way a byte
      writer produces them, last byte `u % 256` and the rest from `u / 256`. */
  function Digits(u: nat, k: nat): (r: seq<Byte>)
    ensures |r| == k
  {
    if k == 0 then [] else Digits(u / 256, k - 1) + [u % 256]
  }

  /** `binary.BigEndian.PutUint64` into a fresh 8-byte slice. */
  function EncodeUint64(u: U64): (r: seq<Byte>)
    ensures |r| == Width
    ensures forall i :: 0 <= i < Width ==> r[i] == (u / Pow256(Width - 1 - i)) % 256
    ensures Value(r) == u
  {
    DigitsAt(u, Width);
    DigitsValue(u, Width);
    Pow256Width();
    ModUnique(u, Pow256(Width), 0, u);
    Digits(u, Width)
  }

  /** `binary.BigEndian.Uint64`: reads the first eight bytes, most significant first, and
      ignores the rest. Go panics on a shorter slice, hence the precondition. */
  function DecodeUint64(b: seq<Byte>): (u: U64)
    requires |b| >= Width
    ensures u == Value(b[..Width])
  {
    // the casts widen each byte before shifting, as Go's `uint64(b[i])` does; without them
    // the products would be computed in `Byte`
    var r := (b[0] as int) * 0x100_0000_0000_0000 + (b[1] as int) * 0x1_0000_0000_0000
      + (b[2] as int) * 0x100_0000_0000 + (b[3] as int) * 0x1_0000_0000
      + (b[4] as int) * 0x100_0000 + (b[5] as int) * 0x1_0000 + (b[6] as int) * 0x100 + b[7];
    ValueOfWidth(b[..Width]);
    r
  }

  // ---------------------------------------------------------------------------
  // Arithmetic helpers

  lemma DivMod256(u: nat, p: nat)
    requires p > 0
    ensures (u / 256) % p * 256 + u % 256 == u % (256 * p)
    ensures (u / 256) / p == u / (256 * p)
  {
    var q := u / 256;
    var r := u % 256;
    var a := q / p;
    var c := q % p;
    assert u == 256 * q + r;
    assert q == p * a + c;
    assert u == (256 * p) * a + (256 * c + r);
    assert 0 <= 256 * c + r < 256 * p;
    ModUnique(u, 256 * p, a, 256 * c + r);
  }

  lemma ModUnique(u: nat, m: nat, a: nat, c: nat)
    requires m > 0 && 0 <= c < m && u == m * a + c
    ensures u / m == a && u % m == c
  {
    var a' := u / m;
    var c' := u % m;
    assert u == m * a' + c';
    if a' < a {
      MulLe(m, a' + 1, a);
      assert false;
    } else if a' > a {
      MulLe(m, a + 1, a');
      assert false;
    }
  }

  lemma MulLe(m: nat, x: nat, y: nat)
    requires x <= y
    ensures m * x <= m * y
  {
    assert m * y == m * x + m * (y - x);
  }

  /** A leading digit followed by a lower part below `p` stays below `256 * p`. */
  lemma DigitBound(d: Byte, p: nat, rest: nat)
    requires rest < p
    ensures d * p + rest < 256 * p
  {
    MulLe(p, d, 255);
    assert p * 256 == p * 255 + p;
  }

  /** The eight-term sum in `DecodeUint64` is the value of the eight bytes. */
  lemma ValueOfWidth(b: seq<Byte>)
    requires |b| == Width
    ensures Value(b) == (b[0] as int) * 0x100_0000_0000_0000 + (b[1] as int) * 0x1_0000_0000_0000
      + (b[2] as int) * 0x100_0000_0000 + (b[3] as int) * 0x1_0000_0000
      + (b[4] as int) * 0x100_0000 + (b[5] as int) * 0x1_0000 + (b[6] as int) * 0x100 + b[7]
  {
    assert Pow256(0) == 1;
    assert Pow256(1) == 0x100;
    assert Pow256(2) == 0x1_0000;
    assert Pow256(3) == 0x100_0000;
    assert Pow256(4) == 0x1_0000_0000;
    assert Pow256(5) == 0x100_0000_0000;
    assert Pow256(6) == 0x1_0000_0000_0000;
    assert Pow256(7) == 0x100_0000_0000_0000;
    assert Value(b[7..]) == b[7];
    assert Value(b[6..]) == b[6] * 0x100 + Value(b[7..]);
    assert Value(b[5..]) == b[5] * 0x1_0000 + Value(b[6..]);
    assert Value(b[4..]) == b[4] * 0x100_0000 + Value(b[5..]);
    assert Value(b[3..]) == b[3] * 0x1_0000_0000 + Value(b[4..]);
    assert Value(b[2..]) == b[2] * 0x100_0000_0000 + Value(b[3..]);
    assert Value(b[1..]) == b[1] * 0x1_0000_0000_0000 + Value(b[2..]);
    assert Value(b) == b[0] * 0x100_0000_0000_0000 + Value(b[1..]);
  }

  lemma Pow256Width()
    ensures Pow256(Width) == 0x1_0000_0000_0000_0000
  {
  }

  /** Byte `i` of `Digits(u, k)` is digit `k-1-i` of `u`. */
  lemma DigitsAt(u: nat, k: nat)
    ensures forall i :: 0 <= i < k ==> Digits(u, k)[i] == (u / Pow256(k - 1 - i)) % 256
  {
    forall i | 0 <= i < k
      ensures Digits(u, k)[i] == (u / Pow256(k - 1 - i)) % 256
    {
      DigitAt(u, k, i);
    }
  }

  lemma {:induction false} DigitAt(u: nat, k: nat, i: nat)
    requires i < k
    ensures Digits(u, k)[i] == (u / Pow256(k - 1 - i)) % 256
    decreases k
  {
    if i < k - 1 {
      var p := Pow256(k - 2 - i);
      assert Digits(u, k)[i] == Digits(u / 256, k - 1)[i];
      DigitAt(u / 256, k - 1, i);
      DivMod256(u, p);
      assert Pow256(k - 1 - i) == 256 * p;
    } else {
      assert Pow256(k - 1 - i) == 1;
    }
  }

  /** Reading a byte string back-to-front: appending a low digit. */
  lemma {:induction false} ValueSnoc(b: seq<Byte>, x: Byte)
    ensures Value(b + [x]) == Value(b) * 256 + x
    decreases |b|
  {
    if |b| == 0 {
    } else {
      assert (b + [x])[1..] == b[1..] + [x];
      ValueSnoc(b[1..], x);
      var p := Pow256(|b| - 1);
      assert Value(b + [x]) == b[0] * (256 * p) + (Value(b[1..]) * 256 + x);
      ShiftDigit(b[0], p, Value(b[1..]));
    }
  }

  /** Shifting a leading digit and its lower part one place left. */
  lemma ShiftDigit(d: nat, p: nat, rest: nat)
    ensures d * (256 * p) + rest * 256 == (d * p + rest) * 256
  {
  }

  /** The digits of `u` spell `u` modulo 256^k. */
  lemma {:induction false} DigitsValue(u: nat, k: nat)
    ensures Value(Digits(u, k)) == u % Pow256(k)
  {
    if k > 0 {
      DigitsValue(u / 256, k - 1);
      ValueSnoc(Digits(u / 256, k - 1), u % 256);
      DivMod256(u, Pow256(k - 1));
    }
  }

  /** Writing out the value of a byte string gives the string back. */
  lemma {:induction false} DigitsOfValue(b: seq<Byte>)
    ensures Digits(Value(b), |b|) == b
    decreases |b|
  {
    if |b| > 0 {
      var init := b[..|b| - 1];
      var x := b[|b| - 1];
      assert b == init + [x];
      ValueSnoc(init, x);
      ModUnique(Value(b), 256, Value(init), x);
      DigitsOfValue(init);
    }
  }

  // ---------------------------------------------------------------------------
  // Properties of the codec

  /** Decoding an encoding returns the original integer. */
  lemma DecodeEncode(u: U64)
    ensures DecodeUint64(EncodeUint64(u)) == u
  {
    var r := EncodeUint64(u);
    assert r[..Width] == r;
  }

  /** Encoding an 8-byte string's decoding returns the string. */
  lemma EncodeDecode(b: seq<Byte>)
    requires |b| == Width
    ensures EncodeUint64(DecodeUint64(b)) == b
  {
    assert b[..Width] == b;
    DigitsOfValue(b);
  }

  /** Only the first eight bytes are read. */
  lemma DecodeReadsPrefix(b: seq<Byte>, c: seq<Byte>)
    requires |b| >= Width && |c| >= Width
    requires b[..Width] == c[..Width]
    ensures DecodeUint64(b) == DecodeUint64(c)
  {
  }

  /** Distinct integers have distinct encodings. */
  lemma EncodeInjective(u: U64, v: U64)
    ensures EncodeUint64(u) == EncodeUint64(v) ==> u == v
  {
    DecodeEncode(u);
    DecodeEncode(v);
  }

  /** Strict lexicographic order on byte strings, as `bytes.Compare(a, b) < 0`. */
  predicate LexLess(a: seq<Byte>, b: seq<Byte>)
  {
    if |a| == 0 then |b| > 0
    else if |b| == 0 then false
    else a[0] < b[0] || (a[0] == b[0] && LexLess(a[1..], b[1..]))
  }

  /** For strings of equal length, numeric order of the values is lexicographic order. */
  lemma {:induction false} ValueOrder(a: seq<Byte>, b: seq<Byte>)
    requires |a| == |b|
    ensures Value(a) < Value(b) <==> LexLess(a, b)
    decreases |a|
  {
    if |a| > 0 {
      var p := Pow256(|a| - 1);
      var ra := Value(a[1..]);
      var rb := Value(b[1..]);
      assert Value(a) == a[0] * p + ra;
      assert Value(b) == b[0] * p + rb;
      if a[0] < b[0] {
        LeadingDigitDecides(a[0], b[0], p, ra, rb);
      } else if a[0] > b[0] {
        LeadingDigitDecides(b[0], a[0], p, rb, ra);
      } else {
        ValueOrder(a[1..], b[1..]);
      }
    }
  }

  /** A smaller leading digit decides the comparison, whatever the lower parts. */
  lemma LeadingDigitDecides(x: nat, y: nat, p: nat, rx: nat, ry: nat)
    requires x < y && rx < p
    ensures x * p + rx < y * p + ry
  {
    MulLe(p, x + 1, y);
    assert p * (x + 1) == x * p + p;
  }

  /** The encoding preserves order: byte-wise comparison of encodings sorts as the integers. */
  lemma EncodeOrder(u: U64, v: U64)
    ensures u < v <==> LexLess(EncodeUint64(u), EncodeUint64(v))
  {
    ValueOrder(EncodeUint64(u), EncodeUint64(v));
  }
}
