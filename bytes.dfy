/**
 * Byte strings and the big-endian integer codec the key-value layer uses:
 * `int.from_bytes(b, byteorder="big")` is `FromBE`, and
 * `n.to_bytes(w, byteorder="big")` is `IntToBytes`, which fails (Python's
 * OverflowError) when `n` is negative or needs more than `w` bytes.
 */
module ByteCodec {
  import opened Wrappers
  import Lex

  type Byte = b: int | 0 <= b < 256
  type Bytes = seq<Byte>
  type uint32 = n: int | 0 <= n < 0x1_0000_0000

  const TWO_TO_32: nat := 0x1_0000_0000

  /** 256^n, the number of values an n-byte string can hold. */
  function Pow256(n: nat): (r: nat)
    ensures r > 0
  {
    if n == 0 then 1 else 256 * Pow256(n - 1)
  }

  /** `int.from_bytes(bs, byteorder="big")` */
  function FromBE(bs: Bytes): nat
  {
    if bs == [] then 0 else bs[0] * Pow256(|bs| - 1) + FromBE(bs[1..])
  }

  /** `n.to_bytes(width, byteorder="big")` for a value that fits in `width` bytes. */
  function ToBE(n: nat, width: nat): (r: Bytes)
    requires n < Pow256(width)
    decreases width
  {
    if width == 0 then []
    else
      var p := Pow256(width - 1);
      DivBound(n, p);
      var hi: Byte := n / p;
      [hi] + ToBE(n % p, width - 1)
  }

  /** `n.to_bytes(width, byteorder="big")`, `None` where Python raises OverflowError. */
  function IntToBytes(n: int, width: nat): (r: Option<Bytes>)
    ensures r.Some? <==> 0 <= n < Pow256(width)
    ensures r.Some? ==> |r.value| == width && FromBE(r.value) == n
  {
    if 0 <= n < Pow256(width) then
      FromToBE(n, width);
      Some(ToBE(n, width))
    else None
  }

  /** The 4-byte big-endian encoding used for timestamps, counts and shard keys. */
  function BE4(n: uint32): (r: Bytes)
    ensures |r| == 4 && FromBE(r) == n
  {
    assert Pow256(4) == TWO_TO_32;
    FromToBE(n, 4);
    ToBE(n, 4)
  }

  /** `add1(b)`: the 4-byte encoding of value(b) + 1; `None` on overflow. */
  function Add1(b: Bytes): (r: Option<Bytes>)
    ensures r.Some? <==> FromBE(b) + 1 < TWO_TO_32
    ensures r.Some? ==> |r.value| == 4 && FromBE(r.value) == FromBE(b) + 1
  {
    assert Pow256(4) == TWO_TO_32;
    IntToBytes(FromBE(b) + 1, 4)
  }

  /** `sub1(b)`: the 4-byte encoding of value(b) - 1; `None` on underflow or overflow. */
  function Sub1(b: Bytes): (r: Option<Bytes>)
    ensures r.Some? <==> 1 <= FromBE(b) <= TWO_TO_32
    ensures r.Some? ==> |r.value| == 4 && FromBE(r.value) == FromBE(b) - 1
  {
    assert Pow256(4) == TWO_TO_32;
    IntToBytes(FromBE(b) - 1, 4)
  }

  // ---------------------------------------------------------------------------
  // Arithmetic helpers

  lemma DivBound(n: nat, p: nat)
    requires p > 0 && n < 256 * p
    ensures 0 <= n / p < 256 && n % p < p
  {
  }

  lemma DivModOf(q: nat, r: nat, p: nat)
    requires p > 0 && r < p
    ensures (q * p + r) / p == q && (q * p + r) % p == r
  {
    var n := q * p + r;
    var d, m := n / p, n % p;
    assert d * p + m == q * p + r;
    if d > q {
      MulLe(1, d - q, p);
    } else if d < q {
      MulLe(1, q - d, p);
    }
  }

  lemma MulLe(a: nat, b: nat, p: nat)
    requires a <= b
    ensures a * p <= b * p
  {
    assert b * p == a * p + (b - a) * p;
  }

  // ---------------------------------------------------------------------------
  // Properties of the codec

  /** An n-byte string holds a value below 256^n. */
  lemma {:induction false} FromBEBound(bs: Bytes)
    ensures FromBE(bs) < Pow256(|bs|)
  {
    if bs != [] {
      var p := Pow256(|bs| - 1);
      FromBEBound(bs[1..]);
      MulLe(bs[0] as int + 1, 256, p);
      assert bs[0] * p + p == (bs[0] as int + 1) * p;
    }
  }

  /** Decoding an encoding gives the value back, at the requested width. */
  lemma {:induction false} FromToBE(n: nat, width: nat)
    requires n < Pow256(width)
    ensures |ToBE(n, width)| == width && FromBE(ToBE(n, width)) == n
    decreases width
  {
    if width > 0 {
      var p := Pow256(width - 1);
      FromToBE(n % p, width - 1);
      var r := ToBE(n, width);
      assert r[1..] == ToBE(n % p, width - 1);
      assert FromBE(r) == (n / p) * p + n % p;
    }
  }

  /** Encoding the value of a byte string at its own width gives the string back. */
  lemma {:induction false} ToFromBE(bs: Bytes)
    ensures FromBE(bs) < Pow256(|bs|) && ToBE(FromBE(bs), |bs|) == bs
  {
    FromBEBound(bs);
    if bs != [] {
      var p := Pow256(|bs| - 1);
      FromBEBound(bs[1..]);
      DivModOf(bs[0], FromBE(bs[1..]), p);
      ToFromBE(bs[1..]);
    }
  }

  /** Two byte strings of one length with the same value are equal. */
  lemma FromBEInjective(a: Bytes, b: Bytes)
    requires |a| == |b| && FromBE(a) == FromBE(b)
    ensures a == b
  {
    ToFromBE(a);
    ToFromBE(b);
  }

  /** For byte strings of one length, Python's byte order is the numeric order of their values. */
  lemma {:induction false} OrderMatchesValue(a: Bytes, b: Bytes)
    requires |a| == |b|
    ensures Lex.Less(a, b) <==> FromBE(a) < FromBE(b)
  {
    if a != [] {
      var p := Pow256(|a| - 1);
      FromBEBound(a[1..]);
      FromBEBound(b[1..]);
      if a[0] < b[0] {
        MulLe(a[0] as int + 1, b[0], p);
        assert a[0] * p + p == (a[0] as int + 1) * p;
      } else if b[0] < a[0] {
        MulLe(b[0] as int + 1, a[0], p);
        assert b[0] * p + p == (b[0] as int + 1) * p;
      } else {
        OrderMatchesValue(a[1..], b[1..]);
      }
    }
  }

  /** `sub1` undoes `add1` on a 4-byte counter that can still be incremented. */
  lemma Sub1Add1(b: Bytes)
    requires |b| == 4 && FromBE(b) + 1 < TWO_TO_32
    ensures Add1(b).Some? && Sub1(Add1(b).value) == Some(b)
  {
    var up := Add1(b).value;
    var down := Sub1(up).value;
    FromBEInjective(down, b);
  }

  /** `add1` undoes `sub1` on a 4-byte counter above zero. */
  lemma Add1Sub1(b: Bytes)
    requires |b| == 4 && 1 <= FromBE(b)
    ensures Sub1(b).Some? && Add1(Sub1(b).value) == Some(b)
  {
    FromBEBound(b);
    assert Pow256(4) == TWO_TO_32;
    var down := Sub1(b).value;
    var up := Add1(down).value;
    FromBEInjective(up, b);
  }

  /** 4-byte encodings are ordered as the numbers they encode. */
  lemma BE4Order(m: uint32, n: uint32)
    ensures Lex.Less(BE4(m), BE4(n)) <==> m < n
  {
    OrderMatchesValue(BE4(m), BE4(n));
  }
}
