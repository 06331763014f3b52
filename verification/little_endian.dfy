/** Fixed-width unsigned integers laid out least significant byte first, as
    Go's `encoding/binary` `LittleEndian.PutUint16`/`PutUint32` write them and
    `LittleEndian.Uint16`/`Uint32` read them back. */
module LittleEndian {

  /** One octet of the log file. */
  newtype Byte = x: int | 0 <= x < 256

  /** The number of distinct values a `width`-byte unsigned integer holds. */
  function Pow256(width: nat): (r: nat)
    ensures r > 0
  {
    if width == 0 then 1 else 256 * Pow256(width - 1)
  }

  /** The ranges of the two integer widths the log uses. */
  lemma Pow256Values()
    ensures Pow256(2) == 0x1_0000
    ensures Pow256(4) == 0x1_0000_0000
  {
    assert Pow256(2) == 256 * Pow256(1);
    assert Pow256(3) == 256 * Pow256(2);
    assert Pow256(4) == 256 * Pow256(3);
  }

  /** `n` stored in `width` bytes. The value kept is `n` reduced modulo
      256^width, which is what a Go `uint16(..)`/`uint32(..)` conversion
      followed by `PutUint16`/`PutUint32` does, negative `n` included. */
  function Encode(n: int, width: nat): (r: seq<Byte>)
    ensures |r| == width
    decreases width
  {
    if width == 0 then [] else [(n % 256) as Byte] + Encode(n / 256, width - 1)
  }

  /** The unsigned integer stored in `s`, least significant byte first. */
  function Decode(s: seq<Byte>): nat {
    DecodeFrom(s, 0)
  }

  /** The unsigned integer stored in `s[i..]`. */
  function DecodeFrom(s: seq<Byte>, i: nat): nat
    requires i <= |s|
    decreases |s| - i
  {
    if i == |s| then 0 else s[i] as nat + 256 * DecodeFrom(s, i + 1)
  }

  /** Decoding from byte `i` is decoding the suffix that starts there. */
  lemma {:induction false} DecodeFromSuffix(s: seq<Byte>, i: nat)
    requires 1 <= i <= |s|
    ensures DecodeFrom(s, i) == DecodeFrom(s[1..], i - 1)
    decreases |s| - i
  {
    if i < |s| {
      DecodeFromSuffix(s, i + 1);
      assert s[1..][i - 1] == s[i];
    }
  }

  /** The low byte, then the value stored in the remaining bytes. */
  lemma DecodeCons(s: seq<Byte>)
    requires |s| > 0
    ensures Decode(s) == s[0] as nat + 256 * Decode(s[1..])
  {
    DecodeFromSuffix(s, 1);
  }

  /** `width` bytes hold values below 256^width, so a decoded uint16 or
      uint32 is always in range. */
  lemma {:induction false} DecodeBound(s: seq<Byte>)
    ensures Decode(s) < Pow256(|s|)
  {
    if |s| > 0 {
      DecodeCons(s);
      DecodeBound(s[1..]);
    }
  }

  /** A positive multiple of `d` is at least `d`. */
  lemma MulAtLeast(d: int, k: int)
    requires d > 0 && k >= 1
    ensures d * k >= d
  {
    assert d * k == d + d * (k - 1);
  }

  /** The only multiple of `d` strictly between -d and d is zero. */
  lemma MulSmallIsZero(d: int, k: int)
    requires d > 0 && -d < d * k < d
    ensures k == 0
  {
    if k >= 1 {
      MulAtLeast(d, k);
    } else if k <= -1 {
      MulAtLeast(d, -k);
    }
  }

  /** Euclidean division has exactly one quotient/remainder pair. */
  lemma DivModUnique(n: int, d: int, q: int, r: int)
    requires d > 0 && 0 <= r < d && n == d * q + r
    ensures n / d == q && n % d == r
  {
    var q0, r0 := n / d, n % d;
    assert d * (q - q0) == r0 - r;
    MulSmallIsZero(d, q - q0);
  }

  /** Reducing modulo 256·m peels off the low byte first. */
  lemma ModStep(n: int, m: int)
    requires m > 0
    ensures n % (256 * m) == n % 256 + 256 * ((n / 256) % m)
  {
    var q, r := n / 256, n % 256;
    var q2, r2 := q / m, q % m;
    assert n == 256 * q + r;
    assert q == m * q2 + r2;
    assert n == (256 * m) * q2 + (256 * r2 + r) by {
      assert 256 * q == 256 * (m * q2) + 256 * r2;
    }
    assert 256 * r2 + r < 256 * m by { assert r2 <= m - 1; }
    DivModUnique(n, 256 * m, q2, 256 * r2 + r);
  }

  /** A value below 256 fits a byte unchanged. */
  lemma ByteValue(x: int)
    requires 0 <= x < 256
    ensures (x as Byte) as nat == x
  {
  }

  /** One step of `Encode`, read through `Decode`: the low byte, then the rest. */
  lemma EncodeUnfold(n: int, width: nat)
    requires width > 0
    ensures Decode(Encode(n, width)) == n % 256 + 256 * Decode(Encode(n / 256, width - 1))
  {
    var s, t := Encode(n, width), Encode(n / 256, width - 1);
    assert s == [(n % 256) as Byte] + t;
    assert s[1..] == t;
    ByteValue(n % 256);
    DecodeCons(s);
  }

  /** Reading back what `Encode` wrote yields the value modulo 256^width:
      the wrap-around of the uint16/uint32 conversion. */
  lemma {:induction false} DecodeEncode(n: int, width: nat)
    ensures Decode(Encode(n, width)) == n % Pow256(width)
    decreases width
  {
    if width > 0 {
      var m := Pow256(width - 1);
      EncodeUnfold(n, width);
      DecodeEncode(n / 256, width - 1);
      assert Decode(Encode(n, width)) == n % 256 + 256 * ((n / 256) % m);
      ModStep(n, m);
      assert Pow256(width) == 256 * m;
    }
  }

  /** A value below 256^width survives the trip through `width` bytes. */
  lemma DecodeEncodeInRange(n: int, width: nat)
    requires 0 <= n < Pow256(width)
    ensures Decode(Encode(n, width)) == n
  {
    DecodeEncode(n, width);
    DivModUnique(n, Pow256(width), 0, n);
  }

  /** Every byte string is the encoding of the value it decodes to, so the
      decoder loses nothing. */
  lemma {:induction false} EncodeDecode(s: seq<Byte>)
    ensures Encode(Decode(s), |s|) == s
  {
    if |s| > 0 {
      var n := Decode(s);
      DecodeCons(s);
      DivModUnique(n, 256, Decode(s[1..]), s[0] as nat);
      EncodeDecode(s[1..]);
      assert Encode(n, |s|) == [s[0]] + s[1..];
    }
  }

  /** Zero is stored as all-zero bytes. */
  lemma {:induction false} EncodeZero(width: nat)
    ensures forall i :: 0 <= i < width ==> Encode(0, width)[i] == 0
  {
    if width > 0 {
      EncodeZero(width - 1);
      assert Encode(0, width) == [0] + Encode(0, width - 1);
    }
  }
}
