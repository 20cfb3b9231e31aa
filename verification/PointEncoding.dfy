/** Compressed point encoding of the Pasta curves: the x coordinate in little-endian bytes with
    the parity of y in the top bit, the identity as zero bytes. */
module PointEncoding {
  import opened Congruence
  import opened PrimeField
  import opened FieldOps
  import opened SquareRoot
  import opened AffineCurve
  import opened Pasta
  import BitScan

  type u8 = b: int | 0 <= b < 256

  /** n little-endian bytes of v. */
  function ToRepr(v: nat, n: nat): (bs: seq<u8>)
    ensures |bs| == n
  {
    if n == 0 then [] else [v % 256] + ToRepr(v / 256, n - 1)
  }

  function FromRepr(bs: seq<u8>): nat {
    if bs == [] then 0 else bs[0] + 256 * FromRepr(bs[1..])
  }

  /** Half the range of n + 1 bytes: 2^255 for the 32 bytes of the source. */
  function HalfRange(n: nat): (r: nat)
    ensures r > 0
  {
    if n == 0 then 128 else 256 * HalfRange(n - 1)
  }

  lemma {:induction false} ReprRoundTrip(v: nat, n: nat)
    requires v < HalfRange(n)
    ensures FromRepr(ToRepr(v, n + 1)) == v && ToRepr(v, n + 1)[n] < 128
    decreases n
  {
    var bs := ToRepr(v, n + 1);
    assert bs[1..] == ToRepr(v / 256, n);
    if n == 0 {
      assert FromRepr(bs[1..]) == 0;
    } else {
      ReprRoundTrip(v / 256, n - 1);
      assert bs[n] == bs[1..][n - 1];
    }
  }

  lemma ByteSplit(b: u8, r: nat)
    ensures (b + 256 * r) % 256 == b && (b + 256 * r) / 256 == r
  {
  }

  lemma {:induction false} ReprOfBytes(bs: seq<u8>, n: nat)
    requires |bs| == n
    ensures ToRepr(FromRepr(bs), n) == bs
    decreases n
  {
    if n > 0 {
      ReprOfBytes(bs[1..], n - 1);
      ByteSplit(bs[0], FromRepr(bs[1..]));
      assert bs == [bs[0]] + bs[1..];
    }
  }

  /** Or-ing the sign into bit 7. */
  function SetTop(b: u8, sign: int): u8 {
    if sign == 1 && b < 128 then b + 128 else b
  }

  function ToBytes(E: EpAffine, n: nat): (bs: seq<u8>)
    requires E.x >= 0
    ensures |bs| == n + 1
  {
    if IsIdentity(E) then seq(n + 1, _ => 0)
    else
      var xb := ToRepr(E.x, n + 1);
      xb[n := SetTop(xb[n], E.y % 2)]
  }

  /** Decoding with the field's square root; None is the source's empty CtOption. */
  function FromBytes(bs: seq<u8>, sqrt: int -> Option<int>, b: int, p: Modulus): Option<EpAffine>
    requires bs != []
  {
    var n := |bs| - 1;
    var ysign := bs[n] / 128;
    var x := FromRepr(bs[n := bs[n] % 128]);
    if x >= p then None
    else if x == 0 && ysign == 0 then Some(EpAffine(0, 0))
    else match sqrt(FAdd(FMul(FMul(x, x, p), x, p), b, p))
      case None => None
      case Some(y) => Some(EpAffine(x, if ysign != y % 2 then FNeg(y, p) else y))
  }

  /** What is asked of the field's square root: a reduced root whenever there is one. */
  ghost predicate IsSqrt(sqrt: int -> Option<int>, p: Modulus) {
    forall v :: 0 <= v < p ==>
      (sqrt(v) == None <==> !IsSquare(v, p)) && (sqrt(v).Some? ==> SquareOf(sqrt(v).value, v, p))
  }

  // ----------------------------------------------------------------- parity

  /** Modulo an odd number a nonzero residue and its negative differ in parity. */
  lemma NegParity(y: int, p: Modulus)
    requires p % 2 == 1 && 0 < y < p
    ensures FNeg(y, p) == p - y && FNeg(y, p) % 2 != y % 2
  {
    hide Cong;
    CongIntro(p - y, -y, 1, p);
    CongResidue(p - y, -y, p);
  }

  /** Of the two roots the one with the wanted parity. */
  lemma RootByParity(y: int, w: int, v: int, sign: int, p: int)
    requires IsPrime(p) && p % 2 == 1 && SquareOf(y, v, p) && SquareOf(w, v, p) && w % 2 == sign
    ensures (if sign != y % 2 then FNeg(y, p) else y) == w
  {
    hide Cong;
    ModToCong(y * y, v, p);
    ModToCong(w * w, v, p);
    CongSym(w * w, v, p);
    CongTrans(y * y, v, w * w, p);
    SquareCong(y, w, p);
    if Cong(y, w, p) {
      CongUnique(y, w, p);
    } else {
      CongRefl(y, p);
      CongRefl(0, p);
      CongSub(0, 0, y, -w, p);
      NegC(y, y, p);
      CongTrans(FNeg(y, p), -y, w, p);
      CongUnique(FNeg(y, p), w, p);
      NegatedZero(y, w, p);
    }
  }

  lemma NegatedZero(y: int, w: int, p: int)
    requires p > 1 && p % 2 == 1 && 0 <= y < p && w == FNeg(y, p)
    ensures y % 2 == w % 2 ==> y == w
  {
    hide Cong;
    if y == 0 { SmallMod(0, p); } else { NegParity(y, p); }
  }

  // -------------------------------------------------------------- round trip

  /** The bytes of a non-identity point carry x below and the parity of y on top. */
  lemma EncodedParts(E: EpAffine, n: nat, p: Modulus)
    requires !IsIdentity(E) && 0 <= E.x < p <= HalfRange(n)
    ensures var bs := ToBytes(E, n);
            bs[n] / 128 == E.y % 2 && FromRepr(bs[n := bs[n] % 128]) == E.x
  {
    var xb, bs := ToRepr(E.x, n + 1), ToBytes(E, n);
    ReprRoundTrip(E.x, n);
    assert bs[n := bs[n] % 128] == xb;
  }

  lemma HighBits(b: u8, r: nat, q: nat)
    requires q > 0
    ensures (b + 256 * r) / (256 * q) == r / q
  {
    var h, l := r / q, r % q;
    assert r == h * q + l;
    assert b + 256 * r == h * (256 * q) + (256 * l + b);
    BitScan.QuotientUnique(b + 256 * r, 256 * q, h, 256 * l + b);
  }

  /** Byte i is the digit of 256^i. */
  lemma {:induction false} DigitAt(v: nat, n: nat, i: nat)
    requires i < n
    ensures Pow(256, i) > 0 && ToRepr(v, n)[i] == v / Pow(256, i) % 256
    decreases i
  {
    hide Pow;
    PowZero(256);
    PowPositive(256, i);
    if i > 0 {
      DigitAt(v / 256, n - 1, i - 1);
      PowStep(256, i);
      HighBits(v % 256, v / 256, Pow(256, i - 1));
    }
  }

  lemma PowZero(b: int)
    ensures Pow(b, 0) == 1
  {
  }

  lemma PowStep(b: int, e: nat)
    requires e > 0
    ensures Pow(b, e) == b * Pow(b, e - 1)
  {
  }

  lemma {:induction false} HalfRangeIs(n: nat)
    ensures HalfRange(n) == 128 * Pow(256, n)
  {
    if n > 0 { HalfRangeIs(n - 1); }
  }

  /** The encoding of a point, byte by byte: the digits of x, and in the top byte, whose high bit x
      leaves clear, 128 for an odd y. */
  lemma EncodedBytes(E: EpAffine, n: nat, i: nat)
    requires !IsIdentity(E) && 0 <= E.x < 128 * Pow(256, n) && i <= n
    ensures Pow(256, i) > 0 && (i == n ==> E.x / Pow(256, i) < 128)
    ensures ToBytes(E, n)[i] == E.x / Pow(256, i) % 256 + if i == n && E.y % 2 == 1 then 128 else 0
  {
    hide Pow;
    HalfRangeIs(n);
    DigitAt(E.x, n + 1, i);
    ReprRoundTrip(E.x, n);
    if i == n { TopDigit(E.x, Pow(256, n)); }
  }

  lemma TopDigit(v: nat, q: nat)
    requires q > 0 && v < 128 * q
    ensures v / q < 128
  {
  }

  lemma {:induction false} ZeroBytes(bs: seq<u8>)
    requires forall i :: 0 <= i < |bs| ==> bs[i] == 0
    ensures FromRepr(bs) == 0
  {
    if bs != [] { ZeroBytes(bs[1..]); }
  }

  /** The equation y^2 = x^3 + b as the squareness of the value that decoding takes the root of. */
  lemma CurveValue(x: int, y: int, b: int, p: Modulus)
    requires 0 <= y < p
    ensures var v := FAdd(FMul(FMul(x, x, p), x, p), b, p);
            SquareOf(y, v, p) <==> Cong(y * y, x * x * x + b, p)
  {
    hide Cong;
    var v := FAdd(FMul(FMul(x, x, p), x, p), b, p);
    CongRefl(x, p);
    CongRefl(b, p);
    MulC(x, x, x, x, p);
    MulC(FMul(x, x, p), x * x, x, x, p);
    AddC(FMul(FMul(x, x, p), x, p), x * x * x, b, b, p);
    if SquareOf(y, v, p) {
      ModToCong(y * y, v, p);
      CongTrans(y * y, v, x * x * x + b, p);
    }
    if Cong(y * y, x * x * x + b, p) {
      CongSym(v, x * x * x + b, p);
      CongTrans(y * y, x * x * x + b, v, p);
      CongToMod(y * y, v, p);
    }
  }

  /** Decoding inverts encoding for every curve point except the points (0, y) with even nonzero y,
      whose bytes are those of the identity. */
  lemma DecodeEncode(E: EpAffine, n: nat, sqrt: int -> Option<int>, b: int, p: int)
    requires IsPrime(p) && p % 2 == 1 && p <= HalfRange(n) && IsSqrt(sqrt, p) && ValidAffine(E, b, p)
    ensures E.x >= 0
    ensures FromBytes(ToBytes(E, n), sqrt, b, p) == Some(E) <==> !(E.x == 0 && E.y != 0 && E.y % 2 == 0)
  {
    hide Cong;
    var bs := ToBytes(E, n);
    if IsIdentity(E) {
      ZeroBytes(bs[n := bs[n] % 128]);
    } else {
      EncodedParts(E, n, p);
      if !(E.x == 0 && E.y % 2 == 0) {
        var v := FAdd(FMul(FMul(E.x, E.x, p), E.x, p), b, p);
        CurveValue(E.x, E.y, b, p);
        assert IsSquare(v, p);
        RootByParity(sqrt(v).value, E.y, v, E.y % 2, p);
      }
    }
  }

  lemma {:induction false} ZeroEncoding(n: nat)
    ensures ToRepr(0, n) == seq(n, _ => 0)
  {
    if n > 0 { ZeroEncoding(n - 1); }
  }

  /** A concrete loss: on y^2 = x^3 + 4 over the field of 11 elements the point (0, 2) and the identity
      have the same bytes, of any number, and these decode to the identity. */
  lemma EncodingLoses(n: nat, sqrt: int -> Option<int>)
    ensures IsPrime(11) && ValidAffine(EpAffine(0, 2), 4, 11)
    ensures ToBytes(EpAffine(0, 2), n) == ToBytes(EpAffine(0, 0), n)
    ensures FromBytes(ToBytes(EpAffine(0, 2), n), sqrt, 4, 11) == Some(EpAffine(0, 0))
  {
    ElevenPrime();
    ZeroEncoding(n + 1);
    var bs := ToBytes(EpAffine(0, 2), n);
    ZeroBytes(bs[n := bs[n] % 128]);
  }

  /** Where b is not a square there are no points with x = 0, and the round trip is unconditional. */
  lemma DecodeEncodeAlways(E: EpAffine, n: nat, sqrt: int -> Option<int>, b: int, p: int)
    requires IsPrime(p) && p % 2 == 1 && p <= HalfRange(n) && IsSqrt(sqrt, p) && ValidAffine(E, b, p)
    requires !IsSquare(b, p)
    ensures E.x >= 0 && FromBytes(ToBytes(E, n), sqrt, b, p) == Some(E)
  {
    hide Cong, FromBytes, ToBytes;
    DecodeEncode(E, n, sqrt, b, p);
    if E.x == 0 && E.y != 0 {
      assert E.x * E.x * E.x + b == b;
      RootFound(E.y, b, p);
    }
  }

  /** Where b is not a square, two points that encode alike are the same point. */
  lemma EncodingInjective(E: EpAffine, F: EpAffine, n: nat, sqrt: int -> Option<int>, b: int, p: int)
    requires IsPrime(p) && p % 2 == 1 && p <= HalfRange(n) && IsSqrt(sqrt, p)
    requires ValidAffine(E, b, p) && ValidAffine(F, b, p) && !IsSquare(b, p)
    requires E.x >= 0 && F.x >= 0 && ToBytes(E, n) == ToBytes(F, n)
    ensures E == F
  {
    hide Cong, FromBytes, ToBytes;
    DecodeEncodeAlways(E, n, sqrt, b, p);
    DecodeEncodeAlways(F, n, sqrt, b, p);
  }

  /** Bytes with a clear sign bit and no x are the encoding of the identity. */
  lemma DecodeZeroBytes(bs: seq<u8>, n: nat)
    requires |bs| == n + 1 && bs[n] < 128 && FromRepr(bs[n := bs[n] % 128]) == 0
    ensures bs == seq(n + 1, _ => 0)
  {
    assert bs[n := bs[n] % 128] == bs;
    ZeroRepr(bs);
  }

  /** Re-encoding (x, w), where x came from bs and w agrees with its sign bit unless w = 0. */
  lemma ReEncode(bs: seq<u8>, n: nat, x: nat, w: int)
    requires |bs| == n + 1 && x == FromRepr(bs[n := bs[n] % 128])
    requires w != 0 ==> w % 2 == bs[n] / 128
    requires x == 0 ==> bs[n] >= 128
    ensures ToBytes(EpAffine(x, w), n) == bs <==> !(bs[n] >= 128 && w == 0)
  {
    var E, xb := EpAffine(x, w), bs[n := bs[n] % 128];
    ReprOfBytes(xb, n + 1);
    if IsIdentity(E) {
      assert ToBytes(E, n)[n] == 0;
    } else {
      assert ToBytes(E, n) == xb[n := SetTop(xb[n], w % 2)];
      assert ToBytes(E, n)[n] == SetTop(bs[n] % 128, w % 2);
    }
  }

  /** What decodes is a reduced curve point, and re-encodes to the same bytes unless the sign bit
      was set on a point with y = 0. */
  lemma EncodeDecode(bs: seq<u8>, sqrt: int -> Option<int>, b: int, p: int)
    requires IsPrime(p) && p % 2 == 1 && bs != [] && IsSqrt(sqrt, p)
    requires FromBytes(bs, sqrt, b, p).Some?
    ensures var E := FromBytes(bs, sqrt, b, p).value;
            && ValidAffine(E, b, p) && E.x >= 0
            && (ToBytes(E, |bs| - 1) == bs <==> !(bs[|bs| - 1] >= 128 && E.y == 0))
  {
    hide Cong, ToRepr, FromRepr, FAdd, FMul, FNeg;
    var n, E := |bs| - 1, FromBytes(bs, sqrt, b, p).value;
    var x, ysign := FromRepr(bs[n := bs[n] % 128]), bs[n] / 128;
    if x == 0 && ysign == 0 {
      DecodeZeroBytes(bs, n);
    } else {
      var v := FAdd(FMul(FMul(x, x, p), x, p), b, p);
      DecodedRoot(sqrt(v).value, v, ysign, p);
      CurveValue(x, E.y, b, p);
      ReEncode(bs, n, x, E.y);
    }
  }

  lemma {:induction false} ZeroRepr(bs: seq<u8>)
    requires FromRepr(bs) == 0
    ensures forall i :: 0 <= i < |bs| ==> bs[i] == 0
  {
    if bs != [] {
      ZeroRepr(bs[1..]);
      assert forall i :: 1 <= i < |bs| ==> bs[i] == bs[1..][i - 1];
    }
  }

  /** The chosen root is a root and has the wanted parity unless it is zero. */
  lemma DecodedRoot(y: int, v: int, sign: int, p: int)
    requires IsPrime(p) && p % 2 == 1 && SquareOf(y, v, p) && 0 <= sign <= 1
    ensures var w := if sign != y % 2 then FNeg(y, p) else y;
            SquareOf(w, v, p) && (w != 0 ==> w % 2 == sign)
  {
    hide Cong;
    var w := if sign != y % 2 then FNeg(y, p) else y;
    if y == 0 { SmallMod(0, p); } else { NegParity(y, p); }
    ModToCong(y * y, v, p);
    CongRefl(y, p);
    NegC(y, y, p);
    CongMul(FNeg(y, p), -y, FNeg(y, p), -y, p);
    assert (-y) * (-y) == y * y;
    CongTrans(FNeg(y, p) * FNeg(y, p), y * y, v, p);
    CongToMod(FNeg(y, p) * FNeg(y, p), v, p);
  }
}
