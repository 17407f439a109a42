/** The conversion of a BouncyCastle RSA private CRT key into the platform's
    `RSAParameters` layout (`DotNetUtilities` in app/OpenShift.cs). */
module RsaConversion {
  import opened Wrappers
  import opened Exceptions

  type byte = b: int | 0 <= b < 256

  /** Minimal unsigned big-endian encoding of a number, as BouncyCastle's
      `BigInteger.ToByteArrayUnsigned` produces it: no leading zero byte, and
      zero encodes as the empty array. */
  function UnsignedBytes(n: nat): (bytes: seq<byte>)
    decreases n
  {
    if n == 0 then [] else UnsignedBytes(n / 256) + [n % 256]
  }

  /** The number a big-endian byte sequence denotes. */
  function ValueOf(s: seq<byte>): (n: nat)
  {
    if |s| == 0 then 0 else ValueOf(s[..|s| - 1]) * 256 + s[|s| - 1]
  }

  /** A sequence with no leading zero byte. */
  predicate Minimal(s: seq<byte>)
  {
    |s| == 0 || s[0] != 0
  }

  function Zeros(k: nat): (z: seq<byte>)
    ensures |z| == k && forall i :: 0 <= i < k ==> z[i] == 0
  {
    seq(k, _ => 0)
  }

  function Pow256(k: nat): (p: nat)
    ensures p >= 1
  {
    if k == 0 then 1 else 256 * Pow256(k - 1)
  }

  lemma {:induction false} UnsignedBytesRoundTrip(n: nat)
    ensures ValueOf(UnsignedBytes(n)) == n
    decreases n
  {
    if n != 0 {
      var s := UnsignedBytes(n);
      UnsignedBytesRoundTrip(n / 256);
      assert s[..|s| - 1] == UnsignedBytes(n / 256);
    }
  }

  lemma {:induction false} UnsignedBytesMinimal(n: nat)
    ensures Minimal(UnsignedBytes(n))
    decreases n
  {
    if n != 0 {
      UnsignedBytesMinimal(n / 256);
      if n / 256 == 0 {
        assert UnsignedBytes(n) == [n % 256];
      } else {
        assert UnsignedBytes(n)[0] == UnsignedBytes(n / 256)[0];
      }
    }
  }

  lemma {:induction false} ValueOfZeroOnlyForZeros(s: seq<byte>)
    requires ValueOf(s) == 0
    ensures forall i :: 0 <= i < |s| ==> s[i] == 0
  {
    if |s| != 0 {
      ValueOfZeroOnlyForZeros(s[..|s| - 1]);
      forall i | 0 <= i < |s| ensures s[i] == 0 {
        if i < |s| - 1 {
          assert s[i] == s[..|s| - 1][i];
        }
      }
    }
  }

  /** The minimal encodings are exactly the images of UnsignedBytes: decoding a
      minimal sequence and encoding again gives it back. */
  lemma {:induction false} MinimalRoundTrip(s: seq<byte>)
    requires Minimal(s)
    ensures UnsignedBytes(ValueOf(s)) == s
  {
    if |s| != 0 {
      var init := s[..|s| - 1];
      var v := ValueOf(s);
      if v == 0 {
        ValueOfZeroOnlyForZeros(s);
      }
      assert v / 256 == ValueOf(init) && v % 256 == s[|s| - 1];
      if |init| != 0 {
        assert init[0] == s[0];
      }
      MinimalRoundTrip(init);
      assert s == init + [s[|s| - 1]];
    }
  }

  /** For a sequence without a leading zero, denoting `n` and being the
      encoding of `n` are the same thing. */
  lemma MinimalEncodingMatchesValue(s: seq<byte>, n: nat)
    ensures Minimal(s) ==> (ValueOf(s) == n <==> s == UnsignedBytes(n))
  {
    UnsignedBytesRoundTrip(n);
    if Minimal(s) {
      MinimalRoundTrip(s);
    }
  }

  /** An encoding fits in `k` bytes exactly when the number is below 256^k. */
  lemma {:induction false} UnsignedBytesFits(n: nat, k: nat)
    ensures |UnsignedBytes(n)| <= k <==> n < Pow256(k)
    decreases n
  {
    if n != 0 {
      if k == 0 {
        assert |UnsignedBytes(n)| >= 1;
      } else {
        UnsignedBytesFits(n / 256, k - 1);
        assert n < Pow256(k) <==> n / 256 < Pow256(k - 1);
      }
    }
  }

  /** Leading zero bytes do not change the big-endian value. */
  lemma {:induction false} ZeroPaddingPreservesValue(k: nat, s: seq<byte>)
    ensures ValueOf(Zeros(k) + s) == ValueOf(s)
    decreases |s|, k
  {
    if |s| == 0 {
      assert Zeros(k) + s == Zeros(k);
      if k != 0 {
        assert Zeros(k)[..k - 1] == Zeros(k - 1);
        ZeroPaddingPreservesValue(k - 1, []);
        assert Zeros(k - 1) + [] == Zeros(k - 1);
      }
    } else {
      var t := Zeros(k) + s;
      assert t[..|t| - 1] == Zeros(k) + s[..|s| - 1];
      ZeroPaddingPreservesValue(k, s[..|s| - 1]);
    }
  }

  /** `ConvertRSAParametersField` on the encoding `bs` of a field and the target
      length `size`: the encoding itself when it already has that length, an
      `ArgumentException` when it is longer, and otherwise the encoding
      left-padded with zero bytes. */
  function PaddedField(bs: seq<byte>, size: nat): (r: Result<seq<byte>, Exception>)
    ensures r.Failure? <==> |bs| > size
    ensures r.Failure? ==> r.error == ArgumentException("Specified size too small", "size")
    ensures |bs| == size ==> r == Success(bs)
    ensures r.Success? ==> |r.value| == size
    ensures r.Success? ==> (forall i :: 0 <= i < size - |bs| ==> r.value[i] == 0)
    ensures r.Success? ==> r.value[size - |bs|..] == bs
  {
    if |bs| == size then Success(bs)
    else if |bs| > size then Failure(ArgumentException("Specified size too small", "size"))
    else Success(Zeros(size - |bs|) + bs)
  }

  /** A padded field denotes the same number as the encoding it was made from. */
  lemma PaddedFieldPreservesValue(bs: seq<byte>, size: nat)
    requires PaddedField(bs, size).Success?
    ensures ValueOf(PaddedField(bs, size).value) == ValueOf(bs)
  {
    if |bs| != size {
      ZeroPaddingPreservesValue(size - |bs|, bs);
    }
  }

  /** `ConvertRSAParametersField(n, size)`: encodes `n`, returns that array when
      its length is `size`, throws when it is longer, and otherwise allocates a
      zero-filled array of `size` bytes and copies the encoding into its tail. */
  method ConvertRsaParametersField(n: nat, size: nat) returns (r: Result<seq<byte>, Exception>)
    ensures r == PaddedField(UnsignedBytes(n), size)
    ensures r.Success? ==> ValueOf(r.value) == n
  {
    var bs := UnsignedBytes(n);
    UnsignedBytesRoundTrip(n);
    if |bs| == size {
      return Success(bs);
    }
    if |bs| > size {
      return Failure(ArgumentException("Specified size too small", "size"));
    }
    var padded := new byte[size](_ => 0);
    // Copy the encoding into the last |bs| cells.
    var offset := size - |bs|;
    var i := 0;
    while i < |bs|
      invariant 0 <= i <= |bs|
      invariant forall j :: 0 <= j < offset ==> padded[j] == 0
      invariant forall j :: 0 <= j < i ==> padded[offset + j] == bs[j]
      invariant forall j :: offset + i <= j < size ==> padded[j] == 0
    {
      padded[offset + i] := bs[i];
      i := i + 1;
    }
    assert padded[..] == Zeros(offset) + bs;
    PaddedFieldPreservesValue(bs, size);
    return Success(padded[..]);
  }

  /** BouncyCastle's `RsaPrivateCrtKeyParameters`: the eight numbers of an RSA
      private key in Chinese-remainder form (`Exponent` is the private exponent). */
  datatype RsaPrivateCrtKey = RsaPrivateCrtKey(
    modulus: nat, publicExponent: nat, p: nat, q: nat,
    exponent: nat, dp: nat, dq: nat, qInv: nat)

  /** The platform's `RSAParameters`: each field a big-endian unsigned byte array. */
  datatype RsaParameters = RsaParameters(
    modulus: seq<byte>, exponent: seq<byte>, p: seq<byte>, q: seq<byte>,
    d: seq<byte>, dp: seq<byte>, dq: seq<byte>, inverseQ: seq<byte>)

  /** `ToRSAParameters`: Modulus, Exponent, P and Q are the plain encodings;
      D, DP, DQ and InverseQ are padded to the lengths of Modulus, P, Q and Q. */
  function ToRsaParameters(key: RsaPrivateCrtKey): (r: Result<RsaParameters, Exception>)
    ensures r.Success? <==>
      && |UnsignedBytes(key.exponent)| <= |UnsignedBytes(key.modulus)|
      && |UnsignedBytes(key.dp)| <= |UnsignedBytes(key.p)|
      && |UnsignedBytes(key.dq)| <= |UnsignedBytes(key.q)|
      && |UnsignedBytes(key.qInv)| <= |UnsignedBytes(key.q)|
    ensures r.Failure? ==> r.error == ArgumentException("Specified size too small", "size")
    ensures r.Success? ==>
      && r.value.modulus == UnsignedBytes(key.modulus)
      && r.value.exponent == UnsignedBytes(key.publicExponent)
      && r.value.p == UnsignedBytes(key.p)
      && r.value.q == UnsignedBytes(key.q)
      && |r.value.d| == |r.value.modulus|
      && |r.value.dp| == |r.value.p|
      && |r.value.dq| == |r.value.q|
      && |r.value.inverseQ| == |r.value.q|
  {
    var modulus := UnsignedBytes(key.modulus);
    var exponent := UnsignedBytes(key.publicExponent);
    var p := UnsignedBytes(key.p);
    var q := UnsignedBytes(key.q);
    var d :- PaddedField(UnsignedBytes(key.exponent), |modulus|);
    var dp :- PaddedField(UnsignedBytes(key.dp), |p|);
    var dq :- PaddedField(UnsignedBytes(key.dq), |q|);
    var inverseQ :- PaddedField(UnsignedBytes(key.qInv), |q|);
    Success(RsaParameters(modulus, exponent, p, q, d, dp, dq, inverseQ))
  }

  /** Every field of a converted key denotes the number it was made from, so
      the conversion loses nothing. */
  lemma ToRsaParametersPreservesValues(key: RsaPrivateCrtKey)
    requires ToRsaParameters(key).Success?
    ensures var rp := ToRsaParameters(key).value;
      && ValueOf(rp.modulus) == key.modulus && ValueOf(rp.exponent) == key.publicExponent
      && ValueOf(rp.p) == key.p && ValueOf(rp.q) == key.q
      && ValueOf(rp.d) == key.exponent && ValueOf(rp.dp) == key.dp
      && ValueOf(rp.dq) == key.dq && ValueOf(rp.inverseQ) == key.qInv
  {
    var rp := ToRsaParameters(key).value;
    UnsignedBytesRoundTrip(key.modulus);
    UnsignedBytesRoundTrip(key.publicExponent);
    UnsignedBytesRoundTrip(key.p);
    UnsignedBytesRoundTrip(key.q);
    UnsignedBytesRoundTrip(key.exponent);
    UnsignedBytesRoundTrip(key.dp);
    UnsignedBytesRoundTrip(key.dq);
    UnsignedBytesRoundTrip(key.qInv);
    PaddedFieldPreservesValue(UnsignedBytes(key.exponent), |rp.modulus|);
    PaddedFieldPreservesValue(UnsignedBytes(key.dp), |rp.p|);
    PaddedFieldPreservesValue(UnsignedBytes(key.dq), |rp.q|);
    PaddedFieldPreservesValue(UnsignedBytes(key.qInv), |rp.q|);
  }

  /** The conversion fails exactly when a private field is numerically too large
      for the byte length of its reference field. */
  lemma ToRsaParametersFailsIffOversized(key: RsaPrivateCrtKey)
    ensures ToRsaParameters(key).Failure? <==>
      || key.exponent >= Pow256(|UnsignedBytes(key.modulus)|)
      || key.dp >= Pow256(|UnsignedBytes(key.p)|)
      || key.dq >= Pow256(|UnsignedBytes(key.q)|)
      || key.qInv >= Pow256(|UnsignedBytes(key.q)|)
  {
    UnsignedBytesFits(key.exponent, |UnsignedBytes(key.modulus)|);
    UnsignedBytesFits(key.dp, |UnsignedBytes(key.p)|);
    UnsignedBytesFits(key.dq, |UnsignedBytes(key.q)|);
    UnsignedBytesFits(key.qInv, |UnsignedBytes(key.q)|);
  }
}
