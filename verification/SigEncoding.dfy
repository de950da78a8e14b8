/** Encodings a signature or public key must have before it is checked. */
module SigEncoding {

  import opened Prelude
  import opened ScriptNum

  predicate IsCompressedOrUncompressedPubKey(key: Element)
  {
    if |key| < 33 then false
    else if key[0] == 0x04 then |key| == 65
    else if key[0] == 0x02 || key[0] == 0x03 then |key| == 33
    else false
  }

  predicate IsValidSignatureEncoding(sig: Element)
  {
    if |sig| < 9 then false
    else if |sig| > 73 then false
    else if sig[0] != 0x30 then false
    else if sig[1] != |sig| - 3 then false
    else
      var lenR := sig[3];
      if 5 + lenR >= |sig| then false
      else
        var lenS := sig[5 + lenR];
        if lenR + lenS + 7 != |sig| then false
        else if sig[2] != 0x02 then false
        else if lenR == 0 then false
        else if sig[4] >= 0x80 then false
        else if lenR > 1 && sig[4] == 0x00 && sig[5] < 0x80 then false
        else if sig[lenR + 4] != 0x02 then false
        else if lenS == 0 then false
        else if sig[lenR + 6] >= 0x80 then false
        else if lenS > 1 && sig[lenR + 6] == 0x00 && sig[lenR + 7] < 0x80 then false
        else true
  }

  /** A non-negative integer written with no byte to spare, most significant byte first. */
  predicate DerInteger(n: seq<byte>)
  {
    n != [] && n[0] < 0x80 && (|n| > 1 && n[0] == 0 ==> n[1] >= 0x80)
  }

  /** The DER sequence of two integers, followed by a hash-type byte. */
  function DerSignature(r: seq<byte>, s: seq<byte>, hashType: byte): Element
    requires |r| < 128 && |s| < 120
  {
    [0x30, |r| + |s| + 4, 0x02, |r|] + r + [0x02, |s|] + s + [hashType]
  }

  ghost predicate IsDerSignature(sig: Element)
  {
    exists r: seq<byte>, s: seq<byte>, hashType: byte ::
      |r| < 128 && |s| < 120 && DerInteger(r) && DerInteger(s) && sig == DerSignature(r, s, hashType)
  }

  function PartR(sig: Element): seq<byte>
    requires IsValidSignatureEncoding(sig)
  {
    sig[4..4 + sig[3]]
  }

  function PartS(sig: Element): seq<byte>
    requires IsValidSignatureEncoding(sig)
  {
    sig[6 + sig[3]..|sig| - 1]
  }

  lemma ValidIsDer(sig: Element)
    requires IsValidSignatureEncoding(sig)
    ensures IsDerSignature(sig)
  {
    var r, s, h := PartR(sig), PartS(sig), sig[|sig| - 1];
    assert |r| == sig[3] && |s| == sig[5 + sig[3]];
    assert r[0] == sig[4] && s[0] == sig[6 + sig[3]];
    assert |s| > 1 ==> s[1] == sig[7 + sig[3]];
    var d := DerSignature(r, s, h);
    assert |d| == |sig|;
    SamePieces(sig, d);
    assert sig == d;
  }

  lemma SamePieces(a: Element, b: Element)
    requires IsValidSignatureEncoding(a) && |a| == |b|
    requires b == DerSignature(PartR(a), PartS(a), a[|a| - 1])
    ensures a == b
  {
    var n := a[3];
    assert a[..4] == b[..4];
    assert b[4..4 + n] == PartR(a);
    assert b[4 + n] == 0x02 && b[5 + n] == |PartS(a)|;
    assert b[6 + n..|a| - 1] == PartS(a);
    assert b[|a| - 1] == a[|a| - 1];
    forall k | 0 <= k < |a|
      ensures a[k] == b[k]
    {
      if k < 4 {
        assert a[k] == a[..4][k] && b[k] == b[..4][k];
      } else if k < 4 + n {
        assert a[k] == PartR(a)[k - 4] && b[k] == b[4..4 + n][k - 4];
      } else if k < 6 + n {
      } else if k < |a| - 1 {
        assert a[k] == PartS(a)[k - 6 - n] && b[k] == b[6 + n..|a| - 1][k - 6 - n];
      }
    }
  }

  lemma DerIsValid(r: seq<byte>, s: seq<byte>, hashType: byte)
    requires |r| < 128 && |s| < 120 && DerInteger(r) && DerInteger(s)
    requires |DerSignature(r, s, hashType)| <= 73
    ensures IsValidSignatureEncoding(DerSignature(r, s, hashType))
  {
    var d := DerSignature(r, s, hashType);
    var n := |r|;
    assert d[0] == 0x30 && d[1] == |d| - 3 && d[2] == 0x02 && d[3] == n;
    assert d[4] == r[0] && (n > 1 ==> d[5] == r[1]);
    assert d[4 + n] == 0x02 && d[5 + n] == |s|;
    assert d[6 + n] == s[0] && (|s| > 1 ==> d[7 + n] == s[1]);
  }

  /** The byte-by-byte test accepts exactly the DER signatures of at most 73 bytes. */
  lemma ValidEncodingIff(sig: Element)
    ensures IsValidSignatureEncoding(sig) <==> |sig| <= 73 && IsDerSignature(sig)
  {
    hide IsValidSignatureEncoding, DerSignature, DerInteger;
    if IsValidSignatureEncoding(sig) {
      ValidIsDer(sig);
      ValidIsShort(sig);
    } else if |sig| <= 73 && IsDerSignature(sig) {
      var r: seq<byte>, s: seq<byte>, hashType: byte :|
        |r| < 128 && |s| < 120 && DerInteger(r) && DerInteger(s) && sig == DerSignature(r, s, hashType);
      DerIsValid(r, s, hashType);
      assert false;
    }
  }

  lemma ValidIsShort(sig: Element)
    requires IsValidSignatureEncoding(sig)
    ensures |sig| <= 73
  {
  }
}
