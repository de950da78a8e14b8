/** SHA-256 buffering and padding around an abstract compression function. */
module Sha256 {

  import opened Prelude
  import opened Bits
  import opened BitStream

  type Words = seq<nat>

  type Compression = (Words, seq<byte>) -> Words

  const BLOCK: nat := 64

  /** The compression function folded over the whole blocks of a message. */
  function Fold(f: Compression, h: Words, m: seq<byte>): Words
    decreases |m|
  {
    if |m| < BLOCK then h else Fold(f, f(h, m[..BLOCK]), m[BLOCK..])
  }

  /** What is left after the whole blocks. */
  function Tail(m: seq<byte>): (r: seq<byte>)
    ensures |r| == |m| % BLOCK && |r| <= |m|
    ensures r == m[|m| - |r|..]
  {
    m[|m| - |m| % BLOCK..]
  }

  // ---------------------------------------------------------------- folding in parts

  /** Whole blocks can be folded first. */
  lemma {:induction false} FoldParts(f: Compression, h: Words, a: seq<byte>, b: seq<byte>)
    requires |a| % BLOCK == 0
    ensures Fold(f, h, a + b) == Fold(f, Fold(f, h, a), b)
    decreases |a|
  {
    if |a| == 0 {
      assert a + b == b;
    } else {
      assert (a + b)[..BLOCK] == a[..BLOCK] && (a + b)[BLOCK..] == a[BLOCK..] + b;
      FoldParts(f, f(h, a[..BLOCK]), a[BLOCK..], b);
    }
  }

  lemma FoldOne(f: Compression, h: Words, block: seq<byte>)
    requires |block| == BLOCK
    ensures Fold(f, h, block) == f(h, block)
  {
    assert block[..BLOCK] == block;
  }

  /** The state so far and the tail carry all there is to know about what was written. */
  lemma FoldResume(f: Compression, h: Words, m: seq<byte>, data: seq<byte>)
    ensures Fold(f, h, m + data) == Fold(f, Fold(f, h, m), Tail(m) + data)
  {
    hide Fold;
    var whole := m[..|m| - |Tail(m)|];
    assert m == whole + Tail(m);
    SeqAssoc(whole, Tail(m), data);
    FoldParts(f, h, whole, Tail(m) + data);
    FoldParts(f, h, whole, Tail(m));
    FoldShort(f, Fold(f, h, whole), Tail(m));
  }

  lemma FoldShort(f: Compression, h: Words, m: seq<byte>)
    requires |m| < BLOCK
    ensures Fold(f, h, m) == h
  {
  }

  lemma TailResume(m: seq<byte>, data: seq<byte>)
    ensures Tail(m + data) == Tail(Tail(m) + data)
  {
    var n := |Tail(m)|;
    assert (m + data)[|m| - n..] == Tail(m) + data;
    assert |m + data| % BLOCK == |Tail(m) + data| % BLOCK;
  }

  // ---------------------------------------------------------------- padding

  /** Zero bytes after the marker. */
  function PadZeros(n: nat): (k: nat)
    ensures k < BLOCK
  {
    (119 - n % BLOCK) % BLOCK
  }

  /** The number of zero bytes leaves room for exactly the length field, and no smaller number does. */
  lemma PadZerosLeast(n: nat, k: nat)
    ensures (n + 1 + PadZeros(n)) % BLOCK == 56
    ensures k < PadZeros(n) ==> (n + 1 + k) % BLOCK != 56
  {
    var r := n % BLOCK;
    assert n == BLOCK * (n / BLOCK) + r;
  }

  function Zeros(k: nat): seq<byte> { seq(k, _ => 0) }

  /** Padding of section 5.1.1 of FIPS 180-4, on whole bytes. */
  function Padded(m: seq<byte>): seq<byte>
  {
    m + [0x80] + Zeros(PadZeros(|m|)) + BytesBE((8 * |m|) % 0x1_0000_0000_0000_0000, 8)
  }

  // The padding rule itself, on bits.

  /** With k zeros after the marker, 64 bits of a block are left. */
  predicate LeavesLengthField(l: nat, k: nat) { (l + 1 + k) % 512 == 448 }

  predicate LeastZeros(l: nat, k: nat)
  {
    LeavesLengthField(l, k) && forall j :: 0 <= j < k ==> !LeavesLengthField(l, j)
  }

  function ZeroBits(n: nat): seq<bool> { seq(n, _ => false) }

  /** Section 5.1.1 of FIPS 180-4: a one, the least number of zeros, and the length in 64 bits. */
  ghost predicate IsPadded(message: seq<bool>, bits: seq<bool>)
  {
    exists k: nat, field: seq<bool> ::
      && bits == message + [true] + ZeroBits(k) + field && LeastZeros(|message|, k)
      && |field| == 64 && ValueOf(field) == |message| % 0x1_0000_0000_0000_0000
  }

  lemma {:induction false} ZerosStream(k: nat)
    ensures ToStream(Zeros(k), 8) == ZeroBits(8 * k)
    decreases k
  {
    if k == 0 {
    } else {
      ZerosStream(k - 1);
      assert Zeros(k) == [0] + Zeros(k - 1);
      ZeroByte();
      assert ZeroBits(8 * k) == ZeroBits(8) + ZeroBits(8 * (k - 1));
    }
  }

  lemma ZeroByte()
    ensures BitsOf(0, 8) == ZeroBits(8)
    ensures BitsOf(0x80, 8) == [true] + ZeroBits(7)
  {
    hide BitsOf;
    BitsStep(0x80, 8); BitsStep(0x40, 7); BitsStep(0x20, 6); BitsStep(0x10, 5);
    BitsStep(8, 4); BitsStep(4, 3); BitsStep(2, 2); BitsStep(1, 1);
    BitsStep(0, 8); BitsStep(0, 7); BitsStep(0, 6); BitsStep(0, 5);
    BitsStep(0, 4); BitsStep(0, 3); BitsStep(0, 2); BitsStep(0, 1);
    assert BitsOf(0, 0) == [];
  }

  lemma ZeroBitsLeast(n: nat)
    ensures LeastZeros(8 * n, 7 + 8 * PadZeros(n))
  {
    hide PadZeros;
    var k := 7 + 8 * PadZeros(n);
    PadZerosLeast(n, 0);
    EightTimes(n + 1 + PadZeros(n));
    forall j | 0 <= j < k ensures !LeavesLengthField(8 * n, j) {
      if LeavesLengthField(8 * n, j) {
        EighthFits(n, j);
        PadZerosLeast(n, (j - 7) / 8);
        assert false;
      }
    }
  }

  lemma EightTimes(x: nat)
    requires x % BLOCK == 56
    ensures 8 * x % 512 == 448
  {
  }

  /** Zeros after a whole number of bytes end on a byte. */
  lemma EighthFits(n: nat, j: nat)
    requires LeavesLengthField(8 * n, j)
    ensures j >= 7 && j == 7 + 8 * ((j - 7) / 8) && (n + 1 + (j - 7) / 8) % BLOCK == 56
  {
    var q := (8 * n + 1 + j) / 512;
    assert 8 * n + 1 + j == 512 * q + 448;
    var i := 64 * q + 56 - n - 1;
    assert j == 7 + 8 * i;
    assert n + 1 + i == BLOCK * q + 56;
  }

  lemma LengthField(n: nat)
    ensures var field := ToStream(BytesBE((8 * n) % 0x1_0000_0000_0000_0000, 8), 8);
            |field| == 64 && ValueOf(field) == (8 * n) % 0x1_0000_0000_0000_0000
  {
    hide BitsOf, ToStream, ValueOf, Low;
    var v := (8 * n) % 0x1_0000_0000_0000_0000;
    BytesStream(v, 8);
    ValueOfBits(v, 64);
    WordIsPow2();
    LowSmall(v, 64);
  }

  lemma WordIsPow2()
    ensures Pow2(32) == 0x1_0000_0000 && Pow2(64) == 0x1_0000_0000_0000_0000
  {
    assert Pow2(8) == 0x100;
    assert Pow2(16) == 0x1_0000;
    assert Pow2(24) == 0x100_0000;
    assert Pow2(32) == 0x1_0000_0000;
    assert Pow2(40) == 0x100_0000_0000;
    assert Pow2(48) == 0x1_0000_0000_0000;
    assert Pow2(56) == 0x100_0000_0000_0000;
  }

  /** The bytes written by Finalize are the padding the standard prescribes. */
  lemma PaddedIsStandard(m: seq<byte>)
    ensures IsPadded(ToStream(m, 8), ToStream(Padded(m), 8))
  {
    hide ToStream, ValueOf, BitsOf, LeastZeros, PadZeros, BytesBE;
    var k := PadZeros(|m|);
    var size := BytesBE((8 * |m|) % 0x1_0000_0000_0000_0000, 8);
    var field := ToStream(size, 8);
    ToStreamConcat(m + [0x80] + Zeros(k), size, 8);
    ToStreamConcat(m + [0x80], Zeros(k), 8);
    ToStreamSnoc(m, 0x80, 8);
    ZerosStream(k);
    ZeroByte();
    StreamLength(m, 8);
    ZeroBitsLeast(|m|);
    LengthField(|m|);
    var zeros := 7 + 8 * k;
    assert [true] + ZeroBits(7) + ZeroBits(8 * k) == [true] + ZeroBits(zeros);
    assert ToStream(Padded(m), 8) == ToStream(m, 8) + [true] + ZeroBits(zeros) + field;
  }

  lemma PaddedWhole(m: seq<byte>)
    ensures |Padded(m)| % BLOCK == 0
  {
    hide PadZeros;
    PadZerosLeast(|m|, 0);
    EightMore(|m| + 1 + PadZeros(|m|));
    assert |Padded(m)| == |m| + 1 + PadZeros(|m|) + 8;
  }

  lemma EightMore(n: nat)
    requires n % BLOCK == 56
    ensures (n + 8) % BLOCK == 0
  {
  }

  function Digest(s: Words): seq<byte>
  {
    if s == [] then [] else BytesBE(s[0], 4) + Digest(s[1..])
  }

  /** Each word is written most significant byte first, in its own four bytes. */
  lemma {:induction false} DigestWord(s: Words, i: nat)
    requires i < |s| && s[i] < 0x1_0000_0000
    ensures |Digest(s)| == 4 * |s| && ValueBE(Digest(s)[4 * i..4 * i + 4]) == s[i]
    decreases |s|
  {
    hide ValueBE, BytesBE;
    DigestLength(s);
    var rest := Digest(s[1..]);
    if i == 0 {
      assert Digest(s)[..4] == BytesBE(s[0], 4);
      WordIsPow2();
      ValueOfBytes(s[0], 4);
    } else {
      DigestWord(s[1..], i - 1);
      assert Digest(s)[4 * i..4 * i + 4] == rest[4 * (i - 1)..4 * (i - 1) + 4];
    }
  }

  lemma {:induction false} DigestLength(s: Words)
    ensures |Digest(s)| == 4 * |s|
  {
    if s == [] {
    } else {
      DigestLength(s[1..]);
    }
  }

  // ---------------------------------------------------------------- the hasher

  class Hasher {
    const f: Compression
    const initial: Words
    var s: Words
    const buf: array<byte>
    var bytes: nat
    ghost var message: seq<byte>

    /** The state is a function of the concatenation of everything written. */
    ghost predicate Valid()
      reads this, buf
    {
      && buf.Length == BLOCK && bytes == |message|
      && s == Fold(f, initial, message)
      && buf[..bytes % BLOCK] == Tail(message)
    }

    constructor (f: Compression, initial: Words)
      ensures Valid() && fresh(buf) && message == [] && this.f == f && this.initial == initial
    {
      this.f, this.initial := f, initial;
      s, bytes, message := initial, 0, [];
      buf := new byte[BLOCK](_ => 0);
    }

    method Reset()
      requires Valid()
      modifies this
      ensures Valid() && message == []
    {
      bytes := 0;
      s := initial;
      message := [];
    }

    method Write(data: seq<byte>)
      requires Valid()
      modifies this, buf
      ensures Valid() && message == old(message) + data
    {
      hide Fold, Tail;
      ghost var whole := message + data;
      var pos, bufsize := TopUp(data);
      if bufsize == 0 {
        assert buf[..0] + data[pos..] == data[pos..];
        pos := Blocks(data, pos);
      } else {
        FoldShort(f, s, buf[..bufsize] + data[pos..]);
        TailShort(buf[..bufsize] + data[pos..]);
      }
      Rest(bufsize, data[pos..], whole);
      message := whole;
    }

    /** What is left over goes into the buffer. */
    method Rest(bufsize: nat, data: seq<byte>, ghost whole: seq<byte>)
      requires buf.Length == BLOCK && bufsize + |data| < BLOCK && bytes + |data| == |whole|
      requires buf[..bufsize] + data == Tail(whole)
      modifies this`bytes, buf
      ensures bytes == |whole| && buf[..bytes % BLOCK] == Tail(whole)
    {
      hide Tail;
      TailLength(whole);
      if |data| > 0 {
        Fill(bufsize, data);
        bytes := bytes + |data|;
      } else {
        assert buf[..bufsize] + data == buf[..bufsize];
      }
    }

    /** Completes a partly filled buffer if there is enough input for it. */
    method TopUp(data: seq<byte>) returns (pos: nat, bufsize: nat)
      requires Valid()
      modifies this`s, this`bytes, buf
      ensures pos <= |data| && bytes == old(bytes) + pos
      ensures bufsize == 0 || bufsize + |data| - pos < BLOCK
      ensures bufsize == bytes % BLOCK
      ensures Fold(f, s, buf[..bufsize] + data[pos..]) == Fold(f, initial, message + data)
      ensures Tail(buf[..bufsize] + data[pos..]) == Tail(message + data)
    {
      hide Fold, Tail;
      FoldResume(f, initial, message, data);
      TailResume(message, data);
      TailLength(message);
      bufsize := bytes % BLOCK;
      ghost var t := Tail(message) + data;
      pos := 0;
      assert data[0..] == data;
      if bufsize != 0 && bufsize + |data| >= BLOCK {
        pos := BLOCK - bufsize;
        Fill(bufsize, data[..pos]);
        assert buf[..] == t[..BLOCK];
        FoldStep(f, s, t);
        TailStep(t);
        s := f(s, buf[..]);
        bytes := bytes + pos;
        bufsize := 0;
        assert buf[..0] + data[pos..] == t[BLOCK..];
      }
    }

    /** Whole blocks straight from the input. */
    method Blocks(data: seq<byte>, from: nat) returns (pos: nat)
      requires from <= |data|
      modifies this`s, this`bytes
      ensures from <= pos <= |data| && |data| - pos < BLOCK
      ensures Fold(f, s, data[pos..]) == Fold(f, old(s), data[from..]) && s == Fold(f, old(s), data[from..])
      ensures data[pos..] == Tail(data[from..])
      ensures bytes == old(bytes) + pos - from
    {
      hide Fold, Tail;
      pos := from;
      while |data| >= pos + BLOCK
        invariant from <= pos <= |data|
        invariant Fold(f, s, data[pos..]) == Fold(f, old(s), data[from..])
        invariant Tail(data[pos..]) == Tail(data[from..])
        invariant bytes == old(bytes) + pos - from
      {
        FoldStep(f, s, data[pos..]);
        TailStep(data[pos..]);
        assert data[pos..][..BLOCK] == data[pos..pos + BLOCK] && data[pos..][BLOCK..] == data[pos + BLOCK..];
        s := f(s, data[pos..pos + BLOCK]);
        bytes := bytes + BLOCK;
        pos := pos + BLOCK;
      }
      FoldShort(f, s, data[pos..]);
      TailShort(data[pos..]);
    }

    method Fill(at: nat, data: seq<byte>)
      requires buf.Length == BLOCK && at + |data| <= BLOCK
      modifies buf
      ensures buf[..at + |data|] == old(buf[..at]) + data
    {
      for i := 0 to |data|
        invariant buf[..at + i] == old(buf[..at]) + data[..i]
      {
        buf[at + i] := data[i];
        assert buf[..at + i + 1] == buf[..at + i] + [data[i]];
      }
    }

    /** Pads, absorbs the padding, and returns the digest of the padded message. */
    method Finalize() returns (hash: seq<byte>)
      requires Valid()
      modifies this, buf
      ensures Valid() && message == Padded(old(message)) && |message| % BLOCK == 0
      ensures hash == Digest(Fold(f, initial, Padded(old(message))))
      ensures IsPadded(ToStream(old(message), 8), ToStream(message, 8))
    {
      hide Fold, Digest, IsPadded, ToStream;
      var sizedesc := BytesBE((8 * bytes) % 0x1_0000_0000_0000_0000, 8);
      ghost var m := message;
      PaddedWhole(m);
      PaddedIsStandard(m);
      var pad := [0x80] + Zeros((119 - bytes % BLOCK) % BLOCK);
      Write(pad);
      Write(sizedesc);
      assert message == Padded(m) by { SeqAssoc(m, [0x80], Zeros(PadZeros(|m|))); }
      var r := FinalizeNoPadding(false);
      hash := r.value;
    }

    /** The digest of the state as it stands; one full block is demanded when asked for. */
    method FinalizeNoPadding(enforceCompression: bool) returns (r: Result<seq<byte>, string>)
      requires Valid()
      ensures r.Err? <==> enforceCompression && |message| != BLOCK
      ensures r.Ok? ==> r.value == Digest(Fold(f, initial, message))
      ensures r.Ok? && enforceCompression ==> r.value == Digest(f(initial, message))
    {
      hide Fold;
      if enforceCompression && bytes != BLOCK {
        return Err("SHA256Compress should be invoked with a 512-bit block");
      }
      if enforceCompression { FoldOne(f, initial, message); }
      var hash: seq<byte> := [];
      var i := 0;
      assert s[0..] == s;
      while i < |s|
        invariant i <= |s| && hash + Digest(s[i..]) == Digest(s)
      {
        assert s[i..][0] == s[i] && s[i..][1..] == s[i + 1..];
        SeqAssoc(hash, BytesBE(s[i], 4), Digest(s[i + 1..]));
        hash := hash + BytesBE(s[i], 4);
        i := i + 1;
      }
      return Ok(hash);
    }
  }

  lemma TailLength(m: seq<byte>)
    ensures |Tail(m)| == |m| % BLOCK
  {
  }

  lemma FoldStep(f: Compression, h: Words, m: seq<byte>)
    requires |m| >= BLOCK
    ensures Fold(f, h, m) == Fold(f, f(h, m[..BLOCK]), m[BLOCK..])
  {
  }

  lemma TailStep(m: seq<byte>)
    requires |m| >= BLOCK
    ensures Tail(m) == Tail(m[BLOCK..])
  {
  }

  lemma TailShort(m: seq<byte>)
    requires |m| < BLOCK
    ensures Tail(m) == m
  {
  }
}
