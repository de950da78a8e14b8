/** Sequences of fixed-width numbers read as one big-endian bit stream, and back. */
module BitStream {
  import opened Prelude
  import opened Bits

  function ToStream(xs: seq<nat>, n: nat): seq<bool>
  {
    if xs == [] then [] else BitsOf(xs[0], n) + ToStream(xs[1..], n)
  }

  lemma {:induction false} StreamLength(xs: seq<nat>, n: nat)
    ensures |ToStream(xs, n)| == n * |xs|
  {
    if xs == [] {
    } else {
      StreamLength(xs[1..], n);
      assert n * |xs| == n + n * (|xs| - 1);
    }
  }

  /** Consecutive groups of n bits; an incomplete last group is dropped. */
  function FromStream(bs: seq<bool>, n: nat): (xs: seq<nat>)
    requires n >= 1
    ensures forall i :: 0 <= i < |xs| ==> xs[i] < Pow2(n)
  {
    if |bs| < n then [] else [ValueOf(bs[..n])] + FromStream(bs[n..], n)
  }

  lemma {:induction false} GroupCount(bs: seq<bool>, n: nat)
    requires n >= 1
    ensures var q := |FromStream(bs, n)|;
            q * n <= |bs| < (q + 1) * n
    decreases |bs|
  {
    if |bs| < n {
    } else {
      GroupCount(bs[n..], n);
      var q := |FromStream(bs[n..], n)|;
      assert (q + 1) * n == q * n + n && (q + 2) * n == (q + 1) * n + n;
    }
  }

  lemma {:induction false} ToStreamSnoc(xs: seq<nat>, x: nat, n: nat)
    ensures ToStream(xs + [x], n) == ToStream(xs, n) + BitsOf(x, n)
  {
    if xs == [] {
      assert [x][1..] == [];
    } else {
      assert (xs + [x])[1..] == xs[1..] + [x];
      ToStreamSnoc(xs[1..], x, n);
    }
  }

  lemma {:induction false} ToStreamConcat(a: seq<nat>, b: seq<nat>, n: nat)
    ensures ToStream(a + b, n) == ToStream(a, n) + ToStream(b, n)
  {
    if a == [] {
      assert a + b == b;
    } else {
      assert (a + b)[1..] == a[1..] + b;
      ToStreamConcat(a[1..], b, n);
    }
  }

  /** The bits of a number's bytes are the bits of the number. */
  lemma {:induction false} BytesStream(v: nat, w: nat)
    ensures ToStream(BytesBE(v, w), 8) == BitsOf(v, 8 * w)
    decreases w
  {
    hide BitsOf, Low, Shr;
    if w == 0 {
      assert BitsOf(v, 0) == [];
    } else {
      BytesStream(v / 256, w - 1);
      ToStreamSnoc(BytesBE(v / 256, w - 1), v % 256, 8);
      ByteSplit(v);
      BitsOfLow(v, 8, 8);
      BitsSplit(v, 8 * w - 8, 8);
    }
  }

  /** Regrouping in the same width recovers the numbers, whatever incomplete group follows. */
  lemma {:induction false} FromToStream(xs: seq<nat>, n: nat, rest: seq<bool>)
    requires n >= 1 && |rest| < n && forall i :: 0 <= i < |xs| ==> xs[i] < Pow2(n)
    ensures FromStream(ToStream(xs, n) + rest, n) == xs
    decreases |xs|
  {
    var bs := ToStream(xs, n) + rest;
    if xs == [] {
    } else {
      assert bs[..n] == BitsOf(xs[0], n);
      assert bs[n..] == ToStream(xs[1..], n) + rest;
      ValueOfBits(xs[0], n);
      LowSmall(xs[0], n);
      FromToStream(xs[1..], n, rest);
    }
  }

  /** A stream of whole groups is the stream of its groups. */
  lemma {:induction false} ToFromStream(bs: seq<bool>, n: nat, m: nat)
    requires n >= 1 && |bs| == m * n
    ensures |FromStream(bs, n)| == m
    ensures ToStream(FromStream(bs, n), n) == bs
    decreases m
  {
    hide ValueOf, BitsOf;
    if m == 0 {
    } else {
      PeelOne(m, n);
      BitsOfValue(bs[..n]);
      ToFromStream(bs[n..], n, m - 1);
      var xs := FromStream(bs, n);
      assert xs[1..] == FromStream(bs[n..], n);
      assert bs == bs[..n] + bs[n..];
    }
  }
}
