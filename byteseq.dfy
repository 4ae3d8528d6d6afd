/** Byte strings: big-endian digits of a number, and the zero padding and
    trimming used by fixed-length text fields. */
module ByteSeq {

  /** Go's `byte` (an alias of `uint8`). */
  type byte = x: int | 0 <= x < 256

  /** 256 to the power k: the number of values a k-byte integer can hold. */
  function Pow256(k: nat): (p: nat)
    ensures p > 0
  {
    if k == 0 then 1 else 256 * Pow256(k - 1)
  }

  /** The number whose big-endian base-256 digits are `b`. */
  function ToNatBE(b: seq<byte>): nat
  {
    if b == [] then 0 else ToNatBE(b[..|b| - 1]) * 256 + b[|b| - 1]
  }

  /** The k lowest base-256 digits of u, most significant first. */
  function FromNatBE(u: nat, k: nat): (b: seq<byte>)
    ensures |b| == k
  {
    if k == 0 then [] else FromNatBE(u / 256, k - 1) + [u % 256]
  }

  function Reverse<T>(s: seq<T>): (r: seq<T>)
    ensures |r| == |s|
    ensures forall i :: 0 <= i < |s| ==> r[i] == s[|s| - 1 - i]
  {
    if s == [] then [] else Reverse(s[1..]) + [s[0]]
  }

  lemma ReverseReverse<T>(s: seq<T>)
    ensures Reverse(Reverse(s)) == s
  {
  }

  /** A k-byte string has a value below 256^k. */
  lemma {:induction false} ToNatBEBound(b: seq<byte>)
    ensures ToNatBE(b) < Pow256(|b|)
  {
    if b != [] {
      ToNatBEBound(b[..|b| - 1]);
    }
  }

  /** Writing the value of b back out in |b| digits gives b itself. */
  lemma {:induction false} FromToNatBE(b: seq<byte>)
    ensures FromNatBE(ToNatBE(b), |b|) == b
  {
    if b != [] {
      var init, last := b[..|b| - 1], b[|b| - 1];
      var u := ToNatBE(b);
      assert u / 256 == ToNatBE(init) && u % 256 == last;
      FromToNatBE(init);
      assert b == init + [last];
    }
  }

  /** Reading back the k digits of a number below 256^k gives the number. */
  lemma {:induction false} ToFromNatBE(u: nat, k: nat)
    requires u < Pow256(k)
    ensures ToNatBE(FromNatBE(u, k)) == u
  {
    if k > 0 {
      var b := FromNatBE(u, k);
      assert b[..k - 1] == FromNatBE(u / 256, k - 1);
      ToFromNatBE(u / 256, k - 1);
    }
  }

  /** Digit i of the big-endian form (counting from the most significant)
      is the base-256 digit of weight 256^(k-1-i). */
  lemma {:induction false} FromNatBEDigit(u: nat, k: nat, i: nat)
    requires i < k
    ensures FromNatBE(u, k)[i] == (u / Pow256(k - 1 - i)) % 256
  {
    if i < k - 1 {
      FromNatBEDigit(u / 256, k - 1, i);
      DivDiv(u, Pow256(k - 2 - i));
    }
  }

  lemma DivDiv(u: nat, p: nat)
    requires p > 0
    ensures u / 256 / p == u / (256 * p)
  {
    var q, r := u / (256 * p), u % (256 * p);
    var r1, r0 := r / 256, r % 256;
    assert r == 256 * r1 + r0;
    assert r1 < p;
    assert u == 256 * (p * q + r1) + r0 by {
      assert u == (256 * p) * q + r;
    }
    DivUnique(u, 256, p * q + r1, r0);
    DivUnique(p * q + r1, p, q, r1);
  }

  lemma DivUnique(a: int, d: int, q: int, r: int)
    requires d > 0 && 0 <= r < d && a == d * q + r
    ensures a / d == q
  {
    var q', r' := a / d, a % d;
    assert a == d * q' + r';
    if q' > q {
      assert d * (q + 1) == d * q + d;
      MulMono(d, q + 1, q');
    } else if q' < q {
      assert d * (q' + 1) == d * q' + d;
      MulMono(d, q' + 1, q);
    }
  }

  lemma MulMono(d: nat, x: int, y: int)
    requires x <= y
    ensures d * x <= d * y
  {
    assert d * y - d * x == d * (y - x);
  }

  /** n zero bytes. */
  function Zeros(n: nat): (z: seq<byte>)
    ensures |z| == n
    ensures forall i :: 0 <= i < n ==> z[i] == 0
  {
    if n == 0 then [] else Zeros(n - 1) + [0]
  }

  /** `b` with its trailing run of zero bytes removed. */
  function TrimZeros(b: seq<byte>): (t: seq<byte>)
    ensures |t| <= |b| && NoTrailingZero(t)
  {
    if b != [] && b[|b| - 1] == 0 then TrimZeros(b[..|b| - 1]) else b
  }

  /** No zero byte at the end (the empty string included). */
  predicate NoTrailingZero(t: seq<byte>)
  {
    t == [] || t[|t| - 1] != 0
  }

  /** TrimZeros removes exactly a run of zeros from the end, and what it
      keeps does not end in a zero. */
  lemma {:induction false} TrimZerosSpec(b: seq<byte>)
    ensures |TrimZeros(b)| <= |b|
    ensures b == TrimZeros(b) + Zeros(|b| - |TrimZeros(b)|)
    ensures NoTrailingZero(TrimZeros(b))
  {
    if b != [] && b[|b| - 1] == 0 {
      var init := b[..|b| - 1];
      TrimZerosSpec(init);
      assert b == init + [0];
    }
  }

  /** Those properties determine TrimZeros: any split of b into a text that
      does not end in zero followed by zeros is the one TrimZeros finds. */
  lemma {:induction false} TrimZerosUnique(t: seq<byte>, k: nat)
    requires NoTrailingZero(t)
    ensures TrimZeros(t + Zeros(k)) == t
  {
    if k > 0 {
      var b := t + Zeros(k);
      assert b[..|b| - 1] == t + Zeros(k - 1);
      TrimZerosUnique(t, k - 1);
    } else {
      assert t + Zeros(0) == t;
    }
  }

  /** The first min(|s|, n) bytes of s followed by zeros up to n bytes: what
      copying s into a zero-filled n-byte buffer leaves there. */
  function PadTo(s: seq<byte>, n: nat): (p: seq<byte>)
    ensures |p| == n
  {
    if |s| <= n then s + Zeros(n - |s|) else s[..n]
  }

  lemma PadToSpec(s: seq<byte>, n: nat)
    ensures |PadTo(s, n)| == n
    ensures forall i :: 0 <= i < n ==> PadTo(s, n)[i] == if i < |s| then s[i] else 0
  {
  }

  /** Trimming a padded text gives back the text exactly when it fits and
      does not itself end in a zero byte. */
  lemma {:induction false} TrimPad(s: seq<byte>, n: nat)
    ensures TrimZeros(PadTo(s, n)) == s <==> |s| <= n && NoTrailingZero(s)
  {
    if |s| <= n && NoTrailingZero(s) {
      TrimZerosUnique(s, n - |s|);
    }
    if TrimZeros(PadTo(s, n)) == s {
      TrimZerosSpec(PadTo(s, n));
      assert |s| <= n;
    }
  }

  /** What trimming keeps is trimmed already, however long the buffer was. */
  lemma TrimPadTrim(b: seq<byte>, n: nat)
    requires |b| <= n
    ensures TrimZeros(PadTo(TrimZeros(b), n)) == TrimZeros(b)
  {
    TrimZerosSpec(b);
    TrimPad(TrimZeros(b), n);
  }

  /** Padding a trimmed buffer back to its length gives the buffer. */
  lemma PadTrim(b: seq<byte>)
    ensures PadTo(TrimZeros(b), |b|) == b
  {
    TrimZerosSpec(b);
  }

  /** Zero bytes added at the end make no difference to the trimmed text. */
  lemma {:induction false} TrimZerosPadded(t: seq<byte>, k: nat)
    ensures TrimZeros(t + Zeros(k)) == TrimZeros(t)
  {
    if k > 0 {
      var b := t + Zeros(k);
      assert b[..|b| - 1] == t + Zeros(k - 1);
      TrimZerosPadded(t, k - 1);
    } else {
      assert t + Zeros(0) == t;
    }
  }
}
