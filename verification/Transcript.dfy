/**
  The Fiat-Shamir transcript of zkp_compliance.py: `_int_bytes`, the length-prefixed
  framing of `_hash_to_scalar`, and the preimage hashed for one bit proof.
*/
module Transcript {
  import opened Arithmetic

  // value.to_bytes((value.bit_length() + 7) // 8 or 1, "big")
  function IntBytes(v: nat): (b: seq<byte>)
    ensures |b| > 0
  {
    if v < 256 then [v as byte] else IntBytes(v / 256) + [(v % 256) as byte]
  }

  // n.to_bytes(width, "big"), on the n that fit
  function FixedBytes(n: nat, width: nat): (b: seq<byte>)
    ensures |b| == width
  {
    if width == 0 then [] else FixedBytes(n / 256, width - 1) + [(n % 256) as byte]
  }

  // int.from_bytes(b, "big")
  function FromBytes(b: seq<byte>): nat {
    if b == [] then 0 else FromBytes(b[..|b| - 1]) * 256 + b[|b| - 1] as int
  }

  function Pow256(n: nat): nat {
    if n == 0 then 1 else 256 * Pow256(n - 1)
  }

  lemma {:induction false} FromBytesSnoc(b: seq<byte>, x: byte)
    ensures FromBytes(b + [x]) == FromBytes(b) * 256 + x as int
  {
    assert (b + [x])[..|b|] == b;
  }

  /** Decoding inverts `_int_bytes`, whose length is the least that holds the value. */
  lemma {:induction false} IntBytesRoundTrip(v: nat)
    ensures FromBytes(IntBytes(v)) == v
    ensures v < Pow256(|IntBytes(v)|)
    ensures v > 0 ==> Pow256(|IntBytes(v)| - 1) <= v
  {
    if v < 256 {
      FromBytesSnoc([], v as byte);
      assert [] + [v as byte] == [v as byte];
      assert Pow256(1) == 256 * Pow256(0);
    } else {
      IntBytesRoundTrip(v / 256);
      FromBytesSnoc(IntBytes(v / 256), (v % 256) as byte);
    }
  }

  lemma {:induction false} Pow256Positive(n: nat)
    ensures Pow256(n) > 0
  {
    if n > 0 {
      Pow256Positive(n - 1);
    }
  }

  lemma {:induction false} Pow256Quotient(v: nat, n: nat)
    ensures Pow256(n) > 0 && Pow256(n + 1) > 0 && v / 256 / Pow256(n) == v / Pow256(n + 1)
  {
    Pow256Positive(n);
    DivDiv(v, 256, Pow256(n));
  }

  lemma {:induction false} DivDiv(v: nat, a: nat, b: nat)
    requires a > 0 && b > 0
    ensures a * b > 0 && v / a / b == v / (a * b)
  {
    var q := v / a;
    DivModIs(v, a);
    DivModIs(q, b);
    TwoDigits(q / b, q % b, v % a, a, b);
    DivUnique(v, q / b, q % b * a + v % a, a * b);
  }

  lemma {:induction false} DivModIs(v: nat, a: nat)
    requires a > 0
    ensures v == v / a * a + v % a && 0 <= v % a < a
  {
  }

  lemma {:induction false} TwoDigits(s: int, t: int, u: int, a: int, b: int)
    requires 0 <= t < b && 0 <= u < a
    ensures (s * b + t) * a + u == s * (a * b) + (t * a + u) && 0 <= t * a + u < a * b
  {
    assert (s * b + t) * a == s * (a * b) + t * a;
    assert t * a <= (b - 1) * a && (b - 1) * a == a * b - a;
  }

  lemma {:induction false} DivUnique(v: nat, s: int, r: int, m: nat)
    requires m > 0 && 0 <= r < m && v == s * m + r
    ensures v / m == s
  {
    ModUnique(v, s, r, m);
    assert v == v / m * m + v % m;
    var d := v / m - s;
    assert d * m == 0;
    SmallMultiple(d, m);
  }

  /** Both encodings are big-endian: the byte k places from the end has weight 256^k. */
  lemma {:induction false} BigEndian(v: nat, width: nat, k: nat)
    requires k < width
    ensures Pow256(k) > 0 && FixedBytes(v, width)[width - 1 - k] as int == v / Pow256(k) % 256
    ensures k < |IntBytes(v)| ==> IntBytes(v)[|IntBytes(v)| - 1 - k] as int == v / Pow256(k) % 256
  {
    if k == 0 {
      assert Pow256(0) == 1 && v / 1 == v;
    } else {
      BigEndian(v / 256, width - 1, k - 1);
      Pow256Quotient(v, k - 1);
      if v >= 256 && k < |IntBytes(v)| {
        assert IntBytes(v)[|IntBytes(v)| - 1 - k] == IntBytes(v / 256)[|IntBytes(v / 256)| - k];
      }
    }
  }

  lemma {:induction false} IntBytesInjective(v: nat, w: nat)
    requires IntBytes(v) == IntBytes(w)
    ensures v == w
  {
    IntBytesRoundTrip(v);
    IntBytesRoundTrip(w);
  }

  lemma {:induction false} FixedBytesRoundTrip(n: nat, width: nat)
    requires n < Pow256(width)
    ensures FromBytes(FixedBytes(n, width)) == n
  {
    if width > 0 {
      FixedBytesRoundTrip(n / 256, width - 1);
      FromBytesSnoc(FixedBytes(n / 256, width - 1), (n % 256) as byte);
    }
  }

  // Python's len() never reaches 2^63, so eight bytes always hold a part's length.
  const MAX_LEN: nat := 0x1_0000_0000_0000_0000

  lemma {:induction false} MaxLenIsEightBytes()
    ensures Pow256(8) == MAX_LEN
  {
    assert Pow256(4) == 0x1_0000_0000;
    assert Pow256(6) == 256 * Pow256(5) && Pow256(5) == 256 * Pow256(4);
    assert Pow256(8) == 256 * Pow256(7) && Pow256(7) == 256 * Pow256(6);
  }

  // The concatenation of (length, part) pairs fed to the hash after the domain tag.
  function Frame(parts: seq<seq<byte>>): seq<byte> {
    if parts == [] then []
    else FixedBytes(|parts[0]|, 8) + parts[0] + Frame(parts[1..])
  }

  ghost predicate Sized(parts: seq<seq<byte>>) {
    forall i :: 0 <= i < |parts| ==> |parts[i]| < MAX_LEN
  }

  /** The framing is uniquely decodable, whatever the number of parts. */
  lemma {:induction false} FrameInjective(ps: seq<seq<byte>>, qs: seq<seq<byte>>)
    requires Frame(ps) == Frame(qs) && Sized(ps) && Sized(qs)
    ensures ps == qs
    decreases |ps|
  {
    if ps == [] || qs == [] {
    } else {
      var f := Frame(ps);
      MaxLenIsEightBytes();
      FixedBytesRoundTrip(|ps[0]|, 8);
      FixedBytesRoundTrip(|qs[0]|, 8);
      assert f[..8] == FixedBytes(|ps[0]|, 8) == FixedBytes(|qs[0]|, 8);
      var n := 8 + |ps[0]|;
      assert f[8..n] == ps[0] == qs[0];
      assert f[n..] == Frame(ps[1..]) == Frame(qs[1..]);
      FrameInjective(ps[1..], qs[1..]);
      assert ps == [ps[0]] + ps[1..] && qs == [qs[0]] + qs[1..];
    }
  }

  function Ascii(s: string): (b: seq<byte>)
    ensures |b| == |s|
    ensures forall i :: 0 <= i < |s| ==> b[i] as int == s[i] as int % 256
  {
    seq(|s|, i requires 0 <= i < |s| => (s[i] as int % 256) as byte)
  }

  const DOMAIN_TAG: string := "AfroPay-ZKP-Compliance-v1"

  // The two proof contexts, b"amount" and b"upper".
  datatype Context = AmountContext | UpperContext {
    function Label(): string {
      if AmountContext? then "amount" else "upper"
    }
  }

  // Everything hashed for the proof of bit i.
  function BitPreimage(ctx: Context, i: nat, commitment: nat, t0: nat, t1: nat): seq<byte> {
    Ascii(DOMAIN_TAG)
    + Frame([Ascii(ctx.Label()) + IntBytes(i), IntBytes(commitment), IntBytes(t0), IntBytes(t1)])
  }

  /** Equal preimages come from the same context, bit index, commitment and announcements. */
  lemma {:induction false} BitPreimageInjective(
      ctx: Context, i: nat, c: nat, t0: nat, t1: nat,
      ctx': Context, i': nat, c': nat, t0': nat, t1': nat)
    requires Sized([Ascii(ctx.Label()) + IntBytes(i), IntBytes(c), IntBytes(t0), IntBytes(t1)])
    requires Sized([Ascii(ctx'.Label()) + IntBytes(i'), IntBytes(c'), IntBytes(t0'), IntBytes(t1')])
    requires BitPreimage(ctx, i, c, t0, t1) == BitPreimage(ctx', i', c', t0', t1')
    ensures ctx == ctx' && i == i' && c == c' && t0 == t0' && t1 == t1'
  {
    var ps := [Ascii(ctx.Label()) + IntBytes(i), IntBytes(c), IntBytes(t0), IntBytes(t1)];
    var qs := [Ascii(ctx'.Label()) + IntBytes(i'), IntBytes(c'), IntBytes(t0'), IntBytes(t1')];
    var tag := Ascii(DOMAIN_TAG);
    assert Frame(ps) == (tag + Frame(ps))[|tag|..] && Frame(qs) == (tag + Frame(qs))[|tag|..];
    FrameInjective(ps, qs);
    assert ps[0] == qs[0] && ps[1] == qs[1] && ps[2] == qs[2] && ps[3] == qs[3];
    assert ps[0][0] == qs[0][0];
    assert ctx == ctx';
    var prefix := Ascii(ctx.Label());
    assert ps[0][|prefix|..] == IntBytes(i) && qs[0][|prefix|..] == IntBytes(i');
    IntBytesInjective(i, i');
    IntBytesInjective(c, c');
    IntBytesInjective(t0, t0');
    IntBytesInjective(t1, t1');
  }
}
