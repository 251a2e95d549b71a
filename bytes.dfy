/** Bytes and fixed-width unsigned words as they are laid out in a RawArray
    file.  The C reader and writer copy 64-bit integers to and from the file
    in host order; this model fixes the host to be little-endian, which is
    also what the Python implementation packs explicitly ('<Q'). */
module Bytes {

  /** 2^64: one more than the largest uint64_t. */
  const TwoTo64: int := 0x1_0000_0000_0000_0000

  type byte = x: int | 0 <= x < 256
  type u64 = x: int | 0 <= x < 0x1_0000_0000_0000_0000

  /** 256^n, the number of values n bytes can hold. */
  function Pow256(n: nat): (r: nat)
    ensures r >= 1
  {
    if n == 0 then 1 else 256 * Pow256(n - 1)
  }

  lemma Pow256Eight()
    ensures Pow256(8) == TwoTo64
  {
  }

  /** Reduction of an (unbounded) integer into uint64_t, as C does for
      unsigned arithmetic and for a conversion from a signed type. */
  function Wrap64(x: int): (r: u64)
    ensures x - r == (x - r) / TwoTo64 * TwoTo64
  {
    x % TwoTo64
  }

  /** A value that fits in uint64_t is its own reduction. */
  lemma WrapSmall(x: int)
    requires 0 <= x < TwoTo64
    ensures Wrap64(x) == x
  {
    DivUnique(x, TwoTo64, 0, x);
  }

  /** The n little-endian bytes of x, dropping what does not fit. */
  function EncodeLE(x: nat, n: nat): (r: seq<byte>)
    ensures |r| == n
  {
    if n == 0 then [] else [x % 256] + EncodeLE(x / 256, n - 1)
  }

  /** The number whose little-endian bytes are s. */
  function DecodeLE(s: seq<byte>): (r: nat)
    ensures r < Pow256(|s|)
  {
    if s == [] then 0 else s[0] + 256 * DecodeLE(s[1..])
  }

  lemma {:induction false} DecodeEncodeLE(x: nat, n: nat)
    requires x < Pow256(n)
    ensures DecodeLE(EncodeLE(x, n)) == x
  {
    if n > 0 {
      DecodeEncodeLE(x / 256, n - 1);
      assert EncodeLE(x, n)[1..] == EncodeLE(x / 256, n - 1);
    }
  }

  lemma {:induction false} EncodeDecodeLE(s: seq<byte>)
    ensures EncodeLE(DecodeLE(s), |s|) == s
  {
    if s != [] {
      var d := DecodeLE(s);
      assert d % 256 == s[0] && d / 256 == DecodeLE(s[1..]);
      EncodeDecodeLE(s[1..]);
    }
  }

  /** Euclidean division is unique. */
  lemma DivUnique(a: int, w: int, q: int, r: int)
    requires w > 0 && 0 <= r < w && a == q * w + r
    ensures a / w == q && a % w == r
  {
    var q', r' := a / w, a % w;
    assert (q - q') * w == r' - r;
    if q > q' {
      assert (q - q') * w >= w by { MulAtLeast(q - q', w); }
    } else if q < q' {
      assert (q' - q) * w >= w by { MulAtLeast(q' - q, w); }
    }
  }

  lemma MulAtLeast(k: int, w: int)
    requires k >= 1 && w > 0
    ensures k * w >= w
  {
  }

  /** Taking one word off the front of a buffer. */
  lemma DivSub(a: nat, w: nat)
    requires w > 0 && a >= w
    ensures (a - w) / w == a / w - 1
    ensures (a - w) % w == a % w
  {
    var q, r := (a - w) / w, (a - w) % w;
    assert a == (q + 1) * w + r;
    DivUnique(a, w, q + 1, r);
  }

  /** The bytes of a, followed by those of b, count a's as the low-order
      part. */
  lemma {:induction false} DecodeLEAppend(a: seq<byte>, b: seq<byte>)
    ensures DecodeLE(a + b) == DecodeLE(a) + Pow256(|a|) * DecodeLE(b)
  {
    if a == [] {
      assert a + b == b;
    } else {
      assert (a + b)[1..] == a[1..] + b;
      DecodeLEAppend(a[1..], b);
      ShiftByte(DecodeLE(a[1..]), Pow256(|a| - 1), DecodeLE(b));
    }
  }

  lemma ShiftByte(x: int, p: int, y: int)
    ensures 256 * (x + p * y) == 256 * x + (256 * p) * y
  {
  }

  /** Dropping the k low-order bytes of an encoding divides by 256^k. */
  lemma DecodeLEDrop(s: seq<byte>, k: nat)
    requires k <= |s|
    ensures DecodeLE(s[k..]) == DecodeLE(s) / Pow256(k)
    ensures DecodeLE(s[..k]) == DecodeLE(s) % Pow256(k)
  {
    var lo, hi := s[..k], s[k..];
    assert s == lo + hi;
    DecodeLEAppend(lo, hi);
    DivOfSplit(DecodeLE(s), DecodeLE(lo), Pow256(k), DecodeLE(hi));
  }

  lemma DivOfSplit(d: int, l: int, p: int, h: int)
    requires d == l + p * h && 0 <= l < p
    ensures d / p == h && d % p == l
  {
    MulComm(p, h);
    DivUnique(d, p, h, l);
  }

  lemma MulComm(a: int, b: int)
    ensures a * b == b * a
  {
  }

  /** Adding a multiple of m keeps the remainder modulo m. */
  lemma ModShift(x: int, c: int, m: int)
    requires m > 0
    ensures (x + c * m) % m == x % m
  {
    var q, r := x / m, x % m;
    assert x + c * m == (q + c) * m + r;
    DivUnique(x + c * m, m, q + c, r);
  }

  /** Reduction into uint64_t can be done before or after a
      multiplication. */
  lemma MulWrap(a: int, b: int)
    ensures Wrap64(Wrap64(a) * b) == Wrap64(a * b)
  {
    var q, r := a / TwoTo64, a % TwoTo64;
    Distrib(q, TwoTo64, r, b);
    ModShift(r * b, q * b, TwoTo64);
  }

  lemma Distrib(q: int, t: int, r: int, b: int)
    ensures (q * t + r) * b == r * b + (q * b) * t
  {
  }

  /** The eight little-endian bytes of a 64-bit word. */
  function Word(x: u64): (r: seq<byte>)
    ensures |r| == 8
    ensures DecodeLE(r) == x
  {
    Pow256Eight();
    DecodeEncodeLE(x, 8);
    EncodeLE(x, 8)
  }

  /** The 64-bit word stored at byte offset off of s. */
  function WordAt(s: seq<byte>, off: nat): (r: u64)
    requires off + 8 <= |s|
  {
    Pow256Eight();
    DecodeLE(s[off..off + 8])
  }

  /** The bytes at off are the eight bytes of the word there. */
  lemma WordAtBytes(s: seq<byte>, off: nat)
    requires off + 8 <= |s|
    ensures Word(WordAt(s, off)) == s[off..off + 8]
  {
    EncodeDecodeLE(s[off..off + 8]);
  }

  /** Words of w bytes each, laid out one after the other. */
  function Pack(ws: seq<nat>, w: nat): (r: seq<byte>)
  {
    if ws == [] then [] else EncodeLE(ws[0], w) + Pack(ws[1..], w)
  }

  /** The successive w-byte words of s; a trailing partial word is dropped,
      as a C loop over the buffer cast to a w-byte type would drop it. */
  function Unpack(s: seq<byte>, w: nat): (r: seq<nat>)
    requires w > 0
    decreases |s|
  {
    if |s| < w then [] else [DecodeLE(s[..w])] + Unpack(s[w..], w)
  }

  /** Every word fits in w bytes. */
  predicate Fits(ws: seq<nat>, w: nat)
  {
    forall i :: 0 <= i < |ws| ==> ws[i] < Pow256(w)
  }

  lemma {:induction false} PackLength(ws: seq<nat>, w: nat)
    ensures |Pack(ws, w)| == |ws| * w
  {
    if ws != [] {
      PackLength(ws[1..], w);
    }
  }

  lemma {:induction false} UnpackLength(s: seq<byte>, w: nat)
    requires w > 0
    ensures |Unpack(s, w)| == |s| / w
  {
    if |s| >= w {
      UnpackLength(s[w..], w);
      DivSub(|s|, w);
    }
  }

  /** Unpacking what was packed gives the words back. */
  lemma {:induction false} UnpackPack(ws: seq<nat>, w: nat)
    requires w > 0 && Fits(ws, w)
    ensures Unpack(Pack(ws, w), w) == ws
  {
    if ws != [] {
      var s := Pack(ws, w);
      PackLength(ws[1..], w);
      assert s[..w] == EncodeLE(ws[0], w);
      assert s[w..] == Pack(ws[1..], w);
      DecodeEncodeLE(ws[0], w);
      UnpackPack(ws[1..], w);
    }
  }

  /** Packing what was unpacked gives the bytes back when no partial word
      is left over. */
  lemma {:induction false} PackUnpack(s: seq<byte>, w: nat)
    requires w > 0 && |s| % w == 0
    ensures Pack(Unpack(s, w), w) == s
  {
    if |s| >= w {
      EncodeDecodeLE(s[..w]);
      DivSub(|s|, w);
      PackUnpack(s[w..], w);
      assert s == s[..w] + s[w..];
    } else {
      assert |s| == 0;
    }
  }

  /** The k-th packed word occupies bytes k*w .. k*w+w. */
  lemma PackAt(ws: seq<nat>, w: nat, k: nat)
    requires k < |ws|
    ensures |Pack(ws, w)| == |ws| * w
    ensures k * w + w <= |ws| * w
    ensures Pack(ws, w)[k * w .. k * w + w] == EncodeLE(ws[k], w)
  {
    PackLength(ws, w);
    MulStep(k, |ws|, w);
    var a, b, c := Pack(ws[..k], w), EncodeLE(ws[k], w), Pack(ws[k + 1..], w);
    assert ws == ws[..k] + ([ws[k]] + ws[k + 1..]);
    PackAppend(ws[..k], [ws[k]] + ws[k + 1..], w);
    PackCons(ws[k], ws[k + 1..], w);
    PackLength(ws[..k], w);
    assert Pack(ws, w) == a + (b + c);
    assert |a| == k * w && |b| == w;
    assert (a + (b + c))[|a| .. |a| + |b|] == b;
  }

  /** Word k of packed 64-bit words, whatever follows them. */
  lemma PackWordAt(ws: seq<u64>, rest: seq<byte>, k: nat)
    requires k < |ws|
    ensures 8 * k + 8 <= |Pack(ws, 8) + rest|
    ensures WordAt(Pack(ws, 8) + rest, 8 * k) == ws[k]
  {
    var p := Pack(ws, 8);
    PackAt(ws, 8, k);
    var i := k * 8;
    assert (p + rest)[i .. i + 8] == p[i .. i + 8];
    Pow256Eight();
    DecodeEncodeLE(ws[k], 8);
  }

  /** Multiplying k < n and k - 1 by w. */
  lemma MulStep(k: nat, n: nat, w: nat)
    requires k < n
    ensures k * w + w <= n * w
    ensures k > 0 ==> (k - 1) * w == k * w - w
  {
    assert (k + 1) * w <= n * w by { MulLe(k + 1, n, w); }
  }

  lemma MulLe(a: nat, b: nat, w: nat)
    requires a <= b
    ensures a * w <= b * w
  {
  }

  /** Unpacking looks at nothing past the last whole word. */
  lemma {:induction false} UnpackPrefix(s: seq<byte>, t: seq<byte>, w: nat)
    requires w > 0 && |s| % w == 0
    ensures Unpack(s + t, w) == Unpack(s, w) + Unpack(t, w)
  {
    if |s| >= w {
      assert (s + t)[..w] == s[..w];
      assert (s + t)[w..] == s[w..] + t;
      DivSub(|s|, w);
      UnpackPrefix(s[w..], t, w);
    } else {
      assert s == [];
      assert s + t == t;
    }
  }

  lemma {:induction false} PackAppend(ws: seq<nat>, vs: seq<nat>, w: nat)
    ensures Pack(ws + vs, w) == Pack(ws, w) + Pack(vs, w)
  {
    if ws != [] {
      assert (ws + vs)[1..] == ws[1..] + vs;
      PackAppend(ws[1..], vs, w);
    } else {
      assert ws + vs == vs;
    }
  }

  /** One more word at the end of a packed sequence. */
  lemma PackSnoc(ws: seq<nat>, x: nat, w: nat)
    ensures Pack(ws + [x], w) == Pack(ws, w) + EncodeLE(x, w)
  {
    PackAppend(ws, [x], w);
    PackCons(x, [], w);
    assert [x] + [] == [x];
  }

  lemma PackCons(x: nat, ws: seq<nat>, w: nat)
    ensures Pack([x] + ws, w) == EncodeLE(x, w) + Pack(ws, w)
  {
    assert ([x] + ws)[1..] == ws;
  }

  /** Every word unpacked from w-byte slices fits in w bytes. */
  lemma {:induction false} UnpackFits(s: seq<byte>, w: nat)
    requires w > 0
    ensures Fits(Unpack(s, w), w)
  {
    if |s| >= w {
      UnpackFits(s[w..], w);
    }
  }

  lemma {:induction false} Pow256Add(a: nat, b: nat)
    ensures Pow256(a + b) == Pow256(a) * Pow256(b)
  {
    if a > 0 {
      Pow256Add(a - 1, b);
      MulAssoc(256, Pow256(a - 1), Pow256(b));
    }
  }

  lemma MulAssoc(x: int, y: int, z: int)
    ensures x * (y * z) == (x * y) * z
  {
  }

  /** Reducing modulo 256^b, then modulo 256^a with a <= b, is reducing
      modulo 256^a. */
  lemma ModPowMod(x: int, a: nat, b: nat)
    requires a <= b
    ensures (x % Pow256(b)) % Pow256(a) == x % Pow256(a)
  {
    Pow256Add(a, b - a);
    ModMod(x, Pow256(a), Pow256(b - a));
  }

  lemma ModMod(x: int, m: int, q: int)
    requires m > 0 && q > 0
    ensures (x % (m * q)) % m == x % m
  {
    var d, r := x / (m * q), x % (m * q);
    var t, r' := r / m, r % m;
    assert x == (d * q + t) * m + r' by {
      assert x == d * (m * q) + r;
      assert r == t * m + r';
      MulAssoc(d, m, q);
      MulComm(d, m);
      MulAssoc(m, d, q);
    }
    DivUnique(x, m, d * q + t, r');
  }

  /** a low bytes holding l, followed by b bytes holding h. */
  lemma EncodeLESplit(l: nat, h: nat, a: nat, b: nat)
    requires l < Pow256(a) && h < Pow256(b)
    ensures EncodeLE(l + Pow256(a) * h, a + b) == EncodeLE(l, a) + EncodeLE(h, b)
  {
    var t := EncodeLE(l, a) + EncodeLE(h, b);
    DecodeLEAppend(EncodeLE(l, a), EncodeLE(h, b));
    DecodeEncodeLE(l, a);
    DecodeEncodeLE(h, b);
    EncodeDecodeLE(t);
  }

  /** The low k bytes of the encoding of x encode x modulo 256^k. */
  lemma EncodeLEPrefix(x: nat, n: nat, k: nat)
    requires x < Pow256(n) && k <= n
    ensures EncodeLE(x, n)[..k] == EncodeLE(x % Pow256(k), k)
  {
    var s := EncodeLE(x, n);
    DecodeEncodeLE(x, n);
    DecodeLEDrop(s, k);
    EncodeDecodeLE(s[..k]);
  }

  /** k copies of byte b. */
  function Fill(k: nat, b: byte): (r: seq<byte>)
    ensures |r| == k
  {
    seq(k, _ => b)
  }

  /** k bytes all 0xFF encode 256^k - 1, k zero bytes encode 0. */
  lemma {:induction false} EncodeLEFill(k: nat)
    ensures EncodeLE(Pow256(k) - 1, k) == Fill(k, 255)
    ensures EncodeLE(0, k) == Fill(k, 0)
  {
    if k > 0 {
      EncodeLEFill(k - 1);
      var m := Pow256(k) - 1;
      assert m == 255 + 256 * (Pow256(k - 1) - 1);
      DivOfSplit(m, 255, 256, Pow256(k - 1) - 1);
      assert Fill(k, 255) == [255] + Fill(k - 1, 255);
      assert Fill(k, 0) == [0] + Fill(k - 1, 0);
    }
  }
}
