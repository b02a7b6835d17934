/** Byte strings, little-endian numbers and the 64-bit arithmetic of the server. */
module Bytes {

  type Byte = b: nat | b < 256

  // Values of std::uint64_t and std::size_t; arithmetic on them wraps.
  const U64: nat := 0x1_0000_0000_0000_0000

  type Word = w: nat | w < U64

  // sizeof(value_type): one of the four widths a build can choose.
  type Width = v: nat | v == 1 || v == 2 || v == 4 || v == 8 witness 2

  function Add64(a: Word, b: nat): (r: Word) {
    (a + b) % U64
  }

  function Sub64(a: Word, b: Word): (r: Word)
    ensures b <= a ==> r == a - b
    ensures a < b ==> r == U64 - (b - a)
  {
    (a as int - b as int) % U64
  }

  function Min(a: nat, b: nat): nat {
    if a < b then a else b
  }

  function Pow256(n: nat): (p: nat)
    ensures p > 0
  {
    if n == 0 then 1 else 256 * Pow256(n - 1)
  }

  lemma Pow256Values()
    ensures Pow256(1) == 0x100
    ensures Pow256(2) == 0x1_0000
    ensures Pow256(4) == 0x1_0000_0000
    ensures Pow256(8) == U64
  {
  }

  // The w low bytes of n, least significant first.
  function EncodeLE(n: nat, w: nat): (s: seq<Byte>)
    ensures |s| == w
  {
    if w == 0 then [] else [n % 256] + EncodeLE(n / 256, w - 1)
  }

  function DecodeLE(s: seq<Byte>): nat {
    if s == [] then 0 else s[0] + 256 * DecodeLE(s[1..])
  }

  lemma {:induction false} DecodeLEBound(s: seq<Byte>)
    ensures DecodeLE(s) < Pow256(|s|)
  {
    if s == [] {
    } else {
      DecodeLEBound(s[1..]);
    }
  }

  lemma DivModStep(n: nat, p: nat)
    requires p > 0
    ensures n % 256 + 256 * ((n / 256) % p) == n % (256 * p)
  {
    var q := n / 256;
    var a, b := q / p, q % p;
    assert q == a * p + b;
    assert n == 256 * (a * p + b) + n % 256;
    assert n == a * (256 * p) + (256 * b + n % 256) by {
      assert 256 * (a * p) == a * (256 * p);
    }
    ModUnique(n, 256 * p, a, 256 * b + n % 256);
  }

  lemma MulMono(a: nat, b: nat, d: nat)
    requires a <= b
    ensures a * d <= b * d
  {
  }

  lemma ModUnique(n: nat, d: nat, q: nat, r: nat)
    requires n == q * d + r && r < d
    ensures n % d == r && n / d == q
  {
    var q' := n / d;
    if q < q' {
      MulMono(q + 1, q', d);
      assert false;
    } else if q' < q {
      MulMono(q' + 1, q, d);
      assert false;
    }
  }

  // Reading back an encoded number yields its value modulo the field's range.
  lemma {:induction false} DecodeEncodeLE(n: nat, w: nat)
    ensures DecodeLE(EncodeLE(n, w)) == n % Pow256(w)
    ensures n < Pow256(w) ==> DecodeLE(EncodeLE(n, w)) == n
  {
    if w == 0 {
    } else {
      DecodeEncodeLE(n / 256, w - 1);
      assert EncodeLE(n, w)[1..] == EncodeLE(n / 256, w - 1);
      DivModStep(n, Pow256(w - 1));
      if n < Pow256(w) {
        ModUnique(n, Pow256(w), 0, n);
      }
    }
  }

  lemma DecodeEncodeWord(n: Word)
    ensures DecodeLE(EncodeLE(n, 8)) == n
  {
    Pow256Values();
    DecodeEncodeLE(n, 8);
  }

  lemma Cut<T>(a: seq<T>, b: seq<T>)
    ensures (a + b)[..|a|] == a && (a + b)[|a|..] == b
  {
  }

  lemma Middle<T>(x: seq<T>, y: seq<T>, z: seq<T>)
    ensures (x + y + z)[|x|..|x| + |y|] == y
  {
  }

  lemma ThreeParts<T>(b: seq<T>, at: nat, x: seq<T>, y: seq<T>, z: seq<T>)
    requires at <= |b| && b[at..] == x + (y + z)
    ensures |b| == at + |x| + |y| + |z|
    ensures b[at..at + |x|] == x && b[at + |x|..at + |x| + |y|] == y && b[at + |x| + |y|..] == z
  {
    assert |b[at..]| == |x| + |y| + |z|;
    assert b[at..at + |x|] == b[at..][..|x|];
    assert b[at + |x|..at + |x| + |y|] == b[at..][|x|..|x| + |y|];
    assert b[at + |x| + |y|..] == b[at..][|x| + |y|..];
  }

  lemma PushFirst<T>(x: T)
    ensures [] + [x] == [x]
  {
  }

  lemma Assoc<T>(a: seq<T>, b: seq<T>, c: seq<T>)
    ensures (a + b) + c == a + (b + c)
  {
  }

  function Flatten<T>(ss: seq<seq<T>>): seq<T> {
    if ss == [] then [] else ss[0] + Flatten(ss[1..])
  }

  lemma {:induction false} FlattenAppend<T>(a: seq<seq<T>>, b: seq<seq<T>>)
    ensures Flatten(a + b) == Flatten(a) + Flatten(b)
  {
    if a == [] {
      assert a + b == b;
    } else {
      FlattenAppend(a[1..], b);
      assert (a + b)[0] == a[0] && (a + b)[1..] == a[1..] + b;
      Assoc(a[0], Flatten(a[1..]), Flatten(b));
    }
  }
}
