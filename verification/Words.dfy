// Machine words, bits and byte strings shared by the models.
module Words {
  type byte = x: int | 0 <= x < 256
  type bit = x: int | 0 <= x < 2

  const TOP_VALUE: nat := 0x100_0000          // kTopValue, 1 << 24
  const TWO_32: nat := 0x1_0000_0000

  // The UInt32 that a C expression with mathematical value x is stored as.
  function W32(x: int): nat {
    x % TWO_32
  }

  function Min(a: nat, b: nat): nat {
    if a < b then a else b
  }

  function Pow2(k: nat): (r: nat)
    ensures r >= 1
  {
    if k == 0 then 1 else 2 * Pow2(k - 1)
  }

  function Pow256(k: nat): (r: nat)
    ensures r >= 1
  {
    if k == 0 then 1 else 256 * Pow256(k - 1)
  }

  // The number a byte string denotes, most significant byte first.
  function Val(s: seq<byte>): nat {
    if s == [] then 0 else Val(s[..|s| - 1]) * 256 + s[|s| - 1]
  }

  lemma ValSnoc(s: seq<byte>, b: byte)
    ensures Val(s + [b]) == Val(s) * 256 + b
  {
    assert (s + [b])[..|s|] == s;
  }

  lemma {:induction false} ValConcat(s: seq<byte>, t: seq<byte>)
    ensures Val(s + t) == Val(s) * Pow256(|t|) + Val(t)
  {
    if t == [] {
      assert s + t == s;
    } else {
      var t' := t[..|t| - 1];
      ValConcat(s, t');
      ValSnoc(s + t', t[|t| - 1]);
      assert s + t == (s + t') + [t[|t| - 1]];
      assert Val(s) * Pow256(|t|) == Val(s) * Pow256(|t'|) * 256;
    }
  }

  lemma {:induction false} ValBound(s: seq<byte>)
    ensures Val(s) < Pow256(|s|)
  {
    if s != [] {
      ValBound(s[..|s| - 1]);
    }
  }

  lemma MulAtLeast(a: nat, b: nat)
    ensures a == 0 || a * b >= b
  {
  }

  // A byte string whose value fits in one byte less starts with a zero byte.
  lemma LeadingZero(s: seq<byte>)
    requires |s| > 0 && Val(s) < Pow256(|s| - 1)
    ensures s[0] == 0
  {
    ValConcat(s[..1], s[1..]);
    assert s == s[..1] + s[1..];
    assert Val(s[..1]) == s[0] by { assert s[..1][..0] == []; }
    MulAtLeast(s[0], Pow256(|s| - 1));
  }

  // ---------- products ----------

  lemma MulMono(a: nat, b: nat, c: nat)
    requires a <= b
    ensures a * c <= b * c
  {
  }

  lemma MulMono2(a: nat, b: nat, c: nat, d: nat)
    requires a <= b && c <= d
    ensures a * c <= b * d
  {
    MulMono(a, b, c);
    MulMono(c, d, b);
  }

  lemma ModUnique(x: nat, n: nat, q: nat, r: nat)
    requires n > 0 && x == n * q + r && r < n
    ensures x % n == r && x / n == q
  {
    var q', r' := x / n, x % n;
    if q < q' {
      MulMono(q + 1, q', n);
    } else if q' < q {
      MulMono(q' + 1, q, n);
    }
  }

  lemma Regroup(a: nat, b: nat, q: nat, q': nat)
    ensures a * b * q + a * q' == a * (b * q + q')
  {
    assert a * b * q == a * (b * q);
  }

  // A remainder modulo a factor of the modulus.
  lemma ModMod(x: nat, a: nat, b: nat)
    requires a > 0 && b > 0
    ensures a * b > 0 && (x % (a * b)) % a == x % a
  {
    assert a * b > 0;
    var n := a * b;
    var q, r := x / n, x % n;
    assert x == n * q + r;
    var q', r' := r / a, r % a;
    Regroup(a, b, q, q');
    ModUnique(x, a, b * q + q', r');
  }
}
