/** Bytes, fixed-width unsigned integers and big-endian conversion. */
module Bytes {

  type byte = b: int | 0 <= b < 0x100

  type uint16 = n: int | 0 <= n < 0x1_0000

  type uint32 = n: int | 0 <= n < 0x1_0000_0000

  datatype Option<+T> = None | Some(value: T)
  {
    function GetOr(default: T): T {
      if Some? then value else default
    }
  }

  function Min(a: int, b: int): int {
    if a < b then a else b
  }

  /** The first `n` elements, or all of them when there are fewer (Go's `copy` into a buffer of size `n`). */
  function Take<T>(s: seq<T>, n: nat): seq<T> {
    s[..Min(n, |s|)]
  }

  /** What `Take` leaves behind. */
  function Drop<T>(s: seq<T>, n: nat): seq<T> {
    s[Min(n, |s|)..]
  }

  function Zeros(n: nat): seq<byte> {
    seq(n, _ => 0)
  }

  /** A zeroed buffer of `n` bytes with `s` copied to its front. */
  function Pad(s: seq<byte>, n: nat): seq<byte>
    requires |s| <= n
  {
    s + Zeros(n - |s|)
  }

  /** Go's `copy` into the part of a buffer that starts at `at`. */
  method CopyAt(dst: array<byte>, at: nat, src: seq<byte>) returns (n: nat)
    requires at <= dst.Length
    modifies dst
    ensures n == Min(dst.Length - at, |src|)
    ensures dst[..] == old(dst[..at]) + src[..n] + old(dst[at + n..])
  {
    n := Min(dst.Length - at, |src|);
    forall i | 0 <= i < n {
      dst[at + i] := src[i];
    }
  }

  function Pow256(w: nat): (p: nat)
    ensures p > 0
  {
    if w == 0 then 1 else 0x100 * Pow256(w - 1)
  }

  /** The low `w` bytes of `n`, most significant first. */
  function ToBe(n: nat, w: nat): (s: seq<byte>)
    ensures |s| == w
  {
    if w == 0 then [] else ToBe(n / 0x100, w - 1) + [n % 0x100]
  }

  function FromBe(s: seq<byte>): nat {
    if s == [] then 0 else 0x100 * FromBe(s[..|s| - 1]) + s[|s| - 1]
  }

  lemma {:induction false} FromBeToBe(n: nat, w: nat)
    ensures FromBe(ToBe(n, w)) == n % Pow256(w)
  {
    if w > 0 {
      FromBeToBe(n / 0x100, w - 1);
      var s := ToBe(n, w);
      assert s[..w - 1] == ToBe(n / 0x100, w - 1);
      DivMod(n, Pow256(w - 1));
    }
  }

  lemma DivMod(n: nat, p: nat)
    requires p > 0
    ensures 0x100 * ((n / 0x100) % p) + n % 0x100 == n % (0x100 * p)
  {
    var q, r := (n / 0x100) / p, (n / 0x100) % p;
    var m := 0x100 * r + n % 0x100;
    assert q * p + r == n / 0x100;
    assert n == q * (0x100 * p) + m;
    assert 0 <= m < 0x100 * p;
    Remainder(n, 0x100 * p, q, m);
  }

  lemma Remainder(n: int, d: int, q: int, r: int)
    requires d > 0 && 0 <= r < d && n == q * d + r
    ensures n % d == r
  {
    var q' := n / d;
    var k := q' - q;
    Factor(q', q, d);
    assert k * d == r - n % d;
    if k >= 1 {
      Grows(k, d);
    } else if k <= -1 {
      Grows(-k, d);
    }
  }

  lemma Factor(a: int, b: int, d: int)
    ensures (a - b) * d == a * d - b * d
  {
  }

  lemma Grows(k: int, d: int)
    requires k >= 1 && d > 0
    ensures k * d >= d
  {
  }

  lemma {:induction false} ToBeFromBe(s: seq<byte>)
    ensures ToBe(FromBe(s), |s|) == s
    ensures FromBe(s) < Pow256(|s|)
  {
    if s != [] {
      var front, last := s[..|s| - 1], s[|s| - 1];
      ToBeFromBe(front);
      assert FromBe(s) / 0x100 == FromBe(front);
      assert s == front + [last];
    }
  }

  lemma PowersOf256()
    ensures Pow256(2) == 0x1_0000
    ensures Pow256(4) == 0x1_0000_0000
  {
    assert Pow256(1) == 0x100;
    assert Pow256(3) == 0x100_0000;
  }

  lemma {:induction false} LeadingZeros(k: nat, s: seq<byte>)
    ensures FromBe(Zeros(k) + s) == FromBe(s)
  {
    if s != [] {
      var front := s[..|s| - 1];
      assert (Zeros(k) + s)[..k + |s| - 1] == Zeros(k) + front;
      LeadingZeros(k, front);
    } else if k > 0 {
      assert Zeros(k) + s == Zeros(k) && Zeros(k)[..k - 1] == Zeros(k - 1) + s;
      LeadingZeros(k - 1, s);
    }
  }
}
