/** Octets and network byte order. */
module Bytes {

  type Byte = x: int | 0 <= x < 256

  lemma Assoc<T>(a: seq<T>, b: seq<T>, c: seq<T>)
    ensures a + b + c == a + (b + c)
  {
  }

  lemma Halves<T>(a: seq<T>, b: seq<T>)
    ensures (a + b)[..|a|] == a && (a + b)[|a|..] == b
  {
  }

  lemma TakeOfDrop<T>(s: seq<T>, from: nat, n: nat)
    requires from + n <= |s|
    ensures s[from..][..n] == s[from..from + n]
  {
  }

  lemma TakeTake<T>(s: seq<T>, a: nat, b: nat)
    requires a <= b <= |s|
    ensures s[..b][..a] == s[..a]
  {
  }

  lemma Subslice<T>(s: seq<T>, at: nat, a: nat, b: nat)
    requires a <= b && at + b <= |s|
    ensures s[at..][a..b] == s[at + a..at + b] && s[at..][b..] == s[at + b..]
  {
  }

  lemma HeadAndTail<T>(acc: seq<T>, s: seq<T>)
    requires s != []
    ensures acc + [s[0]] + s[1..] == acc + s
  {
  }

  function Repeat<T>(x: T, k: nat): (s: seq<T>)
    ensures |s| == k
  {
    seq(k, _ => x)
  }

  function Flat<T>(pieces: seq<seq<T>>): seq<T> {
    if pieces == [] then [] else pieces[0] + Flat(pieces[1..])
  }

  lemma {:induction false} FlatAppend<T>(a: seq<seq<T>>, b: seq<T>)
    ensures Flat(a + [b]) == Flat(a) + b
  {
    if a == [] {
      assert a + [b] == [b];
      assert Flat([b]) == b + Flat([b][1..]);
    } else {
      assert (a + [b])[1..] == a[1..] + [b];
      FlatAppend(a[1..], b);
      Assoc(a[0], Flat(a[1..]), b);
    }
  }

  function Pow256(w: nat): (p: nat)
    ensures p > 0
  {
    if w == 0 then 1 else 256 * Pow256(w - 1)
  }

  /** The low `w` octets of `n`, most significant first (htons, htonl, htonll followed by memcpy). */
  function BE(n: nat, w: nat): (s: seq<Byte>)
    ensures |s| == w
    decreases w, n
  {
    if w == 0 then [] else BE(n / 256, w - 1) + [n % 256]
  }

  function FromBE(s: seq<Byte>): nat {
    if s == [] then 0 else FromBE(s[..|s| - 1]) * 256 + s[|s| - 1]
  }

  lemma {:induction false} FromBEInvertsBE(n: nat, w: nat)
    requires n < Pow256(w)
    ensures FromBE(BE(n, w)) == n
  {
    if w > 0 {
      FromBEInvertsBE(n / 256, w - 1);
      assert BE(n, w)[..w - 1] == BE(n / 256, w - 1);
    }
  }

  lemma {:induction false} BEInvertsFromBE(s: seq<Byte>)
    ensures FromBE(s) < Pow256(|s|) && BE(FromBE(s), |s|) == s
  {
    if s != [] {
      BEInvertsFromBE(s[..|s| - 1]);
    }
  }

  // ---------- Words as they stand in memory ----------

  predicate IsWord2(s: seq<Byte>, n: nat) {
    |s| == 2 && s[0] == n / 0x100 && s[1] == n % 0x100
  }

  predicate IsWord4(s: seq<Byte>, n: nat) {
    |s| == 4 && s[0] == n / 0x100_0000 && s[1] == n / 0x1_0000 % 0x100 && s[2] == n / 0x100 % 0x100 && s[3] == n % 0x100
  }

  predicate IsWord8(s: seq<Byte>, n: nat) {
    && |s| == 8
    && s[0] == n / 0x100_0000_0000_0000 && s[1] == n / 0x1_0000_0000_0000 % 0x100
    && s[2] == n / 0x100_0000_0000 % 0x100 && s[3] == n / 0x1_0000_0000 % 0x100
    && s[4] == n / 0x100_0000 % 0x100 && s[5] == n / 0x1_0000 % 0x100 && s[6] == n / 0x100 % 0x100 && s[7] == n % 0x100
  }

  lemma QuotientIs(n: nat, d: nat, q: nat, r: nat)
    requires n == d * q + r && r < d
    ensures n / d == q
  {
    var x := n / d;
    assert d * (x - q) == r - n % d;
    if x != q {
      MultipleIsFar(d, x - q);
    }
  }

  lemma MultipleIsFar(d: nat, k: int)
    requires k != 0
    ensures d <= d * k || d * k + d <= 0
  {
  }

  lemma DivideTwice(n: nat, d: nat)
    requires d > 0
    ensures n / 256 / d == n / (256 * d)
  {
    var q, r := n / 256 / d, n / 256 % d;
    assert n / 256 == d * q + r;
    var rest := 256 * r + n % 256;
    assert n == 256 * (d * q) + rest == 256 * d * q + rest;
    QuotientIs(n, 256 * d, q, rest);
  }

  /** Each octet by division. */
  lemma {:induction false} OctetIs(n: nat, w: nat, i: nat)
    requires i < w
    ensures BE(n, w)[i] == n / Pow256(w - 1 - i) % 256
  {
    if i < w - 1 {
      OctetIs(n / 256, w - 1, i);
      DivideTwice(n, Pow256(w - 2 - i));
    }
  }

  lemma Word2Is(s: seq<Byte>, n: nat)
    requires n < 0x1_0000
    ensures s == BE(n, 2) <==> IsWord2(s, n)
  {
    OctetIs(n, 2, 0);
    OctetIs(n, 2, 1);
    hide BE;
  }

  lemma Word4Is(s: seq<Byte>, n: nat)
    requires n < 0x1_0000_0000
    ensures s == BE(n, 4) <==> IsWord4(s, n)
  {
    hide BE, Pow256;
    PowersUpTo7();
    forall i | 0 <= i < 4 ensures BE(n, 4)[i] == n / Pow256(3 - i) % 256 {
      OctetIs(n, 4, i);
    }
    assert |s| == 4 && (forall i :: 0 <= i < 4 ==> s[i] == BE(n, 4)[i]) ==> s == BE(n, 4);
  }

  lemma WordFits(s: seq<Byte>, n: nat)
    requires IsWord4(s, n)
    ensures n < 0x1_0000_0000
  {
  }

  lemma Word8Is(s: seq<Byte>, n: nat)
    requires n < 0x1_0000_0000_0000_0000
    ensures s == BE(n, 8) <==> IsWord8(s, n)
  {
    hide BE, Pow256;
    PowersUpTo7();
    forall i | 0 <= i < 8 ensures BE(n, 8)[i] == n / Pow256(7 - i) % 256 {
      OctetIs(n, 8, i);
    }
    assert |s| == 8 && (forall i :: 0 <= i < 8 ==> s[i] == BE(n, 8)[i]) ==> s == BE(n, 8);
  }

  lemma PowersUpTo7()
    ensures Pow256(0) == 1 && Pow256(1) == 0x100 && Pow256(2) == 0x1_0000 && Pow256(3) == 0x100_0000
    ensures Pow256(4) == 0x1_0000_0000 && Pow256(5) == 0x100_0000_0000
    ensures Pow256(6) == 0x1_0000_0000_0000 && Pow256(7) == 0x100_0000_0000_0000
  {
  }

  /** Pow256(4), the range of a guint32. */
  const TWO_32 := 0x1_0000_0000

  lemma Pow256Values()
    ensures Pow256(1) == 256 && Pow256(2) == 0x1_0000 && Pow256(4) == TWO_32
    ensures Pow256(8) == TWO_32 * TWO_32
  {
    assert Pow256(3) == 0x100_0000;
    assert Pow256(5) == 256 * TWO_32;
    assert Pow256(6) == 0x1_0000 * TWO_32;
    assert Pow256(7) == 0x100_0000 * TWO_32;
  }

  /** guint32 arithmetic. */
  function Wrap(n: int): (r: nat)
    ensures r < TWO_32
    ensures 0 <= n < TWO_32 ==> r == n
  {
    n % TWO_32
  }

  lemma WrapAdd(a: int, b: int)
    ensures Wrap(Wrap(a) + b) == Wrap(a + b)
  {
  }
}
