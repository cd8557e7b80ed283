/**
 Where fat16_get_fat_entry reads (src/fs/fat/fat16.c:385-386) compared with where the
 table keeps the entry: a product in 32-bit arithmetic against a sum.

 With r reserved sectors and cluster c the two are 512 r * 2 c modulo 2^32 and
 512 r + 2 c. If they are equal then c = 256 q and r = 512 p - q for some p <= 128 and
 q < 256, and q q + p is 512 w for a w that leaves the same remainder as p q modulo 32.
 That leaves 255 values of q to look at; those above 128 mirror those below.
 */
module FatPosition {
  import opened CTypes

  /** The remaining condition for q, or for its mirror image 256 - q. */
  predicate Clash(q: int, p: int, w: int) {
    0 < p && p <= 128 && ((p * q - w) % 32 == 0 || (p * q + w - q) % 32 == 0)
  }

  /** No clash at n values from q on; p and w are moved along so that q q + p stays 512 w. */
  predicate NoClashes(n: nat, q: int, p: int, w: int) {
    if n == 0 then true
    else if Clash(q, p, w) then false
    else if p < 2 * q + 1 then NoClashes(n - 1, q + 1, p + 512 - (2 * q + 1), w + 1)
    else NoClashes(n - 1, q + 1, p - (2 * q + 1), w)
  }

  lemma From0() ensures NoClashes(8, 0, 0, 0) {}
  lemma From8() ensures NoClashes(8, 8, 448, 1) {}
  lemma From16() ensures NoClashes(8, 16, 256, 1) {}
  lemma From24() ensures NoClashes(8, 24, 448, 2) {}
  lemma From32() ensures NoClashes(8, 32, 0, 2) {}
  lemma From40() ensures NoClashes(8, 40, 448, 4) {}
  lemma From48() ensures NoClashes(8, 48, 256, 5) {}
  lemma From56() ensures NoClashes(8, 56, 448, 7) {}
  lemma From64() ensures NoClashes(8, 64, 0, 8) {}
  lemma From72() ensures NoClashes(8, 72, 448, 11) {}
  lemma From80() ensures NoClashes(8, 80, 256, 13) {}
  lemma From88() ensures NoClashes(8, 88, 448, 16) {}
  lemma From96() ensures NoClashes(8, 96, 0, 18) {}
  lemma From104() ensures NoClashes(8, 104, 448, 22) {}
  lemma From112() ensures NoClashes(8, 112, 256, 25) {}
  lemma From120() ensures NoClashes(8, 120, 448, 29) {}

  lemma {:induction false} NoClashAt(n: nat, q: int, p: int, w: int, q': int, p': int, w': int)
    requires NoClashes(n, q, p, w) && 0 <= p < 512 && Square(q) + p == 512 * w
    requires 0 <= q <= q' < q + n && 2 * q' < 512 && 0 <= p' < 512 && Square(q') + p' == 512 * w'
    ensures !Clash(q', p', w')
    decreases n
  {
    hide Clash;
    hide Square;
    if q < q' {
      NextSquare(q);
      if p < 2 * q + 1 {
        NoClashAt(n - 1, q + 1, p + 512 - (2 * q + 1), w + 1, q', p', w');
      } else {
        NoClashAt(n - 1, q + 1, p - (2 * q + 1), w, q', p', w');
      }
    }
  }

  function Square(q: int): int {
    q * q
  }

  lemma NextSquare(q: int)
    ensures Square(q + 1) == Square(q) + 2 * q + 1
  {
  }

  lemma NoClash(q: int, p: int, w: int)
    requires 0 <= q < 128 && 0 <= p < 512 && q * q + p == 512 * w
    ensures !Clash(q, p, w)
  {
    if q < 8 {
      From0();
      NoClashAt(8, 0, 0, 0, q, p, w);
    } else if q < 16 {
      From8();
      NoClashAt(8, 8, 448, 1, q, p, w);
    } else if q < 24 {
      From16();
      NoClashAt(8, 16, 256, 1, q, p, w);
    } else if q < 32 {
      From24();
      NoClashAt(8, 24, 448, 2, q, p, w);
    } else if q < 40 {
      From32();
      NoClashAt(8, 32, 0, 2, q, p, w);
    } else if q < 48 {
      From40();
      NoClashAt(8, 40, 448, 4, q, p, w);
    } else if q < 56 {
      From48();
      NoClashAt(8, 48, 256, 5, q, p, w);
    } else if q < 64 {
      From56();
      NoClashAt(8, 56, 448, 7, q, p, w);
    } else if q < 72 {
      From64();
      NoClashAt(8, 64, 0, 8, q, p, w);
    } else if q < 80 {
      From72();
      NoClashAt(8, 72, 448, 11, q, p, w);
    } else if q < 88 {
      From80();
      NoClashAt(8, 80, 256, 13, q, p, w);
    } else if q < 96 {
      From88();
      NoClashAt(8, 88, 448, 16, q, p, w);
    } else if q < 104 {
      From96();
      NoClashAt(8, 96, 0, 18, q, p, w);
    } else if q < 112 {
      From104();
      NoClashAt(8, 104, 448, 22, q, p, w);
    } else if q < 120 {
      From112();
      NoClashAt(8, 112, 256, 25, q, p, w);
    } else {
      From120();
      NoClashAt(8, 120, 448, 29, q, p, w);
    }
  }

  /** The reduction: what a coincidence of product and sum comes down to. */
  lemma Reduced(r: uint16, c: uint16) returns (q: int, p: int, w: int)
    requires ToInt32(512 * r * (2 * c)) == 512 * r + 2 * c
    ensures c == 256 * q && 0 <= q < 256 && r == 512 * p - q && 0 <= p <= 128
    ensures q * q + p == 512 * w && (p * q - w) % 32 == 0
  {
    hide ToInt32;
    var product := r * c;
    assert 512 * r * (2 * c) == 1024 * product;
    var k := Unwrapped(1024 * product, 512 * r + 2 * c);
    q := 2 * product - 0x80_0000 * k - r;
    assert c == 256 * q;
    assert product == 256 * (r * q) by { Factor(r, q); }
    p := r * q - 0x4000 * k;
    assert r == 512 * p - q;
    Expand(r, p, q);
    w := p * q - 32 * k;
  }

  lemma Unwrapped(x: int, y: nat) returns (k: int)
    requires ToInt32(x) == y
    ensures x == 0x1_0000_0000 * k + y
  {
    k := x / 0x1_0000_0000;
  }

  lemma Factor(r: int, q: int)
    ensures r * (256 * q) == 256 * (r * q)
  {
  }

  lemma Expand(r: int, p: int, q: int)
    requires r == 512 * p - q
    ensures r * q == 512 * (p * q) - q * q
  {
  }

  lemma Mirror(q: int, p: int, w: int)
    requires q * q + p == 512 * w
    ensures (256 - q) * (256 - q) + p == 512 * (w + 128 - q)
    ensures (p * q - w) % 32 == 0 ==> (p * (256 - q) + (w + 128 - q) - (256 - q)) % 32 == 0
  {
    MirrorProduct(q, q);
    MirrorProduct(p, q);
    assert (256 - q) * (256 - q) == 256 * (256 - q) - q * (256 - q);
    MirrorRest(p * q - w, p * (256 - q) + (w + 128 - q) - (256 - q), 8 * p - 4);
  }

  lemma MirrorProduct(x: int, q: int)
    ensures x * (256 - q) == 256 * x - x * q
  {
  }

  lemma MirrorRest(x: int, y: int, k: int)
    requires x + y == 32 * k
    ensures x % 32 == 0 ==> y % 32 == 0
  {
  }

  /** And nothing is left of it but zeros. */
  lemma OnlyZero(q: int, p: int, w: int)
    requires 0 <= q < 256 && 0 <= p <= 128 && 512 * p - q >= 0
    requires q * q + p == 512 * w && (p * q - w) % 32 == 0
    ensures q == 0 && p == 0
  {
    if q < 128 {
      NoClash(q, p, w);
    } else if q > 128 {
      Mirror(q, p, w);
      NoClash(256 - q, p, w + 128 - q);
    }
  }

  /** The product meets the sum in one case only. */
  lemma ProductMeetsSumIff(r: uint16, c: uint16)
    ensures ToInt32(512 * r * (2 * c)) == 512 * r + 2 * c <==> r == 0 && c == 0
  {
    if ToInt32(512 * r * (2 * c)) == 512 * r + 2 * c {
      hide ToInt32;
      var q, p, w := Reduced(r, c);
      OnlyZero(q, p, w);
    }
  }
}
