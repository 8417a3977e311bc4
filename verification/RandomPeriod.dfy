// The generator of src/base/random.h has full period: from any seed it runs
// through every number of [1, M - 1] before it comes back. The order of 16807
// modulo M divides M - 1 = 2 * 3 * 3 * 7 * 11 * 31 * 151 * 331, and no power with
// an exponent (M - 1) / q is 1.

module FullPeriod {
  import opened ParkMiller
  import Bytes

  const PERIOD: nat := 0x7fff_fffe

  // ----- Powers of A are what a run from seed 1 passes through -----

  lemma {:induction false} IterateAdd(seed: nat, m: nat, n: nat)
    ensures Iterate(seed, m + n) == Iterate(Iterate(seed, m), n)
  {
    if n > 0 {
      IterateAdd(seed, m, n - 1);
    }
  }

  lemma {:induction false} RunFromOne(seed: nat, n: nat)
    requires InRange(seed)
    ensures Iterate(seed, n) == seed * Iterate(1, n) % M
  {
    RunClosedForm(seed, n);
    RunClosedForm(1, n);
    ModMul(Power(n), seed);
    assert Power(n) * seed == seed * Power(n);
    assert (Power(n) % M) * seed == seed * (Power(n) % M);
  }

  lemma {:induction false} PowerAdd(a: nat, b: nat)
    ensures Iterate(1, a + b) == Iterate(1, a) * Iterate(1, b) % M
  {
    IterateAdd(1, a, b);
    RunClosedForm(1, a);
    RunFromOne(Iterate(1, a), b);
  }

  // One multiplication of known powers.
  lemma {:induction false} Times(a: nat, x: nat, b: nat, y: nat, z: nat)
    requires Iterate(1, a) == x && Iterate(1, b) == y && x * y % M == z
    ensures Iterate(1, a + b) == z
  {
    PowerAdd(a, b);
  }

  lemma {:induction false} FirstPower(n: nat)
    requires n == 1
    ensures Iterate(1, n) == A
  {
    assert Iterate(1, n - 1) == 1;
  }

  lemma {:induction false} OneBack(n: nat, x: nat, y: nat)
    requires Iterate(1, n + 1) == x && StepBack(x) == y
    ensures Iterate(1, n) == y
  {
    RunClosedForm(1, n);
    StepBijective(Iterate(1, n));
  }

  lemma {:induction false} PowersOfOne(d: nat, k: nat)
    requires Iterate(1, d) == 1
    ensures Iterate(1, d * k) == 1
  {
    if k > 0 {
      PowersOfOne(d, k - 1);
      assert d * k == d * (k - 1) + d;
      PowerAdd(d * (k - 1), d);
    }
  }

  // Powers with exponents 2^k.

  lemma {:induction false} Squares0()
    ensures Iterate(1, 1) == 16807
    ensures Iterate(1, 2) == 282475249
    ensures Iterate(1, 4) == 984943658
    ensures Iterate(1, 8) == 1457850878
    ensures Iterate(1, 16) == 1137522503
    ensures Iterate(1, 32) == 1636807826
    ensures Iterate(1, 64) == 685118024
    ensures Iterate(1, 128) == 515204530
  {
    hide Iterate;
    FirstPower(1);
    Times(1, 16807, 1, 16807, 282475249);
    Times(2, 282475249, 2, 282475249, 984943658);
    Times(4, 984943658, 4, 984943658, 1457850878);
    Times(8, 1457850878, 8, 1457850878, 1137522503);
    Times(16, 1137522503, 16, 1137522503, 1636807826);
    Times(32, 1636807826, 32, 1636807826, 685118024);
    Times(64, 685118024, 64, 685118024, 515204530);
  }

  lemma {:induction false} Squares8()
    ensures Iterate(1, 256) == 897054849
    ensures Iterate(1, 512) == 2038299453
    ensures Iterate(1, 1024) == 1836275591
    ensures Iterate(1, 2048) == 349037107
    ensures Iterate(1, 4096) == 149796865
    ensures Iterate(1, 8192) == 1186652285
    ensures Iterate(1, 16384) == 2106880871
    ensures Iterate(1, 32768) == 877809922
  {
    hide Iterate;
    Squares0();
    Times(128, 515204530, 128, 515204530, 897054849);
    Times(256, 897054849, 256, 897054849, 2038299453);
    Times(512, 2038299453, 512, 2038299453, 1836275591);
    Times(1024, 1836275591, 1024, 1836275591, 349037107);
    Times(2048, 349037107, 2048, 349037107, 149796865);
    Times(4096, 149796865, 4096, 149796865, 1186652285);
    Times(8192, 1186652285, 8192, 1186652285, 2106880871);
    Times(16384, 2106880871, 16384, 2106880871, 877809922);
  }

  lemma {:induction false} Squares16()
    ensures Iterate(1, 65536) == 1682791109
    ensures Iterate(1, 131072) == 1900685356
    ensures Iterate(1, 262144) == 2080563572
    ensures Iterate(1, 524288) == 612544882
    ensures Iterate(1, 1048576) == 1295048709
    ensures Iterate(1, 2097152) == 1987420232
    ensures Iterate(1, 4194304) == 868966365
    ensures Iterate(1, 8388608) == 1331238991
  {
    hide Iterate;
    Squares8();
    Times(32768, 877809922, 32768, 877809922, 1682791109);
    Times(65536, 1682791109, 65536, 1682791109, 1900685356);
    Times(131072, 1900685356, 131072, 1900685356, 2080563572);
    Times(262144, 2080563572, 262144, 2080563572, 612544882);
    Times(524288, 612544882, 524288, 612544882, 1295048709);
    Times(1048576, 1295048709, 1048576, 1295048709, 1987420232);
    Times(2097152, 1987420232, 2097152, 1987420232, 868966365);
    Times(4194304, 868966365, 4194304, 868966365, 1331238991);
  }

  lemma {:induction false} Squares24()
    ensures Iterate(1, 16777216) == 1550655590
    ensures Iterate(1, 33554432) == 766698560
    ensures Iterate(1, 67108864) == 1154667137
    ensures Iterate(1, 134217728) == 901595110
    ensures Iterate(1, 268435456) == 1008653149
    ensures Iterate(1, 536870912) == 1821072732
    ensures Iterate(1, 1073741824) == 2147466840
  {
    hide Iterate;
    Squares16();
    Times(8388608, 1331238991, 8388608, 1331238991, 1550655590);
    Times(16777216, 1550655590, 16777216, 1550655590, 766698560);
    Times(33554432, 766698560, 33554432, 766698560, 1154667137);
    Times(67108864, 1154667137, 67108864, 1154667137, 901595110);
    Times(134217728, 901595110, 134217728, 901595110, 1008653149);
    Times(268435456, 1008653149, 268435456, 1008653149, 1821072732);
    Times(536870912, 1821072732, 536870912, 1821072732, 2147466840);
  }

  // ----- The powers with exponents PERIOD / q -----

  lemma {:induction false} PowerOver3()
    ensures Iterate(1, 715827882) == 634005911
  {
    hide Iterate;
    Squares0();
    Squares8();
    Squares16();
    Squares24();
    Times(2, 282475249, 8, 1457850878, 2007237709);
    Times(10, 2007237709, 32, 1636807826, 2110010672);
    Times(42, 2110010672, 128, 515204530, 881140534);
    Times(170, 881140534, 512, 2038299453, 1987502657);
    Times(682, 1987502657, 2048, 349037107, 1656394764);
    Times(2730, 1656394764, 8192, 1186652285, 99284761);
    Times(10922, 99284761, 32768, 877809922, 544348633);
    Times(43690, 544348633, 131072, 1900685356, 1175969859);
    Times(174762, 1175969859, 524288, 612544882, 448035156);
    Times(699050, 448035156, 2097152, 1987420232, 313625057);
    Times(2796202, 313625057, 8388608, 1331238991, 1401305734);
    Times(11184810, 1401305734, 33554432, 766698560, 1252779437);
    Times(44739242, 1252779437, 134217728, 901595110, 1695056031);
    Times(178956970, 1695056031, 536870912, 1821072732, 634005911);
  }

  lemma {:induction false} PowerOver7()
    ensures Iterate(1, 306783378) == 1600955193
  {
    hide Iterate;
    Squares0();
    Squares8();
    Squares16();
    Squares24();
    Times(2, 282475249, 16, 1137522503, 16531729);
    Times(18, 16531729, 128, 515204530, 877819790);
    Times(146, 877819790, 1024, 1836275591, 1973792143);
    Times(1170, 1973792143, 8192, 1186652285, 1588280530);
    Times(9362, 1588280530, 65536, 1682791109, 713072451);
    Times(74898, 713072451, 524288, 612544882, 864669998);
    Times(599186, 864669998, 4194304, 868966365, 1089368889);
    Times(4793490, 1089368889, 33554432, 766698560, 1410082339);
    Times(38347922, 1410082339, 268435456, 1008653149, 1600955193);
  }

  lemma {:induction false} PowerOver11()
    ensures Iterate(1, 195225786) == 298192073
  {
    hide Iterate;
    Squares0();
    Squares8();
    Squares16();
    Squares24();
    Times(2, 282475249, 8, 1457850878, 2007237709);
    Times(10, 2007237709, 16, 1137522503, 1131570933);
    Times(26, 1131570933, 32, 1636807826, 1927702196);
    Times(58, 1927702196, 128, 515204530, 462242385);
    Times(186, 462242385, 2048, 349037107, 621222764);
    Times(2234, 621222764, 8192, 1186652285, 1432671743);
    Times(10426, 1432671743, 16384, 2106880871, 904341801);
    Times(26810, 904341801, 32768, 877809922, 687791678);
    Times(59578, 687791678, 131072, 1900685356, 515678993);
    Times(190650, 515678993, 2097152, 1987420232, 70230534);
    Times(2287802, 70230534, 8388608, 1331238991, 1922162627);
    Times(10676410, 1922162627, 16777216, 1550655590, 249105855);
    Times(27453626, 249105855, 33554432, 766698560, 765237990);
    Times(61008058, 765237990, 134217728, 901595110, 298192073);
  }

  lemma {:induction false} PowerOver31()
    ensures Iterate(1, 69273666) == 16384
  {
    hide Iterate;
    Squares0();
    Squares8();
    Squares16();
    Squares24();
    Times(2, 282475249, 64, 685118024, 1060806853);
    Times(66, 1060806853, 2048, 349037107, 111398400);
    Times(2114, 111398400, 65536, 1682791109, 766345775);
    Times(67650, 766345775, 2097152, 1987420232, 501934855);
    Times(2164802, 501934855, 67108864, 1154667137, 16384);
  }

  lemma {:induction false} PowerOver151()
    ensures Iterate(1, 14221746) == 1013763951
  {
    hide Iterate;
    Squares0();
    Squares8();
    Squares16();
    Squares24();
    Times(2, 282475249, 16, 1137522503, 16531729);
    Times(18, 16531729, 32, 1636807826, 937186357);
    Times(50, 937186357, 128, 515204530, 290145159);
    Times(178, 290145159, 256, 897054849, 2119315080);
    Times(434, 2119315080, 65536, 1682791109, 461253127);
    Times(65970, 461253127, 524288, 612544882, 1419975727);
    Times(590258, 1419975727, 1048576, 1295048709, 2125667626);
    Times(1638834, 2125667626, 4194304, 868966365, 168128469);
    Times(5833138, 168128469, 8388608, 1331238991, 1013763951);
  }

  lemma {:induction false} PowerOver331()
    ensures Iterate(1, 6487866) == 759513457
  {
    hide Iterate;
    Squares0();
    Squares8();
    Squares16();
    Squares24();
    Times(2, 282475249, 8, 1457850878, 2007237709);
    Times(10, 2007237709, 16, 1137522503, 1131570933);
    Times(26, 1131570933, 32, 1636807826, 1927702196);
    Times(58, 1927702196, 256, 897054849, 1262696576);
    Times(314, 1262696576, 512, 2038299453, 895063368);
    Times(826, 895063368, 1024, 1836275591, 2028965134);
    Times(1850, 2028965134, 2048, 349037107, 840788275);
    Times(3898, 840788275, 4096, 149796865, 1433401925);
    Times(7994, 1433401925, 8192, 1186652285, 369200414);
    Times(16186, 369200414, 16384, 2106880871, 1576225411);
    Times(32570, 1576225411, 32768, 877809922, 1456949660);
    Times(65338, 1456949660, 131072, 1900685356, 7693700);
    Times(196410, 7693700, 2097152, 1987420232, 1043837591);
    Times(2293562, 1043837591, 4194304, 868966365, 759513457);
  }

  // 2^30 - 1, one step before 2^30.
  lemma {:induction false} PowerOver2()
    ensures Iterate(1, 1073741823) == 2147483646
    ensures Iterate(1, PERIOD) == 1
  {
    hide Iterate;
    Squares24();
    OneBack(1073741823, 2147466840, 2147483646);
    Times(1073741823, 2147483646, 1073741823, 2147483646, 1);
  }

  // ----- Divisors of PERIOD -----

  // The primes in PERIOD.
  predicate Listed(q: nat) {
    q == 2 || q == 3 || q == 7 || q == 11 || q == 31 || q == 151 || q == 331
  }

  lemma {:induction false} NoSmallFactor(q: nat, f: nat, h: nat)
    requires Listed(q) && 2 <= f <= 18 && h >= 2
    ensures f * h != q
  {
    assert f == 2 || f == 3 || f == 4 || f == 5 || f == 6 || f == 7 || f == 8 || f == 9 || f == 10
        || f == 11 || f == 12 || f == 13 || f == 14 || f == 15 || f == 16 || f == 17 || f == 18;
  }

  lemma {:induction false} NoProduct(q: nat, f: nat, h: nat)
    requires Listed(q) && f >= 2 && h >= 2
    ensures f * h != q
  {
    if f <= 18 {
      NoSmallFactor(q, f, h);
    } else if h <= 18 {
      NoSmallFactor(q, h, f);
    } else {
      assert f * h >= 19 * h;
    }
  }

  lemma {:induction false} NoFactor(q: nat, r: nat)
    requires Listed(q) && 1 < r < q
    ensures q % r != 0
  {
    var h := q / r;
    assert q == r * h + q % r;
    if h >= 2 {
      NoProduct(q, r, h);
    }
  }

  lemma {:induction false} Remainder(q: int, r: int, t: int, s: int, k: int, c: int)
    requires q == r * t + s && r * k == q * c
    ensures s * k == q * (k - t * c)
  {
    assert s * k == q * k - r * t * k;
    assert r * t * k == t * (r * k);
    assert t * (q * c) == q * (t * c);
    assert q * (k - t * c) == q * k - q * (t * c);
  }

  // A prime that divides r * k but not r divides k.
  lemma {:induction false} Euclid(q: nat, r: nat, k: int, c: int)
    requires Listed(q) && 0 < r < q && r * k == q * c
    ensures k % q == 0
    decreases r
  {
    if r == 1 {
      Multiple(q, k, c);
    } else {
      NoFactor(q, r);
      var t, s := q / r, q % r;
      assert q == r * t + s;
      Remainder(q, r, t, s, k, c);
      Euclid(q, s, k, k - t * c);
    }
  }

  lemma {:induction false} Multiple(q: nat, k: int, c: int)
    requires q > 0 && k == q * c
    ensures k % q == 0 && k / q == c
  {
    Bytes.DivModUnique(k, q, c, 0);
  }

  // A factor q of e * k that e does not have is in k.
  lemma {:induction false} Peel(q: nat, e: nat, k: nat, m: nat)
    requires Listed(q) && e % q != 0 && e * k == q * m
    ensures k % q == 0 && e * (k / q) == m
  {
    var a, r := e / q, e % q;
    assert e == q * a + r;
    Reduced(q, e, a, r, k, m);
    Euclid(q, r, k, m - a * k);
    var j := k / q;
    Cancel(q, e, k, j, m);
  }

  lemma {:induction false} Reduced(q: int, e: int, a: int, r: int, k: int, m: int)
    requires e == q * a + r && e * k == q * m
    ensures r * k == q * (m - a * k)
  {
    assert r * k == e * k - q * a * k;
    assert q * a * k == q * (a * k);
    assert q * (m - a * k) == q * m - q * (a * k);
  }

  lemma {:induction false} Cancel(q: nat, e: nat, k: nat, j: nat, m: nat)
    requires q > 0 && k == q * j && e * k == q * m
    ensures e * j == m
  {
    assert e * k == q * (e * j);
    assert q * (e * j - m) == 0;
  }

  // A proper divisor of PERIOD divides PERIOD / q for a listed q.
  lemma {:induction false} Cofactor(d: nat, e: nat) returns (q: nat)
    requires d * e == PERIOD && e > 1
    ensures Listed(q) && e % q == 0
  {
    q := if e % 2 == 0 then 2 else if e % 3 == 0 then 3 else if e % 7 == 0 then 7 else if e % 11 == 0 then 11
         else if e % 31 == 0 then 31 else if e % 151 == 0 then 151 else 331;
    if e % q != 0 {
      assert e * d == PERIOD;
      PeelAll(e, d);
    }
  }

  lemma {:induction false} PeelAll(e: nat, d: nat)
    requires e * d == PERIOD
    requires e % 2 != 0 && e % 3 != 0 && e % 7 != 0 && e % 11 != 0 && e % 31 != 0 && e % 151 != 0 && e % 331 != 0
    ensures e == 1
  {
    Peel(2, e, d, 1073741823);
    Peel(3, e, d / 2, 357913941);
    Peel(3, e, d / 2 / 3, 119304647);
    Peel(7, e, d / 2 / 3 / 3, 17043521);
    Peel(11, e, d / 2 / 3 / 3 / 7, 1549411);
    Peel(31, e, d / 2 / 3 / 3 / 7 / 11, 49981);
    Peel(151, e, d / 2 / 3 / 3 / 7 / 11 / 31, 331);
    Peel(331, e, d / 2 / 3 / 3 / 7 / 11 / 31 / 151, 1);
  }

  // ----- The order of A -----

  lemma {:induction false} OverListed(q: nat)
    requires Listed(q)
    ensures PERIOD % q == 0 && Iterate(1, PERIOD / q) != 1
  {
    hide Iterate;
    PowerOver2();
    PowerOver3();
    PowerOver7();
    PowerOver11();
    PowerOver31();
    PowerOver151();
    PowerOver331();
  }

  lemma {:induction false} ProperDivisor(d: nat, e: nat)
    requires d * e == PERIOD && e > 1
    ensures Iterate(1, d) != 1
  {
    hide Iterate;
    var q := Cofactor(d, e);
    OverListed(q);
    var j := e / q;
    assert e == q * j;
    assert d * e == q * (d * j);
    Multiple(q, PERIOD, d * j);
    if Iterate(1, d) == 1 {
      PowersOfOne(d, j);
    }
  }

  // The first return to 1 after d steps: d divides every n with A^n = 1.
  lemma {:induction false} ReturnsDivide(d: nat, n: nat)
    requires d > 0 && Iterate(1, d) == 1 && Iterate(1, n) == 1
    requires forall i :: 0 < i < d ==> Iterate(1, i) != 1
    ensures n % d == 0
  {
    hide Iterate;
    var q, r := n / d, n % d;
    assert n == d * q + r;
    PowersOfOne(d, q);
    PowerAdd(d * q, r);
    RunClosedForm(1, r);
  }

  // No run from 1 is back before PERIOD steps.
  lemma {:induction false} NoEarlyReturn(n: nat)
    requires 0 < n < PERIOD
    ensures Iterate(1, n) != 1
    decreases n
  {
    hide Iterate;
    forall i | 0 < i < n
      ensures Iterate(1, i) != 1
    {
      NoEarlyReturn(i);
    }
    if Iterate(1, n) == 1 {
      PowerOver2();
      ReturnsDivide(n, PERIOD);
      var e := PERIOD / n;
      assert PERIOD == n * e;
      assert e != 1;
      ProperDivisor(n, e);
    }
  }

  // ----- Every number is reached -----

  lemma {:induction false} AllDifferent(i: nat, j: nat)
    requires i < j < PERIOD
    ensures Iterate(1, i) != Iterate(1, j)
    decreases i
  {
    if i == 0 {
      NoEarlyReturn(j);
    } else {
      AllDifferent(i - 1, j - 1);
      RunClosedForm(1, i - 1);
      RunClosedForm(1, j - 1);
      StepBijective(Iterate(1, i - 1));
      StepBijective(Iterate(1, j - 1));
    }
  }

  ghost function Visited(k: nat): (s: set<nat>)
  {
    set i: nat | i < k :: Iterate(1, i)
  }

  lemma {:induction false} VisitedCount(k: nat)
    requires k <= PERIOD
    ensures |Visited(k)| == k
  {
    if k > 0 {
      VisitedCount(k - 1);
      forall i: nat | i < k - 1
        ensures Iterate(1, i) != Iterate(1, k - 1)
      {
        AllDifferent(i, k - 1);
      }
      assert Iterate(1, k - 1) !in Visited(k - 1);
      assert Visited(k) == Visited(k - 1) + {Iterate(1, k - 1)};
    }
  }

  ghost function Seeds(n: nat): (s: set<nat>)
    ensures forall x: nat :: x in s <==> 1 <= x <= n
  {
    if n == 0 then {} else Seeds(n - 1) + {n}
  }

  lemma {:induction false} SeedsCount(n: nat)
    ensures |Seeds(n)| == n
  {
    if n > 0 {
      SeedsCount(n - 1);
    }
  }

  lemma {:induction false} SameSize(a: set<nat>, b: set<nat>)
    requires a <= b && |a| == |b|
    ensures a == b
  {
    if x :| x in b && x !in a {
      SubsetCount(a, b - {x});
    }
  }

  lemma {:induction false} SubsetCount(a: set<nat>, b: set<nat>)
    requires a <= b
    ensures |a| <= |b|
    decreases |a|
  {
    if x :| x in a {
      SubsetCount(a - {x}, b - {x});
    }
  }

  lemma {:induction false} ReachedFromOne(t: nat) returns (n: nat)
    requires InRange(t)
    ensures n < PERIOD && Iterate(1, n) == t
  {
    hide Iterate;
    VisitedCount(PERIOD);
    SeedsCount(PERIOD);
    forall x | x in Visited(PERIOD)
      ensures x in Seeds(PERIOD)
    {
      var i: nat :| i < PERIOD && Iterate(1, i) == x;
      RunClosedForm(1, i);
    }
    SameSize(Visited(PERIOD), Seeds(PERIOD));
    assert t in Seeds(PERIOD);
    n :| n < PERIOD && Iterate(1, n) == t;
  }

  // From every seed every number is reached within one period, ...
  lemma {:induction false} VisitsAll(seed: nat, t: nat) returns (n: nat)
    requires InRange(seed) && InRange(t)
    ensures n < PERIOD && Iterate(seed, n) == t
  {
    hide Iterate;
    var a := ReachedFromOne(seed);
    var b := ReachedFromOne(t);
    if a <= b {
      n := b - a;
      IterateAdd(1, a, n);
    } else {
      n := PERIOD - a + b;
      IterateAdd(1, a, n);
      PowerOver2();
      IterateAdd(1, PERIOD, b);
    }
  }

  // ... and the seed itself comes back after exactly that many steps.
  lemma {:induction false} ExactPeriod(seed: nat, n: nat)
    requires InRange(seed)
    ensures Iterate(seed, PERIOD) == seed
    ensures 0 < n < PERIOD ==> Iterate(seed, n) != seed
  {
    hide Iterate;
    PowerOver2();
    RunFromOne(seed, PERIOD);
    ModUnique(seed, 0, seed);
    if 0 < n < PERIOD {
      var a := ReachedFromOne(seed);
      IterateAdd(1, a, n);
      ComesBackLater(a, n);
    }
  }

  lemma {:induction false} ComesBackLater(a: nat, n: nat)
    requires a < PERIOD && 0 < n < PERIOD
    ensures Iterate(1, a + n) != Iterate(1, a)
  {
    hide Iterate;
    if a + n < PERIOD {
      AllDifferent(a, a + n);
    } else {
      PowerOver2();
      IterateAdd(1, PERIOD, a + n - PERIOD);
      AllDifferent(a + n - PERIOD, a);
    }
  }
}
