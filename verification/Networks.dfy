/** Networks as sets of addresses: what comparing prefixes says of the addresses, and of a profile's routes. */
module Networks {
  import opened Picking
  import opened Wrappers

  datatype Family = V4 | V6

  datatype Address = Address(family: Family, bits: nat)

  /** A network as written: the bits behind its prefix are kept and do not count. */
  datatype Net = Net(family: Family, bits: nat, prefix: nat)

  function Width(f: Family): nat {
    if f == V4 then 32 else 128
  }

  function Pow2(n: nat): (p: nat)
    ensures p >= 1
  {
    if n == 0 then 1 else 2 * Pow2(n - 1)
  }

  ghost predicate Valid(n: Net) {
    n.prefix <= Width(n.family) && n.bits < Pow2(Width(n.family))
  }

  /** How many addresses the network has. */
  function Size(n: Net): (size: nat)
    requires n.prefix <= Width(n.family)
    ensures size >= 1
  {
    Pow2(Width(n.family) - n.prefix)
  }

  /** `x` with what is behind a multiple of `s` taken off. */
  function Floor(x: nat, s: nat): (r: nat)
    requires s >= 1
    ensures r == x / s * s
  {
    x - x % s
  }

  function First(n: Net): nat
    requires n.prefix <= Width(n.family)
  {
    Floor(n.bits, Size(n))
  }

  function Last(n: Net): int
    requires n.prefix <= Width(n.family)
  {
    First(n) + Size(n) - 1
  }

  /** Whether `a` contains `b`, by the first and the last address of each. */
  predicate Contains(a: Net, b: Net)
    requires a.prefix <= Width(a.family) && b.prefix <= Width(b.family)
  {
    a.family == b.family && First(a) <= First(b) && Last(b) <= Last(a)
  }

  predicate Overlaps(item: Net, space: Net)
    requires item.prefix <= Width(item.family) && space.prefix <= Width(space.family)
  {
    Contains(item, space) || Contains(space, item)
  }

  /** An address lies in a network when it has its family and the bits of its prefix. */
  ghost predicate LiesIn(x: Address, n: Net)
    requires n.prefix <= Width(n.family)
  {
    x.family == n.family && x.bits < Pow2(Width(x.family)) && x.bits / Size(n) == n.bits / Size(n)
  }

  // ---------- arithmetic of aligned blocks ----------

  lemma {:induction false} Pow2Splits(a: nat, b: nat)
    requires a <= b
    ensures Pow2(b) == Pow2(b - a) * Pow2(a)
    decreases b
  {
    if a < b {
      Pow2Splits(a, b - 1);
      Double(Pow2(b - 1 - a), Pow2(a));
    }
  }

  lemma Double(a: nat, b: nat)
    ensures 2 * (a * b) == (2 * a) * b
  {
  }

  /** The block of size `s` that `x` lies in. */
  lemma BlockOf(x: nat, s: nat)
    requires s >= 1
    ensures x / s * s <= x < x / s * s + s
  {
  }

  /** A multiple of `s` does not fall within the block of `x`. */
  lemma NoMultipleWithin(q: nat, s: nat, x: nat)
    requires s >= 1
    ensures q * s <= x ==> q * s <= x / s * s
    ensures q * s > x ==> q * s >= x / s * s + s
  {
    BlockOf(x, s);
    if q * s <= x {
      if q > x / s {
        Times(q, x / s + 1, s);
      } else {
        Times(x / s, q, s);
      }
    } else {
      if q <= x / s {
        Times(x / s, q, s);
      } else {
        Times(q, x / s + 1, s);
      }
    }
  }

  lemma Times(a: nat, b: nat, s: nat)
    requires a >= b
    ensures a * s >= b * s && (b + 1) * s == b * s + s
  {
    assert (a - b) * s >= 0;
    assert a * s == b * s + (a - b) * s;
  }

  lemma OneBlock(x: nat, q: nat, r: nat, s: nat)
    requires q * s <= x < q * s + s && r * s <= x < r * s + s
    ensures q == r
  {
    if q > r {
      Times(q, r + 1, s);
      Times(r, r, s);
    } else if r > q {
      Times(r, q + 1, s);
      Times(q, q, s);
    }
  }

  lemma SameBlock(x: nat, y: nat, s: nat)
    requires s >= 1
    ensures x / s == y / s <==> y / s * s <= x < y / s * s + s
  {
    var q, r := y / s, x / s;
    BlockOf(x, s);
    if q * s <= x < q * s + s {
      OneBlock(x, q, r, s);
    }
  }

  /** An address lies in a network when it is neither before the first nor behind the last address of it. */
  lemma LiesBetween(x: Address, n: Net)
    requires n.prefix <= Width(n.family) && x.family == n.family && x.bits < Pow2(Width(x.family))
    ensures LiesIn(x, n) <==> First(n) <= x.bits <= Last(n)
  {
    SameBlock(x.bits, n.bits, Size(n));
  }

  /** The first and the last address of a network are addresses of it. */
  lemma EndsLieIn(n: Net)
    requires Valid(n)
    ensures LiesIn(Address(n.family, First(n)), n)
    ensures Last(n) >= 0 && LiesIn(Address(n.family, Last(n)), n)
  {
    var w, s := Width(n.family), Size(n);
    BlockOf(n.bits, s);
    Pow2Splits(w - n.prefix, w);
    NoMultipleWithin(Pow2(n.prefix), s, n.bits);
    LiesBetween(Address(n.family, First(n)), n);
    LiesBetween(Address(n.family, Last(n)), n);
  }

  lemma SizeOf(small: Net, large: Net)
    requires large.prefix <= small.prefix <= Width(small.family) && small.family == large.family
    ensures Size(large) == Pow2(small.prefix - large.prefix) * Size(small)
  {
    Pow2Splits(Width(small.family) - small.prefix, Width(small.family) - large.prefix);
  }

  lemma LiesInBlock(x: Address, n: Net)
    requires n.prefix <= Width(n.family) && LiesIn(x, n)
    ensures x.bits < Pow2(Width(x.family)) && x.family == n.family && x.bits / Size(n) == n.bits / Size(n)
  {
  }

  /** Of two blocks that share an address, the larger one holds the other. */
  lemma LargerHolds(x: Address, small: Net, large: Net)
    requires small.prefix <= Width(small.family) && large.prefix <= small.prefix && small.family == large.family
    requires LiesIn(x, small) && LiesIn(x, large)
    ensures Contains(large, small)
  {
    hide Pow2, Size, LiesIn;
    SizeOf(small, large);
    LiesInBlock(x, small);
    LiesInBlock(x, large);
    LiesBetween(x, small);
    LiesBetween(x, large);
    BlocksNest(x.bits, Size(small), Pow2(small.prefix - large.prefix), large.bits / Size(large));
  }

  /** A block of `k` times the size that `x` lies in holds the block of size `s` around it. */
  lemma BlocksNest(x: nat, s: nat, k: nat, q: nat)
    requires s >= 1 && q * (k * s) <= x < q * (k * s) + k * s
    ensures q * (k * s) <= x / s * s && x / s * s + s <= q * (k * s) + k * s
  {
    Regroup(q, k, s);
    NoMultipleWithin(q * k, s, x);
    NoMultipleWithin(q * k + k, s, x);
  }

  lemma Regroup(q: nat, k: nat, s: nat)
    ensures q * (k * s) == (q * k) * s && (q * k + k) * s == q * (k * s) + k * s
  {
  }

  // ---------- containing and overlapping ----------

  /** Containing means that every address of the one lies in the other. */
  lemma ContainsMeansAllLieIn(a: Net, b: Net)
    requires Valid(a) && Valid(b)
    ensures Contains(a, b) <==> forall x :: LiesIn(x, b) ==> LiesIn(x, a)
  {
    if Contains(a, b) {
      forall x | LiesIn(x, b) ensures LiesIn(x, a) {
        LiesBetween(x, b);
        LiesBetween(x, a);
      }
    }
    if forall x :: LiesIn(x, b) ==> LiesIn(x, a) {
      EndsLieIn(b);
      LiesBetween(Address(b.family, First(b)), a);
      LiesBetween(Address(b.family, Last(b)), a);
    }
  }

  /** Overlapping means that some address lies in both, whatever their host bits are. */
  lemma OverlapsMeansSharing(a: Net, b: Net)
    requires Valid(a) && Valid(b)
    ensures Overlaps(a, b) <==> exists x :: LiesIn(x, a) && LiesIn(x, b)
  {
    if x :| LiesIn(x, a) && LiesIn(x, b) {
      if a.prefix <= b.prefix {
        LargerHolds(x, b, a);
      } else {
        LargerHolds(x, a, b);
      }
    }
    if Overlaps(a, b) {
      var inner := if Contains(a, b) then b else a;
      var outer := if Contains(a, b) then a else b;
      EndsLieIn(inner);
      ContainsMeansAllLieIn(outer, inner);
    }
  }

  // ---------- the routes of a profile ----------

  /** The space rurge takes its own addresses from, in both families. */
  const SPACE_V4 := Net(V4, 0xC612_0000, 15)
  const SPACE_V6 := Net(V6, 0xFD00_6152_0000_0000_0000_0000_0000_0000, 64)

  /** Set apart by section 3 of RFC 1918, largest first. */
  const PRIVATE_RANGES := [Net(V4, 0x0A00_0000, 8), Net(V4, 0xAC10_0000, 12), Net(V4, 0xC0A8_0000, 16)]

  lemma {:induction false} Pow2At32And128()
    ensures Pow2(32) == 0x1_0000_0000
    ensures Pow2(128) == 0x1_0000_0000 * 0x1_0000_0000 * 0x1_0000_0000 * 0x1_0000_0000
  {
    assert Pow2(8) == 256;
    Pow2Splits(8, 16);
    Pow2Splits(16, 32);
    Pow2Splits(32, 64);
    Pow2Splits(64, 128);
  }

  /** The address of version 4 with these four bytes. */
  function Bytes(a: nat, b: nat, c: nat, d: nat): Address {
    Address(V4, ((a * 256 + b) * 256 + c) * 256 + d)
  }

  /** Which addresses these are, as they are written. */
  lemma RangesAsWritten(a: nat, b: nat, c: nat, d: nat)
    requires a < 256 && b < 256 && c < 256 && d < 256
    ensures LiesIn(Bytes(a, b, c, d), SPACE_V4) <==> a == 198 && (b == 18 || b == 19)
    ensures |PRIVATE_RANGES| == 3
    ensures LiesIn(Bytes(a, b, c, d), PRIVATE_RANGES[0]) <==> a == 10
    ensures LiesIn(Bytes(a, b, c, d), PRIVATE_RANGES[1]) <==> a == 172 && 16 <= b <= 31
    ensures LiesIn(Bytes(a, b, c, d), PRIVATE_RANGES[2]) <==> a == 192 && b == 168
  {
    hide First, Last, LiesIn, Pow2;
    var x := Bytes(a, b, c, d);
    hide Size;
    Pow2At32And128();
    SizesAre();
    BeginsAsWritten(SPACE_V4, 0x2_0000, 0x6309);
    BeginsAsWritten(PRIVATE_RANGES[0], 0x100_0000, 0xA);
    BeginsAsWritten(PRIVATE_RANGES[1], 0x10_0000, 0xAC1);
    BeginsAsWritten(PRIVATE_RANGES[2], 0x1_0000, 0xC0A8);
    LiesBetween(x, SPACE_V4);
    LiesBetween(x, PRIVATE_RANGES[0]);
    LiesBetween(x, PRIVATE_RANGES[1]);
    LiesBetween(x, PRIVATE_RANGES[2]);
  }

  lemma Powers()
    ensures Pow2(4) == 16 && Pow2(16) == 0x1_0000 && Pow2(17) == 0x2_0000 && Pow2(20) == 0x10_0000
    ensures Pow2(24) == 0x100_0000 && Pow2(64) == 0x1_0000_0000_0000_0000
  {
    assert Pow2(4) == 16;
    hide Pow2;
    Pow2Splits(4, 8);
    Pow2Splits(8, 16);
    Pow2Splits(4, 20);
    Pow2Splits(4, 24);
    Pow2Splits(16, 17);
    Pow2Splits(16, 32);
    Pow2Splits(32, 64);
    assert Pow2(1) == 2 by { PowerOne(); }
  }

  lemma PowerOne()
    ensures Pow2(1) == 2
  {
  }

  lemma SizesAre()
    ensures Size(SPACE_V4) == 0x2_0000 && Size(SPACE_V6) == 0x1_0000_0000_0000_0000
    ensures Size(PRIVATE_RANGES[0]) == 0x100_0000 && Size(PRIVATE_RANGES[1]) == 0x10_0000
    ensures Size(PRIVATE_RANGES[2]) == 0x1_0000
  {
    hide Pow2;
    Powers();
  }

  /** A network written without host bits begins where it is written. */
  lemma BeginsAsWritten(n: Net, size: nat, k: nat)
    requires n.prefix <= Width(n.family) && Size(n) == size && n.bits == k * size
    ensures First(n) == n.bits && Last(n) == n.bits + size - 1
  {
    hide Size, Floor;
    MultipleStays(k, size);
  }

  lemma MultipleStays(k: nat, s: nat)
    requires s >= 1
    ensures Floor(k * s, s) == k * s
  {
    NoMultipleWithin(k, s, k * s);
    BlockOf(k * s, s);
  }

  /** The space of version 6 are the addresses that begin with fd00, 6152, 0 and 0. */
  lemma SpaceV6AsWritten(front: nat, host: nat)
    requires front < 0x1_0000_0000_0000_0000 && host < 0x1_0000_0000_0000_0000
    ensures LiesIn(Address(V6, front * 0x1_0000_0000_0000_0000 + host), SPACE_V6) <==>
            front == ((0xFD00 * 0x1_0000 + 0x6152) * 0x1_0000 + 0) * 0x1_0000 + 0
  {
    hide Size, LiesIn, Pow2;
    Pow2At32And128();
    SizesAre();
    LiesBetween(Address(V6, front * 0x1_0000_0000_0000_0000 + host), SPACE_V6);
    assert First(SPACE_V6) == 0xFD00_6152_0000_0000 * 0x1_0000_0000_0000_0000;
  }

  /** The item has an address that lies in rurge's own space. */
  ghost predicate SharesSpace(item: Net)
    requires Valid(item)
  {
    exists x :: LiesIn(x, item) && (LiesIn(x, SPACE_V4) || LiesIn(x, SPACE_V6))
  }

  /** The items a warning is given for, in order: exactly those with an address of rurge's own space. */
  ghost function Sharing(items: seq<Net>): seq<Net>
    requires forall n <- items :: Valid(n)
  {
    if items == [] then []
    else
      var front, last := Sharing(items[..|items| - 1]), items[|items| - 1];
      if SharesSpace(last) then front + [last] else front
  }

  /** They are picked from the items without changing their order. */
  lemma {:induction false} SharingAre(items: seq<Net>) returns (at: seq<nat>)
    requires forall n <- items :: Valid(n)
    ensures Ascending(at, set k: nat | k < |items| && SharesSpace(items[k]))
    ensures |Sharing(items)| == |at|
    ensures forall i :: 0 <= i < |at| ==> at[i] < |items| && Sharing(items)[i] == items[at[i]]
    decreases |items|
  {
    hide SharesSpace, Valid;
    at := [];
    if items != [] {
      var n := |items| - 1;
      var front := items[..n];
      at := SharingAre(front);
      var which := set k: nat | k < |front| && SharesSpace(front[k]);
      var more := set k: nat | k < |items| && SharesSpace(items[k]);
      if SharesSpace(items[n]) {
        AscendingMore(at, which, n);
        at := at + [n];
        assert which + {n} == more;
      } else {
        assert which == more;
      }
    }
  }

  method ExcludedRoutes(items: seq<Net>) returns (warned: seq<Net>)
    requires forall n <- items :: Valid(n)
    ensures warned == Sharing(items)
  {
    warned := [];
    for k := 0 to |items|
      invariant warned == Sharing(items[..k])
    {
      assert items[..k + 1][..k] == items[..k];
      SpaceIsValid();
      OverlapsMeansSharing(items[k], SPACE_V4);
      OverlapsMeansSharing(items[k], SPACE_V6);
      if Overlaps(items[k], SPACE_V4) || Overlaps(items[k], SPACE_V6) {
        warned := warned + [items[k]];
      }
    }
    assert items[..|items|] == items;
  }

  lemma SpaceIsValid()
    ensures Valid(SPACE_V4) && Valid(SPACE_V6) && forall n <- PRIVATE_RANGES :: Valid(n)
  {
    Pow2At32And128();
  }

  /** Every address of `range` lies in `item`. */
  ghost predicate TakesIn(item: Net, range: Net)
    requires Valid(item) && Valid(range)
  {
    forall x :: LiesIn(x, range) ==> LiesIn(x, item)
  }

  /** The first of the private ranges that lies in the item as a whole. */
  method WholePrivateRange(item: Net) returns (r: Option<Net>)
    requires Valid(item)
    ensures forall n <- PRIVATE_RANGES :: Valid(n)
    ensures r.Some? ==> exists k :: 0 <= k < 3 && r.value == PRIVATE_RANGES[k] && TakesIn(item, PRIVATE_RANGES[k])
                                    && forall j :: 0 <= j < k ==> !TakesIn(item, PRIVATE_RANGES[j])
    ensures r.None? ==> forall k :: 0 <= k < 3 ==> !TakesIn(item, PRIVATE_RANGES[k])
    ensures item.family == V6 ==> r.None?
  {
    SpaceIsValid();
    if item.family == V6 {
      forall k | 0 <= k < 3 ensures !TakesIn(item, PRIVATE_RANGES[k]) {
        ContainsMeansAllLieIn(item, PRIVATE_RANGES[k]);
      }
      return None;
    }
    for k := 0 to 3
      invariant forall j :: 0 <= j < k ==> !TakesIn(item, PRIVATE_RANGES[j])
    {
      ContainsMeansAllLieIn(item, PRIVATE_RANGES[k]);
      if Contains(item, PRIVATE_RANGES[k]) {
        return Some(PRIVATE_RANGES[k]);
      }
    }
    r := None;
  }
}
