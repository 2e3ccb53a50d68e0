/** Arithmetic on the free-running and serial counters that the source keeps in
    fixed-width unsigned integers. */
module Serial {

  const WRAP_16: nat := 0x1_0000
  const WRAP_32: nat := 0x1_0000_0000
  const WRAP_64: nat := 0x1_0000_0000_0000_0000

  type Byte = n: nat | n < 256
  type uint16 = n: nat | n < WRAP_16
  type uint32 = n: nat | n < WRAP_32
  type uint64 = n: nat | n < WRAP_64

  /** Unsigned 32-bit subtraction. */
  function Distance32(later: uint32, earlier: uint32): uint32 {
    (later - earlier) % WRAP_32
  }

  /** Wrapped indices still measure how far apart the counts are ... */
  lemma WrappedDistance(later: nat, earlier: nat)
    requires earlier <= later < earlier + WRAP_32
    ensures Distance32(later % WRAP_32, earlier % WRAP_32) == later - earlier
  {
    var gap := later - earlier;
    var e := earlier % WRAP_32;
    assert later % WRAP_32 == if e + gap < WRAP_32 then e + gap else e + gap - WRAP_32;
  }

  /** ... and still step by one. */
  lemma WrappedSuccessor(count: nat)
    ensures Succ32(count % WRAP_32) == (count + 1) % WRAP_32
  {
    SumAfterWrap(count, 1, WRAP_32);
  }

  function Succ16(n: uint16): uint16 {
    (n + 1) % WRAP_16
  }

  function Succ32(n: uint32): uint32 {
    (n + 1) % WRAP_32
  }

  /** The cell of a circular array that a free-running index selects. */
  function SlotIndex(index: nat, capacity: nat): (slot: nat)
    requires capacity > 0
    ensures slot < capacity
  {
    index % capacity
  }

  predicate Divides(d: nat, n: nat)
    requires d > 0
  {
    n % d == 0
  }

  lemma MulAtLeast(d: nat, k: int)
    requires d > 0
    ensures k >= 1 ==> d * k >= d
    ensures k <= -1 ==> d * k + d <= 0
  {
    if k >= 1 {
      assert d * (k - 1) >= 0;
    } else if k <= -1 {
      assert d * (-k - 1) >= 0;
    }
  }

  /** Quotient and remainder are determined by the division equation. */
  lemma QuotientUnique(d: nat, q: int, r: int, q': int, r': int)
    requires d > 0
    requires d * q + r == d * q' + r'
    requires 0 <= r < d && 0 <= r' < d
    ensures q == q' && r == r'
  {
    assert d * (q - q') == r' - r;
    MulAtLeast(d, q - q');
  }

  /** Reducing first by a multiple of d does not change the remainder by d. */
  lemma ModOfMod(x: nat, w: nat, d: nat)
    requires d > 0 && w > 0 && Divides(d, w)
    ensures (x % w) % d == x % d
  {
    var m, y := w / d, x % w;
    var big, small := x / w, y / d;
    assert w == d * m;
    assert x == w * big + y;
    assert w * big == d * (m * big);
    QuotientUnique(d, x / d, x % d, m * big + small, y % d);
  }

  /** A sum may be taken after the wrap. */
  lemma SumAfterWrap(n: nat, more: nat, wrap: nat)
    requires wrap > 0
    ensures (n % wrap + more) % wrap == (n + more) % wrap
  {
    var rest := n % wrap + more;
    var q, q' := n / wrap, rest / wrap;
    assert wrap * (q + q') == wrap * q + wrap * q';
    assert n + more == wrap * (q + q') + rest % wrap;
    QuotientUnique(wrap, (n + more) / wrap, (n + more) % wrap, q + q', rest % wrap);
  }

  /** Two numbers less than d apart have different remainders by d. */
  lemma CloseNumbersDiffer(j: nat, k: nat, d: nat)
    requires j < k < j + d
    ensures SlotIndex(j, d) != SlotIndex(k, d)
  {
    var q, q' := k / d, j / d;
    if j % d == k % d {
      assert k - j == d * (q - q');
      MulAtLeast(d, q - q');
    }
  }
}
