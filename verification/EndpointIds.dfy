/** The ids of one host's servers: no two ports share one, so two servers behind one address can both
    be registered. */
module EndpointIds {
  import opened Sequences
  import opened Serial
  import opened Bitmask
  import opened Directory

  /** The inverse of the FNV prime modulo 2^64. */
  const INVERSE: nat := 0xce965057aff6957b

  const LOW: int := 0x100_0000_0000
  const HIGH: int := 0x1_0000_0000_0000
  const WRAP: int := 0x1_0000_0000_0000_0000

  function Product(x: uint64): uint64 {
    x * FNV_PRIME % WRAP_64
  }

  lemma WrappedProduct(x: uint64) returns (k: int)
    ensures x * FNV_PRIME == WRAP * k + Product(x)
  {
    k := x * FNV_PRIME / WRAP_64;
  }

  /** Two products differ as their factors do, up to the wrap. */
  lemma DifferenceOfProducts(x: uint64, y: uint64) returns (k: int)
    ensures Product(x) - Product(y) == (x - y) * FNV_PRIME - WRAP * k
  {
    hide Product;
    var a := WrappedProduct(x);
    var b := WrappedProduct(y);
    k := a - b;
  }

  /** Factors less than 256 apart have products between 2^40 and 2^48 apart, up to the wrap. */
  lemma CloseFactors(gap: int, k: int, difference: int)
    requires 0 < gap < 256 || 0 < -gap < 256
    requires difference == gap * FNV_PRIME - WRAP * k && -WRAP < difference < WRAP
    ensures || LOW <= difference < HIGH || LOW <= -difference < HIGH
            || difference > WRAP - HIGH || -difference > WRAP - HIGH
  {
    assert k == 0 || k == 1 || k == -1;
  }

  ghost predicate ShareHighPart(x: uint64, y: uint64) {
    x / 256 == y / 256
  }

  lemma HighPartGap(x: uint64, y: uint64)
    requires ShareHighPart(x, y)
    ensures -256 < x - y < 256
  {
  }

  lemma HighPartsDiffer(x: uint64, y: uint64)
    requires ShareHighPart(x, y) && x != y
    ensures !ShareHighPart(Product(x), Product(y))
  {
    hide Product, ShareHighPart;
    HighPartGap(x, y);
    var k := DifferenceOfProducts(x, y);
    CloseFactors(x - y, k, Product(x) - Product(y));
    if ShareHighPart(Product(x), Product(y)) {
      HighPartGap(Product(x), Product(y));
    }
  }

  lemma SmallMultiple(d: int, k: int)
    requires d == WRAP * k && -WRAP < d < WRAP
    ensures d == 0
  {
    assert k == 0;
  }

  lemma ProductIsInjective(x: uint64, y: uint64)
    requires Product(x) == Product(y)
    ensures x == y
  {
    hide Product;
    var k := DifferenceOfProducts(x, y);
    var m := FNV_PRIME * INVERSE / WRAP_64;
    assert FNV_PRIME * INVERSE == 1 + WRAP * m;
    assert (x - y) * (FNV_PRIME * INVERSE) == WRAP * k * INVERSE;
    SmallMultiple(x - y, k * INVERSE - (x - y) * m);
  }

  lemma XorByteIsInjective(hash: uint64, a: Byte, b: Byte)
    requires XorByte(hash, a) == XorByte(hash, b)
    ensures a == b
  {
    hide Xor;
    XorIsInjective(hash % 256, a, b);
  }

  /** What the hash makes of a port, after the host. */
  function PortHash(hash: uint64, port: uint16): uint64 {
    HashByte(HashByte(hash, port / 256), port % 256)
  }

  lemma HashByteIsProduct(hash: uint64, byte: Byte)
    ensures HashByte(hash, byte) == Product(XorByte(hash, byte))
    ensures ShareHighPart(XorByte(hash, byte), hash)
  {
    hide XorByte;
  }

  lemma Transitive(a: uint64, b: uint64, c: uint64)
    requires ShareHighPart(a, b) && ShareHighPart(c, b)
    ensures ShareHighPart(a, c) && ShareHighPart(c, a)
  {
  }

  lemma PortHashIsInjective(hash: uint64, p: uint16, q: uint16)
    requires PortHash(hash, p) == PortHash(hash, q)
    ensures p == q
  {
    hide HashByte, XorByte, Product, ShareHighPart;
    var x, y := XorByte(hash, p / 256), XorByte(hash, q / 256);
    var u, v := HashByte(hash, p / 256), HashByte(hash, q / 256);
    HashByteIsProduct(hash, p / 256);
    HashByteIsProduct(hash, q / 256);
    HashByteIsProduct(u, p % 256);
    HashByteIsProduct(v, q % 256);
    ProductIsInjective(XorByte(u, p % 256), XorByte(v, q % 256));
    Symmetric(XorByte(u, p % 256), u);
    Symmetric(XorByte(v, q % 256), v);
    Transitive(u, XorByte(u, p % 256), v);
    Transitive(x, hash, y);
    if x != y {
      HighPartsDiffer(x, y);
    } else {
      XorByteIsInjective(hash, p / 256, q / 256);
      XorByteIsInjective(u, p % 256, q % 256);
    }
  }

  lemma Symmetric(a: uint64, b: uint64)
    ensures ShareHighPart(a, b) <==> ShareHighPart(b, a)
  {
  }

  lemma ProductsZeroAndOne()
    ensures Product(0) == 0 && Product(INVERSE) == 1
  {
  }

  /** No two ports make 0 and 1, so the reserved value 0 can give way to 1. */
  lemma NotZeroAndOne(hash: uint64, p: uint16, q: uint16)
    ensures !(PortHash(hash, p) == 0 && PortHash(hash, q) == 1)
  {
    hide HashByte, XorByte, Product;
    var x, y := XorByte(hash, p / 256), XorByte(hash, q / 256);
    var u, v := HashByte(hash, p / 256), HashByte(hash, q / 256);
    HashByteIsProduct(hash, p / 256);
    HashByteIsProduct(hash, q / 256);
    HashByteIsProduct(u, p % 256);
    HashByteIsProduct(v, q % 256);
    ProductsZeroAndOne();
    HighPartGap(y, x);
    var k := DifferenceOfProducts(y, x);
    var gap: int, difference: int := y as int - x as int, v as int - u as int;
    FarApart(gap, k, difference);
    if PortHash(hash, p) == 0 {
      ProductIsInjective(XorByte(u, p % 256), 0);
      if PortHash(hash, q) == 1 {
        ProductIsInjective(XorByte(v, q % 256), INVERSE);
      }
    }
  }

  lemma FarApart(gap: int, k: int, difference: int)
    requires -256 < gap < 256 && difference == gap * FNV_PRIME - WRAP * k
    ensures difference < INVERSE - 512 || difference > INVERSE + 256
  {
    if -WRAP < difference < WRAP && gap != 0 {
      CloseFactors(gap, k, difference);
    }
  }

  /** Servers of one host have different ids exactly when they have different ports. */
  lemma IdsDifferExactlyWhenPortsDo(host: string, p: uint16, q: uint16)
    ensures StableEndpointId(host, p) == StableEndpointId(host, q) <==> p == q
  {
    hide HashByte, HashText;
    var hash := HashText(FNV_OFFSET, host);
    NotZeroAndOne(hash, p, q);
    NotZeroAndOne(hash, q, p);
    if PortHash(hash, p) == PortHash(hash, q) {
      PortHashIsInjective(hash, p, q);
    }
  }

  /** So another server of a registered host finds its id unused, but for a collision with another
      host, and gets a free slot beside it. */
  lemma TwoServersOfOneHost(slots: seq<Slot>, i: nat, port: uint16, nowMs: nat)
    requires Sound(slots) && i < |slots| && slots[i].Active? && slots[i].server.port != port
    requires exists j :: 0 <= j < |slots| && slots[j].Free?
    requires forall j :: 0 <= j < |slots| && slots[j].Active? ==>
               if slots[j].server.host.chars == slots[i].server.host.chars
               then slots[j].server.port != port
               else slots[j].server.serverId != StableEndpointId(slots[i].server.host.chars, port)
    ensures var id := StableEndpointId(slots[i].server.host.chars, port);
            && MayRegister(slots, id, nowMs)
            && forall target: nat :: IsTarget(slots, id, target) ==>
                 slots[target].Free? && target != i
  {
    hide StableEndpointId, IsValidEntry;
    var host := slots[i].server.host.chars;
    var id := StableEndpointId(host, port);
    forall j | 0 <= j < |slots| && slots[j].Active?
      ensures slots[j].server.serverId != id
    {
      if slots[j].server.host.chars == host {
        IdsDifferExactlyWhenPortsDo(host, slots[j].server.port, port);
      }
    }
  }
}
