/** The emulated memory as the CPU core sees it: a byte at each accessible address, and the
big-endian 16- and 32-bit accesses that memory.c builds out of byte accesses.

The keys of the map are the addresses where an access is permitted.  A read elsewhere gives 0 and a
write elsewhere is dropped, as tos_read and tos_write do; module AddressSpace shows that the list of
memory areas behaves as such a map. */
module FlatMemory {
  import opened Words

  type Bytes = map<u32, u8>

  function Peek(m: Bytes, a: u32): u8 {
    if a in m then m[a] else 0
  }

  function Poke(m: Bytes, a: u32, v: u8): Bytes {
    if a in m then m[a := v] else m
  }

  function Read16(m: Bytes, a: u32): u16 {
    Peek(m, a) * 0x100 + Peek(m, Wrap(a + 1))
  }

  function Read32(m: Bytes, a: u32): u32 {
    ((Peek(m, a) * 0x100 + Peek(m, Wrap(a + 1))) * 0x100 + Peek(m, Wrap(a + 2))) * 0x100 + Peek(m, Wrap(a + 3))
  }

  /** m68k_write_memory_16 writes the low byte first. */
  function Write16(m: Bytes, a: u32, v: u16): Bytes {
    Poke(Poke(m, Wrap(a + 1), v % 0x100), a, v / 0x100)
  }

  /** m68k_write_memory_32 writes from the low byte upwards. */
  function Write32(m: Bytes, a: u32, v: u32): Bytes {
    Poke(Poke(Poke(Poke(m, Wrap(a + 3), v % 0x100), Wrap(a + 2), v / 0x100 % 0x100),
              Wrap(a + 1), v / 0x1_0000 % 0x100), a, v / 0x100_0000)
  }

  /** b is one of the n addresses from a upwards, with 32-bit wrap. */
  predicate In(b: u32, a: u32, n: nat) {
    Wrap(b - a) < n
  }

  /** Every one of the n addresses from a upwards is accessible. */
  ghost predicate Mapped(m: Bytes, a: u32, n: nat) {
    forall b: u32 | In(b, a, n) :: b in m
  }

  /** The n addresses from a and the k addresses from b have none in common. */
  ghost predicate Apart(a: u32, n: nat, b: u32, k: nat) {
    forall x: u32 | In(x, a, n) :: !In(x, b, k)
  }

  ghost predicate SameOn(m: Bytes, m': Bytes, a: u32, n: nat) {
    forall b: u32 | In(b, a, n) :: Peek(m, b) == Peek(m', b)
  }

  /** m' is m with nothing changed but the n bytes at a. */
  ghost predicate SameOutside(m: Bytes, m': Bytes, a: u32, n: nat) {
    m.Keys == m'.Keys && forall b <- m.Keys | !In(b, a, n) :: m[b] == m'[b]
  }

  lemma Write16Effect(m: Bytes, a: u32, v: u16)
    ensures SameOutside(m, Write16(m, a, v), a, 2)
    ensures Mapped(m, a, 2) ==> Read16(Write16(m, a, v), a) == v
  {
    assert In(a, a, 2) && In(Wrap(a + 1), a, 2);
  }

  lemma Write32Effect(m: Bytes, a: u32, v: u32)
    ensures SameOutside(m, Write32(m, a, v), a, 4)
    ensures Mapped(m, a, 4) ==> Read32(Write32(m, a, v), a) == v
  {
    hide Wrap; hide In;
    FourAddresses(a);
    FourBytes(v);
  }

  lemma FourAddresses(a: u32)
    ensures a != Wrap(a + 1) && a != Wrap(a + 2) && a != Wrap(a + 3)
    ensures Wrap(a + 1) != Wrap(a + 2) && Wrap(a + 1) != Wrap(a + 3) && Wrap(a + 2) != Wrap(a + 3)
    ensures In(a, a, 4) && In(Wrap(a + 1), a, 4) && In(Wrap(a + 2), a, 4) && In(Wrap(a + 3), a, 4)
  {
  }

  lemma FourBytes(v: u32)
    ensures ((v / 0x100_0000 * 0x100 + v / 0x1_0000 % 0x100) * 0x100 + v / 0x100 % 0x100) * 0x100 + v % 0x100 == v
  {
  }

  /** Accesses are big-endian: the byte at the lowest address is the most significant. */
  lemma BigEndian(m: Bytes, a: u32, v: u32, w: u16)
    requires a + 4 <= 0x1_0000_0000 && a in m && a + 1 in m && a + 2 in m && a + 3 in m
    ensures var b0: int, b1: int, b2: int, b3: int := m[a], m[a + 1], m[a + 2], m[a + 3];
      && Read32(m, a) as int == b0 * 0x100_0000 + b1 * 0x1_0000 + b2 * 0x100 + b3
      && Read16(m, a) as int == b0 * 0x100 + b1
    ensures Write32(m, a, v) ==
      m[a := v / 0x100_0000][a + 1 := v / 0x1_0000 % 0x100][a + 2 := v / 0x100 % 0x100][a + 3 := v % 0x100]
    ensures Write16(m, a, w) == m[a := w / 0x100][a + 1 := w % 0x100]
  {
    assert Wrap(a + 1) == a + 1 && Wrap(a + 2) == a + 2 && Wrap(a + 3) == a + 3;
    hide Wrap;
  }

  /** A byte that cannot be accessed reads as 0 and is not written. */
  lemma NoAccess(m: Bytes, a: u32, v: u8)
    ensures a !in m ==> Peek(m, a) == 0 && Poke(m, a, v) == m
    ensures a in m ==> Peek(m, a) == m[a] && Poke(m, a, v) == m[a := v]
  {
  }

  /** A read depends only on the bytes it covers. */
  lemma ReadsSame(m: Bytes, m': Bytes, a: u32)
    ensures SameOn(m, m', a, 2) ==> Read16(m, a) == Read16(m', a)
    ensures SameOn(m, m', a, 4) ==> Read32(m, a) == Read32(m', a)
  {
    assert In(a, a, 2) && In(Wrap(a + 1), a, 2);
    assert In(a, a, 4) && In(Wrap(a + 1), a, 4) && In(Wrap(a + 2), a, 4) && In(Wrap(a + 3), a, 4);
  }

  /** m and m' hold the same bytes from low up to, but not including, high. */
  ghost predicate SameRange(m: Bytes, m': Bytes, low: int, high: int) {
    forall b: u32 | low <= b < high :: Peek(m, b) == Peek(m', b)
  }

  /** A long is its two words one after the other. */
  lemma ReadHalves(m: Bytes, a: u32)
    ensures Read32(m, a) == Read16(m, a) as int * 0x1_0000 + Read16(m, Wrap(a + 2))
  {
    hide Peek;
    assert Wrap(Wrap(a + 2) + 1) == Wrap(a + 3) by { WrapAdd(a + 2, 1); }
    hide Wrap;
  }

  lemma SameLong(m: Bytes, m': Bytes, a: u32)
    requires a + 4 <= TWO32 && SameRange(m, m', a, a + 4)
    ensures Read32(m, a) == Read32(m', a)
  {
  }

  lemma InRange(b: u32, a: u32, n: nat)
    requires a + n <= TWO32
    ensures In(b, a, n) <==> a <= b < a + n
  {
  }
}
