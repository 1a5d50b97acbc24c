/**
 * Bytes of an Ethernet II frame as the listener touches them: the 14-byte
 * header (destination address, source address, EtherType), the 8-byte
 * little-endian transmit timestamp that follows it, and the rewrite of the
 * two addresses done by `l2fwd_mac_updating`.
 */
module Ether {
  import opened Ports

  newtype u8 = x: int | 0 <= x < 256

  const ETHER_ADDR_LEN: nat := 6
  /** `sizeof(struct rte_ether_hdr)`: two addresses and the EtherType. */
  const ETHER_HDR_LEN: nat := 14
  /** Size of the `tsc_t` timestamp stored after the header. */
  const TSC_LEN: nat := 8
  const TWO_64: nat := 0x1_0000_0000_0000_0000

  /** `struct rte_ether_addr` */
  type EtherAddr = a: seq<u8> | |a| == ETHER_ADDR_LEN witness [0, 0, 0, 0, 0, 0]

  function Pow256(n: nat): (p: nat)
    ensures p >= 1
  {
    if n == 0 then 1 else 256 * Pow256(n - 1)
  }

  /** The low `n` bytes of `w`, least significant first, as an x86 store lays them out. */
  function LE(w: nat, n: nat): (b: seq<u8>)
    ensures |b| == n
  {
    if n == 0 then [] else [(w % 256) as u8] + LE(w / 256, n - 1)
  }

  /** The number whose little-endian bytes are `b`, as an x86 load reads them. */
  function FromLE(b: seq<u8>): (w: nat)
    ensures w < Pow256(|b|)
  {
    if |b| == 0 then 0 else b[0] as nat + 256 * FromLE(b[1..])
  }

  /** Storing a value that fits and loading it back gives the value. */
  lemma {:induction false} LoadStore(w: nat, n: nat)
    requires w < Pow256(n)
    ensures FromLE(LE(w, n)) == w
  {
    if n > 0 {
      LoadStore(w / 256, n - 1);
      var b := LE(w, n);
      assert b[1..] == LE(w / 256, n - 1);
    }
  }

  /** Loading bytes and storing the value back gives the bytes. */
  lemma {:induction false} StoreLoad(b: seq<u8>)
    ensures LE(FromLE(b), |b|) == b
  {
    if |b| > 0 {
      StoreLoad(b[1..]);
      var w := FromLE(b);
      assert w % 256 == b[0] as nat;
      assert w / 256 == FromLE(b[1..]);
    }
  }

  /** `frame` with `bytes` written from offset `off`. */
  function Overwrite(frame: seq<u8>, off: nat, bytes: seq<u8>): (r: seq<u8>)
    requires off + |bytes| <= |frame|
    ensures |r| == |frame|
  {
    frame[..off] + bytes + frame[off + |bytes|..]
  }

  /** Reading the bytes at `off` after writing them there gives them back; the rest is kept. */
  lemma OverwriteRead(frame: seq<u8>, off: nat, bytes: seq<u8>)
    requires off + |bytes| <= |frame|
    ensures Overwrite(frame, off, bytes)[off..off + |bytes|] == bytes
    ensures Overwrite(frame, off, bytes)[..off] == frame[..off]
    ensures Overwrite(frame, off, bytes)[off + |bytes|..] == frame[off + |bytes|..]
  {
    var r := Overwrite(frame, off, bytes);
    assert r == (frame[..off] + bytes) + frame[off + |bytes|..];
    assert |frame[..off] + bytes| == off + |bytes|;
  }

  // ---------------------------------------------------------------------
  // The transmit timestamp
  // ---------------------------------------------------------------------

  /** `*tsc_field(m, sizeof(struct rte_ether_hdr))`: the 8 bytes after the header, little-endian. */
  function TxTimestamp(frame: seq<u8>): (t: nat)
    requires |frame| >= ETHER_HDR_LEN + TSC_LEN
    ensures t < TWO_64
  {
    assert Pow256(8) == TWO_64;
    FromLE(frame[ETHER_HDR_LEN..ETHER_HDR_LEN + TSC_LEN])
  }

  /** A timestamp stored after the header by the sender is the one read back. */
  lemma TimestampRoundTrip(frame: seq<u8>, t: nat)
    requires |frame| >= ETHER_HDR_LEN + TSC_LEN
    requires t < TWO_64
    ensures TxTimestamp(Overwrite(frame, ETHER_HDR_LEN, LE(t, TSC_LEN))) == t
  {
    assert Pow256(8) == TWO_64;
    OverwriteRead(frame, ETHER_HDR_LEN, LE(t, TSC_LEN));
    LoadStore(t, TSC_LEN);
  }

  // ---------------------------------------------------------------------
  // l2fwd_mac_updating
  // ---------------------------------------------------------------------

  /** `0x000000000002 + ((uint64_t)dest_portid << 40)` */
  function MacWord(dest: PortId): (w: nat)
    ensures w < TWO_64
  {
    2 + dest * 0x100_0000_0000
  }

  /** One step of a little-endian store: the low byte, then the rest. */
  lemma LEStep(lo: nat, hi: nat, n: nat)
    requires lo < 256
    ensures LE(lo + 256 * hi, n + 1) == [lo as u8] + LE(hi, n)
  {
    assert (lo + 256 * hi) % 256 == lo;
    assert (lo + 256 * hi) / 256 == hi;
  }

  /** The 8 bytes the store writes: `02 00 00 00 00 dest`, then the two bytes the source copy overwrites. */
  lemma MacWordBytes(dest: PortId)
    ensures LE(MacWord(dest), 8) == [2, 0, 0, 0, 0, dest as u8, 0, 0]
  {
    var a0 := 0x1_0000_0000 * (dest as nat);
    assert MacWord(dest) == 2 + 256 * a0;
    ShiftedPortBytes(dest);
    LEStep(2, a0, 7);
  }

  /** The port number shifted up by four bytes, as seven little-endian bytes. */
  lemma ShiftedPortBytes(dest: PortId)
    ensures LE(0x1_0000_0000 * (dest as nat), 7) == [0, 0, 0, 0, dest as u8, 0, 0]
  {
    var d := dest as nat;
    var b: u8 := dest as u8;
    var d1 := 256 * d;
    var d2 := 256 * d1;
    var d3 := 256 * d2;
    PortBytes(dest);
    ZeroByte(d, 3, [b, 0, 0]);
    ZeroByte(d1, 4, [0, b, 0, 0]);
    ZeroByte(d2, 5, [0, 0, b, 0, 0]);
    ZeroByte(d3, 6, [0, 0, 0, b, 0, 0]);
    assert 0x1_0000_0000 * d == 256 * d3;
  }

  /** Shifting a value up by one byte puts a zero byte in front of its bytes. */
  lemma ZeroByte(x: nat, n: nat, bytes: seq<u8>)
    requires LE(x, n) == bytes
    ensures LE(256 * x, n + 1) == [0] + bytes
  {
    LEStep(0, x, n);
  }

  /** The port number as three little-endian bytes. */
  lemma PortBytes(dest: PortId)
    ensures LE(dest as nat, 3) == [dest as u8, 0, 0]
  {
    LEStep(0, 0, 0);
    LEStep(0, 0, 1);
    var top: seq<u8> := [0, 0];
    assert LE(0, 2) == top;
    LEStep(dest as nat, 0, 2);
  }

  /**
   * `l2fwd_mac_updating` on the frame's bytes: an 8-byte store of
   * `MacWord(dest)` at the start of the destination address, then the copy
   * of `src` (`l2fwd_ports_eth_addr[dest]`) over the source address.
   */
  function MacRewrite(frame: seq<u8>, dest: PortId, src: EtherAddr): (r: seq<u8>)
    requires |frame| >= 2 * ETHER_ADDR_LEN
    ensures |r| == |frame|
  {
    var stored := Overwrite(frame, 0, LE(MacWord(dest), 8));
    Overwrite(stored, ETHER_ADDR_LEN, src)
  }

  /** `02:00:00:00:00:xx` with `xx` the low byte of the port id. */
  function PortMac(dest: PortId): EtherAddr {
    [2, 0, 0, 0, 0, dest as u8]
  }

  /** Bit 0 of the first octet clear: an individual (unicast) address, IEEE 802 numbering. */
  predicate IsUnicast(a: EtherAddr) {
    a[0] % 2 == 0
  }

  /** Bit 1 of the first octet set: a locally administered address, IEEE 802 numbering. */
  predicate IsLocallyAdministered(a: EtherAddr) {
    (a[0] / 2) % 2 == 1
  }

  /**
   * After the rewrite the destination address is `02:00:00:00:00:dest`, the
   * source address is `src`, and every byte from the EtherType on is the
   * frame's own.
   */
  lemma MacRewriteHeader(frame: seq<u8>, dest: PortId, src: EtherAddr)
    requires |frame| >= 2 * ETHER_ADDR_LEN
    ensures MacRewrite(frame, dest, src)[..ETHER_ADDR_LEN] == PortMac(dest)
    ensures MacRewrite(frame, dest, src)[ETHER_ADDR_LEN..2 * ETHER_ADDR_LEN] == src
    ensures MacRewrite(frame, dest, src)[2 * ETHER_ADDR_LEN..] == frame[2 * ETHER_ADDR_LEN..]
  {
    var w := LE(MacWord(dest), 8);
    var stored := Overwrite(frame, 0, w);
    MacWordBytes(dest);
    OverwriteRead(frame, 0, w);
    OverwriteRead(stored, ETHER_ADDR_LEN, src);
    assert stored[..ETHER_ADDR_LEN] == w[..ETHER_ADDR_LEN];
    assert stored[8..] == frame[8..];
    assert stored[2 * ETHER_ADDR_LEN..] == frame[2 * ETHER_ADDR_LEN..];
  }

  /** The new destination is a locally administered unicast address. */
  lemma PortMacKind(dest: PortId)
    ensures IsUnicast(PortMac(dest)) && IsLocallyAdministered(PortMac(dest))
  {
  }

  /** Rewriting twice for the same port is rewriting once. */
  lemma MacRewriteIdempotent(frame: seq<u8>, dest: PortId, src: EtherAddr)
    requires |frame| >= 2 * ETHER_ADDR_LEN
    ensures MacRewrite(MacRewrite(frame, dest, src), dest, src) == MacRewrite(frame, dest, src)
  {
    var once := MacRewrite(frame, dest, src);
    var twice := MacRewrite(once, dest, src);
    MacRewriteHeader(frame, dest, src);
    MacRewriteHeader(once, dest, src);
    SameParts(twice, once, ETHER_ADDR_LEN, 2 * ETHER_ADDR_LEN);
  }

  /** Two sequences that agree on three consecutive slices are equal. */
  lemma SameParts(x: seq<u8>, y: seq<u8>, i: nat, j: nat)
    requires i <= j <= |x| == |y|
    requires x[..i] == y[..i] && x[i..j] == y[i..j] && x[j..] == y[j..]
    ensures x == y
  {
    assert x == x[..i] + x[i..j] + x[j..];
    assert y == y[..i] + y[i..j] + y[j..];
  }

  /** The rewrite leaves the transmit timestamp where the latency code reads it. */
  lemma MacRewriteKeepsTimestamp(frame: seq<u8>, dest: PortId, src: EtherAddr)
    requires |frame| >= ETHER_HDR_LEN + TSC_LEN
    ensures TxTimestamp(MacRewrite(frame, dest, src)) == TxTimestamp(frame)
  {
    MacRewriteHeader(frame, dest, src);
    var r := MacRewrite(frame, dest, src);
    assert r[ETHER_HDR_LEN..ETHER_HDR_LEN + TSC_LEN] == r[2 * ETHER_ADDR_LEN..][2..10];
    assert frame[ETHER_HDR_LEN..ETHER_HDR_LEN + TSC_LEN] == frame[2 * ETHER_ADDR_LEN..][2..10];
  }
}
