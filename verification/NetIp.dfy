/** The parts of net.IP and net/netip the repository relies on. */
module NetIp {

  const TWO32 := 0x1_0000_0000

  type Byte = x: int | 0 <= x < 256
  type U16 = x: int | 0 <= x < 0x1_0000
  type U32 = x: int | 0 <= x < 0x1_0000_0000
  type U64 = x: int | 0 <= x < 0x1_0000_0000_0000_0000
  type Bytes16 = s: seq<Byte> | |s| == 16 witness [0, 0, 0, 0, 0, 0, 0, 0, 0, 0, 0, 0, 0, 0, 0, 0]

  /** An address value. A net.IP holding a mapped IPv4 address is V4 here, as its To4 form. */
  datatype Addr = NoAddr | V4(v4: U32) | V6(v6: Bytes16, zone: string) {
    predicate IsUnspecified() {
      match this
      case NoAddr => false
      case V4(v) => v == 0
      case V6(b, zone) => zone == "" && forall i | 0 <= i < 16 :: b[i] == 0
    }

    predicate IsLoopback() {
      match this
      case NoAddr => false
      case V4(v) => v / 0x100_0000 == 127
      case V6(b, _) => b[15] == 1 && forall i | 0 <= i < 15 :: b[i] == 0
    }

    predicate IsLinkLocalUnicast() {
      match this
      case NoAddr => false
      case V4(v) => v / 0x1_0000 == 0xA9FE
      case V6(b, _) => b[0] == 0xFE && b[1] / 64 == 2
    }

    predicate IsMulticast() {
      match this
      case NoAddr => false
      case V4(v) => v / 0x1000_0000 == 14
      case V6(b, _) => b[0] == 0xFF
    }

    predicate IsGlobalUnicast() {
      && this != NoAddr
      && !(V4? && v4 == 0xFFFF_FFFF)
      && !IsUnspecified() && !IsLoopback() && !IsMulticast() && !IsLinkLocalUnicast()
    }
  }

  /** Which addresses are global unicast, by their ranges: of IPv4 all but 0.0.0.0, 127/8, 169.254/16, 224/4 and
      255.255.255.255; of IPv6 all but ::, ::1, fe80::/10 and ff00::/8. An unspecified address with a zone passes. */
  lemma GlobalUnicastRanges(a: Addr)
    ensures a.V4? ==>
              (a.IsGlobalUnicast() <==>
                 && 0 < a.v4 < 0xFFFF_FFFF && !(0x7F00_0000 <= a.v4 < 0x8000_0000)
                 && !(0xA9FE_0000 <= a.v4 < 0xA9FF_0000) && !(0xE000_0000 <= a.v4 < 0xF000_0000))
    ensures a.V6? ==>
              (a.IsGlobalUnicast() <==>
                 && !(a.zone == "" && forall i | 0 <= i < 16 :: a.v6[i] == 0)
                 && !(a.v6[15] == 1 && forall i | 0 <= i < 15 :: a.v6[i] == 0)
                 && !(a.v6[0] == 254 && 128 <= a.v6[1] < 192) && a.v6[0] != 255)
    ensures a.NoAddr? ==> !a.IsGlobalUnicast()
  {
  }

  /** netip.AddrPort; it is valid exactly when its address is. */
  datatype AddrPort = AddrPort(addr: Addr, port: U16) {
    predicate IsValid() { addr != NoAddr }
  }

  const NoAddrPort := AddrPort(NoAddr, 0)

  /** netip.Prefix; bits is negative for an invalid prefix. Prefixes never carry a zone. */
  datatype Prefix = Prefix(addr: Addr, bits: int) {
    predicate IsValid() {
      match addr
      case NoAddr => false
      case V4(_) => 0 <= bits <= 32
      case V6(_, zone) => 0 <= bits <= 128 && zone == ""
    }
  }
}
