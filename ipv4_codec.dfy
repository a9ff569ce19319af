/**
 * IPv4 addresses carried in a pair of consecutive 16-bit registers: the first
 * register holds octets 0 and 1, the second octets 2 and 3, each big-endian.
 */
module Ipv4Codec {
  import opened Words

  /** The four octets of an IPv4 address, in network order. */
  datatype Ipv4 = Ipv4(o0: Byte, o1: Byte, o2: Byte, o3: Byte)

  /** The two register values an address is written as. */
  datatype RegisterPair = RegisterPair(first: Word, second: Word)

  /** Register values for an address: `uint16(ip[0])<<8 | uint16(ip[1])`, then the same for octets 2 and 3. */
  function Encode(ip: Ipv4): (r: RegisterPair)
    ensures r.first / 0x100 == ip.o0 && r.first % 0x100 == ip.o1
    ensures r.second / 0x100 == ip.o2 && r.second % 0x100 == ip.o3
  {
    RegisterPair(JoinBytes(ip.o0, ip.o1), JoinBytes(ip.o2, ip.o3))
  }

  /** The address two registers stand for, `(r >> 8, r & 0xFF)` for each register. */
  function Decode(first: Word, second: Word): (ip: Ipv4)
    ensures first == ip.o0 * 0x100 + ip.o1
    ensures second == ip.o2 * 0x100 + ip.o3
  {
    Ipv4(HighByte(first), LowByte(first), HighByte(second), LowByte(second))
  }

  /** Decoding the registers an address was encoded into gives the address back. */
  lemma DecodeEncode(ip: Ipv4)
    ensures var r := Encode(ip); Decode(r.first, r.second) == ip
  {
    SplitJoin(ip.o0, ip.o1);
    SplitJoin(ip.o2, ip.o3);
  }

  /** Every register pair is the encoding of exactly the address it decodes to. */
  lemma EncodeDecode(first: Word, second: Word)
    ensures Encode(Decode(first, second)) == RegisterPair(first, second)
  {
    JoinSplit(first);
    JoinSplit(second);
  }

  /** Distinct addresses are written as distinct register pairs. */
  lemma EncodeInjective(a: Ipv4, b: Ipv4)
    requires Encode(a) == Encode(b)
    ensures a == b
  {
    DecodeEncode(a);
    DecodeEncode(b);
  }
}
