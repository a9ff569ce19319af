/**
 * The device configuration block: 89 holding registers read from register
 * 30000, decoded big-endian at fixed byte offsets into a `Config` record of
 * 176 bytes. The last two bytes of the block are not part of the record.
 */
module ConfigCodec {
  import opened Wrappers
  import opened Words
  import Ipv4Codec

  /** First register of the configuration block and the number of registers read. */
  const ConfigBaseRegister: nat := 30000
  const ConfigRegisterCount: nat := 89

  /** Size in bytes of the decoded record. */
  const ConfigSize: nat := 176

  // Byte offsets of the record's fields.
  const SerialPortRateCodeOffset: nat := 0
  const SerialPortParityCheckOffset: nat := 2
  const NetworkModeOffset: nat := 4
  const DhcpOffset: nat := 6
  const MacAddressOffset: nat := 8
  const AddressOffset: nat := 14
  const SubnetMaskOffset: nat := 18
  const GatewayOffset: nat := 22
  const DnsOffset: nat := 26
  const FreeOffset: nat := 30
  const PortOffset: nat := 34
  const DestinationDomainNameOffset: nat := 36
  const DestinationPortOffset: nat := 164
  const ProtocolTypeOffset: nat := 166
  const AddressNegotiationWriteRegisterOffset: nat := 168
  const AddressNegotiationRegisterOffset: nat := 170
  const NegotiationStatusOffset: nat := 172
  const ExceptionCodeOffset: nat := 174

  type MacAddress = s: seq<Byte> | |s| == 6 witness [0, 0, 0, 0, 0, 0]
  type FreeBytes = s: seq<Byte> | |s| == 4 witness [0, 0, 0, 0]
  type DomainName = s: seq<Byte> | |s| == 128 witness seq(128, i => 0)

  /** The decoded configuration record; the four address fields are IPv4 octets in network order. */
  datatype Config = Config(
    serialPortRateCode: Word,
    serialPortParityCheck: Word,
    networkMode: Word,
    dhcp: Word,
    macAddress: MacAddress,
    address: Ipv4Codec.Ipv4,
    subnetMask: Ipv4Codec.Ipv4,
    gateway: Ipv4Codec.Ipv4,
    dns: Ipv4Codec.Ipv4,
    free: FreeBytes,
    port: Word,
    destinationDomainName: DomainName,
    destinationPort: Word,
    protocolType: Word,
    addressNegotiationWriteRegister: Word,
    addressNegotiationRegister: Word,
    negotiationStatus: Word,
    exceptionCode: Word)

  /** Why a payload yields no record: nothing at all, or fewer bytes than the record needs. */
  datatype DecodeError = EndOfInput | UnexpectedEndOfInput

  function WordAt(p: seq<Byte>, off: nat): Word
    requires off + 2 <= |p|
  {
    JoinBytes(p[off], p[off + 1])
  }

  function Ipv4At(p: seq<Byte>, off: nat): Ipv4Codec.Ipv4
    requires off + 4 <= |p|
  {
    Ipv4Codec.Ipv4(p[off], p[off + 1], p[off + 2], p[off + 3])
  }

  /** Big-endian decode of the record from the start of a payload; bytes past the record are ignored. */
  function Decode(p: seq<Byte>): (r: Result<Config, DecodeError>)
    ensures r == Failure(EndOfInput) <==> |p| == 0
    ensures r == Failure(UnexpectedEndOfInput) <==> 0 < |p| < 176
    ensures r.Success? <==> |p| >= 176
    ensures r.Success? ==>
      var c := r.value;
      && c.serialPortRateCode == JoinBytes(p[0], p[1])
      && c.serialPortParityCheck == JoinBytes(p[2], p[3])
      && c.networkMode == JoinBytes(p[4], p[5])
      && c.dhcp == JoinBytes(p[6], p[7])
      && c.macAddress == p[8..14]
      && c.address == Ipv4Codec.Ipv4(p[14], p[15], p[16], p[17])
      && c.subnetMask == Ipv4Codec.Ipv4(p[18], p[19], p[20], p[21])
      && c.gateway == Ipv4Codec.Ipv4(p[22], p[23], p[24], p[25])
      && c.dns == Ipv4Codec.Ipv4(p[26], p[27], p[28], p[29])
      && c.free == p[30..34]
      && c.port == JoinBytes(p[34], p[35])
      && c.destinationDomainName == p[36..164]
      && c.destinationPort == JoinBytes(p[164], p[165])
      && c.protocolType == JoinBytes(p[166], p[167])
      && c.addressNegotiationWriteRegister == JoinBytes(p[168], p[169])
      && c.addressNegotiationRegister == JoinBytes(p[170], p[171])
      && c.negotiationStatus == JoinBytes(p[172], p[173])
      && c.exceptionCode == JoinBytes(p[174], p[175])
  {
    if |p| == 0 then
      Failure(EndOfInput)
    else if |p| < ConfigSize then
      Failure(UnexpectedEndOfInput)
    else
      Success(Config(
        WordAt(p, SerialPortRateCodeOffset),
        WordAt(p, SerialPortParityCheckOffset),
        WordAt(p, NetworkModeOffset),
        WordAt(p, DhcpOffset),
        p[MacAddressOffset .. MacAddressOffset + 6],
        Ipv4At(p, AddressOffset),
        Ipv4At(p, SubnetMaskOffset),
        Ipv4At(p, GatewayOffset),
        Ipv4At(p, DnsOffset),
        p[FreeOffset .. FreeOffset + 4],
        WordAt(p, PortOffset),
        p[DestinationDomainNameOffset .. DestinationDomainNameOffset + 128],
        WordAt(p, DestinationPortOffset),
        WordAt(p, ProtocolTypeOffset),
        WordAt(p, AddressNegotiationWriteRegisterOffset),
        WordAt(p, AddressNegotiationRegisterOffset),
        WordAt(p, NegotiationStatusOffset),
        WordAt(p, ExceptionCodeOffset)))
  }

  /** Only the first 176 bytes of a payload matter. */
  lemma DecodeIgnoresTail(p: seq<Byte>, tail: seq<Byte>)
    requires |p| >= ConfigSize
    ensures Decode(p + tail) == Decode(p)
  {
    var q := p + tail;
    assert q[8..14] == p[8..14];
    assert q[30..34] == p[30..34];
    assert q[36..164] == p[36..164];
  }

  // ------------------------------------------------------------------ encoding

  /** Byte `k` (0 or 1) of a big-endian register. */
  function WordByte(w: Word, k: nat): Byte
    requires k < 2
  {
    if k == 0 then HighByte(w) else LowByte(w)
  }

  function Ipv4Byte(ip: Ipv4Codec.Ipv4, k: nat): Byte
    requires k < 4
  {
    [ip.o0, ip.o1, ip.o2, ip.o3][k]
  }

  /** Byte `i` of the record's wire image: the layout read field by field. */
  function ByteAt(c: Config, i: nat): Byte
    requires i < ConfigSize
  {
    if i < 2 then WordByte(c.serialPortRateCode, i)
    else if i < 4 then WordByte(c.serialPortParityCheck, i - 2)
    else if i < 6 then WordByte(c.networkMode, i - 4)
    else if i < 8 then WordByte(c.dhcp, i - 6)
    else if i < 14 then c.macAddress[i - 8]
    else if i < 18 then Ipv4Byte(c.address, i - 14)
    else if i < 22 then Ipv4Byte(c.subnetMask, i - 18)
    else if i < 26 then Ipv4Byte(c.gateway, i - 22)
    else if i < 30 then Ipv4Byte(c.dns, i - 26)
    else if i < 34 then c.free[i - 30]
    else if i < 36 then WordByte(c.port, i - 34)
    else if i < 164 then c.destinationDomainName[i - 36]
    else if i < 166 then WordByte(c.destinationPort, i - 164)
    else if i < 168 then WordByte(c.protocolType, i - 166)
    else if i < 170 then WordByte(c.addressNegotiationWriteRegister, i - 168)
    else if i < 172 then WordByte(c.addressNegotiationRegister, i - 170)
    else if i < 174 then WordByte(c.negotiationStatus, i - 172)
    else WordByte(c.exceptionCode, i - 174)
  }

  /** The 176-byte big-endian image of a record (the inverse of `Decode`). */
  function Encode(c: Config): (p: seq<Byte>)
    ensures |p| == ConfigSize
  {
    seq(ConfigSize, i requires 0 <= i < ConfigSize => ByteAt(c, i))
  }

  /** Decoding the image of a record gives the record back. */
  lemma DecodeEncode(c: Config)
    ensures Decode(Encode(c)) == Success(c)
  {
    var p := Encode(c);
    JoinSplit(c.serialPortRateCode);
    JoinSplit(c.serialPortParityCheck);
    JoinSplit(c.networkMode);
    JoinSplit(c.dhcp);
    JoinSplit(c.port);
    JoinSplit(c.destinationPort);
    JoinSplit(c.protocolType);
    JoinSplit(c.addressNegotiationWriteRegister);
    JoinSplit(c.addressNegotiationRegister);
    JoinSplit(c.negotiationStatus);
    JoinSplit(c.exceptionCode);
    assert p[8..14] == c.macAddress;
    assert p[30..34] == c.free;
    assert p[36..164] == c.destinationDomainName;
  }

  /** Encoding a decoded record reproduces the first 176 bytes of the payload. */
  lemma EncodeDecode(p: seq<Byte>)
    requires |p| >= ConfigSize
    ensures Encode(Decode(p).value) == p[..ConfigSize]
  {
    forall i | 0 <= i < ConfigSize
      ensures Encode(Decode(p).value)[i] == p[i]
    {
      DecodedByte(p, i);
    }
  }

  lemma DecodedByte(p: seq<Byte>, i: nat)
    requires |p| >= ConfigSize && i < ConfigSize
    ensures ByteAt(Decode(p).value, i) == p[i]
  {
    var c := Decode(p).value;
    if 8 <= i < 14 {
      assert c.macAddress[i - 8] == p[i];
    } else if 14 <= i < 30 {
    } else if 30 <= i < 34 {
      assert c.free[i - 30] == p[i];
    } else if 36 <= i < 164 {
      assert c.destinationDomainName[i - 36] == p[i];
    } else {
      DecodedWordByte(p, i, if i % 2 == 0 then i else i - 1);
    }
  }

  lemma DecodedWordByte(p: seq<Byte>, i: nat, off: nat)
    requires |p| >= ConfigSize && i < ConfigSize
    requires i < 8 || 34 <= i < 36 || 164 <= i
    requires off % 2 == 0 && (i == off || i == off + 1)
    ensures ByteAt(Decode(p).value, i) == p[i]
  {
    var c := Decode(p).value;
    WordBytes(p, off);
    var w := JoinBytes(p[off], p[off + 1]);
    assert ByteAt(c, i) == WordByte(w, i - off) by {
      if i < 2 { assert off == 0; }
      else if i < 4 { assert off == 2; }
      else if i < 6 { assert off == 4; }
      else if i < 8 { assert off == 6; }
      else if i < 36 { assert off == 34; }
      else if i < 166 { assert off == 164; }
      else if i < 168 { assert off == 166; }
      else if i < 170 { assert off == 168; }
      else if i < 172 { assert off == 170; }
      else if i < 174 { assert off == 172; }
      else { assert off == 174; }
    }
  }

  lemma WordBytes(p: seq<Byte>, off: nat)
    requires off + 2 <= |p|
    ensures WordByte(JoinBytes(p[off], p[off + 1]), 0) == p[off]
    ensures WordByte(JoinBytes(p[off], p[off + 1]), 1) == p[off + 1]
  {
    SplitJoin(p[off], p[off + 1]);
  }

  // ------------------------------------------------------------------ register view

  /** Number of registers the record spans (the block read holds one more). */
  const RecordRegisterCount: nat := 88

  /**
   * The record in terms of the registers that hold it: register `k` of the
   * block carries bytes `2k` and `2k+1`.
   */
  function FromRegisters(ws: seq<Word>): Config
    requires |ws| >= RecordRegisterCount
  {
    Config(ws[0], ws[1], ws[2], ws[3],
      WordsToBytes(ws[4..7]),
      Ipv4Codec.Decode(ws[7], ws[8]),
      Ipv4Codec.Decode(ws[9], ws[10]),
      Ipv4Codec.Decode(ws[11], ws[12]),
      Ipv4Codec.Decode(ws[13], ws[14]),
      WordsToBytes(ws[15..17]),
      ws[17],
      WordsToBytes(ws[18..82]),
      ws[82], ws[83], ws[84], ws[85], ws[86], ws[87])
  }

  /** A register block that covers the record always decodes, and to the record its registers hold. */
  lemma DecodeRegisters(ws: seq<Word>)
    requires |ws| >= RecordRegisterCount
    ensures Decode(WordsToBytes(ws)) == Success(FromRegisters(ws))
  {
    var p := WordsToBytes(ws);
    var c, d := Decode(p).value, FromRegisters(ws);
    WordOfBlock(ws, 0);
    WordOfBlock(ws, 1);
    WordOfBlock(ws, 2);
    WordOfBlock(ws, 3);
    WordOfBlock(ws, 17);
    WordOfBlock(ws, 82);
    WordOfBlock(ws, 83);
    WordOfBlock(ws, 84);
    WordOfBlock(ws, 85);
    WordOfBlock(ws, 86);
    WordOfBlock(ws, 87);
    Ipv4OfBlock(ws, 7);
    Ipv4OfBlock(ws, 9);
    Ipv4OfBlock(ws, 11);
    Ipv4OfBlock(ws, 13);
    WordsToBytesSlice(ws, 4, 7);
    WordsToBytesSlice(ws, 15, 17);
    WordsToBytesSlice(ws, 18, 82);
    assert c.macAddress == d.macAddress && c.free == d.free;
    assert c.destinationDomainName == d.destinationDomainName;
  }

  lemma WordOfBlock(ws: seq<Word>, k: nat)
    requires k < |ws|
    ensures JoinBytes(WordsToBytes(ws)[2 * k], WordsToBytes(ws)[2 * k + 1]) == ws[k]
  {
    WordsToBytesAt(ws, k);
    JoinSplit(ws[k]);
  }

  lemma Ipv4OfBlock(ws: seq<Word>, k: nat)
    requires k + 1 < |ws|
    ensures var p := WordsToBytes(ws);
      Ipv4Codec.Ipv4(p[2 * k], p[2 * k + 1], p[2 * k + 2], p[2 * k + 3]) == Ipv4Codec.Decode(ws[k], ws[k + 1])
  {
    WordsToBytesAt(ws, k);
    WordsToBytesAt(ws, k + 1);
  }

  /** The four address fields a single register-pair write can change. */
  datatype AddressField = DeviceAddress | SubnetMask | Gateway | Dns

  /** Byte offset of an address field in the record. */
  function FieldOffset(f: AddressField): nat {
    match f
    case DeviceAddress => AddressOffset
    case SubnetMask => SubnetMaskOffset
    case Gateway => GatewayOffset
    case Dns => DnsOffset
  }

  function FieldOf(c: Config, f: AddressField): Ipv4Codec.Ipv4 {
    match f
    case DeviceAddress => c.address
    case SubnetMask => c.subnetMask
    case Gateway => c.gateway
    case Dns => c.dns
  }

  function WithField(c: Config, f: AddressField, ip: Ipv4Codec.Ipv4): (r: Config)
    ensures FieldOf(r, f) == ip
    ensures forall g :: g != f ==> FieldOf(r, g) == FieldOf(c, g)
    ensures r.(address := c.address, subnetMask := c.subnetMask, gateway := c.gateway, dns := c.dns) == c
  {
    match f
    case DeviceAddress => c.(address := ip)
    case SubnetMask => c.(subnetMask := ip)
    case Gateway => c.(gateway := ip)
    case Dns => c.(dns := ip)
  }

  /**
   * Overwriting the two registers of an address field changes that field of
   * the record to the address the registers now encode, and nothing else.
   */
  lemma FromRegistersUpdate(ws: seq<Word>, f: AddressField, first: Word, second: Word)
    requires |ws| >= RecordRegisterCount
    ensures var k := FieldOffset(f) / 2;
      FromRegisters(ws[k := first][k + 1 := second])
        == WithField(FromRegisters(ws), f, Ipv4Codec.Decode(first, second))
  {
    var k := FieldOffset(f) / 2;
    var ws' := ws[k := first][k + 1 := second];
    assert ws'[4..7] == ws[4..7];
    assert ws'[15..17] == ws[15..17];
    assert ws'[18..82] == ws[18..82];
  }
}
