/**
 * Classification of the record's enumerated fields. Codes inside a table's
 * bound name a table entry; codes outside it are reported as unknown with the
 * raw code kept. DHCP and protocol type are two-valued flags.
 */
module Classification {
  import opened Words
  import Ipv4Codec
  import ConfigCodec

  /** Serial baud rates, selected by a 1-based code. */
  const BaudRate: seq<nat> := [2400, 4800, 9600, 19200, 38400, 57600, 115200, 230400]
  const ParityCheck: seq<string> := ["NONE", "ODD", "EVEN"]
  const NetworkMode: seq<string> := ["TCP server", "TCP client", "UDP server", "UDP client"]

  /**
   * Longest table the lookups admit: the length is compared with a 16-bit code
   * as `uint16(len(table))`, which must not wrap.
   */
  const MaxTableLength: nat := 0x1_0000

  /** A classified code: a table entry, or the raw code the table does not cover. */
  datatype Code<T> = Known(symbol: T) | Unknown(raw: Word)

  datatype Protocol = Tcp | Rtu

  /**
   * Baud rate of a rate code: `code > 0 && code < len(BaudRate)` selects entry
   * `code - 1`. The bound admits codes 1..7 only, so the last entry is never selected.
   */
  function BaudRateOf(code: Word): (r: Code<nat>)
    ensures r.Known? <==> 1 <= code <= 7
    ensures r.Known? ==> r.symbol == BaudRate[code - 1]
    ensures r.Unknown? ==> r.raw == code
  {
    if code > 0 && code < |BaudRate| then Known(BaudRate[code - 1]) else Unknown(code)
  }

  /** A 0-based table lookup bounded by the table's length. */
  function Lookup<T>(table: seq<T>, code: Word): (r: Code<T>)
    requires |table| < MaxTableLength
    ensures r.Known? <==> code < |table|
    ensures r.Known? ==> r.symbol == table[code]
    ensures r.Unknown? ==> r.raw == code
  {
    if code < |table| then Known(table[code]) else Unknown(code)
  }

  /** Parity of a parity code: 0, 1, 2 are NONE, ODD, EVEN. */
  function ParityOf(code: Word): (r: Code<string>)
    ensures r.Known? <==> code < 3
    ensures r.Known? ==> r.symbol == ParityCheck[code]
    ensures r.Unknown? ==> r.raw == code
  {
    Lookup(ParityCheck, code)
  }

  /** Network mode of a mode code: 0..3 in table order. */
  function NetworkModeOf(code: Word): (r: Code<string>)
    ensures r.Known? <==> code < 4
    ensures r.Known? ==> r.symbol == NetworkMode[code]
    ensures r.Unknown? ==> r.raw == code
  {
    Lookup(NetworkMode, code)
  }

  /** DHCP is enabled by the value 1 only. */
  function DhcpEnabled(code: Word): (enabled: bool)
    ensures enabled <==> code == 1
  {
    code == 1
  }

  /** Protocol type 1 is TCP; every other value is RTU. */
  function ProtocolOf(code: Word): (p: Protocol)
    ensures p == Tcp <==> code == 1
    ensures p == Rtu <==> code != 1
  {
    if code == 1 then Tcp else Rtu
  }

  /** What the configuration display shows, with every enumerated field classified. */
  datatype Report = Report(
    config: ConfigCodec.Config,
    baudRate: Code<nat>,
    parity: Code<string>,
    networkMode: Code<string>,
    dhcpEnabled: bool,
    protocol: Protocol)

  function Describe(c: ConfigCodec.Config): (r: Report)
    ensures r.config == c
    ensures r.dhcpEnabled <==> c.dhcp == 1
    ensures r.protocol == Tcp <==> c.protocolType == 1
    ensures r.baudRate.Known? <==> 1 <= c.serialPortRateCode <= 7
    ensures r.baudRate.Known? ==> r.baudRate.symbol == BaudRate[c.serialPortRateCode - 1]
    ensures r.baudRate.Unknown? ==> r.baudRate.raw == c.serialPortRateCode
    ensures r.parity.Known? <==> c.serialPortParityCheck < 3
    ensures r.parity.Known? ==> r.parity.symbol == ParityCheck[c.serialPortParityCheck]
    ensures r.parity.Unknown? ==> r.parity.raw == c.serialPortParityCheck
    ensures r.networkMode.Known? <==> c.networkMode < 4
    ensures r.networkMode.Known? ==> r.networkMode.symbol == NetworkMode[c.networkMode]
    ensures r.networkMode.Unknown? ==> r.networkMode.raw == c.networkMode
  {
    Report(c, BaudRateOf(c.serialPortRateCode), ParityOf(c.serialPortParityCheck),
      NetworkModeOf(c.networkMode), DhcpEnabled(c.dhcp), ProtocolOf(c.protocolType))
  }

  // ------------------------------------------------------------------ no information lost

  /** Position of the first occurrence of `x` in `table`. */
  function IndexOf<T(==)>(table: seq<T>, x: T): (i: nat)
    requires x in table
    ensures i < |table| && table[i] == x
    ensures forall j :: 0 <= j < i ==> table[j] != x
  {
    if table[0] == x then 0 else 1 + IndexOf(table[1..], x)
  }

  predicate Distinct<T(==)>(table: seq<T>) {
    forall i, j :: 0 <= i < j < |table| ==> table[i] != table[j]
  }

  /** The code a classification was made from. */
  function LookupCode<T(==)>(table: seq<T>, r: Code<T>): Word
    requires |table| < MaxTableLength
    requires r.Known? ==> r.symbol in table
  {
    match r
    case Known(s) => IndexOf(table, s)
    case Unknown(raw) => raw
  }

  /** Over a table without repeats, a classification determines the code it came from. */
  lemma LookupCodeRecovered<T>(table: seq<T>, code: Word)
    requires |table| < MaxTableLength && Distinct(table)
    ensures var r := Lookup(table, code); (r.Known? ==> r.symbol in table) && LookupCode(table, r) == code
  {
    var r := Lookup(table, code);
    if r.Known? {
      var i := IndexOf(table, r.symbol);
      assert i == code;
    }
  }

  lemma ParityCodeRecovered(code: Word)
    ensures var r := ParityOf(code); (r.Known? ==> r.symbol in ParityCheck) && LookupCode(ParityCheck, r) == code
  {
    LookupCodeRecovered(ParityCheck, code);
  }

  lemma NetworkModeCodeRecovered(code: Word)
    ensures var r := NetworkModeOf(code); (r.Known? ==> r.symbol in NetworkMode) && LookupCode(NetworkMode, r) == code
  {
    LookupCodeRecovered(NetworkMode, code);
  }

  /** The rate code a baud-rate classification was made from. */
  function BaudCode(r: Code<nat>): Word
    requires r.Known? ==> r.symbol in BaudRate
  {
    match r
    case Known(rate) => IndexOf(BaudRate, rate) + 1
    case Unknown(raw) => raw
  }

  /** A baud-rate classification determines the rate code it came from. */
  lemma BaudCodeRecovered(code: Word)
    ensures var r := BaudRateOf(code); (r.Known? ==> r.symbol in BaudRate) && BaudCode(r) == code
  {
    var r := BaudRateOf(code);
    if r.Known? {
      var i := IndexOf(BaudRate, r.symbol);
      assert i == code - 1;
    }
  }

  /** Every rate but the last is reported for its 1-based code (and, by `BaudCodeRecovered`, for no other). */
  lemma BaudRateReachable(i: nat)
    requires i < |BaudRate| - 1
    ensures BaudRateOf(i + 1) == Known(BaudRate[i])
  {
  }

  /** No code is reported as 230400 baud, the last table entry. */
  lemma LastBaudRateUnreachable(code: Word)
    ensures BaudRateOf(code) != Known(BaudRate[|BaudRate| - 1])
  {
  }

  /** A sample configuration: DHCP 1, protocol type 1, network mode 1, rate code 3, parity 0, port 502. */
  const SampleConfig := ConfigCodec.Config(3, 0, 1, 1, [0xAA, 0xBB, 0xCC, 0xDD, 0xEE, 0xFF],
    Ipv4Codec.Ipv4(192, 168, 3, 7), Ipv4Codec.Ipv4(255, 255, 255, 0), Ipv4Codec.Ipv4(192, 168, 3, 1),
    Ipv4Codec.Ipv4(8, 8, 8, 8), [0, 0, 0, 0], 502, seq(128, i => 0), 0, 1, 0, 0, 0, 0)

  /**
   * The block image of the sample is reported as DHCP enabled, TCP, "TCP
   * client", 9600 baud, parity NONE, MAC AA:BB:CC:DD:EE:FF, address
   * 192.168.3.7 and port 502.
   */
  lemma ExampleReport()
    ensures var r := Describe(ConfigCodec.Decode(ConfigCodec.Encode(SampleConfig)).value);
      && r.dhcpEnabled && r.protocol == Tcp && r.networkMode == Known("TCP client")
      && r.baudRate == Known(9600) && r.parity == Known("NONE")
      && r.config.macAddress == [0xAA, 0xBB, 0xCC, 0xDD, 0xEE, 0xFF]
      && r.config.address == Ipv4Codec.Ipv4(192, 168, 3, 7) && r.config.port == 502
  {
    ConfigCodec.DecodeEncode(SampleConfig);
    DescribeSample();
  }

  lemma DescribeSample()
    ensures var r := Describe(SampleConfig);
      && r.dhcpEnabled && r.protocol == Tcp && r.networkMode == Known("TCP client")
      && r.baudRate == Known(9600) && r.parity == Known("NONE")
  {
    assert NetworkMode[1] == "TCP client";
    assert ParityCheck[0] == "NONE";
  }
}
