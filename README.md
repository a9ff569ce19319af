# m31config register codec, modelled in Dafny

This project models the configuration-register codec of `m31config`, a command-line tool for an
industrial serial-to-Ethernet gateway. The tool talks Modbus TCP to the gateway. The model covers four parts:

- **IPv4 over a register pair.** An address's four octets become two 16-bit registers,
  `o0<<8 | o1` and `o2<<8 | o3`. The inverse is `(r >> 8, r & 0xFF)` for each register.
  Bytes and registers are integers bounded to 0..255 and 0..65535. The source's shifts and
  masks are written out as `*256`, `/256` and `%256`, and the uint16 wrap-around of
  `firstRegister + 1` is written out as `NextRegister`. (`Words`, `Ipv4Codec`)
- **Address validation.** The source calls the platform's `ParseIP` and then `To4`. `DottedQuad`
  is a stand-in for that parser, limited to the dotted-quad form: four decimal fields
  separated by `.`, each 0..255, with no leading zeros. It is proved to accept exactly
  the canonical text of each address.
- **The configuration block.** The tool reads 89 holding registers from register 30000 (178 bytes).
  Their first 176 bytes are decoded big-endian at fixed offsets into a `Config` record.
  `Decode` is an explicit offset table. `Encode` is its inverse and is proved to be one.
  `FromRegisters` gives the same record in terms of registers. (`ConfigCodec`)
- **Classification of enumerated fields.** Baud rate, parity and network mode become either a
  table entry or `Unknown(raw code)`. DHCP and protocol type are two-valued flags. (`Classification`)
- **Address updates.** `Tool.SetIpAddress` and its four fixed-register wrappers write through a
  `Device`. The `Device` is a register space that keeps a log of write attempts. Each write
  can report an error. An acknowledged write was applied; a write that reported an error
  may or may not have reached the register, since either the request or only its response
  can be lost. (`RegisterSpace`, `M31Config`)

Three behaviours of the code are worth stating on their own:

- A payload decodes when it has at least 176 bytes, the size of the record, and the two
  extra bytes of the 89-register read are ignored. A shorter payload fails (`EndOfInput` for
  an empty payload, `UnexpectedEndOfInput` for 1..175 bytes).
- The low word of an address is written to `firstRegister + 1`, computed as a uint16.
  For the device address (first register 30007) this is register 30008.
- The baud-rate bound is `code > 0 && code < len(BaudRate)`. It admits codes 1..7 only, so
  code 8 (230400 baud) is reported as unknown. `Classification.LastBaudRateUnreachable`
  states this.

## Model

| member | source | states |
|---|---|---|
| `Words.NextRegister` | main.go:114 | the register after `r` is `r + 1` below 65535 and 0 after 65535 (uint16 wrap-around); it is never `r` itself |
| `Words.JoinSplit` | main.go:104-105 | a register is rebuilt from its high byte (`w >> 8`) and low byte (`w & 0xFF`) |
| `Words.SplitJoin` | main.go:104-105 | `hi<<8 \| lo` of two bytes has `hi` as its high byte and `lo` as its low byte: the bytes neither overlap nor overflow |
| `Words.WordsToBytesAt` | main.go:124 | in the bytes of a register read, register `i` arrives as byte `2i` (high) then byte `2i+1` (low) |
| `Words.BytesOfWords` | main.go:124 | regrouping the transported bytes into registers recovers the registers |
| `Words.WordsOfBytes` | main.go:124 | every even-length byte string is the transport of the registers it regroups into |
| `Words.WordsToBytesSlice` | main.go:124 | a byte range `[2i, 2j)` of a block read is the transport of registers `[i, j)` |
| `Ipv4Codec.Encode` | main.go:104-105 | the first register has octet 0 as its high byte and octet 1 as its low byte; the second has octets 2 and 3 likewise |
| `Ipv4Codec.Decode` | main.go:34-37 | the octets read from two registers satisfy `r0 = o0*256 + o1` and `r1 = o2*256 + o3` |
| `Ipv4Codec.DecodeEncode` | main.go:104-105 | decoding the encoded register pair gives back all four octets |
| `Ipv4Codec.EncodeDecode` | main.go:104-105 | every register pair is the encoding of the address it decodes to |
| `Ipv4Codec.EncodeInjective` | main.go:104-105 | distinct addresses are written as distinct register pairs |
| `DottedQuad.CheckIpAddress` | main.go:68-79 | an accepted address has exactly four `.`-separated fields, each the canonical numeral of the octet returned for it; a rejected one has a field count other than four or a field that is not a numeral 0..255 |
| `DottedQuad.CheckFormat` | main.go:68-79 | the stand-in validator accepts each address's dotted-quad text and returns exactly its four octets |
| `DottedQuad.FormatCheck` | main.go:68-79 | the only text the stand-in accepts for an address is that address's canonical dotted quad |
| `DottedQuad.DecimalTextIsNumeral` | main.go:69 | the canonical decimal numeral of `n` has no leading zero and denotes `n` |
| `DottedQuad.NumeralIsDecimalText` | main.go:69 | every numeral without a leading zero is the canonical numeral of its value |
| `DottedQuad.FieldsOfJoin` | main.go:69 | splitting dot-joined pieces that contain no `.` gives back the pieces |
| `DottedQuad.JoinOfFields` | main.go:69 | joining the `.`-separated pieces of a string with `.` gives back the string |
| `DottedQuad.CheckExampleValid` | main.go:68-79 | "10.0.0.5" validates to octets 10, 0, 0, 5 |
| `DottedQuad.CheckExampleOutOfRange` | main.go:68-72 | "300.1.1.1" is rejected |
| `ConfigCodec.Decode` | main.go:28-47 | fails with `EndOfInput` exactly on an empty payload and with `UnexpectedEndOfInput` exactly on 1..175 bytes; succeeds on 176 bytes or more; each uint16 field is the big-endian word at its byte offset (0, 2, 4, 6, 34, 164, 166, 168, 170, 172, 174); MAC is bytes 8..13; Address, SubnetMask, Gateway and Dns are bytes 14, 18, 22 and 26 onward; Free is 30..33; the domain name is 36..163 |
| `ConfigCodec.DecodeIgnoresTail` | main.go:135-141 | bytes beyond the 176th (the two extra bytes of the 89-register read) do not affect the record |
| `ConfigCodec.Encode` | main.go:28-47 | a record's wire image is exactly 176 bytes |
| `ConfigCodec.DecodeEncode` | main.go:28-47 | decoding a record's 176-byte image gives the record back: the layout loses nothing |
| `ConfigCodec.EncodeDecode` | main.go:135-141 | the image of a decoded record is the first 176 bytes of the payload: no byte is dropped or misplaced |
| `ConfigCodec.DecodeRegisters` | main.go:124-141 | a register block covering the record always decodes; the result is the record its registers hold (code words are registers 0-3, 17 and 82-87; the addresses are register pairs 7, 9, 11, 13) |
| `ConfigCodec.WithField` | main.go:34-37 | replacing one address field sets that field and leaves every other field of the record (the other three addresses, MAC, codes, ports, domain name, status words) alone |
| `ConfigCodec.FromRegistersUpdate` | main.go:28-47 | overwriting the two registers of an address field changes that field to the address they encode and changes no other field |
| `Classification.BaudRateOf` | main.go:193-197 | codes 1..7 map to `BaudRate[code-1]`; code 0 and every code from 8 up are `Unknown(code)` with the raw code kept |
| `Classification.ParityOf` | main.go:199-203 | parity codes 0..2 are `ParityCheck[code]` (NONE, ODD, EVEN); every other code is `Unknown(code)` |
| `Classification.NetworkModeOf` | main.go:159-163 | mode codes 0..3 are `NetworkMode[code]`; every other code is `Unknown(code)` |
| `Classification.DhcpEnabled` | main.go:148-152 | DHCP is shown enabled exactly for the value 1 and disabled for every other value |
| `Classification.ProtocolOf` | main.go:153-157 | the protocol is TCP exactly for the value 1 and RTU for every other value |
| `Classification.Lookup` | main.go:159-163 | a code below the table length maps to that table entry; any other code is `Unknown(code)` |
| `Classification.LookupCodeRecovered` | main.go:199-203 | over a table without repeats, the classification determines the code it came from |
| `Classification.ParityCodeRecovered` | main.go:199-203 | parity codes 0..2 are NONE, ODD, EVEN and the raw code can be recovered from every classification |
| `Classification.NetworkModeCodeRecovered` | main.go:159-163 | network-mode codes 0..3 name the modes in table order and the raw code can be recovered from every classification |
| `Classification.BaudCodeRecovered` | main.go:193-197 | the rate code can be recovered from every baud-rate classification, known or unknown |
| `Classification.BaudRateReachable` | main.go:193-194 | each of the first seven rates is reported for its 1-based code |
| `Classification.LastBaudRateUnreachable` | main.go:24 | no code is ever reported as the last table entry, 230400 baud |
| `Classification.Describe` | main.go:148-203 | DHCP is enabled exactly for value 1 and the protocol is TCP exactly for value 1, with no unknown state for either; baud is known exactly for codes 1..7 and is then `BaudRate[code-1]`, parity is known for codes below 3 and is then `ParityCheck[code]`, mode is known for codes below 4 and is then `NetworkMode[code]`; each unknown classification keeps its raw code |
| `Classification.DescribeSample` | main.go:148-203 | a record with DHCP 1, protocol 1, mode 1, rate code 3 and parity 0 is classified as DHCP enabled, TCP, "TCP client", 9600 baud, parity NONE |
| `Classification.ExampleReport` | main.go:147-171 | the decoded image of that record reports the same classification together with its MAC AA:BB:CC:DD:EE:FF, address 192.168.3.7 and port 502 |
| `RegisterSpace.ReplayOne` | main.go:109 | a single write changes its register exactly when the device applied it, and an acknowledged write always was applied |
| `RegisterSpace.ReplayAppend` | main.go:109-116 | replaying a write log in two parts is the same as replaying it whole |
| `RegisterSpace.Device.WriteSingleRegister` | main.go:109 | one attempt is appended to the log with its register, value and whether it was acknowledged; the register is set if the device applied the write, which an acknowledgement guarantees; nothing else changes |
| `RegisterSpace.Device.ReadHoldingRegisters` | main.go:124 | a successful read of the full length returns the registers of the range, two bytes each, high byte first; a response of another length is passed on as it arrived |
| `M31Config.FieldRegister` | main.go:81-95 | each writer's first register is 30000 plus half the byte offset of its field: device 30007, mask 30009, gateway 30011, DNS 30013 |
| `M31Config.PairWrites` | main.go:107-116 | an update reports success exactly when both of its writes were acknowledged, and sends no request after one that reported an error |
| `M31Config.PairWritesEffect` | main.go:107-116 | after an update, both registers hold the new words if there was no error; both words or the high word only (a torn update) if the second write reported an error; the high word only or nothing if the first write reported an error |
| `M31Config.BlockRecord` | main.go:124-141 | reading the 89-register block always decodes, and gives the record held by registers 30000-30087 |
| `M31Config.WriteFieldReadBack` | main.go:81-95 | writing an address field's register pair and then reading the block gives the new octets in that field and leaves the rest of the record unchanged |
| `M31Config.TornWriteReadBack` | main.go:109-116 | if only the first register of a field was written, the block shows the new high octets and the old low octets |
| `M31Config.Tool.SetIpAddress` | main.go:97-117 | an invalid address returns `InvalidAddress` and writes nothing. A valid one writes the high word to `firstRegister`. If that fails, the update stops with that register's error. Otherwise it writes the low word to `firstRegister+1` and reports that write's outcome. The registers end up in one of the states `PairWritesEffect` allows for the reported error |
| `M31Config.Tool.SetField` | main.go:81-95 | after a field writer's update, the registers are in a state `PairWritesEffect` allows for the field's register pair and the reported error, so no register outside that pair changes. The block shows the new address in exactly that field on success; the new address or the torn one (new high octets, old low octets) if the second write reported an error; the torn one or the old record if the first did |
| `M31Config.Tool.SetDnsAddress` | main.go:81-83 | writes the pair at 30013 and 30014; only those two registers can change, in a state `PairWritesEffect` allows for the reported error; on success the block's `Dns` field is the new address and nothing else changed |
| `M31Config.Tool.SetGatewayAddress` | main.go:85-87 | writes the pair at 30011 and 30012; only those two registers can change, in a state `PairWritesEffect` allows for the reported error; on success the block's `Gateway` field is the new address and nothing else changed |
| `M31Config.Tool.SetDeviceAddress` | main.go:89-91 | writes the pair at 30007 and 30008; only those two registers can change, in a state `PairWritesEffect` allows for the reported error; on success the block's `Address` field is the new address and nothing else changed |
| `M31Config.Tool.SetSubnetMask` | main.go:93-95 | writes the pair at 30009 and 30010; only those two registers can change, in a state `PairWritesEffect` allows for the reported error; on success the block's `SubnetMask` field is the new address and nothing else changed |
| `M31Config.Tool.ShowConfiguration` | main.go:119-141 | reads 89 registers from 30000 and reports `ReadFailed` exactly when the read fails. A delivered payload shorter than 176 bytes is a decode failure (`EndOfInput` when empty, `UnexpectedEndOfInput` otherwise); a longer one is decoded and classified. A full 178-byte response yields the classified record held by the registers |
| `M31Config.DeviceAddressExample` | main.go:89-91 | "10.0.0.5" validates to 10.0.0.5, which encodes to the words 0x0A00 and 0x0005; the device-address pair is registers 30007 and 30008 |
| `M31Config.DeviceAddressScenario` | main.go:89-91 | setting the device address to 10.0.0.5 sends 0x0A00 to register 30007 and, exactly when that write was acknowledged, then 0x0005 to register 30008; success is reported exactly when every write sent was acknowledged; no other write is sent, the earlier log is kept, and the registers end in a state `PairWritesEffect` allows |

## Left out

- The Modbus TCP transport (connection set-up, timeouts, slave ID, request framing, response checks). It is an external library. `RegisterSpace.Device` stands in for it: reads and writes that may fail, with the failure chosen nondeterministically.
- The full grammar of the platform IP parser, including IPv6 forms and IPv4-mapped IPv6 addresses that the 4-octet conversion would accept. The validator is a dotted-quad stand-in.
- The separate "not valid" and "not v4" error messages of address validation. Both are `InvalidAddress`.
- The transport's own error value on a failed read or write. The model reports `ReadFailed` or `WriteFailed(register)` instead.
- `RegisterSpace.Device`: no other Modbus client, and nothing on the device itself, changes the registers between the tool's requests; read-back results assume that only the tool's own writes happened.
- `RegisterSpace.Device.ReadHoldingRegisters`: a response of the full length is taken to carry the device's actual registers; the bytes of a response of any other length are unconstrained, since the transport library's response checks are not part of this model.
- All printing in `ShowConfiguration`: the MAC in hex, dotted addresses, "→ new value" hints and debug dumps. `ShowConfiguration` returns the classified record instead of printing it, its read or decode error instead of printing a message, and the payload it received instead of the debug dump of it.
- Command-line flag parsing and the `main` sequence that chains reads and writes.
- The meaning of `Free`, the destination domain name and the negotiation/status words. They are passed through uninterpreted, as in the source.
