/**
 * The configuration tool's device operations: writing a new IPv4 address into
 * one of the four writable address fields, and reading and classifying the
 * configuration block.
 */
module M31Config {
  import opened Wrappers
  import opened Words
  import Ipv4Codec
  import opened DottedQuad
  import opened ConfigCodec
  import opened Classification
  import opened RegisterSpace

  /** First register of each writable address field. */
  const DeviceAddressRegister: Word := 30007
  const SubnetMaskRegister: Word := 30009
  const GatewayRegister: Word := 30011
  const DnsRegister: Word := 30013

  datatype Error =
    | InvalidAddress                 // the address text is not a valid IPv4 address; nothing was written
    | WriteFailed(register: Word)    // the write of this register reported an error
    | ReadFailed                     // the configuration block could not be read
    | DecodeFailed(cause: DecodeError)  // the block that arrived is too short for the record

  /** The register an address field's writer starts at: the field's byte offset in the block, in registers. */
  function FieldRegister(f: AddressField): (r: Word)
    ensures r == ConfigBaseRegister + FieldOffset(f) / 2
  {
    match f
    case DeviceAddress => DeviceAddressRegister
    case SubnetMask => SubnetMaskRegister
    case Gateway => GatewayRegister
    case Dns => DnsRegister
  }

  /**
   * The write requests of one address update and the error it reports: the
   * first register gets the high word; only if that was acknowledged is the
   * next register (uint16 `first + 1`) sent the low word.
   */
  ghost predicate PairWrites(written: seq<WriteAttempt>, first: Word, pair: Ipv4Codec.RegisterPair, err: Option<Error>): (ok: bool)
    ensures ok ==> (err.None? <==> |written| == 2 && written[0].Acked() && written[1].Acked())
    ensures ok ==> forall i :: 0 <= i < |written| - 1 ==> written[i].Acked()
    ensures ok ==> err != Some(InvalidAddress)
  {
    && 1 <= |written| <= 2
    && written[0].register == first && written[0].value == pair.first
    && if !written[0].Acked() then
         |written| == 1 && err == Some(WriteFailed(first))
       else
         && |written| == 2
         && written[1].register == NextRegister(first) && written[1].value == pair.second
         && err == if written[1].Acked() then None else Some(WriteFailed(NextRegister(first)))
  }

  /**
   * The registers an address update may leave, told apart by the error it
   * reported. A write that reported an error may still have reached the device.
   */
  ghost predicate PairOutcome(regs: seq<Word>, after: seq<Word>, first: Word, pair: Ipv4Codec.RegisterPair, err: Option<Error>)
    requires |regs| == AddressSpaceSize
  {
    var both := regs[first := pair.first][NextRegister(first) := pair.second];
    var high := regs[first := pair.first];
    if err.None? then after == both
    else if err == Some(WriteFailed(NextRegister(first))) then after == both || after == high
    else after == high || after == regs
  }

  /**
   * What an address update's writes leave in the registers: both words after
   * success; both words or the high word only (a torn update) after the second
   * write failed; the high word only or nothing after the first write failed.
   */
  lemma PairWritesEffect(regs: seq<Word>, written: seq<WriteAttempt>, first: Word, pair: Ipv4Codec.RegisterPair, err: Option<Error>)
    requires |regs| == AddressSpaceSize
    requires PairWrites(written, first, pair, err)
    ensures PairOutcome(regs, Replay(regs, written), first, pair, err)
  {
    assert NextRegister(first) != first;
    ReplayOne(regs, written[0]);
    if |written| == 1 {
      assert written == [written[0]];
    } else {
      assert written == [written[0]] + [written[1]];
      ReplayAppend(regs, [written[0]], [written[1]]);
      ReplayOne(Replay(regs, [written[0]]), written[1]);
    }
  }

  /** The record a read of the configuration block yields. */
  function BlockRecord(regs: seq<Word>): (c: Config)
    requires |regs| == AddressSpaceSize
    ensures Decode(WordsToBytes(regs[ConfigBaseRegister .. ConfigBaseRegister + ConfigRegisterCount])) == Success(c)
    ensures c == FromRegisters(regs[ConfigBaseRegister .. ConfigBaseRegister + ConfigRegisterCount])
  {
    DecodeRegisters(regs[ConfigBaseRegister .. ConfigBaseRegister + ConfigRegisterCount]);
    Decode(WordsToBytes(regs[ConfigBaseRegister .. ConfigBaseRegister + ConfigRegisterCount])).value
  }

  /** After both words of an address field are written, a read of the block shows the new address there and nothing else changed. */
  lemma WriteFieldReadBack(regs: seq<Word>, f: AddressField, ip: Ipv4Codec.Ipv4)
    requires |regs| == AddressSpaceSize
    ensures var r, pair := FieldRegister(f), Ipv4Codec.Encode(ip);
      BlockRecord(regs[r := pair.first][NextRegister(r) := pair.second]) == WithField(BlockRecord(regs), f, ip)
  {
    var r, pair := FieldRegister(f), Ipv4Codec.Encode(ip);
    var regs' := regs[r := pair.first][NextRegister(r) := pair.second];
    var block := regs[ConfigBaseRegister .. ConfigBaseRegister + ConfigRegisterCount];
    var k := FieldOffset(f) / 2;
    assert regs'[ConfigBaseRegister .. ConfigBaseRegister + ConfigRegisterCount]
        == block[k := pair.first][k + 1 := pair.second];
    FromRegistersUpdate(block, f, pair.first, pair.second);
    Ipv4Codec.DecodeEncode(ip);
  }

  /** If only the first word of an address field was written, the block shows the new high octets and the old low octets. */
  lemma TornWriteReadBack(regs: seq<Word>, f: AddressField, ip: Ipv4Codec.Ipv4)
    requires |regs| == AddressSpaceSize
    ensures var before := FieldOf(BlockRecord(regs), f);
      BlockRecord(regs[FieldRegister(f) := Ipv4Codec.Encode(ip).first])
        == WithField(BlockRecord(regs), f, Ipv4Codec.Ipv4(ip.o0, ip.o1, before.o2, before.o3))
  {
    var r, pair := FieldRegister(f), Ipv4Codec.Encode(ip);
    var block := regs[ConfigBaseRegister .. ConfigBaseRegister + ConfigRegisterCount];
    var k := FieldOffset(f) / 2;
    assert regs[r := pair.first][ConfigBaseRegister .. ConfigBaseRegister + ConfigRegisterCount]
        == block[k := pair.first][k + 1 := block[k + 1]];
    FromRegistersUpdate(block, f, pair.first, block[k + 1]);
    Ipv4Codec.DecodeEncode(ip);
  }

  class Tool {
    const device: Device

    constructor (device: Device)
      ensures this.device == device
    {
      this.device := device;
    }

    /**
     * Validate `address`; if valid, write its high word to `firstRegister` and,
     * if that succeeded, its low word to `firstRegister + 1` (uint16, wrapping).
     */
    method SetIpAddress(address: string, firstRegister: Word) returns (err: Option<Error>)
      requires device.Valid()
      modifies device
      ensures device.Valid() && device.initial == old(device.initial)
      ensures match CheckIpAddress(address)
        case None =>
          err == Some(InvalidAddress) && device.writes == old(device.writes)
          && device.registers == old(device.registers)
        case Some(ip) =>
          var n := |old(device.writes)|;
          && n < |device.writes| && device.writes[..n] == old(device.writes)
          && PairWrites(device.writes[n..], firstRegister, Ipv4Codec.Encode(ip), err)
          && PairOutcome(old(device.registers), device.registers, firstRegister, Ipv4Codec.Encode(ip), err)
    {
      var checked := CheckIpAddress(address);
      if checked.None? {
        return Some(InvalidAddress);
      }
      var pair := Ipv4Codec.Encode(checked.value);
      var n := |device.writes|;
      ghost var before := device.registers;
      var ok := device.WriteSingleRegister(firstRegister, pair.first);
      if !ok {
        err := Some(WriteFailed(firstRegister));
      } else {
        ok := device.WriteSingleRegister(NextRegister(firstRegister), pair.second);
        err := if ok then None else Some(WriteFailed(NextRegister(firstRegister)));
      }
      assert device.writes == old(device.writes) + device.writes[n..];
      ReplayAppend(device.initial, old(device.writes), device.writes[n..]);
      PairWritesEffect(before, device.writes[n..], firstRegister, pair, err);
    }

    /** Shared contract of the four field writers. */
    method SetField(address: string, f: AddressField) returns (err: Option<Error>)
      requires device.Valid()
      modifies device
      ensures device.Valid() && device.initial == old(device.initial)
      ensures match CheckIpAddress(address)
        case None =>
          err == Some(InvalidAddress) && device.writes == old(device.writes)
          && device.registers == old(device.registers)
        case Some(ip) =>
          var n := |old(device.writes)|;
          && n < |device.writes| && device.writes[..n] == old(device.writes)
          && PairWrites(device.writes[n..], FieldRegister(f), Ipv4Codec.Encode(ip), err)
          && PairOutcome(old(device.registers), device.registers, FieldRegister(f), Ipv4Codec.Encode(ip), err)
          && var before := BlockRecord(old(device.registers));
             var updated := WithField(before, f, ip);
             var torn := WithField(before, f, Ipv4Codec.Ipv4(ip.o0, ip.o1, FieldOf(before, f).o2, FieldOf(before, f).o3));
             var after := BlockRecord(device.registers);
             && (err.None? ==> after == updated)
             && (err == Some(WriteFailed(NextRegister(FieldRegister(f)))) ==> after == updated || after == torn)
             && (err == Some(WriteFailed(FieldRegister(f))) ==> after == torn || after == before)
    {
      err := SetIpAddress(address, FieldRegister(f));
      if CheckIpAddress(address).Some? {
        WriteFieldReadBack(old(device.registers), f, CheckIpAddress(address).value);
        TornWriteReadBack(old(device.registers), f, CheckIpAddress(address).value);
      }
    }

    method SetDnsAddress(address: string) returns (err: Option<Error>)
      requires device.Valid()
      modifies device
      ensures device.Valid() && device.initial == old(device.initial)
      ensures match CheckIpAddress(address)
        case None =>
          err == Some(InvalidAddress) && device.writes == old(device.writes)
          && device.registers == old(device.registers)
        case Some(ip) =>
          var n := |old(device.writes)|;
          && n < |device.writes| && device.writes[..n] == old(device.writes)
          && PairWrites(device.writes[n..], 30013, Ipv4Codec.Encode(ip), err)
          && PairOutcome(old(device.registers), device.registers, 30013, Ipv4Codec.Encode(ip), err)
          && (err.None? ==> BlockRecord(device.registers) == BlockRecord(old(device.registers)).(dns := ip))
    {
      err := SetField(address, Dns);
    }

    method SetGatewayAddress(address: string) returns (err: Option<Error>)
      requires device.Valid()
      modifies device
      ensures device.Valid() && device.initial == old(device.initial)
      ensures match CheckIpAddress(address)
        case None =>
          err == Some(InvalidAddress) && device.writes == old(device.writes)
          && device.registers == old(device.registers)
        case Some(ip) =>
          var n := |old(device.writes)|;
          && n < |device.writes| && device.writes[..n] == old(device.writes)
          && PairWrites(device.writes[n..], 30011, Ipv4Codec.Encode(ip), err)
          && PairOutcome(old(device.registers), device.registers, 30011, Ipv4Codec.Encode(ip), err)
          && (err.None? ==> BlockRecord(device.registers) == BlockRecord(old(device.registers)).(gateway := ip))
    {
      err := SetField(address, Gateway);
    }

    method SetDeviceAddress(address: string) returns (err: Option<Error>)
      requires device.Valid()
      modifies device
      ensures device.Valid() && device.initial == old(device.initial)
      ensures match CheckIpAddress(address)
        case None =>
          err == Some(InvalidAddress) && device.writes == old(device.writes)
          && device.registers == old(device.registers)
        case Some(ip) =>
          var n := |old(device.writes)|;
          && n < |device.writes| && device.writes[..n] == old(device.writes)
          && PairWrites(device.writes[n..], 30007, Ipv4Codec.Encode(ip), err)
          && PairOutcome(old(device.registers), device.registers, 30007, Ipv4Codec.Encode(ip), err)
          && (err.None? ==> BlockRecord(device.registers) == BlockRecord(old(device.registers)).(address := ip))
    {
      err := SetField(address, DeviceAddress);
    }

    method SetSubnetMask(address: string) returns (err: Option<Error>)
      requires device.Valid()
      modifies device
      ensures device.Valid() && device.initial == old(device.initial)
      ensures match CheckIpAddress(address)
        case None =>
          err == Some(InvalidAddress) && device.writes == old(device.writes)
          && device.registers == old(device.registers)
        case Some(ip) =>
          var n := |old(device.writes)|;
          && n < |device.writes| && device.writes[..n] == old(device.writes)
          && PairWrites(device.writes[n..], 30009, Ipv4Codec.Encode(ip), err)
          && PairOutcome(old(device.registers), device.registers, 30009, Ipv4Codec.Encode(ip), err)
          && (err.None? ==> BlockRecord(device.registers) == BlockRecord(old(device.registers)).(subnetMask := ip))
    {
      err := SetField(address, SubnetMask);
    }

    /**
     * Read the 89-register configuration block from register 30000, decode it
     * and classify its codes; `payload` is the response as it arrived.
     */
    method ShowConfiguration() returns (r: Result<Report, Error>, payload: Option<seq<Byte>>)
      requires device.Valid()
      ensures payload.None? <==> r == Failure(ReadFailed)
      ensures payload.Some? && |payload.value| == 2 * ConfigRegisterCount ==>
        r == Success(Describe(BlockRecord(device.registers)))
      ensures payload.Some? ==> (r.Failure? <==> |payload.value| < ConfigSize)
      ensures payload.Some? && |payload.value| == 0 ==> r == Failure(DecodeFailed(EndOfInput))
      ensures payload.Some? && 0 < |payload.value| < ConfigSize ==> r == Failure(DecodeFailed(UnexpectedEndOfInput))
      ensures payload.Some? && |payload.value| >= ConfigSize ==> r == Success(Describe(Decode(payload.value).value))
    {
      payload := device.ReadHoldingRegisters(30000, 89);
      if payload.None? {
        return Failure(ReadFailed), payload;
      }
      var decoded := Decode(payload.value);
      if decoded.Failure? {
        return Failure(DecodeFailed(decoded.error)), payload;
      }
      if |payload.value| == 2 * ConfigRegisterCount {
        assert payload.value == WordsToBytes(device.registers[ConfigBaseRegister .. ConfigBaseRegister + ConfigRegisterCount]);
      }
      r := Success(Describe(decoded.value));
    }
  }

  /** The address 10.0.0.5 validates, encodes to the words 0x0A00 and 0x0005, and the device-address pair is registers 30007 and 30008. */
  lemma DeviceAddressExample()
    ensures CheckIpAddress("10.0.0.5") == Some(Ipv4Codec.Ipv4(10, 0, 0, 5))
    ensures Ipv4Codec.Encode(Ipv4Codec.Ipv4(10, 0, 0, 5)) == Ipv4Codec.RegisterPair(0x0A00, 0x0005)
    ensures FieldRegister(DeviceAddress) == 30007 && NextRegister(FieldRegister(DeviceAddress)) == 30008
  {
    CheckExampleValid();
  }

  /**
   * Setting the device address to 10.0.0.5 sends 0x0A00 to register 30007 and,
   * only if that write was acknowledged, 0x0005 to register 30008.
   */
  method DeviceAddressScenario(tool: Tool) returns (err: Option<Error>)
    requires tool.device.Valid()
    modifies tool.device
    ensures tool.device.Valid()
    ensures PairOutcome(old(tool.device.registers), tool.device.registers, 30007, Ipv4Codec.RegisterPair(0x0A00, 0x0005), err)
    ensures var log, n := tool.device.writes, |old(tool.device.writes)|;
      && n < |log| <= n + 2 && log[..n] == old(tool.device.writes)
      && log[n].register == 30007 && log[n].value == 0x0A00
      && (log[n].Acked() <==> n + 1 < |log|)
      && (log[n].Acked() ==> log[n + 1].register == 30008 && log[n + 1].value == 0x0005)
      && (err.None? <==> log[n].Acked() && log[|log| - 1].Acked())
  {
    DeviceAddressExample();
    err := tool.SetDeviceAddress("10.0.0.5");
  }
}
