/**
 * The device's holding registers as seen through the transport: a read of a
 * register range and single-register writes, either of which can fail in
 * transit. Every write request is logged with its outcome. An acknowledged
 * write was applied by the device; a write that reported an error may or may
 * not have been applied (the request may have been lost, or only its response).
 */
module RegisterSpace {
  import opened Wrappers
  import opened Words

  /** How a write request ended: acknowledged, or failed with the register written or not. */
  datatype Outcome = Acknowledged | Failed(applied: bool)

  /** One single-register write request and how it ended. */
  datatype WriteAttempt = WriteAttempt(register: Word, value: Word, outcome: Outcome) {
    /** The client saw the write succeed. */
    predicate Acked() {
      outcome.Acknowledged?
    }

    /** The device's register holds the value after the request. */
    predicate Applied() {
      outcome.Acknowledged? || outcome.applied
    }
  }

  /** Register contents after applying the applied writes of `log`, in order. */
  function Replay(regs: seq<Word>, log: seq<WriteAttempt>): (r: seq<Word>)
    requires |regs| == AddressSpaceSize
    ensures |r| == AddressSpaceSize
    decreases |log|
  {
    if log == [] then regs
    else
      var before := Replay(regs, log[..|log| - 1]);
      var w := log[|log| - 1];
      if w.Applied() then before[w.register := w.value] else before
  }

  /** Replaying a single write changes its register exactly when the device applied it; an acknowledged write always was. */
  lemma ReplayOne(regs: seq<Word>, w: WriteAttempt)
    requires |regs| == AddressSpaceSize
    ensures w.Acked() ==> Replay(regs, [w]) == regs[w.register := w.value]
    ensures Replay(regs, [w]) == if w.Applied() then regs[w.register := w.value] else regs
  {
    assert [w][..0] == [];
  }

  /** Replaying a log in two parts is replaying it whole. */
  lemma {:induction false} ReplayAppend(regs: seq<Word>, a: seq<WriteAttempt>, b: seq<WriteAttempt>)
    requires |regs| == AddressSpaceSize
    ensures Replay(regs, a + b) == Replay(Replay(regs, a), b)
    decreases |b|
  {
    if b != [] {
      assert (a + b)[..|a + b| - 1] == a + b[..|b| - 1];
      ReplayAppend(regs, a, b[..|b| - 1]);
    } else {
      assert a + b == a;
    }
  }

  class Device {
    /** Current register contents, indexed by register number. */
    var registers: seq<Word>
    /** Every write request made so far, in order. */
    var writes: seq<WriteAttempt>
    /** Register contents before the first logged write. */
    ghost var initial: seq<Word>

    ghost predicate Valid()
      reads this
    {
      |initial| == AddressSpaceSize && registers == Replay(initial, writes)
    }

    constructor (contents: seq<Word>)
      requires |contents| == AddressSpaceSize
      ensures Valid() && initial == contents && registers == contents && writes == []
    {
      registers, writes, initial := contents, [], contents;
    }

    /**
     * Write one register (function code 0x06); `ok` is false when the request
     * failed in transit, in which case the device may or may not have applied it.
     */
    method WriteSingleRegister(register: Word, value: Word) returns (ok: bool)
      requires Valid()
      modifies this
      ensures Valid() && initial == old(initial)
      ensures |writes| == |old(writes)| + 1 && writes[..|old(writes)|] == old(writes)
      ensures var w := writes[|writes| - 1];
        w.register == register && w.value == value && (w.Acked() <==> ok)
      ensures registers == if writes[|writes| - 1].Applied() then old(registers)[register := value] else old(registers)
    {
      ok := *;
      var applied: bool := *;
      var w := WriteAttempt(register, value, if ok then Acknowledged else Failed(applied));
      writes := writes + [w];
      assert writes[..|writes| - 1] == old(writes);
      if w.Applied() {
        registers := registers[register := value];
      }
    }

    /**
     * Read `quantity` registers from `start` (function code 0x03) as bytes, high
     * byte first; `None` when the request failed in transit or the range leaves
     * the register space. A response of the full length, two bytes per
     * register, carries the registers; a response of any other length is
     * passed on as it arrived.
     */
    method ReadHoldingRegisters(start: Word, quantity: Word) returns (r: Option<seq<Byte>>)
      requires Valid()
      ensures r.Some? ==> start + quantity <= AddressSpaceSize
      ensures r.Some? && |r.value| == 2 * quantity ==> r.value == WordsToBytes(registers[start .. start + quantity])
    {
      var delivered: bool := *;
      if delivered && start + quantity <= AddressSpaceSize {
        var response: seq<Byte> := *;
        if |response| == 2 * quantity {
          response := WordsToBytes(registers[start .. start + quantity]);
        }
        r := Some(response);
      } else {
        r := None;
      }
    }
  }
}
