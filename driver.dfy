/**
 * The driver boundary used by PerformMSRQuery: the readMSRs call, whose body is one
 * DeviceIoControl exchange, and the status byte PerformMSRQuery derives from its result.
 * The driver itself is a parameter: what the exchange reports and which words it writes.
 */
module Driver {
  import opened MsrTypes
  import opened QueryLayout

  /** How the DeviceIoControl call ended: delivered, or failed with GetLastError()'s code. */
  datatype Transport = Delivered | Failed(lastError: uint32)

  /** What one exchange does: its transport outcome and the words the driver writes into `output`. */
  datatype DriverReply = DriverReply(transport: Transport, written: seq<uint64>)

  /** The value readMSRs returns: 0 when the call was delivered, otherwise -(int)err. */
  function ReturnCode(t: Transport): (ret: int32)
    ensures ret == 0 <==> t.Delivered? || t.lastError == 0
  {
    match t
    case Delivered => 0
    case Failed(err) => ToInt32(-(ToInt32(err) as int))
  }

  /** A 32-bit two's complement wrap leaves the low byte alone. */
  lemma {:induction false} LowByteSurvivesInt32(x: int)
    ensures ToUint8(ToInt32(x)) == ToUint8(x)
  {
    var w := x % U32_LIMIT;
    assert x == (x / U32_LIMIT) * U32_LIMIT + w;
    assert U32_LIMIT == 0x100_0000 * U8_LIMIT;
    ShiftByMultiple(w, x / U32_LIMIT * 0x100_0000);
    if w >= I32_LIMIT {
      ShiftByMultiple(w - U32_LIMIT, 0x100_0000);
    }
  }

  lemma ShiftByMultiple(x: int, k: int)
    ensures ToUint8(x + k * U8_LIMIT) == ToUint8(x)
  {
  }

  /** The status byte PerformMSRQuery stores in `_result`: the return code cast to uint8_t. */
  function StatusByte(ret: int32): (status: uint8)
    ensures 0 <= ret < U8_LIMIT ==> status == ret
    ensures (ret - status) % U8_LIMIT == 0
  {
    ToUint8(ret)
  }

  /**
   * A failed exchange leaves status 0, the mark of a valid sample, exactly when its error
   * code is a multiple of 256; a delivered one always leaves status 0.
   */
  lemma StatusOfTransport(t: Transport)
    ensures t.Delivered? ==> StatusByte(ReturnCode(t)) == 0
    ensures t.Failed? ==> (StatusByte(ReturnCode(t)) == 0 <==> t.lastError % U8_LIMIT == 0)
  {
    if t.Failed? {
      var err := t.lastError;
      LowByteSurvivesInt32(-(ToInt32(err) as int));
      LowByteSurvivesInt32(err);
      assert ToUint8(-(ToInt32(err) as int)) == 0 <==> ToUint8(ToInt32(err)) == 0;
    }
  }

  /** The source as written: a failed exchange with error code 256 is recorded as a valid sample. */
  lemma FailureReadsAsValid()
    ensures StatusByte(ReturnCode(Failed(256))) == 0
  {
    StatusOfTransport(Failed(256));
  }

  /** The status byte as evidently intended: zero exactly when readMSRs returned zero. */
  function CheckedStatusByte(ret: int32): (status: uint8)
    ensures status == 0 <==> ret == 0
    ensures StatusByte(ret) != 0 ==> status == StatusByte(ret)
  {
    if ret != 0 && StatusByte(ret) == 0 then StatusSentinel else StatusByte(ret)
  }

  /**
   * readMSRs's return value as evidently intended: non-zero for every failed exchange,
   * including one whose GetLastError() code is 0 (then -1), and otherwise as written.
   */
  function CheckedReturnCode(t: Transport): (ret: int32)
    ensures ret == 0 <==> t.Delivered?
    ensures ReturnCode(t) != 0 ==> ret == ReturnCode(t)
  {
    if t.Failed? && ReturnCode(t) == 0 then -1 else ReturnCode(t)
  }

  /** With the checked return code and status byte, exactly the delivered exchanges are valid samples. */
  lemma CheckedStatusOfTransport(t: Transport)
    ensures CheckedStatusByte(CheckedReturnCode(t)) == 0 <==> t.Delivered?
  {
  }

  /** As written, a failed exchange whose error code is 0 returns 0, the value of a delivered one. */
  lemma ZeroErrorReadsAsDelivered()
    ensures ReturnCode(Failed(0)) == ReturnCode(Delivered) == 0
  {
  }

  /** `buffer` after the driver has written `written` over its start, as far as it fits. */
  function Overwrite(buffer: seq<uint64>, written: seq<uint64>): (r: seq<uint64>)
    ensures |r| == |buffer|
    ensures forall i :: 0 <= i < |r| ==> r[i] == if i < |written| then written[i] else buffer[i]
  {
    if |buffer| <= |written| then written[..|buffer|] else written + buffer[|written|..]
  }

  /**
   * readMSRs: one IOCTL_READMULTIPLEMSRS exchange over `list` and `output`. The driver
   * may write any words into `output`; `list` is only read. `count` sizes the byte lengths
   * handed to the driver, which are not modelled.
   */
  method ReadMSRs(list: array<uint32>, output: array<uint64>, count: uint32, reply: DriverReply)
    returns (ret: int32)
    modifies output
    ensures ret == ReturnCode(reply.transport)
    ensures output[..] == Overwrite(old(output[..]), reply.written)
  {
    var n := if |reply.written| < output.Length then |reply.written| else output.Length;
    forall i | 0 <= i < n {
      output[i] := reply.written[i];
    }
    match reply.transport
    case Delivered =>
      ret := 0;
    case Failed(err) =>
      ret := ToInt32(-(ToInt32(err) as int));
  }

  /** readMSRs as evidently intended: the same exchange, returning CheckedReturnCode. */
  method ReadMSRsChecked(list: array<uint32>, output: array<uint64>, count: uint32, reply: DriverReply)
    returns (ret: int32)
    modifies output
    ensures ret == CheckedReturnCode(reply.transport)
    ensures output[..] == Overwrite(old(output[..]), reply.written)
  {
    ret := ReadMSRs(list, output, count, reply);
    if ret == 0 && reply.transport.Failed? {
      ret := -1;
    }
  }
}
