/**
 * The MSR query of MSRAccess.h: the `_msrquery` record with its two owned arrays, the
 * operations that allocate, create, clone and execute it, and the getters that address
 * its arrays.
 */
module MsrAccess {
  import opened MsrTypes
  import opened QueryLayout
  import opened Driver

  /** Whether each of the three malloc calls of AllocateQuery succeeds: the record, `_input`, `output`. */
  datatype Malloc = Malloc(record: bool, input: bool, output: bool) {
    predicate Succeeds() {
      record && input && output
    }
  }

  /** The number of valid (zero) statuses in an execution history. */
  function Successes(statuses: seq<uint8>): (n: nat)
    ensures n <= |statuses|
  {
    if statuses == [] then 0
    else Successes(statuses[..|statuses| - 1]) + (if statuses[|statuses| - 1] == 0 then 1 else 0)
  }

  /** The status byte a history leaves in `_result`: the last one, or the sentinel before any execution. */
  function LastStatus(statuses: seq<uint8>): uint8 {
    if statuses == [] then StatusSentinel else statuses[|statuses| - 1]
  }

  /** `_count++` on a uint32_t keeps counting the valid executions modulo 2^32. */
  lemma SampleCountStep(statuses: seq<uint8>, status: uint8)
    ensures ToUint32(Successes(statuses + [status])) ==
            if status == 0 then ToUint32(ToUint32(Successes(statuses)) + 1) else ToUint32(Successes(statuses))
  {
    assert (statuses + [status])[..|statuses|] == statuses;
    var n := Successes(statuses);
    if status == 0 {
      var q := n / U32_LIMIT;
      assert n == q * U32_LIMIT + ToUint32(n);
      assert n + 1 == q * U32_LIMIT + (ToUint32(n) + 1);
    }
  }

  /** The `_msrquery` record. */
  class Query {
    /** The number of cores sampled. */
    var corecount: uint8
    /** The number of registers read per core. */
    var msrs: uint8
    /** `_result`: the status byte of the last execution. */
    var result: uint8
    /** `_res`: reserved. */
    var res: uint8
    /** `_count`: the number of valid executions, modulo 2^32. */
    var count: uint32
    /** The response words: reserved, timestamp counter, then msrs values per core. */
    var output: array<uint64>
    /** `_input`: the request words. */
    var input: array<uint32>
    /** The status bytes of all executions since allocation, oldest first. */
    ghost var statuses: seq<uint8>

    /** `_count` and `_result` agree with the execution history. */
    ghost predicate Valid()
      reads this
    {
      count == ToUint32(Successes(statuses)) && result == LastStatus(statuses)
    }

    /** Never executed: status bytes 0xff, no samples, every output word the sentinel. */
    ghost predicate Unsampled()
      reads this, output
    {
      statuses == [] && result == StatusSentinel && res == StatusSentinel && count == 0 &&
      forall i :: 0 <= i < output.Length ==> output[i] == OutputSentinel
    }

    /**
     * The state CreateMSRQuery leaves: `_input` holds the encoding of `req`, the shape
     * fields are its counts, and `output` was allocated for len + 1 registers per core.
     */
    ghost predicate Holds(req: Request)
      reads this, input, output
    {
      WellSized(req) && corecount == |req.cores| && msrs == |req.regs| &&
      input[..] == EncodeRequest(req) && output.Length == (msrs + 1) * corecount + 2
    }

    /**
     * The successful path of AllocateQuery(cores, regs): both arrays sized and
     * sentinel-filled, both status bytes 0xff, no samples. `corecount` and `msrs`
     * are not set and hold whatever the allocator left.
     */
    constructor (cores: uint32, regs: uint32)
      ensures fresh(input) && fresh(output)
      ensures input.Length == InputWords(cores, regs) && output.Length == OutputWords(cores, regs)
      ensures forall i :: 0 <= i < input.Length ==> input[i] == InputSentinel
      ensures Valid() && Unsampled()
    {
      input := new uint32[InputWords(cores, regs)](_ => InputSentinel);
      output := new uint64[OutputWords(cores, regs)](_ => OutputSentinel);
      result := StatusSentinel;
      res := StatusSentinel;
      count := 0;
      statuses := [];
    }

    /** The tail of PerformMSRQuery: store one execution's status and count it if it is valid. */
    method RecordStatus(status: uint8) returns (ok: bool)
      requires Valid()
      modifies this
      ensures Valid()
      ensures result == status && statuses == old(statuses) + [status]
      ensures count == if status == 0 then ToUint32(old(count) + 1) else old(count)
      ensures ok <==> status == 0
      ensures corecount == old(corecount) && msrs == old(msrs) && res == old(res)
      ensures input == old(input) && output == old(output)
    {
      SampleCountStep(statuses, status);
      result := status;
      statuses := statuses + [status];
      if IsSampleValid(this) {
        count := ToUint32(count + 1);
        ok := true;
      } else {
        ok := false;
      }
    }
  }

  // ---------------------------------------------------------------- getters

  /** GetSampleCount: the number of valid executions so far, modulo 2^32. */
  function GetSampleCount(q: Query): (n: uint32)
    reads q
    ensures q.Valid() ==> n == ToUint32(Successes(q.statuses))
  {
    q.count
  }

  /** IsSampleValid: whether the last execution produced a valid sample (never before the first). */
  function IsSampleValid(q: Query): (valid: bool)
    reads q
    ensures q.Valid() ==> (valid <==> q.statuses != [] && q.statuses[|q.statuses| - 1] == 0)
  {
    q.result == 0
  }

  /** GetTSCFromQuery: the timestamp counter of the response. */
  function GetTSCFromQuery(q: Query): (tsc: uint64)
    reads q, q.output
    requires TscIndex < q.output.Length
    ensures DecodeOutput(q.output[..], q.corecount, q.msrs).Some? ==>
            tsc == DecodeOutput(q.output[..], q.corecount, q.msrs).value.tsc
  {
    q.output[1]
  }

  /**
   * GetMSRValues: the value block of `core` (the source returns a pointer to its first
   * word, at flat index core * msrs + 2).
   */
  function GetMSRValues(q: Query, core: uint32): (values: seq<uint64>)
    reads q, q.output
    requires ValueOffset(core, q.msrs) + q.msrs <= q.output.Length
    ensures |values| == q.msrs
    ensures core < q.corecount && q.corecount * q.msrs + 2 <= q.output.Length ==>
            values == DecodeOutput(q.output[..], q.corecount, q.msrs).value.values[core]
  {
    var start := ValueOffset(core, q.msrs);
    if core < q.corecount && q.corecount * q.msrs + 2 <= q.output.Length then
      ValueBlockDecodes(q.output[..], q.corecount, q.msrs, core);
      q.output[start..start + q.msrs]
    else
      q.output[start..start + q.msrs]
  }

  /** GetMSRRegList: the register list (the source returns a pointer to `_input[2 + corecount]`). */
  function GetMSRRegList(q: Query): (regs: seq<uint32>)
    reads q, q.input
    requires 2 + q.corecount + q.msrs <= q.input.Length
    ensures |regs| == q.msrs
    ensures var d := DecodeRequest(q.input[..]);
            d.Some? && |d.value.cores| == q.corecount && |d.value.regs| == q.msrs ==> regs == d.value.regs
  {
    q.input[2 + q.corecount..2 + q.corecount + q.msrs]
  }

  /** On a created query the register list read back is the one it was created with. */
  lemma RegListRoundTrip(q: Query, req: Request)
    requires q.Holds(req)
    ensures 2 + q.corecount + q.msrs <= q.input.Length
    ensures GetMSRRegList(q) == req.regs
  {
    DecodeEncode(req);
  }

  /**
   * On a created query every core below corecount has its whole value block inside the
   * output array, and the output decodes (so GetMSRValues gives the reference rows).
   */
  lemma ValuesInBounds(q: Query, req: Request, core: uint32)
    requires q.Holds(req) && core < q.corecount
    ensures ValueOffset(core, q.msrs) == core * q.msrs + 2
    ensures ValueOffset(core, q.msrs) + q.msrs <= q.output.Length
    ensures DecodeOutput(q.output[..], q.corecount, q.msrs).Some?
  {
    ValueBlockInBounds(q.corecount, q.msrs, core);
    SizesDoNotWrap(q.corecount, q.msrs + 1);
    MulMonotone(q.msrs, q.msrs + 1, q.corecount);
  }

  // ---------------------------------------------------------------- lifecycle

  /**
   * AllocateQuery: a fresh query with `_input` of cores + msrs + 2 words, every one
   * 0xDDDDDDDD, and `output` of msrs * cores + 2 words, every one all ones (both sizes in
   * uint32_t arithmetic); null, and nothing kept, if any of the three allocations fails.
   */
  method AllocateQuery(cores: uint32, msrs: uint32, heap: Malloc) returns (q: Query?)
    ensures q == null <==> !heap.Succeeds()
    ensures q != null ==> fresh(q) && fresh(q.input) && fresh(q.output)
    ensures q != null ==> q.input.Length == InputWords(cores, msrs) && q.output.Length == OutputWords(cores, msrs)
    ensures q != null ==> forall i :: 0 <= i < q.input.Length ==> q.input[i] == InputSentinel
    ensures q != null ==> q.Valid() && q.Unsampled()
  {
    if !heap.record {
      return null;
    }
    if !heap.input {
      return null;
    }
    if !heap.output {
      return null;
    }
    q := new Query(cores, msrs);
  }

  /**
   * CreateMSRQuery: allocates for len + 1 registers, sets the shape fields and writes the
   * request words. Without a core list the cores are 0 .. corecount - 1.
   */
  method CreateMSRQuery(corelist: array?<uint32>, corecount: uint8, msrlist: array<uint32>, len: uint8, heap: Malloc)
    returns (q: Query?)
    requires corelist != null ==> corecount <= corelist.Length
    requires len <= msrlist.Length
    ensures q == null <==> !heap.Succeeds()
    ensures q != null ==> fresh(q) && fresh(q.input) && fresh(q.output)
    ensures q != null ==> q.Valid() && q.Unsampled()
    ensures q != null ==> q.Holds(Request(RequestedCores(corelist, corecount), msrlist[..len]))
  {
    q := AllocateQuery(corecount, len + 1, heap);
    if q != null {
      SizesDoNotWrap(corecount, len + 1);
      q.corecount := corecount;
      q.msrs := len;
      WriteRequest(q.input, corelist, corecount, msrlist, len);
    }
  }

  /**
   * The body of CreateMSRQuery after allocation: a cursor `p` walks `inp` and writes
   * [corecount][core]*corecount [len][msr]*len [0], one word per step.
   */
  method WriteRequest(inp: array<uint32>, corelist: array?<uint32>, corecount: uint8, msrlist: array<uint32>, len: uint8)
    requires inp.Length == corecount + len + 3
    requires inp != corelist && inp != msrlist
    requires corelist != null ==> corecount <= corelist.Length
    requires len <= msrlist.Length
    modifies inp
    ensures inp[..] == EncodeRequest(Request(RequestedCores(corelist, corecount), msrlist[..len]))
  {
    ghost var cores := RequestedCores(corelist, corecount);
    var p := WriteCoreList(inp, corelist, corecount);
    assert cores == RequestedCores(corelist, corecount);
    p := p + 1;
    inp[p] := len;
    var i := 0;
    while i < len
      invariant 0 <= i <= len && p == corecount + 1 + i
      invariant inp[0] == corecount && inp[1 + corecount] == len
      invariant forall k :: 0 <= k < corecount ==> inp[1 + k] == cores[k]
      invariant forall j :: 0 <= j < i ==> inp[2 + corecount + j] == msrlist[j]
    {
      p := p + 1;
      inp[p] := msrlist[i];
      i := i + 1;
    }
    p := p + 1;
    inp[p] := 0;
    EncodingBySlots(inp[..], Request(cores, msrlist[..len]));
  }

  /** The cores CreateMSRQuery lists: the caller's first corecount, or 0 .. corecount - 1 without a list. */
  function RequestedCores(corelist: array?<uint32>, corecount: uint8): (cores: seq<uint32>)
    reads corelist
    requires corelist != null ==> corecount <= corelist.Length
    ensures |cores| == corecount
  {
    if corelist == null then CoreRange(corecount) else corelist[..corecount]
  }

  /**
   * The first part of the cursor walk: [corecount] then the cores, either generated or
   * copied from `corelist`. Returns the cursor, left on the last word written.
   */
  method WriteCoreList(inp: array<uint32>, corelist: array?<uint32>, corecount: uint8) returns (p: nat)
    requires corecount < inp.Length && inp != corelist
    requires corelist != null ==> corecount <= corelist.Length
    modifies inp
    ensures p == corecount && inp[0] == corecount
    ensures forall k :: 0 <= k < corecount ==> inp[1 + k] == RequestedCores(corelist, corecount)[k]
  {
    ghost var cores := RequestedCores(corelist, corecount);
    p := 0;
    inp[p] := corecount;
    var i := 0;
    if corelist == null {
      while i < corecount
        invariant 0 <= i <= corecount && p == i
        invariant inp[0] == corecount
        invariant forall k :: 0 <= k < i ==> inp[1 + k] == cores[k]
      {
        p := p + 1;
        inp[p] := i;
        i := i + 1;
      }
    } else {
      while i < corecount
        invariant 0 <= i <= corecount && p == i
        invariant inp[0] == corecount
        invariant forall k :: 0 <= k < i ==> inp[1 + k] == cores[k]
      {
        p := p + 1;
        inp[p] := corelist[i];
        i := i + 1;
      }
    }
  }

  /** CreateMSRQueryAllCores: CreateMSRQuery without a core list, for the active processor count cast to a byte. */
  method CreateMSRQueryAllCores(msrlist: array<uint32>, len: uint8, activeProcessors: uint32, heap: Malloc)
    returns (q: Query?)
    requires len <= msrlist.Length
    ensures q == null <==> !heap.Succeeds()
    ensures q != null ==> fresh(q) && fresh(q.input) && fresh(q.output)
    ensures q != null ==> q.Valid() && q.Unsampled()
    ensures q != null ==> q.Holds(Request(CoreRange(ToUint8(activeProcessors)), msrlist[..len]))
  {
    var corecount := ToUint8(activeProcessors);
    q := CreateMSRQuery(null, corecount, msrlist, len, heap);
  }

  /**
   * CloneQuery: a fresh query allocated as AllocateQuery(corecount, msrs + 1) whose
   * `_input` is a copy of the first corecount + msrs + 3 request words, with fresh
   * sentinel output and no samples. It does not set the clone's `corecount` or `msrs`.
   */
  method CloneQuery(q: Query?, heap: Malloc) returns (r: Query?)
    requires q != null ==> q.corecount + q.msrs + 3 <= q.input.Length
    ensures q == null ==> r == null
    ensures q != null ==> (r == null <==> !heap.Succeeds())
    ensures r != null ==> fresh(r) && fresh(r.input) && fresh(r.output)
    ensures r != null ==> r.Valid() && r.Unsampled()
    ensures r != null ==> r.input[..] == q.input[..q.corecount + q.msrs + 3]
    ensures r != null ==> r.output.Length == OutputWords(q.corecount, q.msrs + 1)
    ensures r != null ==> forall req :: q.Holds(req) ==> DecodeRequest(r.input[..]) == Some(req)
  {
    if q == null {
      return null;
    }
    r := AllocateQuery(q.corecount, q.msrs + 1, heap);
    if r != null {
      SizesDoNotWrap(q.corecount, q.msrs + 1);
      var n := q.corecount + q.msrs + 1 + 2;
      forall i | 0 <= i < n {
        r.input[i] := q.input[i];
      }
      r.result := StatusSentinel;
      r.res := StatusSentinel;
      r.count := 0;
      assert r.input[..] == q.input[..n];
      forall req | q.Holds(req)
        ensures DecodeRequest(r.input[..]) == Some(req)
      {
        assert q.input[..n] == q.input[..];
        DecodeEncode(req);
      }
    }
  }

  /**
   * PerformMSRQuery: one driver exchange; `_result` becomes the low byte of readMSRs's
   * return value, and the query counts a sample and reports true exactly when it is 0.
   * A null query reports false.
   */
  method PerformMSRQuery(q: Query?, reply: DriverReply) returns (ok: bool)
    requires q != null ==> q.Valid()
    modifies q, if q != null then {q.output} else {}
    ensures q == null ==> !ok
    ensures q != null ==> q.Valid() && ok == IsSampleValid(q)
    ensures q != null ==> q.result == StatusByte(ReturnCode(reply.transport))
    ensures q != null ==> q.statuses == old(q.statuses) + [q.result]
    ensures q != null ==> q.count == if ok then ToUint32(old(q.count) + 1) else old(q.count)
    ensures q != null ==> q.output == old(q.output) && q.output[..] == Overwrite(old(q.output[..]), reply.written)
    ensures q != null ==>
      q.input == old(q.input) && q.corecount == old(q.corecount) && q.msrs == old(q.msrs) && q.res == old(q.res)
  {
    if q == null {
      return false;
    }
    var ret := ReadMSRs(q.input, q.output, q.corecount * q.msrs, reply);
    ok := q.RecordStatus(StatusByte(ret));
  }

  /**
   * PerformMSRQuery with readMSRs's return value and the status byte as evidently intended:
   * every failed exchange, whatever its error code, is recorded as invalid.
   */
  method PerformMSRQueryChecked(q: Query?, reply: DriverReply) returns (ok: bool)
    requires q != null ==> q.Valid()
    modifies q, if q != null then {q.output} else {}
    ensures q == null ==> !ok
    ensures q != null ==> q.Valid() && ok == IsSampleValid(q)
    ensures q != null ==> (ok <==> reply.transport.Delivered?)
    ensures q != null ==> q.result == CheckedStatusByte(CheckedReturnCode(reply.transport))
    ensures q != null ==> q.statuses == old(q.statuses) + [q.result]
    ensures q != null ==> q.count == if ok then ToUint32(old(q.count) + 1) else old(q.count)
    ensures q != null ==> q.output == old(q.output) && q.output[..] == Overwrite(old(q.output[..]), reply.written)
    ensures q != null ==>
      q.input == old(q.input) && q.corecount == old(q.corecount) && q.msrs == old(q.msrs) && q.res == old(q.res)
  {
    if q == null {
      return false;
    }
    var ret := ReadMSRsChecked(q.input, q.output, q.corecount * q.msrs, reply);
    ok := q.RecordStatus(CheckedStatusByte(ret));
  }

  // ---------------------------------------------------------------- scenarios

  /**
   * Cores [0, 1] and registers [0x10, 0x1B] give the request words [2, 0, 1, 2, 0x10, 0x1B, 0];
   * a delivered exchange writing [0, 12345, 100, 101, 200, 201] gives timestamp 12345 and
   * the value rows [100, 101] and [200, 201], and the sample is valid.
   */
  method TwoCoreScenario() returns (words: seq<uint32>, tsc: uint64, first: seq<uint64>, second: seq<uint64>, valid: bool)
    ensures words == [2, 0, 1, 2, 0x10, 0x1B, 0]
    ensures tsc == 12345 && first == [100, 101] && second == [200, 201] && valid
  {
    var q;
    q, words := CreateTwoCoreQuery();
    tsc, first, second, valid := SampleTwoCoreQuery(q);
  }

  /** The creation half of TwoCoreScenario. */
  method CreateTwoCoreQuery() returns (q: Query, words: seq<uint32>)
    ensures fresh(q) && fresh(q.input) && fresh(q.output)
    ensures q.input[..] == words
    ensures q.Valid() && q.corecount == 2 && q.msrs == 2 && q.output.Length == 8
    ensures words == [2, 0, 1, 2, 0x10, 0x1B, 0]
  {
    var corelist := new uint32[][0, 1];
    var msrlist := new uint32[][0x10, 0x1B];
    var created := CreateMSRQuery(corelist, 2, msrlist, 2, Malloc(true, true, true));
    q := created;
    words := q.input[..];
    assert corelist[..2] == [0, 1] && msrlist[..2] == [0x10, 0x1B];
  }

  /** The execution half of TwoCoreScenario, on a query for two cores and two registers. */
  method SampleTwoCoreQuery(q: Query) returns (tsc: uint64, first: seq<uint64>, second: seq<uint64>, valid: bool)
    requires q.Valid() && q.corecount == 2 && q.msrs == 2 && q.output.Length == 8
    modifies q, q.output
    ensures tsc == 12345 && first == [100, 101] && second == [200, 201] && valid
  {
    var ok := PerformMSRQuery(q, DriverReply(Delivered, [0, 12345, 100, 101, 200, 201]));
    assert q.output[..6] == [0, 12345, 100, 101, 200, 201];
    assert ValueOffset(0, 2) == 2 && ValueOffset(1, 2) == 4;
    tsc := GetTSCFromQuery(q);
    first := GetMSRValues(q, 0);
    assert first == q.output[..6][2..4];
    second := GetMSRValues(q, 1);
    assert second == q.output[..6][4..6];
    valid := IsSampleValid(q);
  }

  /**
   * A failed exchange (error 5) leaves a non-zero status, no sample and an invalid query;
   * one with error 256 is, as written, counted as a valid sample.
   */
  method FailedTransportScenario() returns (okFive: bool, statusFive: uint8, countFive: uint32, ok256: bool, count256: uint32)
    ensures !okFive && statusFive != 0 && countFive == 0
    ensures ok256 && count256 == 1
  {
    var msrlist := new uint32[][0x10];
    var q := CreateMSRQuery(null, 1, msrlist, 1, Malloc(true, true, true));
    okFive := PerformMSRQuery(q, DriverReply(Failed(5), []));
    statusFive, countFive := q.result, GetSampleCount(q);
    FailureReadsAsValid();
    ok256 := PerformMSRQuery(q, DriverReply(Failed(256), []));
    count256 := GetSampleCount(q);
  }
}
