/**
 * The buffer layout of an MSR query, as pure functions over word sequences:
 * the request words in `_input`, the response words in `output`, the sizes that
 * AllocateQuery gives both arrays and the sentinel words it fills them with.
 */
module QueryLayout {
  import opened MsrTypes

  // ---------------------------------------------------------------- request words

  /** A request: the cores to sample and the registers to read on each of them. */
  datatype Request = Request(cores: seq<uint32>, regs: seq<uint32>)

  /** Both counts are held in bytes (`corecount` and `len` are uint8_t). */
  predicate WellSized(req: Request) {
    |req.cores| < U8_LIMIT && |req.regs| < U8_LIMIT
  }

  /** The request words CreateMSRQuery writes: [corecount][core]*corecount [len][msr]*len [0]. */
  function EncodeRequest(req: Request): (words: seq<uint32>)
    requires WellSized(req)
    ensures |words| == |req.cores| + |req.regs| + 3
    ensures words[0] == |req.cores|
    ensures forall i :: 0 <= i < |req.cores| ==> words[1 + i] == req.cores[i]
    ensures words[1 + |req.cores|] == |req.regs|
    ensures forall j :: 0 <= j < |req.regs| ==> words[2 + |req.cores| + j] == req.regs[j]
    ensures words[|words| - 1] == 0
  {
    [|req.cores| as uint32] + req.cores + [|req.regs| as uint32] + req.regs + [0]
  }

  /**
   * Reads a request back out of request words: a core count, that many cores, a register
   * count, that many registers and a zero terminator, with nothing after it.
   */
  function DecodeRequest(words: seq<uint32>): (r: Option<Request>)
    ensures r.Some? ==> WellSized(r.value) && |words| == |r.value.cores| + |r.value.regs| + 3
  {
    if |words| == 0 then None
    else
      var c := words[0];
      if U8_LIMIT <= c || |words| < c + 2 then None
      else
        var l := words[1 + c];
        if U8_LIMIT <= l || |words| != c + l + 3 || words[c + l + 2] != 0 then None
        else Some(Request(words[1..1 + c], words[2 + c..2 + c + l]))
  }

  /** Decoding recovers the core list and the register list of every encoded request. */
  lemma DecodeEncode(req: Request)
    requires WellSized(req)
    ensures DecodeRequest(EncodeRequest(req)) == Some(req)
  {
    var w := EncodeRequest(req);
    var c, l := |req.cores|, |req.regs|;
    assert w[1..1 + c] == req.cores;
    assert w[2 + c..2 + c + l] == req.regs;
  }

  /** Every word sequence that decodes is the encoding of what it decodes to. */
  lemma EncodeDecode(words: seq<uint32>)
    requires DecodeRequest(words).Some?
    ensures EncodeRequest(DecodeRequest(words).value) == words
  {
    EncodingBySlots(words, DecodeRequest(words).value);
  }

  /** The slots EncodeRequest guarantees determine it: a word sequence with those slots is the encoding. */
  lemma EncodingBySlots(words: seq<uint32>, req: Request)
    requires WellSized(req)
    requires |words| == |req.cores| + |req.regs| + 3
    requires words[0] == |req.cores| && words[1 + |req.cores|] == |req.regs| && words[|words| - 1] == 0
    requires forall i :: 0 <= i < |req.cores| ==> words[1 + i] == req.cores[i]
    requires forall j :: 0 <= j < |req.regs| ==> words[2 + |req.cores| + j] == req.regs[j]
    ensures words == EncodeRequest(req)
  {
    var c, l := |req.cores|, |req.regs|;
    assert words[1..1 + c] == req.cores;
    assert words[2 + c..2 + c + l] == req.regs;
    SplitFive(words, 1, 1 + c, 2 + c, 2 + c + l);
  }

  /** A sequence is the concatenation of its slices at a <= b <= c <= d. */
  lemma SplitFive(s: seq<uint32>, a: nat, b: nat, c: nat, d: nat)
    requires a <= b <= c <= d <= |s|
    ensures s == s[..a] + s[a..b] + s[b..c] + s[c..d] + s[d..]
  {
    assert s == s[..a] + s[a..];
    assert s[a..] == s[a..b] + s[b..];
    assert s[b..] == s[b..c] + s[c..];
    assert s[c..] == s[c..d] + s[d..];
  }

  /** The core list 0, 1, ..., n - 1 that CreateMSRQuery generates when the caller passes none. */
  function CoreRange(n: nat): (cores: seq<uint32>)
    requires n <= U32_LIMIT
    ensures |cores| == n
    ensures forall i :: 0 <= i < n ==> cores[i] == i
  {
    if n == 0 then [] else CoreRange(n - 1) + [(n - 1) as uint32]
  }

  // ---------------------------------------------------------------- buffer sizes

  /** Words AllocateQuery(cores, msrs) gives `_input`: cores + msrs + 2, in uint32_t arithmetic. */
  function InputWords(cores: uint32, msrs: uint32): (n: uint32)
    ensures n <= cores + msrs + 2
    ensures cores + msrs + 2 < U32_LIMIT ==> n == cores + msrs + 2
  {
    ToUint32(cores + msrs + 2)
  }

  /** Words AllocateQuery(cores, msrs) gives `output`: msrs * cores + 2, in uint32_t arithmetic. */
  function OutputWords(cores: uint32, msrs: uint32): (n: uint32)
    ensures n <= msrs * cores + 2
    ensures msrs * cores + 2 < U32_LIMIT ==> n == msrs * cores + 2
  {
    ToUint32(msrs * cores + 2)
  }

  /** For the arguments CreateMSRQuery and CloneQuery pass (a byte and a byte plus one) nothing wraps. */
  lemma SizesDoNotWrap(cores: uint32, msrs: uint32)
    requires cores < U8_LIMIT && msrs <= U8_LIMIT
    ensures InputWords(cores, msrs) == cores + msrs + 2
    ensures OutputWords(cores, msrs) == msrs * cores + 2
  {
    MulMonotone(msrs, U8_LIMIT, cores);
    MulMonotone(cores, U8_LIMIT, U8_LIMIT);
    ToUint32InRange(cores + msrs + 2);
    ToUint32InRange(msrs * cores + 2);
  }

  /** AllocateQuery called directly with large counts wraps: one core and 2^32 - 2 registers get no output words. */
  lemma OutputSizeWraps()
    ensures OutputWords(1, U32_LIMIT - 2) == 0
    ensures InputWords(1, U32_LIMIT - 2) == 1
  {
  }

  // ---------------------------------------------------------------- sentinels

  /** The unsigned value of `width` bytes that all hold `b`, which is what memset leaves in a word. */
  function ByteFill(b: uint8, width: nat): nat {
    if width == 0 then 0 else ByteFill(b, width - 1) * U8_LIMIT + b
  }

  /** Every `_input` word after memset(0xdd). */
  const InputSentinel: uint32 := 0xDDDD_DDDD
  /** Every `output` word after memset(0xff). */
  const OutputSentinel: uint64 := 0xFFFF_FFFF_FFFF_FFFF
  /** `_result` and `_res` of a query that has not been executed. */
  const StatusSentinel: uint8 := 0xff

  /** The two sentinel words are what memset of 0xdd over 4 bytes and of 0xff over 8 bytes leaves. */
  lemma SentinelsAreByteFills()
    ensures ByteFill(0xdd, 4) == InputSentinel
    ensures ByteFill(0xff, 8) == OutputSentinel
  {
    assert ByteFill(0xdd, 2) == 0xDDDD;
    assert ByteFill(0xdd, 4) == 0xDDDD_DDDD;
    assert ByteFill(0xff, 4) == 0xFFFF_FFFF;
    assert ByteFill(0xff, 8) == 0xFFFF_FFFF_FFFF_FFFF;
  }

  // ---------------------------------------------------------------- response words

  /** Index of the timestamp counter in `output` (index 0 is reserved). */
  const TscIndex: nat := 1

  /** The flat index GetMSRValues computes for a core: core * msrs + 2, in uint32_t arithmetic. */
  function ValueOffset(core: uint32, msrs: uint8): (offset: uint32)
    ensures offset <= core * msrs + 2
    ensures core * msrs + 2 < U32_LIMIT ==> offset == core * msrs + 2
  {
    ToUint32(core * msrs + 2)
  }

  /** A decoded response: the timestamp counter and, per core, the values of its registers. */
  datatype Sample = Sample(tsc: uint64, values: seq<seq<uint64>>)

  /** Splits `block` into `cores` consecutive rows of `msrs` values each. */
  function Rows(block: seq<uint64>, cores: nat, msrs: nat): (rows: seq<seq<uint64>>)
    requires cores * msrs <= |block|
    ensures |rows| == cores
    ensures forall c :: 0 <= c < cores ==> |rows[c]| == msrs
    decreases cores
  {
    if cores == 0 then []
    else
      assert (cores - 1) * msrs + msrs == cores * msrs;
      [block[..msrs]] + Rows(block[msrs..], cores - 1, msrs)
  }

  /** Row `c` of the split holds the words starting at flat index c * msrs. */
  lemma {:induction false} RowsAt(block: seq<uint64>, cores: nat, msrs: nat, c: nat, r: nat)
    requires cores * msrs <= |block|
    requires c < cores && r < msrs
    ensures c * msrs + r < |block|
    ensures Rows(block, cores, msrs)[c][r] == block[c * msrs + r]
    decreases cores
  {
    var n := (cores - 1) * msrs;
    assert n + msrs <= |block| by { SuccessorProduct(cores - 1, msrs); }
    var rest := block[msrs..];
    assert Rows(block, cores, msrs) == [block[..msrs]] + Rows(rest, cores - 1, msrs);
    if c > 0 {
      var m := (c - 1) * msrs;
      assert m + msrs == c * msrs by { SuccessorProduct(c - 1, msrs); }
      RowsAt(rest, cores - 1, msrs, c - 1, r);
      assert rest[m + r] == block[c * msrs + r];
    }
  }

  lemma SuccessorProduct(a: nat, b: nat)
    ensures (a + 1) * b == a * b + b
  {
  }

  /** The reference decoding of a response for `cores` cores and `msrs` registers per core. */
  function DecodeOutput(out: seq<uint64>, cores: nat, msrs: nat): (s: Option<Sample>)
    ensures s.Some? <==> cores * msrs + 2 <= |out|
    ensures s.Some? ==> |s.value.values| == cores
  {
    if |out| < cores * msrs + 2 then None
    else Some(Sample(out[TscIndex], Rows(out[2..], cores, msrs)))
  }

  /** The addressing formula: value (core, reg) of a response sits at flat index core * msrs + 2 + reg. */
  lemma DecodeOutputAt(out: seq<uint64>, cores: nat, msrs: nat, core: nat, reg: nat)
    requires cores * msrs + 2 <= |out|
    requires core < cores && reg < msrs
    ensures core * msrs + 2 + reg < |out|
    ensures DecodeOutput(out, cores, msrs).value.values[core][reg] == out[core * msrs + 2 + reg]
  {
    RowsAt(out[2..], cores, msrs, core, reg);
  }

  /**
   * For a created query (`corecount` cores, `len` registers, output allocated with len + 1
   * registers) the flat index GetMSRValues computes does not wrap, and the value block of
   * every core lies inside the output array.
   */
  lemma ValueBlockInBounds(corecount: uint8, len: uint8, core: uint32)
    requires core < corecount
    ensures ValueOffset(core, len) == core * len + 2
    ensures ValueOffset(core, len) + len <= OutputWords(corecount, len + 1)
  {
    BlockEnd(corecount, len, core);
    ToUint32InRange(core * len + 2);
    ToUint32InRange((len + 1) * corecount + 2);
  }

  /** Within a response, the value block GetMSRValues addresses is the row the reference decoding gives the core. */
  lemma ValueBlockDecodes(out: seq<uint64>, cores: uint8, msrs: uint8, core: uint32)
    requires core < cores && cores * msrs + 2 <= |out|
    ensures ValueOffset(core, msrs) == core * msrs + 2
    ensures ValueOffset(core, msrs) + msrs <= |out|
    ensures out[ValueOffset(core, msrs)..ValueOffset(core, msrs) + msrs]
            == DecodeOutput(out, cores, msrs).value.values[core]
  {
    ValueBlockInBounds(cores, msrs, core);
    var start := core * msrs + 2;
    assert start + msrs <= |out| by {
      MulMonotone(core + 1, cores, msrs);
      SuccessorProduct(core, msrs);
    }
    var row := DecodeOutput(out, cores, msrs).value.values[core];
    forall r | 0 <= r < msrs
      ensures out[start + r] == row[r]
    {
      DecodeOutputAt(out, cores, msrs, core, r);
    }
  }

  /** core * len + len <= (len + 1) * corecount whenever core < corecount. */
  lemma BlockEnd(corecount: nat, len: nat, core: nat)
    requires core < corecount < U8_LIMIT && len < U8_LIMIT
    ensures core * len + len <= (len + 1) * corecount < U32_LIMIT - 2
  {
    MulMonotone(core + 1, corecount, len);
    MulMonotone(len, len + 1, corecount);
    MulMonotone(corecount, U8_LIMIT, len + 1);
    MulMonotone(len + 1, U8_LIMIT, U8_LIMIT);
  }

  lemma MulMonotone(a: nat, b: nat, c: nat)
    requires a <= b
    ensures a * c <= b * c
  {
  }
}
