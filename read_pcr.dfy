/**
 * The driver of readpcr.cpp (`main`): open a TBS context, fill in the
 * TPM_PCRRead request, and for each register 0..23 submit it, then print the
 * digest of every register whose submission succeeded.
 *
 * The TBS transport is not modelled as a service: what each call did is an
 * input. For submission i, `outcomes[i]` gives the TBS result code and the
 * bytes the transport wrote at the start of the reply buffer. The reply buffer
 * is a local array allocated once and overwritten by every submission. Its
 * initial contents are the input `stale`: in the program the three `BE_uint`
 * header fields start at zero (their default constructor) and only
 * `pcr_value` is indeterminate; letting all 30 bytes vary over-approximates
 * that, and the header bytes are never read.
 */
module PcrReader {
  import opened Options
  import opened BigEndianValue
  import opened PcrCodec
  import opened PcrFormat

  /** The PCR registers of a TPM 1.2 that the loop reads: indices 0 to 23. */
  const PcrCount: nat := 24
  /** `TBS_SUCCESS`. */
  const TbsSuccess: bv32 := 0

  /** What one `Tbsip_Submit_Command` call did: its TBS result and the bytes it wrote into the reply buffer. */
  datatype Outcome = Outcome(status: bv32, written: seq<bv8>)

  /** What the program hands to one `Tbsip_Submit_Command` call: the command bytes and the reply capacity. */
  datatype Submission = Submission(command: seq<bv8>, replyCapacity: nat)

  /** The messages `logResult` prints; each carries the failing TBS result code. */
  datatype Diagnostic =
    | CannotCreateContext(code: bv32)
    | ReadFailed(index: nat, code: bv32)
    | CannotCloseContext(code: bv32)

  /** What one run of the program produces. */
  datatype RunResult = RunResult(
    exitCode: int,
    contextCloses: nat,
    submissions: seq<Submission>,
    lines: seq<string>,
    diagnostics: seq<Diagnostic>)

  /** The transport never writes beyond the capacity it was given. */
  predicate FitsReplyBuffer(outcomes: seq<Outcome>)
  {
    forall k :: 0 <= k < |outcomes| ==> |outcomes[k].written| <= ReplySize
  }

  // ---------------------------------------------------------------------------
  // Specification of the loop

  /** The request for register `i`: tag 0xC1, size 14, ordinal 21, index `i`. */
  function CommandFor(i: nat): (c: ReadPcrCommand)
    requires i < PcrCount
    ensures c.pcrIndex.Native() == i as bv32
  {
    ReadPcrCommand(FromNative16(TagRquCommand), FromNative32(CommandSize as bv32),
                   FromNative32(OrdinalPcrRead), FromNative32(i as bv32))
  }

  /** The populated request reads natively as tag 0xC1, size 14, ordinal 21 and index `i`. */
  lemma CommandForFields(i: nat)
    requires i < PcrCount
    ensures var c := CommandFor(i);
      && c.tagRqu.Native() == TagRquCommand && c.size.Native() as int == CommandSize
      && c.commandCode.Native() == OrdinalPcrRead && c.pcrIndex.Native() as int == i
  {
  }

  /** The first `n` submissions the loop makes: request i, with the full reply capacity. */
  function Submissions(n: nat): (r: seq<Submission>)
    requires n <= PcrCount
    ensures |r| == n
  {
    if n == 0 then [] else Submissions(n - 1) + [Submission(CommandImage(CommandFor(n - 1)), ReplySize)]
  }

  /** The reply buffer after the transport wrote `w` at its start. */
  function Overwrite(buf: seq<bv8>, w: seq<bv8>): (r: seq<bv8>)
    requires |w| <= |buf|
    ensures |r| == |buf|
  {
    w + buf[|w|..]
  }

  /** The reply buffer after the first `n` submissions. */
  function BufferAfter(stale: seq<bv8>, outcomes: seq<Outcome>, n: nat): (buf: seq<bv8>)
    requires |stale| == ReplySize && n <= |outcomes| && FitsReplyBuffer(outcomes)
    ensures |buf| == ReplySize
  {
    if n == 0 then stale else Overwrite(BufferAfter(stale, outcomes, n - 1), outcomes[n - 1].written)
  }

  /** The `pcr_value` field the program reads right after submission `i`. */
  function DigestAt(stale: seq<bv8>, outcomes: seq<Outcome>, i: nat): (d: seq<bv8>)
    requires |stale| == ReplySize && i < |outcomes| && FitsReplyBuffer(outcomes)
    ensures |d| == DigestSize
  {
    ReplyFromImage(BufferAfter(stale, outcomes, i + 1)).pcrValue
  }

  /** The lines printed for the first `n` submissions: one per success, none per failure. */
  function Lines(stale: seq<bv8>, outcomes: seq<Outcome>, n: nat): (r: seq<string>)
    requires |stale| == ReplySize && n <= |outcomes| && FitsReplyBuffer(outcomes)
    ensures |r| <= n
  {
    if n == 0 then []
    else
      var earlier := Lines(stale, outcomes, n - 1);
      if outcomes[n - 1].status == TbsSuccess then earlier + [PcrLine(n - 1, DigestAt(stale, outcomes, n - 1))]
      else earlier
  }

  /** The diagnostics printed for the first `n` submissions: one per failure. */
  function ReadDiagnostics(outcomes: seq<Outcome>, n: nat): (r: seq<Diagnostic>)
    requires n <= |outcomes|
    ensures |r| <= n
  {
    if n == 0 then []
    else
      var earlier := ReadDiagnostics(outcomes, n - 1);
      if outcomes[n - 1].status != TbsSuccess then earlier + [ReadFailed(n - 1, outcomes[n - 1].status)]
      else earlier
  }

  /** The indices among the first `n` whose submission succeeded, in increasing order. */
  function Successes(outcomes: seq<Outcome>, n: nat): seq<nat>
    requires n <= |outcomes|
  {
    if n == 0 then []
    else Successes(outcomes, n - 1) + (if outcomes[n - 1].status == TbsSuccess then [n - 1] else [])
  }

  /** Once tag, size and ordinal are set, assigning `pcr_index` gives the request for that register. */
  lemma PopulatedCommand(cmd: ReadPcrCommand, i: nat)
    requires i < PcrCount
    requires cmd.tagRqu == FromNative16(TagRquCommand) && cmd.size == FromNative32(CommandSize as bv32)
    requires cmd.commandCode == FromNative32(OrdinalPcrRead)
    ensures cmd.(pcrIndex := cmd.pcrIndex.Assign(i as bv32)) == CommandFor(i)
  {
  }

  // ---------------------------------------------------------------------------
  // What the loop promises

  /**
   * The request for register i is exactly 14 bytes: tag 0x00C1, then a size
   * field that reads back as the length of the request, ordinal 21 (bytes
   * 00 00 00 15) and the index i, each big-endian with no padding; it decodes
   * back to the request it came from.
   */
  lemma CommandLayout(i: nat)
    requires i < PcrCount
    ensures var b := CommandImage(CommandFor(i));
      && |b| == CommandSize == 14
      && b[0..2] == [0x00, 0xC1]
      && FromBE32(b[2..6]) as int == |b|
      && b[6..10] == [0x00, 0x00, 0x00, 0x15]
      && FromBE32(b[10..14]) as int == i
      && DecodeCommand(b) == Some(CommandFor(i))
  {
    var c := CommandFor(i);
    var b := CommandImage(c);
    CommandImageIsWire(c);
    DecodeEncodeCommand(c);
    assert b[0..2] == BE16(TagRquCommand);
    assert b[2..6] == BE32(CommandSize as bv32);
    assert b[6..10] == BE32(OrdinalPcrRead);
    assert b[10..14] == BE32(i as bv32);
    BE32RoundTrip(CommandSize as bv32, []);
    BE32RoundTrip(i as bv32, []);
  }

  /**
   * The loop submits exactly one request per register, for indices 0, 1, ...
   * in increasing order, each with the full reply capacity.
   */
  lemma {:induction false} SubmissionsInOrder(n: nat)
    requires n <= PcrCount
    ensures |Submissions(n)| == n
    ensures forall i :: 0 <= i < n ==> Submissions(n)[i] == Submission(CommandImage(CommandFor(i)), ReplySize)
  {
    if n > 0 {
      SubmissionsInOrder(n - 1);
    }
  }

  /** The digest field of the reply buffer: 20 bytes at offset 10, inside the 30-byte capacity. */
  lemma DigestField(buf: seq<bv8>)
    requires |buf| == ReplySize
    ensures ReplySize == 30 && DigestOffset == 10 && DigestOffset + DigestSize == ReplySize
    ensures ReplyFromImage(buf).pcrValue == buf[10..30]
    ensures DecodeReply(buf).Some? && DecodeReply(buf).value.pcrValue == buf[10..30]
  {
    ReplyImageIsWire(buf);
  }

  /** `Successes` lists exactly the indices whose submission succeeded, strictly increasing. */
  lemma {:induction false} SuccessesExactly(outcomes: seq<Outcome>, n: nat)
    requires n <= |outcomes|
    ensures forall j :: 0 <= j < |Successes(outcomes, n)| ==>
      Successes(outcomes, n)[j] < n && outcomes[Successes(outcomes, n)[j]].status == TbsSuccess
    ensures forall i :: 0 <= i < n && outcomes[i].status == TbsSuccess ==> i in Successes(outcomes, n)
    ensures forall j, k :: 0 <= j < k < |Successes(outcomes, n)| ==> Successes(outcomes, n)[j] < Successes(outcomes, n)[k]
  {
    if n > 0 {
      SuccessesExactly(outcomes, n - 1);
    }
  }

  /**
   * The printed lines are, in order, one line per successful index, each
   * carrying the digest the reply buffer held right after that submission.
   */
  lemma {:induction false} LinesAreSuccesses(stale: seq<bv8>, outcomes: seq<Outcome>, n: nat)
    requires |stale| == ReplySize && n <= |outcomes| && FitsReplyBuffer(outcomes)
    ensures |Lines(stale, outcomes, n)| == |Successes(outcomes, n)|
    ensures forall j :: 0 <= j < |Successes(outcomes, n)| ==>
      Successes(outcomes, n)[j] < n &&
      Lines(stale, outcomes, n)[j] == PcrLine(Successes(outcomes, n)[j], DigestAt(stale, outcomes, Successes(outcomes, n)[j]))
  {
    SuccessesExactly(outcomes, n);
    if n > 0 {
      LinesAreSuccesses(stale, outcomes, n - 1);
      SuccessesExactly(outcomes, n - 1);
    }
  }

  /**
   * There is a line for register i exactly when submission i succeeded: a
   * failure never stops the loop and only drops its own line.
   */
  lemma LineForIndexIffSuccess(stale: seq<bv8>, outcomes: seq<Outcome>, i: nat)
    requires |outcomes| == PcrCount && FitsReplyBuffer(outcomes) && |stale| == ReplySize && i < PcrCount
    ensures (exists j :: 0 <= j < |Lines(stale, outcomes, PcrCount)|
               && ParsePcrLine(Lines(stale, outcomes, PcrCount)[j]) == Some(LineFields(i, DigestAt(stale, outcomes, i))))
            <==> outcomes[i].status == TbsSuccess
    ensures (exists j :: 0 <= j < |Lines(stale, outcomes, PcrCount)|
               && ParsePcrLine(Lines(stale, outcomes, PcrCount)[j]).Some?
               && ParsePcrLine(Lines(stale, outcomes, PcrCount)[j]).value.index == i)
            <==> outcomes[i].status == TbsSuccess
  {
    var lines, succ := Lines(stale, outcomes, PcrCount), Successes(outcomes, PcrCount);
    LinesAreSuccesses(stale, outcomes, PcrCount);
    SuccessesExactly(outcomes, PcrCount);
    forall j | 0 <= j < |lines|
      ensures ParsePcrLine(lines[j]) == Some(LineFields(succ[j], DigestAt(stale, outcomes, succ[j])))
    {
      PcrLineLayout(succ[j], DigestAt(stale, outcomes, succ[j]));
    }
    if outcomes[i].status == TbsSuccess {
      var j :| 0 <= j < |succ| && succ[j] == i;
      assert ParsePcrLine(lines[j]) == Some(LineFields(i, DigestAt(stale, outcomes, i)));
    }
  }

  /** When the transport fills the whole buffer, the digest read is the one in that reply. */
  lemma FullReplyDigest(stale: seq<bv8>, outcomes: seq<Outcome>, i: nat)
    requires |stale| == ReplySize && i < |outcomes| && FitsReplyBuffer(outcomes)
    requires |outcomes[i].written| == ReplySize
    ensures DigestAt(stale, outcomes, i) == outcomes[i].written[DigestOffset..ReplySize]
    ensures DigestAt(stale, outcomes, i) == DecodeReply(outcomes[i].written).value.pcrValue
  {
    assert BufferAfter(stale, outcomes, i + 1) == outcomes[i].written;
  }

  /**
   * The reply length is never checked: when the transport writes no more than
   * the header, the digest printed is the one left in the buffer from the
   * previous submission (or the buffer's initial contents).
   */
  lemma ShortReplyKeepsStaleDigest(stale: seq<bv8>, outcomes: seq<Outcome>, i: nat)
    requires |stale| == ReplySize && i < |outcomes| && FitsReplyBuffer(outcomes)
    requires |outcomes[i].written| <= DigestOffset
    ensures DigestAt(stale, outcomes, i) == if i == 0 then stale[DigestOffset..ReplySize] else DigestAt(stale, outcomes, i - 1)
  {
    var before := BufferAfter(stale, outcomes, i);
    var after := BufferAfter(stale, outcomes, i + 1);
    assert after[DigestOffset..ReplySize] == before[DigestOffset..ReplySize];
  }

  /** Every diagnostic names a failed index and its code, and every failed index has one. */
  lemma {:induction false} DiagnosticsAreFailures(outcomes: seq<Outcome>, n: nat)
    requires n <= |outcomes|
    ensures forall d :: d in ReadDiagnostics(outcomes, n) ==>
      d.ReadFailed? && d.index < n && d.code == outcomes[d.index].status != TbsSuccess
    ensures forall i :: 0 <= i < n && outcomes[i].status != TbsSuccess ==>
      ReadFailed(i, outcomes[i].status) in ReadDiagnostics(outcomes, n)
    ensures |ReadDiagnostics(outcomes, n)| + |Successes(outcomes, n)| == n
  {
    if n > 0 {
      DiagnosticsAreFailures(outcomes, n - 1);
    }
  }

  /** When every submission succeeds with a full reply, there are 24 lines, "PCR00" to "PCR23", in order. */
  lemma AllSucceed(stale: seq<bv8>, outcomes: seq<Outcome>)
    requires |outcomes| == PcrCount && FitsReplyBuffer(outcomes) && |stale| == ReplySize
    requires forall i :: 0 <= i < PcrCount ==> outcomes[i].status == TbsSuccess && |outcomes[i].written| == ReplySize
    ensures |Lines(stale, outcomes, PcrCount)| == PcrCount
    ensures forall i :: 0 <= i < PcrCount ==>
      Lines(stale, outcomes, PcrCount)[i] == PcrLine(i, outcomes[i].written[DigestOffset..ReplySize])
    ensures ReadDiagnostics(outcomes, PcrCount) == []
  {
    AllSucceedUpTo(outcomes, PcrCount);
    LinesAreSuccesses(stale, outcomes, PcrCount);
    DiagnosticsAreFailures(outcomes, PcrCount);
    forall i | 0 <= i < PcrCount
      ensures Lines(stale, outcomes, PcrCount)[i] == PcrLine(i, outcomes[i].written[DigestOffset..ReplySize])
    {
      FullReplyDigest(stale, outcomes, i);
    }
  }

  /** The induction behind `AllSucceed`: with no failure, the successful indices are 0, 1, ..., n - 1. */
  lemma {:induction false} AllSucceedUpTo(outcomes: seq<Outcome>, n: nat)
    requires n <= |outcomes|
    requires forall i :: 0 <= i < |outcomes| ==> outcomes[i].status == TbsSuccess
    ensures |Successes(outcomes, n)| == n
    ensures forall i :: 0 <= i < n ==> Successes(outcomes, n)[i] == i
  {
    if n > 0 {
      AllSucceedUpTo(outcomes, n - 1);
    }
  }

  /**
   * When exactly one submission `f` fails, the run prints 23 lines, none of
   * them for `f`, and exactly one diagnostic, naming `f`.
   */
  lemma OneFailure(stale: seq<bv8>, outcomes: seq<Outcome>, f: nat)
    requires |outcomes| == PcrCount && FitsReplyBuffer(outcomes) && |stale| == ReplySize && f < PcrCount
    requires forall i :: 0 <= i < PcrCount ==> (outcomes[i].status != TbsSuccess <==> i == f)
    ensures |Lines(stale, outcomes, PcrCount)| == PcrCount - 1
    ensures ReadDiagnostics(outcomes, PcrCount) == [ReadFailed(f, outcomes[f].status)]
    ensures forall j :: 0 <= j < |Lines(stale, outcomes, PcrCount)| ==>
      ParsePcrLine(Lines(stale, outcomes, PcrCount)[j]).Some? &&
      ParsePcrLine(Lines(stale, outcomes, PcrCount)[j]).value.index != f
  {
    OneFailureUpTo(outcomes, f, PcrCount);
    DiagnosticsAreFailures(outcomes, PcrCount);
    LinesAreSuccesses(stale, outcomes, PcrCount);
    SuccessesExactly(outcomes, PcrCount);
    var lines, succ := Lines(stale, outcomes, PcrCount), Successes(outcomes, PcrCount);
    forall j | 0 <= j < |lines|
      ensures ParsePcrLine(lines[j]).Some? && ParsePcrLine(lines[j]).value.index != f
    {
      PcrLineLayout(succ[j], DigestAt(stale, outcomes, succ[j]));
    }
  }

  /** The induction behind `OneFailure`. */
  lemma {:induction false} OneFailureUpTo(outcomes: seq<Outcome>, f: nat, n: nat)
    requires n <= |outcomes| && f < |outcomes|
    requires forall i :: 0 <= i < |outcomes| ==> (outcomes[i].status != TbsSuccess <==> i == f)
    ensures ReadDiagnostics(outcomes, n) == if f < n then [ReadFailed(f, outcomes[f].status)] else []
  {
    if n > 0 {
      OneFailureUpTo(outcomes, f, n - 1);
    }
  }

  // ---------------------------------------------------------------------------
  // The program

  /** `Tbsip_Submit_Command` writing its reply into the buffer: only the first `|w|` bytes change. */
  method TransportWrite(reply: array<bv8>, w: seq<bv8>)
    requires |w| <= reply.Length
    modifies reply
    ensures reply[..] == Overwrite(old(reply[..]), w)
  {
    forall k | 0 <= k < |w| {
      reply[k] := w[k];
    }
    assert reply[..] == w + old(reply[..])[|w|..];
  }

  /**
   * The printing part of the loop body (lines 111-121): "PCR", the index as
   * `%02d`, a space, then for each of the 20 bytes of `pcr_value` a space and
   * the byte as `%02X`. The reply buffer is read as it stands.
   */
  method FormatLine(index: nat, reply: array<bv8>) returns (line: string)
    requires reply.Length == ReplySize
    ensures line == PcrLine(index, ReplyFromImage(reply[..]).pcrValue)
  {
    line := "PCR" + Pad2(index) + " ";
    var k := 0;
    while k < DigestSize
      invariant 0 <= k <= DigestSize
      invariant line == "PCR" + Pad2(index) + " " + HexBytes(reply[DigestOffset..DigestOffset + k])
    {
      assert reply[DigestOffset..DigestOffset + k + 1][..k] == reply[DigestOffset..DigestOffset + k];
      line := line + " " + Hex2(reply[DigestOffset + k]);
      k := k + 1;
    }
  }

  /**
   * The loop of `main` (lines 94-123): fill in the request, then for i = 0..23
   * set `pcr_index`, reset `replySize`, submit, and on success format the line.
   * A failed submission only skips that index's line.
   */
  method ReadRegisters(outcomes: seq<Outcome>, stale: seq<bv8>)
    returns (submissions: seq<Submission>, lines: seq<string>, diagnostics: seq<Diagnostic>)
    requires |outcomes| == PcrCount && FitsReplyBuffer(outcomes) && |stale| == ReplySize
    ensures submissions == Submissions(PcrCount)
    ensures lines == Lines(stale, outcomes, PcrCount)
    ensures diagnostics == ReadDiagnostics(outcomes, PcrCount)
  {
    var cmd := ReadPcrCommand(Default16(), Default32(), Default32(), Default32());
    var reply := new bv8[ReplySize](k requires 0 <= k < ReplySize => stale[k]);
    cmd := cmd.(tagRqu := cmd.tagRqu.Assign(TagRquCommand));
    cmd := cmd.(size := cmd.size.Assign(CommandSize as bv32));
    cmd := cmd.(commandCode := cmd.commandCode.Assign(OrdinalPcrRead));
    submissions, lines, diagnostics := [], [], [];
    var i := 0;
    while i < PcrCount
      invariant 0 <= i <= PcrCount
      invariant cmd.tagRqu == FromNative16(TagRquCommand) && cmd.size == FromNative32(CommandSize as bv32)
      invariant cmd.commandCode == FromNative32(OrdinalPcrRead)
      invariant submissions == Submissions(i)
      invariant reply[..] == BufferAfter(stale, outcomes, i)
      invariant lines == Lines(stale, outcomes, i)
      invariant diagnostics == ReadDiagnostics(outcomes, i)
    {
      PopulatedCommand(cmd, i);
      cmd := cmd.(pcrIndex := cmd.pcrIndex.Assign(i as bv32));
      var replySize := ReplySize;
      submissions := submissions + [Submission(CommandImage(cmd), replySize)];
      TransportWrite(reply, outcomes[i].written);
      assert reply[..] == BufferAfter(stale, outcomes, i + 1);
      if outcomes[i].status != TbsSuccess {
        diagnostics := diagnostics + [ReadFailed(i, outcomes[i].status)];
        assert lines == Lines(stale, outcomes, i + 1);
      } else {
        var line := FormatLine(i, reply);
        assert line == PcrLine(i, DigestAt(stale, outcomes, i));
        lines := lines + [line];
        assert diagnostics == ReadDiagnostics(outcomes, i + 1);
      }
      i := i + 1;
    }
  }

  /**
   * The whole of `main`: create the TBS context (`createStatus` is what
   * `Tbsi_Context_Create` returned); on failure print the diagnostic and exit
   * with -1 without ever closing; otherwise run the loop and close the context
   * exactly once on the way out (`closeStatus` is what `Tbsip_Context_Close`
   * returned).
   */
  method ReadPcrs(createStatus: bv32, outcomes: seq<Outcome>, stale: seq<bv8>, closeStatus: bv32)
    returns (run: RunResult)
    requires |outcomes| == PcrCount && FitsReplyBuffer(outcomes) && |stale| == ReplySize
    ensures createStatus != TbsSuccess ==> run == RunResult(-1, 0, [], [], [CannotCreateContext(createStatus)])
    ensures createStatus == TbsSuccess ==>
      && run.exitCode == 0
      && run.contextCloses == 1
      && run.submissions == Submissions(PcrCount)
      && run.lines == Lines(stale, outcomes, PcrCount)
      && run.diagnostics == ReadDiagnostics(outcomes, PcrCount)
           + if closeStatus != TbsSuccess then [CannotCloseContext(closeStatus)] else []
  {
    if createStatus != TbsSuccess {
      return RunResult(-1, 0, [], [], [CannotCreateContext(createStatus)]);
    }
    var submissions, lines, diagnostics := ReadRegisters(outcomes, stale);
    // the context guard closes the context when `main` returns
    var closes := 1;
    if closeStatus != TbsSuccess {
      diagnostics := diagnostics + [CannotCloseContext(closeStatus)];
    }
    run := RunResult(0, closes, submissions, lines, diagnostics);
  }
}
