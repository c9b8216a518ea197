/** Who owns a packet buffer on the way up: taken from the CSP pool for each packet to send,
    then handed to CSP, freed by the sender, or lost. */
module UplinkBuffers {
  import opened CArith
  import opened Bits
  import opened CspHeader
  import Numerals
  import HexCodec
  import opened Options

  // ---------------------------------------------------------------------------------------
  // Return codes
  // ---------------------------------------------------------------------------------------

  const CSP_ERR_NONE := 0
  const CSP_ERR_NOTSUP := -5

  /** `csp_sendto` without options: any failure of the direct send becomes the same code. The
      buffer is CSP's on success and still the caller's on failure. */
  function CspSendToCode(directSendSucceeds: bool): int {
    if directSendSucceeds then CSP_ERR_NONE else CSP_ERR_NOTSUP
  }

  // ---------------------------------------------------------------------------------------
  // Calls and what they do to the pool
  // ---------------------------------------------------------------------------------------

  /** The buffers: free in the pool's queue, handed to CSP, or lost to both. */
  datatype Pool = Pool(free: seq<nat>, handed: seq<nat>, lost: seq<nat>) {
    ghost function InUse(): multiset<nat> {
      multiset(free) + multiset(handed)
    }

    ghost function All(): multiset<nat> {
      InUse() + multiset(lost)
    }
  }

  /** The size of the header in front of a packet file's data. */
  const HEADER_SIZE := 6

  /** A packet file that could be read, and what its buffer held before. */
  datatype PacketFile = PacketFile(content: seq<byte>, stale: seq<byte>) {
    predicate Valid() {
      |stale| >= 256 && |content| <= HEADER_SIZE + |stale|
    }

    /** Files without data are refused. */
    predicate Accepted() {
      |content| > HEADER_SIZE
    }

    function Header(): seq<byte>
      requires Accepted()
    {
      content[..HEADER_SIZE]
    }

    /** The buffer after the file's data was read into it. */
    function Buffer(): (data: seq<byte>)
      requires Valid() && Accepted()
      ensures |data| >= 256
    {
      content[HEADER_SIZE..] + stale[|content| - HEADER_SIZE..]
    }

    /** As many bytes of the buffer as the header says. */
    function Payload(): seq<byte>
      requires Valid() && Accepted()
    {
      DecodedLength(Header());
      Buffer()[..RereadLength(Decode(Header()))]
    }
  }

  /** What the outside answers during one call: the code of the radio send and the result of a
      satellite selection. */
  datatype Answers = Answers(radio: int, satSelected: int)

  datatype Call =
    | SendFile(file: Option<PacketFile>, answers: Answers)
    | SendStruct(header: Option<UplinkHeader>, payload: Option<seq<byte>>, answers: Answers)
    | CspReleases  // CSP is done with the buffer it has held longest

  predicate ValidCall(call: Call) {
    call.SendFile? && call.file.Some? ==> call.file.value.Valid()
  }

  /** The packet a call gets as far as executing: its header and payload. */
  function Executed(call: Call): Option<(UplinkHeader, seq<byte>)>
    requires ValidCall(call)
  {
    match call
    case SendFile(Some(file), _) =>
      if file.Accepted() then Some((Reread(Decode(file.Header())), file.Payload())) else None
    case SendStruct(Some(header), Some(payload), _) =>
      if |payload| > SIZEOF_DATA then None else Some((header, payload))
    case _ => None
  }

  lemma DecodedLength(b: seq<byte>)
    requires |b| == 6
    ensures RereadLength(Decode(b)) == b[5]
  {
    hide And, Or;
    DecodeValues(b);
    NarrowedIs(b[5]);
    hide Numerals.Numeral, Numerals.Value;
    assert Decode(b).dataLength == b[5];
  }

  /** Whether a call takes a buffer at all. */
  predicate TakesBuffer(call: Call) {
    match call
    case SendFile(_, _) => true
    case SendStruct(header, payload, _) => header.Some? && payload.Some?
    case CspReleases => false
  }

  /** Whether a call reaches the radio: packets to nodes above 15 are station commands. */
  predicate Transmits(call: Call)
    requires ValidCall(call)
  {
    Executed(call).Some? && Executed(call).value.0.dst <= 15
  }

  function After(p: Pool, call: Call): Pool
    requires ValidCall(call)
  {
    if call.CspReleases? then
      if |p.handed| == 0 then p else p.(handed := p.handed[1..], free := p.free + [p.handed[0]])
    else if !TakesBuffer(call) || |p.free| == 0 then p
    else
      var buffer, rest := p.free[0], p.free[1..];
      if !Transmits(call) || call.answers.radio == -1 then p.(free := rest + [buffer])
      else if call.answers.radio == CSP_ERR_NONE then p.(free := rest, handed := p.handed + [buffer])
      else p.(free := rest, lost := p.lost + [buffer])
  }

  predicate ValidRun(calls: seq<Call>) {
    forall i :: 0 <= i < |calls| ==> ValidCall(calls[i])
  }

  function AfterAll(p: Pool, calls: seq<Call>): Pool
    requires ValidRun(calls)
    decreases |calls|
  {
    if |calls| == 0 then p else After(AfterAll(p, calls[..|calls| - 1]), calls[|calls| - 1])
  }

  // ---------------------------------------------------------------------------------------
  // Conservation over whole runs
  // ---------------------------------------------------------------------------------------

  /** Putting an element at the end of a queue adds it to the multiset; taking the first out
      takes it away. */
  lemma FirstMoved(s: seq<nat>, t: seq<nat>)
    requires |s| > 0
    ensures multiset(s) == multiset(s[1..]) + multiset{s[0]}
    ensures multiset(t + [s[0]]) == multiset(t) + multiset{s[0]}
  {
    assert s == [s[0]] + s[1..];
  }

  /** One element, in whichever of three multisets. */
  lemma OneOfThree(f: multiset<nat>, h: multiset<nat>, l: multiset<nat>, b: nat)
    ensures (f + multiset{b}) + h + l == f + (h + multiset{b}) + l
    ensures (f + multiset{b}) + h + l == f + h + (l + multiset{b})
  {
  }

  lemma OneCallConserves(p: Pool, call: Call)
    requires ValidCall(call)
    ensures After(p, call).All() == p.All()
  {
    hide Executed, Transmits, TakesBuffer, ValidCall;
    if call.CspReleases? {
      if |p.handed| > 0 {
        FirstMoved(p.handed, p.free);
        OneOfThree(multiset(p.free), multiset(p.handed[1..]), multiset(p.lost), p.handed[0]);
      }
    } else if TakesBuffer(call) && |p.free| > 0 {
      var rest := p.free[1..];
      FirstMoved(p.free, rest);
      FirstMoved(p.free, p.handed);
      FirstMoved(p.free, p.lost);
      OneOfThree(multiset(rest), multiset(p.handed), multiset(p.lost), p.free[0]);
    }
  }

  /** A radio code that is neither success nor the one code the sender tests for. */
  predicate Misread(call: Call)
    requires ValidCall(call)
  {
    Transmits(call) && call.answers.radio != CSP_ERR_NONE && call.answers.radio != -1
  }

  /** Whether a call of a run is answered by a misread code with a buffer there for it. */
  predicate LosesAt(p: Pool, calls: seq<Call>, i: nat)
    requires ValidRun(calls) && i < |calls|
  {
    Misread(calls[i]) && |AfterAll(p, calls[..i]).free| > 0
  }

  /** How many calls of a run do. */
  function Losses(p: Pool, calls: seq<Call>): nat
    requires ValidRun(calls)
    decreases |calls|
  {
    if |calls| == 0 then 0
    else Losses(p, calls[..|calls| - 1]) + if LosesAt(p, calls, |calls| - 1) then 1 else 0
  }

  /** Over any run, no buffer is duplicated or disappears: each is free, handed over or lost,
      and one is lost for every misread code and for nothing else. */
  lemma {:induction false} BuffersConserved(p: Pool, calls: seq<Call>)
    requires ValidRun(calls)
    ensures AfterAll(p, calls).All() == p.All()
    ensures p.lost <= AfterAll(p, calls).lost && |AfterAll(p, calls).lost| == |p.lost| + Losses(p, calls)
    decreases |calls|
  {
    hide Executed, Transmits, TakesBuffer, ValidCall;
    if |calls| > 0 {
      var before := calls[..|calls| - 1];
      BuffersConserved(p, before);
      OneCallConserves(AfterAll(p, before), calls[|calls| - 1]);
      OneCallLoses(AfterAll(p, before), calls[|calls| - 1]);
    }
  }

  lemma OneCallLoses(p: Pool, call: Call)
    requires ValidCall(call)
    ensures p.lost <= After(p, call).lost
    ensures |After(p, call).lost| == |p.lost| + if Misread(call) && |p.free| > 0 then 1 else 0
  {
    hide Reread, Decode, RereadLength;
  }

  /** The lossless runs are those in which each misread code finds the pool empty. */
  lemma {:induction false} NoLosses(p: Pool, calls: seq<Call>)
    requires ValidRun(calls)
    ensures Losses(p, calls) == 0
       <==> forall i :: 0 <= i < |calls| && Misread(calls[i]) ==> |AfterAll(p, calls[..i]).free| == 0
    decreases |calls|
  {
    hide Misread, ValidCall, AfterAll;
    if |calls| > 0 {
      var before := calls[..|calls| - 1];
      NoLosses(p, before);
      assert forall i :: 0 <= i < |before| ==> before[i] == calls[i] && before[..i] == calls[..i];
    }
  }

  /** Free and handed-over buffers always make up the pool exactly when every call answered by a
      misread code found no free buffer to lose. */
  lemma NothingLostExactly(p: Pool, calls: seq<Call>)
    requires ValidRun(calls)
    ensures AfterAll(p, calls).InUse() == p.InUse()
       <==> forall i :: 0 <= i < |calls| && Misread(calls[i]) ==> |AfterAll(p, calls[..i]).free| == 0
  {
    hide AfterAll, Misread, ValidRun, Losses;
    BuffersConserved(p, calls);
    NoLosses(p, calls);
    SameInUse(AfterAll(p, calls), p);
  }

  /** Of two pools with the same buffers, of which the first kept what the second lost. */
  lemma SameInUse(q: Pool, p: Pool)
    requires q.All() == p.All() && p.lost <= q.lost
    ensures q.InUse() == p.InUse() <==> |q.lost| == |p.lost|
  {
    assert |q.All()| == |q.InUse()| + |multiset(q.lost)|;
    assert |p.All()| == |p.InUse()| + |multiset(p.lost)|;
    if |q.lost| == |p.lost| {
      assert q.lost == p.lost;
      SumCancels(q.InUse(), p.InUse(), multiset(p.lost));
    }
  }

  lemma SumCancels(a: multiset<nat>, b: multiset<nat>, l: multiset<nat>)
    requires a + l == b + l
    ensures a == b
  {
    assert forall x :: (a + l)[x] == a[x] + l[x] && (b + l)[x] == b[x] + l[x];
  }

  /** When every radio answer is one of the two codes the sender knows, nothing is lost. */
  lemma KnownCodesLoseNothing(p: Pool, calls: seq<Call>)
    requires ValidRun(calls) && forall i :: 0 <= i < |calls| ==> !Misread(calls[i])
    ensures Losses(p, calls) == 0
  {
    hide Misread;
    NoLosses(p, calls);
  }

  /** The code that `csp_sendto` gives for a failed send is a misread one. */
  lemma FailedSendIsMisread(call: Call, directSendSucceeds: bool)
    requires ValidCall(call) && Transmits(call)
    requires call.answers.radio == CspSendToCode(directSendSucceeds)
    ensures Misread(call) <==> !directSendSucceeds
    ensures call.answers.radio == if directSendSucceeds then 0 else -5
  {
  }

  lemma FailedSendTakesOne(p: Pool, call: Call)
    requires ValidCall(call) && Transmits(call) && call.answers.radio == CSP_ERR_NOTSUP
    ensures |After(p, call).free| == if |p.free| == 0 then 0 else |p.free| - 1
    ensures After(p, call).handed == p.handed
  {
    hide Reread, Decode, RereadLength;
  }

  /** Failed sends in a row drain the pool: each loses one buffer until none is left. */
  lemma {:induction false} FailedSendsDrainPool(p: Pool, calls: seq<Call>)
    requires ValidRun(calls)
    requires forall i :: 0 <= i < |calls| ==> Transmits(calls[i]) && calls[i].answers.radio == CSP_ERR_NOTSUP
    ensures |AfterAll(p, calls).free| == if |calls| >= |p.free| then 0 else |p.free| - |calls|
    ensures AfterAll(p, calls).handed == p.handed
    decreases |calls|
  {
    hide Executed, Transmits, TakesBuffer, ValidCall, After;
    if |calls| > 0 {
      FailedSendsDrainPool(p, calls[..|calls| - 1]);
      FailedSendTakesOne(AfterAll(p, calls[..|calls| - 1]), calls[|calls| - 1]);
    }
  }

  // ---------------------------------------------------------------------------------------
  // The sender
  // ---------------------------------------------------------------------------------------

  const SIZE_MAX := 0xFFFF_FFFF_FFFF_FFFF

  /** `sizeof` of the packet's data member, which is declared with no elements. */
  const SIZEOF_DATA := 0

  /** One attempted radio send. */
  datatype RadioSend = RadioSend(priority: byte, dst: byte, dstPort: byte, srcPort: byte, data: seq<byte>)

  /** What of a payload goes out: a packet's length is kept in 16 bits. */
  function Sent(payload: seq<byte>): seq<byte> {
    payload[..|payload| % 65536]
  }

  /** Whether executing a packet counts as a success. */
  predicate Succeeds(header: UplinkHeader, payload: seq<byte>, answers: Answers) {
    if header.dst <= 15 then answers.radio != -1
    else
      && !(|payload| > 1 && payload[0] == 0x01 && answers.satSelected != 1)
      && !(0 < |payload| < 5 && (payload[0] == 0x02 || payload[0] == 0x03))
  }

  predicate CallSucceeds(call: Call)
    requires ValidCall(call)
  {
    && Executed(call).Some?
    && Succeeds(Executed(call).value.0, Executed(call).value.1, call.answers)
  }

  /** A send that failed with the code `csp_sendto` gives is reported as a success, and its
      buffer is lost. */
  lemma FailedSendReportedAsSuccess(p: Pool, call: Call)
    requires ValidCall(call) && Transmits(call) && |p.free| > 0
    requires call.answers.radio == CspSendToCode(false)
    ensures CallSucceeds(call)
    ensures After(p, call) == Pool(p.free[1..], p.handed, p.lost + [p.free[0]])
  {
    hide Reread, Decode, RereadLength;
  }

  class Sender {
    const bufferSize: nat  // bytes of data in a buffer
    const overhead: nat    // bytes in front of them

    /** Buffers have a front part, and their size does not wrap. */
    predicate Configured() {
      0 < overhead && bufferSize + overhead < SIZE_MAX
    }

    var free: seq<nat>
    var radio: seq<RadioSend>
    ghost var handed: seq<nat>
    ghost var lost: seq<nat>

    ghost function Buffers(): Pool
      reads this
    {
      Pool(free, handed, lost)
    }

    constructor (buffers: seq<nat>, bufferSize: nat, overhead: nat)
      requires 0 < overhead && bufferSize + overhead < SIZE_MAX
      ensures Buffers() == Pool(buffers, [], []) && radio == [] && Configured()
      ensures this.bufferSize == bufferSize && this.overhead == overhead
    {
      this.bufferSize, this.overhead := bufferSize, overhead;
      free, radio, handed, lost := buffers, [], [], [];
    }

    /** `csp_buffer_get`: the sum of the sizes wraps, so asking for the largest size passes the
        check that larger requests are meant to fail. */
    method BufferGet(size: nat) returns (packet: Option<nat>)
      requires size <= SIZE_MAX && Configured()
      modifies this`free
      ensures packet.Some? <==> |old(free)| > 0 && (size <= bufferSize || size > SIZE_MAX - overhead)
      ensures packet.Some? ==> old(free) == [packet.value] + free
      ensures packet.None? ==> free == old(free)
    {
      if (size + overhead) % (SIZE_MAX + 1) > bufferSize + overhead {
        return None;
      }
      if |free| == 0 {
        return None;
      }
      packet := Some(free[0]);
      free := free[1..];
    }

    method BufferFree(packet: nat)
      modifies this`free
      ensures free == old(free) + [packet]
    {
      free := free + [packet];
    }

    method CspSendTo(header: UplinkHeader, packet: nat, data: seq<byte>, code: int)
      modifies this`radio, this`handed
      ensures radio == old(radio) + [RadioSend(header.priority, header.dst, header.dstPort, header.srcPort, data)]
      ensures handed == if code == CSP_ERR_NONE then old(handed) + [packet] else old(handed)
    {
      radio := radio + [RadioSend(header.priority, header.dst, header.dstPort, header.srcPort, data)];
      if code == CSP_ERR_NONE {
        handed := handed + [packet];
      }
    }

    method SendPacketExecute(header: UplinkHeader, packet: nat, payload: seq<byte>, answers: Answers)
      returns (status: int, consumed: bool)
      modifies this`radio, this`handed
      ensures status == 0 || status == -1
      ensures header.dst <= 15 ==> (status == 0 <==> answers.radio != -1)
      ensures header.dst > 15 && payload == [] ==> status == 0
      ensures header.dst > 15 && payload != [] ==>
                if payload[0] == 0x01 then status == -1 <==> |payload| >= 2 && answers.satSelected != 1
                else if payload[0] == 0x02 || payload[0] == 0x03 then status == -1 <==> |payload| < 5
                else status == 0
      ensures status == 0 <==> Succeeds(header, payload, answers)
      ensures consumed <==> header.dst <= 15 && answers.radio != -1
      ensures handed == if header.dst <= 15 && answers.radio == CSP_ERR_NONE then old(handed) + [packet] else old(handed)
      ensures radio == if header.dst <= 15
              then old(radio) + [RadioSend(header.priority, header.dst, header.dstPort, header.srcPort, Sent(payload))]
              else old(radio)
    {
      var success := true;
      consumed := false;
      if header.dst <= 15 {
        CspSendTo(header, packet, Sent(payload), answers.radio);
        if answers.radio == -1 {
          success := false;
        } else {
          consumed := true;
        }
      } else if |payload| > 0 {
        if payload[0] == 0x01 {
          if |payload| > 1 && answers.satSelected != 1 {
            success := false;
          }
        } else if payload[0] == 0x02 || payload[0] == 0x03 {
          if |payload| < 5 {
            success := false;
          }
        }
      }
      status := if success then 0 else -1;
    }

    method SendPacket(file: Option<PacketFile>, answers: Answers) returns (status: int)
      requires ValidCall(SendFile(file, answers))
      requires Configured()
      modifies this
      ensures Buffers() == After(old(Buffers()), SendFile(file, answers))
      ensures status == 0 <==> |old(free)| > 0 && CallSucceeds(SendFile(file, answers))
      ensures status == 0 || status == -1
      ensures radio == old(radio) + RadioSends(SendFile(file, answers), |old(free)| > 0)
    {
      hide Decode, Reread, RereadLength;
      var packet := BufferGet(SIZE_MAX);
      if packet.None? {
        return -1;
      }
      if file.None? || !file.value.Accepted() {
        BufferFree(packet.value);
        return -1;
      }
      var header := Reread(Decode(file.value.Header()));
      var payload := file.value.Payload();
      var consumed;
      status, consumed := SendPacketExecute(header, packet.value, payload, answers);
      if !consumed {
        BufferFree(packet.value);
      } else if answers.radio != CSP_ERR_NONE {
        // the caller lets go of a buffer that CSP did not take
        lost := lost + [packet.value];
      }
    }

    method SendPacketStruct(header: Option<UplinkHeader>, payload: Option<seq<byte>>, answers: Answers)
      returns (status: int)
      requires Configured()
      modifies this
      ensures Buffers() == After(old(Buffers()), SendStruct(header, payload, answers))
      ensures status == 0 <==> |old(free)| > 0 && CallSucceeds(SendStruct(header, payload, answers))
      ensures status == 0 || status == -1
      ensures radio == old(radio) + RadioSends(SendStruct(header, payload, answers), |old(free)| > 0)
    {
      if header.None? || payload.None? {
        return -1;
      }
      var packet := BufferGet(SIZE_MAX);
      if packet.None? {
        return -1;
      }
      if |payload.value| > SIZEOF_DATA {
        BufferFree(packet.value);
        return -1;
      }
      var consumed;
      status, consumed := SendPacketExecute(header.value, packet.value, payload.value, answers);
      if !consumed {
        BufferFree(packet.value);
      } else if answers.radio != CSP_ERR_NONE {
        lost := lost + [packet.value];
      }
    }

    /** The GUI's SEND_PACKET, from its payload token on: the payload is never empty, so the
        packet is always refused, and nothing is ever sent. */
    method GuiSendPacket(header: UplinkHeader, hexPayload: string, mallocSucceeds: bool, answers: Answers)
      returns (ok: bool)
      requires Configured()
      modifies this
      ensures !ok
      ensures radio == old(radio) && handed == old(handed) && lost == old(lost)
      ensures multiset(free) == multiset(old(free))
    {
      var parsed, payload := HexCodec.HexToBytes(hexPayload, mallocSucceeds);
      if parsed != 0 {
        return false;
      }
      assert |payload| > 0;
      if |free| > 0 {
        FirstMoved(free, free[1..]);
      }
      var status := SendPacketStruct(Some(header), Some(payload), answers);
      ok := status == 0;
    }
  }

  /** The radio sends that a call makes. */
  function RadioSends(call: Call, bufferFree: bool): seq<RadioSend>
    requires ValidCall(call)
  {
    if bufferFree && Transmits(call) then
      var (header, payload) := Executed(call).value;
      [RadioSend(header.priority, header.dst, header.dstPort, header.srcPort, Sent(payload))]
    else []
  }

  // ---------------------------------------------------------------------------------------
  // What becomes of a call
  // ---------------------------------------------------------------------------------------

  /** The first buffer, taken and given back. */
  ghost predicate GivenBack(p: Pool, q: Pool)
    requires |p.free| > 0
  {
    q.free == p.free[1..] + [p.free[0]] && q.handed == p.handed && q.lost == p.lost
  }

  /** A packet that goes to the radio: the buffer is handed over, given back or lost by the
      radio's code alone, and a code other than -1 counts as success. */
  lemma RadioFate(p: Pool, call: Call)
    requires ValidCall(call) && Transmits(call) && |p.free| > 0
    ensures var q, b, rest := After(p, call), p.free[0], p.free[1..];
            && (CallSucceeds(call) <==> call.answers.radio != -1)
            && (call.answers.radio == -1 ==> GivenBack(p, q))
            && (call.answers.radio == 0 ==> q.free == rest && q.handed == p.handed + [b] && q.lost == p.lost)
            && (call.answers.radio != 0 && call.answers.radio != -1 ==>
                  q.free == rest && q.handed == p.handed && q.lost == p.lost + [b])
  {
    hide Reread, Decode, RereadLength;
  }

  /** For the two codes the sender knows, a call reports success exactly when its buffer was
      handed over. */
  lemma StatusTellsHandover(p: Pool, call: Call)
    requires ValidCall(call) && Transmits(call) && |p.free| > 0
    requires call.answers.radio == 0 || call.answers.radio == -1
    ensures CallSucceeds(call) <==> p.free[0] in After(p, call).handed[|p.handed|..]
    ensures CallSucceeds(call) <==> !GivenBack(p, After(p, call))
  {
    hide CallSucceeds, After, Transmits, ValidCall;
    RadioFate(p, call);
  }

  /** A packet to a node above 15 is a station command: it never reaches the radio, its buffer is
      given back, and its success depends on its first byte. */
  lemma StationCommandFate(p: Pool, call: Call)
    requires ValidCall(call) && Executed(call).Some? && Executed(call).value.0.dst > 15 && |p.free| > 0
    ensures GivenBack(p, After(p, call)) && RadioSends(call, true) == []
    ensures var payload := Executed(call).value.1;
            if payload == [] then CallSucceeds(call)
            else if payload[0] == 0x01 then CallSucceeds(call) <==> |payload| == 1 || call.answers.satSelected == 1
            else if payload[0] == 0x02 || payload[0] == 0x03 then CallSucceeds(call) <==> |payload| >= 5
            else CallSucceeds(call)
  {
    hide Reread, Decode, RereadLength;
  }

  /** A call that finds no buffer changes nothing and sends nothing; a buffer that CSP is done
      with joins the end of the pool's queue. */
  lemma OtherFates(p: Pool, call: Call)
    requires ValidCall(call)
    ensures !call.CspReleases? && |p.free| == 0 ==> After(p, call) == p && RadioSends(call, false) == []
    ensures call.CspReleases? && |p.handed| > 0 ==>
              var q := After(p, call);
              q.free == p.free + [p.handed[0]] && [p.handed[0]] + q.handed == p.handed && q.lost == p.lost
    ensures call.CspReleases? && |p.handed| == 0 ==> After(p, call) == p
  {
    hide Transmits, Executed, ValidCall;
  }

  /** A packet that is refused fails without a radio send; the buffer that was taken for it is
      given back. */
  lemma RefusedFate(p: Pool, call: Call)
    requires ValidCall(call) && !call.CspReleases? && Executed(call).None?
    ensures !CallSucceeds(call) && RadioSends(call, true) == []
    ensures |p.free| == 0 || (call.SendStruct? && (call.header.None? || call.payload.None?)) ==> After(p, call) == p
    ensures |p.free| > 0 && (call.SendFile? || (call.header.Some? && call.payload.Some?)) ==> GivenBack(p, After(p, call))
  {
    hide Reread, Decode, RereadLength;
  }

  /** What a packet file says, byte by byte: which files are refused, which fields the header's
      bits are, and that as many bytes are sent as the sixth byte counts, those of the file and,
      beyond its end, those the buffer held before. */
  lemma FileSays(file: PacketFile, answers: Answers)
    requires file.Valid()
    ensures var call := SendFile(Some(file), answers);
            Executed(call).None? <==> |file.content| <= 6
    ensures |file.content| > 6 ==>
            var call := SendFile(Some(file), answers);
            var (header, data) := Executed(call).value;
            var c0: nat, c1: nat, c2: nat := file.content[0], file.content[1], file.content[2];
            var c3: nat, c5: nat := file.content[3], file.content[5];
            && header.priority == c0 / 64 && header.src == c0 / 2 % 32
            && header.dst == (256 * c0 + c1) / 16 % 32 && header.dstPort == (256 * c1 + c2) / 64 % 64
            && header.srcPort == c2 % 64
            && header.hmac == c3 / 8 % 2 && header.xtea == c3 / 4 % 2 && header.rdp == c3 / 2 % 2 && header.crc == c3 % 2
            && |data| == c5
            && forall i :: 0 <= i < c5 ==>
                 data[i] == if 6 + i < |file.content| then file.content[6 + i] else file.stale[i]
  {
    if |file.content| > 6 {
      FileHeader(file.Header());
      FileData(file);
    }
  }

  lemma FileHeader(b: seq<byte>)
    requires |b| == 6
    ensures var header := Reread(Decode(b));
            var c0: nat, c1: nat, c2: nat, c3: nat := b[0], b[1], b[2], b[3];
            && header.priority == c0 / 64 && header.src == c0 / 2 % 32
            && header.dst == (256 * c0 + c1) / 16 % 32 && header.dstPort == (256 * c1 + c2) / 64 % 64
            && header.srcPort == c2 % 64
            && header.hmac == c3 / 8 % 2 && header.xtea == c3 / 4 % 2 && header.rdp == c3 / 2 % 2 && header.crc == c3 % 2
  {
    hide And, Or, Reread;
    DecodeValues(b);
    RereadIs(Decode(b));
    LowSix(b[1], b[2]);
  }

  lemma LowSix(c1: nat, c2: nat)
    ensures (c1 * 256 + c2) % 64 == c2 % 64
  {
    DivModUnique(c1 * 256 + c2, 64, 4 * c1 + c2 / 64, c2 % 64);
  }

  lemma FileData(file: PacketFile)
    requires file.Valid() && file.Accepted()
    ensures |file.Payload()| == file.content[5]
    ensures forall i :: 0 <= i < file.content[5] ==>
              file.Payload()[i] == if 6 + i < |file.content| then file.content[6 + i] else file.stale[i]
  {
    hide Decode, RereadLength;
    DecodedLength(file.Header());
  }

  /** The packet that reaches the radio is the one executed, its payload cut to what a 16-bit
      length counts. */
  lemma SentIsExecuted(call: Call)
    requires ValidCall(call) && Executed(call).Some? && Executed(call).value.0.dst <= 15
    ensures var (header, payload) := Executed(call).value;
            var sends := RadioSends(call, true);
            && |sends| == 1 && sends[0].priority == header.priority && sends[0].dst == header.dst
            && sends[0].dstPort == header.dstPort && sends[0].srcPort == header.srcPort
            && sends[0].data <= payload && (|payload| < 65536 ==> sends[0].data == payload)
    ensures RadioSends(call, false) == []
  {
    hide Executed;
  }

  /** A header and payload in memory: nothing but an empty payload is executed. */
  lemma StructSays(header: UplinkHeader, payload: seq<byte>, answers: Answers)
    ensures Executed(SendStruct(Some(header), Some(payload), answers))
         == if payload == [] then Some((header, [])) else None
  {
  }

  /** A downlink packet file sent up again reaches the radio with the priority, destination and
      ports it came down with, each cut to its width, and with the first bytes of its data, as
      many as its length modulo 256. */
  lemma DownlinkFileResent(h: Id, data: seq<byte>, stale: seq<byte>, answers: Answers)
    requires 0 < |data| < 65536 && |data| <= |stale| && |stale| >= 256 && h.dst % 32 <= 15
    ensures RadioSends(SendFile(Some(PacketFile(Pack(h, |data|) + data, stale)), answers), true)
         == [RadioSend(h.prio % 4, h.dst % 32, h.dport % 64, h.sport % 64, data[..|data| % 256])]
  {
    hide Decode, Reread, RereadLength, Pack;
    var file := PacketFile(Pack(h, |data|) + data, stale);
    assert file.Header() == Pack(h, |data|);
    assert file.content[HEADER_SIZE..] == data;
    HeaderRoundTrip(h, |data|);
    DecodedLength(Pack(h, |data|));
    assert file.Payload() == data[..|data| % 256];
    assert Executed(SendFile(Some(file), answers)) == Some((Cut(h), file.Payload()));
    assert Sent(file.Payload()) == data[..|data| % 256];
  }
}
