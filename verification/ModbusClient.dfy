/** The read-only Modbus RTU client: request, response and retries. */
module ModbusClient {
  import opened MachineTypes
  import opened ModbusCrc
  import opened ModbusErrors
  import opened ModbusChecksum

  const FC_READ_HOLDING_REGISTERS: bv8 := 0x03
  const FC_READ_INPUT_REGISTERS: bv8 := 0x04
  const INITIAL_BACKOFF_MS: nat := 100
  const MAX_REGISTERS: nat := 125
  const RESPONSE_BUFFER: nat := 256

  predicate ReadFunction(fc: bv8) {
    fc == FC_READ_HOLDING_REGISTERS || fc == FC_READ_INPUT_REGISTERS
  }

  // ----- Both ends of the wire ----------------------------------------------------

  datatype Request = Request(slave: bv8, fc: bv8, start: uint16, count: uint16)

  function Sealed(bytes: seq<bv8>): (frame: seq<bv8>)
    ensures |frame| == |bytes| + 2
    ensures |bytes| > 0 ==> Intact(frame)
  {
    var frame := bytes + [Lo(Crc(bytes)), Hi(Crc(bytes))];
    assert |bytes| > 0 ==> Intact(frame) by {
      if |bytes| > 0 {
        assert frame[..|frame| - 2] == bytes;
        IntactIffTrailer(frame);
        JoinSplit(Crc(bytes));
      }
    }
    frame
  }

  /** The two bytes of a 16-bit number, and the number of two bytes. */
  function HighByte(x: uint16): bv8 {
    (x / 0x100) as bv8
  }

  function LowByte(x: uint16): bv8 {
    (x % 0x100) as bv8
  }

  function Number(hi: bv8, lo: bv8): uint16 {
    0x100 * (hi as int) + (lo as int)
  }

  lemma NumberRoundTrip(x: uint16)
    ensures Number(HighByte(x), LowByte(x)) == x
  {
    ByteNumber(x / 0x100);
    ByteNumber(x % 0x100);
  }

  function RequestBytes(q: Request): seq<bv8> {
    [q.slave, q.fc, HighByte(q.start), LowByte(q.start), HighByte(q.count), LowByte(q.count)]
  }

  /** The bytes of a read request. */
  function RequestFrame(q: Request): (frame: seq<bv8>)
    ensures |frame| == 8 && Intact(frame)
  {
    Sealed(RequestBytes(q))
  }

  lemma FrameParts(q: Request)
    ensures var bytes := RequestBytes(q); RequestFrame(q) == bytes + [Lo(Crc(bytes)), Hi(Crc(bytes))]
  {
  }

  /** What a slave makes of eight bytes off the wire. */
  function SlaveReads(frame: seq<bv8>): Option<Request> {
    if |frame| != 8 || !Intact(frame) then None
    else Some(Request(frame[0], frame[1], Number(frame[2], frame[3]), Number(frame[4], frame[5])))
  }

  /** The slave understands exactly the request that was built. */
  lemma RequestRoundTrip(q: Request)
    ensures SlaveReads(RequestFrame(q)) == Some(q)
  {
    hide Intact, Crc, HighByte, LowByte, Number;
    NumberRoundTrip(q.start);
    NumberRoundTrip(q.count);
    var frame := RequestFrame(q);
    assert frame[..6] == RequestBytes(q);
  }

  /** Where everything stands in a request: address, function, first register and
      count, each number high byte first, and the checksum low byte first. */
  lemma RequestLayout(q: Request)
    ensures var f := RequestFrame(q);
            && f[0] == q.slave && f[1] == q.fc
            && 0x100 * (f[2] as int) + f[3] as int == q.start
            && 0x100 * (f[4] as int) + f[5] as int == q.count
            && Join16(f[7], f[6]) == Crc(f[..6])
  {
    hide Intact, Crc, HighByte, LowByte, Hi, Lo, Join16;
    NumberRoundTrip(q.start);
    NumberRoundTrip(q.count);
    JoinSplit(Crc(RequestBytes(q)));
    assert RequestFrame(q)[..6] == RequestBytes(q);
  }

  lemma ExampleSteps()
    ensures Xor(0xFFFF, 0x01) == 0xFFFE && Eight(0xFFFE) == 0x807E
    ensures Xor(0x807E, 0x03) == 0x807D && Eight(0x807D) == 0x2140
    ensures Xor(0x2140, 0x00) == 0x2140 && Eight(0x2140) == 0xF020
  {
  }

  lemma MoreExampleSteps()
    ensures Xor(0xF020, 0x00) == 0xF020 && Eight(0xF020) == 0xD8F1
    ensures Xor(0xD8F1, 0x00) == 0xD8F1 && Eight(0xD8F1) == 0x8419
    ensures Xor(0x8419, 0x01) == 0x8418 && Eight(0x8418) == 0x0A84
  {
  }

  lemma ExampleStart()
    ensures Crc([0x01]) == 0x807E
  {
    assert Crc([]) == 0xFFFF;
    hide Crc, Eight, Xor;
    ExampleSteps();
    NextByteIs([], 0x01, 0xFFFF, 0xFFFE, 0x807E);
    assert [] + [0x01] == [0x01];
  }

  lemma ExampleHead()
    ensures Crc([0x01, 0x03, 0x00]) == 0xF020
  {
    hide Crc, Eight, Xor;
    ExampleStart();
    ExampleSteps();
    var a: seq<bv8> := [0x01];
    NextByteIs(a, 0x03, 0x807E, 0x807D, 0x2140);
    NextByteIs(a + [0x03], 0x00, 0x2140, 0x2140, 0xF020);
    assert a + [0x03] + [0x00] == [0x01, 0x03, 0x00];
  }

  lemma ExampleCrc()
    ensures Crc([0x01, 0x03, 0x00, 0x00, 0x00, 0x01]) == 0x0A84
  {
    hide Crc, Eight, Xor;
    ExampleHead();
    MoreExampleSteps();
    var c := [0x01, 0x03, 0x00];
    NextByteIs(c, 0x00, 0xF020, 0xF020, 0xD8F1);
    NextByteIs(c + [0x00], 0x00, 0xD8F1, 0xD8F1, 0x8419);
    NextByteIs(c + [0x00] + [0x00], 0x01, 0x8419, 0x8418, 0x0A84);
    assert c + [0x00] + [0x00] + [0x01] == [0x01, 0x03, 0x00, 0x00, 0x00, 0x01];
  }

  /** A request for one holding register of slave 1, byte by byte. */
  lemma RequestExample()
    ensures RequestFrame(Request(1, 3, 0, 1)) == [0x01, 0x03, 0x00, 0x00, 0x00, 0x01, 0x84, 0x0A]
  {
    ByteNumber(0);
    ByteNumber(1);
    SameByte(0x00, 0);
    SameByte(0x01, 1);
    assert RequestBytes(Request(1, 3, 0, 1)) == [0x01, 0x03, 0x00, 0x00, 0x00, 0x01];
    ExampleCrc();
    hide Crc;
    assert Lo(0x0A84) == 0x84 && Hi(0x0A84) == 0x0A;
  }

  /** Register words as they go on the wire, high byte first. */
  function WordBytes(words: seq<bv16>): (bs: seq<bv8>)
    ensures |bs| == 2 * |words|
  {
    seq(2 * |words|, i requires 0 <= i < 2 * |words| => if i % 2 == 0 then Hi(words[i / 2]) else Lo(words[i / 2]))
  }

  /** A slave's registers, by function code and address. */
  type Memory = (bv8, nat) -> bv16

  function Span(memory: Memory, fc: bv8, start: nat, count: nat): seq<bv16> {
    seq(count, i requires 0 <= i < count => memory(fc, start + i))
  }

  function AnswerBytes(q: Request, words: seq<bv16>): (bs: seq<bv8>)
    requires |words| <= MAX_REGISTERS
    ensures |bs| == 3 + 2 * |words| && bs[0] == q.slave && bs[1] == q.fc && bs[2] as int == 2 * |words|
    ensures forall i | 0 <= i < |words| :: bs[3 + 2 * i] == Hi(words[i]) && bs[4 + 2 * i] == Lo(words[i])
  {
    ByteNumber(2 * |words|);
    var head, body := [q.slave, q.fc, (2 * |words|) as bv8], WordBytes(words);
    assert forall i | 0 <= i < |words| ::
        && (head + body)[3 + 2 * i] == body[2 * i] && 2 * i / 2 == i && 2 * i % 2 == 0
        && (head + body)[4 + 2 * i] == body[2 * i + 1] && (2 * i + 1) / 2 == i && (2 * i + 1) % 2 == 1;
    head + body
  }

  /** A slave that follows the protocol answers every read of up to 125 registers
      that stays within the address space. */
  function SlaveAnswers(memory: Memory, frame: seq<bv8>): (reply: Option<seq<bv8>>) {
    match SlaveReads(frame)
    case None => None
    case Some(q) =>
      if ReadFunction(q.fc) && 1 <= q.count <= MAX_REGISTERS && q.start + q.count <= 0x1_0000 then
        Some(Sealed(AnswerBytes(q, Span(memory, q.fc, q.start, q.count))))
      else None
  }

  /** The words in a response to a request for `count` registers, if the client
      takes it for one. Who answers, and to which function, is not looked at. */
  function Parsed(response: seq<bv8>, count: nat): (words: Option<seq<bv16>>)
    ensures words.Some? ==> |words.value| == count
  {
    if |response| < 5 || response[1] & 0x80 != 0 then None
    else if response[2] as int != 2 * count || |response| < 5 + 2 * count then None
    else Some(Payload(response, count))
  }

  /** The big-endian words behind the three leading bytes. */
  function Payload(response: seq<bv8>, count: nat): seq<bv16>
    requires 3 + 2 * count <= |response|
  {
    seq(count, i requires 0 <= i < count => Join16(response[3 + 2 * i], response[4 + 2 * i]))
  }

  lemma HighPart(hi: bv8)
    ensures ((hi as bv16) << 8) as int == 0x100 * (hi as int)
  {
  }

  lemma OrLowPart(hi: bv8, lo: bv8)
    ensures (((hi as bv16) << 8) | (lo as bv16)) as int == ((hi as bv16) << 8) as int + (lo as bv16) as int
  {
  }

  lemma LowPartAlone(lo: bv8)
    ensures (lo as bv16) as int == lo as int
  {
  }

  lemma JoinNumber(hi: bv8, lo: bv8)
    ensures Join16(hi, lo) as int == 0x100 * (hi as int) + lo as int
  {
    HighPart(hi);
    OrLowPart(hi, lo);
    LowPartAlone(lo);
  }

  /** Each word of a response is its two bytes, high byte first. */
  lemma PayloadLayout(response: seq<bv8>, count: nat, i: nat)
    requires 3 + 2 * count <= |response| && i < count
    ensures Payload(response, count)[i] as int == 0x100 * (response[3 + 2 * i] as int) + response[4 + 2 * i] as int
  {
    hide Join16;
    JoinNumber(response[3 + 2 * i], response[4 + 2 * i]);
  }

  lemma AnswerParses(other: Request, words: seq<bv16>, extra: seq<bv8>)
    requires |words| <= MAX_REGISTERS && other.fc & 0x80 == 0
    ensures Parsed(Sealed(AnswerBytes(other, words) + extra), |words|) == Some(words)
  {
    hide Intact, Crc, Hi, Lo, Join16, AnswerBytes;
    var bytes, frame := AnswerBytes(other, words) + extra, Sealed(AnswerBytes(other, words) + extra);
    assert forall i | 0 <= i < |bytes| :: frame[i] == bytes[i];
    forall i | 0 <= i < |words|
      ensures Join16(frame[3 + 2 * i], frame[4 + 2 * i]) == words[i]
    {
      JoinSplit(words[i]);
    }
    assert Parsed(frame, |words|).value == words;
  }

  lemma NoExtra(q: Request, words: seq<bv16>)
    requires |words| <= MAX_REGISTERS
    ensures AnswerBytes(q, words) + [] == AnswerBytes(q, words)
  {
  }

  /** An answer parses to exactly the words that were put into it. */
  lemma AnswerRoundTrip(q: Request, words: seq<bv16>)
    requires |words| <= MAX_REGISTERS && ReadFunction(q.fc)
    ensures Parsed(Sealed(AnswerBytes(q, words)), |words|) == Some(words)
  {
    assert q.fc & 0x80 == 0;
    hide Intact, Crc, Parsed, AnswerBytes;
    NoExtra(q, words);
    AnswerParses(q, words, []);
  }

  lemma SealedBack(frame: seq<bv8>)
    requires Intact(frame)
    ensures Sealed(frame[..|frame| - 2]) == frame
  {
    hide Hi, Lo, Join16;
    var n := |frame| - 2;
    IntactIffTrailer(frame);
    SplitJoin(frame[n + 1], frame[n]);
    assert frame == frame[..n] + [frame[n], frame[n + 1]];
  }

  lemma PayloadBytes(frame: seq<bv8>, count: nat, i: nat)
    requires 3 + 2 * count <= |frame| && i < count
    ensures Hi(Payload(frame, count)[i]) == frame[3 + 2 * i] && Lo(Payload(frame, count)[i]) == frame[4 + 2 * i]
  {
    hide Hi, Lo, Join16;
    SplitJoin(frame[3 + 2 * i], frame[4 + 2 * i]);
  }

  /** Whatever parses is an answer, from whoever its first two bytes name, with
      whatever lies behind the words. */
  lemma ParsedIsAnswer(frame: seq<bv8>, count: nat)
    requires Intact(frame) && count <= MAX_REGISTERS && Parsed(frame, count).Some?
    ensures var words := Parsed(frame, count).value;
            frame == Sealed(AnswerBytes(Request(frame[0], frame[1], 0, 0), words) + frame[3 + 2 * count..|frame| - 2])
  {
    hide Intact, Crc, Hi, Lo, AnswerBytes, Payload, Sealed;
    var n, words := |frame| - 2, Payload(frame, count);
    assert |words| == count && Parsed(frame, count) == Some(words);
    var bs := AnswerBytes(Request(frame[0], frame[1], 0, 0), words);
    SameByte(bs[2], 2 * count);
    SameByte(frame[2], 2 * count);
    forall i | 0 <= i < count
      ensures bs[3 + 2 * i] == frame[3 + 2 * i] && bs[4 + 2 * i] == frame[4 + 2 * i]
    {
      PayloadBytes(frame, count, i);
    }
    ByPairs(bs, frame, count);
    assert frame[..n] == bs + frame[3 + 2 * count..n];
    SealedBack(frame);
  }

  lemma ByPairs(a: seq<bv8>, b: seq<bv8>, count: nat)
    requires |a| == 3 + 2 * count <= |b| && a[0] == b[0] && a[1] == b[1] && a[2] == b[2]
    requires forall i | 0 <= i < count :: a[3 + 2 * i] == b[3 + 2 * i] && a[4 + 2 * i] == b[4 + 2 * i]
    ensures a == b[..3 + 2 * count]
  {
    forall k | 3 <= k < |a|
      ensures a[k] == b[k]
    {
      var i := (k - 3) / 2;
      assert 0 <= i < count && (k == 3 + 2 * i || k == 4 + 2 * i);
    }
  }

  // ----- One attempt ----------------------------------------------------------------

  /** The bus: what comes back within the timeout when a frame is sent for the
      k-th time, if the frame could be sent and anything came back at all. */
  type Bus = (nat, seq<bv8>) -> Option<seq<bv8>>

  /** The words one attempt yields. */
  function Attempt(bus: Bus, k: nat, q: Request): (words: Option<seq<bv16>>)
    ensures words.Some? ==> |words.value| == q.count
  {
    if !ReadFunction(q.fc) then None
    else
      match bus(k, RequestFrame(q))
      case None => None
      case Some(reply) =>
        if 5 <= |reply| <= RESPONSE_BUFFER && Intact(reply) then Parsed(reply, q.count) else None
  }

  /** With a working slave at the other end an attempt reads its registers. */
  lemma HealthyAttempt(bus: Bus, k: nat, q: Request, memory: Memory)
    requires ReadFunction(q.fc) && 1 <= q.count <= MAX_REGISTERS && q.start + q.count <= 0x1_0000
    requires bus(k, RequestFrame(q)) == SlaveAnswers(memory, RequestFrame(q))
    ensures Attempt(bus, k, q) == Some(Span(memory, q.fc, q.start, q.count))
  {
    hide Intact, RequestFrame, AnswerBytes, SlaveReads, Parsed;
    RequestRoundTrip(q);
    AnswerRoundTrip(q, Span(memory, q.fc, q.start, q.count));
  }

  /** `reply` is an intact answer by `other`, with `extra` behind its words, that fits the buffer. */
  predicate AnsweredBy(reply: seq<bv8>, other: Request, words: seq<bv16>, extra: seq<bv8>) {
    && other.fc & 0x80 == 0 && |words| <= 125 && 5 + 2 * |words| + |extra| <= 256
    && reply == Sealed(AnswerBytes(other, words) + extra)
  }

  /** Neither the sender nor the length is checked: an intact answer of any other
      slave, to any function that is not an exception, is read as data, and so is
      one with bytes behind its words. */
  lemma SenderIsNotChecked(bus: Bus, k: nat, q: Request, other: Request, words: seq<bv16>, extra: seq<bv8>)
    requires ReadFunction(q.fc) && |words| == q.count && bus(k, RequestFrame(q)).Some?
    requires AnsweredBy(bus(k, RequestFrame(q)).value, other, words, extra)
    ensures Attempt(bus, k, q) == Some(words)
  {
    hide Intact, RequestFrame, AnswerBytes;
    AnswerParses(other, words, extra);
  }

  lemma AcceptedAnswer(bus: Bus, k: nat, q: Request) returns (other: Request, extra: seq<bv8>)
    requires q.count <= MAX_REGISTERS && Attempt(bus, k, q).Some?
    ensures bus(k, RequestFrame(q)).Some?
    ensures AnsweredBy(bus(k, RequestFrame(q)).value, other, Attempt(bus, k, q).value, extra)
  {
    hide Intact, Crc, RequestFrame, AnswerBytes, Sealed, Payload;
    var reply := bus(k, RequestFrame(q)).value;
    ParsedIsAnswer(reply, q.count);
    other, extra := Request(reply[0], reply[1], 0, 0), reply[3 + 2 * q.count..|reply| - 2];
  }

  /** The replies read as data are exactly the intact answers of any slave, to
      any function that is not an exception, with any bytes behind the words, as
      long as they fit the buffer. */
  lemma AcceptedReplies(bus: Bus, k: nat, q: Request, words: seq<bv16>)
    requires ReadFunction(q.fc) && q.count <= MAX_REGISTERS && bus(k, RequestFrame(q)).Some?
    ensures Attempt(bus, k, q) == Some(words)
            <==> |words| == q.count && exists other, extra :: AnsweredBy(bus(k, RequestFrame(q)).value, other, words, extra)
  {
    hide AnsweredBy, RequestFrame, Intact, Parsed;
    var reply := bus(k, RequestFrame(q)).value;
    if Attempt(bus, k, q) == Some(words) {
      var other, extra := AcceptedAnswer(bus, k, q);
    }
    if |words| == q.count && exists other, extra :: AnsweredBy(reply, other, words, extra) {
      var other, extra :| AnsweredBy(reply, other, words, extra);
      SenderIsNotChecked(bus, k, q, other, words, extra);
    }
  }

  /** A reply read as data is the asked slave's answer to the asked function
      exactly when its first two bytes say so and nothing lies behind its words. */
  lemma AcceptedIsAskedIff(bus: Bus, k: nat, q: Request)
    requires q.count <= MAX_REGISTERS && Attempt(bus, k, q).Some?
    ensures var reply, words := bus(k, RequestFrame(q)).value, Attempt(bus, k, q).value;
            reply == Sealed(AnswerBytes(q, words))
            <==> reply[0] == q.slave && reply[1] == q.fc && |reply| == 5 + 2 * q.count
  {
    hide Intact, Crc, RequestFrame, Payload;
    var reply, words := bus(k, RequestFrame(q)).value, Attempt(bus, k, q).value;
    ParsedIsAnswer(reply, q.count);
    hide AnswerBytes;
    var bs := AnswerBytes(q, words);
    assert Sealed(bs)[..3 + 2 * q.count] == bs;
    if reply[0] == q.slave && reply[1] == q.fc && |reply| == 5 + 2 * q.count {
      SameAnswer(q, Request(reply[0], reply[1], 0, 0), words);
      assert reply[3 + 2 * q.count..|reply| - 2] == [];
      NoExtra(q, words);
    }
  }

  lemma SameAnswer(q: Request, other: Request, words: seq<bv16>)
    requires |words| <= MAX_REGISTERS && q.slave == other.slave && q.fc == other.fc
    ensures AnswerBytes(q, words) == AnswerBytes(other, words)
  {
  }

  /** A good reply damaged on the wire, in up to three bits or within sixteen
      consecutive bits, is never read as data. */
  lemma DamagedReplyRejected(bus: Bus, k: nat, q: Request, sent: seq<bv8>, at: nat, n: nat)
    requires Intact(sent) && bus(k, RequestFrame(q)).Some?
    requires var got := bus(k, RequestFrame(q)).value;
             && |got| == |sent| && got != sent
             && (|| Distance(FrameBits(sent), FrameBits(got)) <= 3
                 || (&& n <= 16 && at + n <= 8 * |sent|
                     && FrameBits(sent)[..at] == FrameBits(got)[..at]
                     && FrameBits(sent)[at + n..] == FrameBits(got)[at + n..]))
    ensures Attempt(bus, k, q) == None
  {
    var got := bus(k, RequestFrame(q)).value;
    if |got| <= RESPONSE_BUFFER {
      if Distance(FrameBits(sent), FrameBits(got)) <= 3 {
        SomeDistance(sent, got);
        UpToThreeErrorsDetected(sent, got);
      } else {
        BurstsDetected(sent, got, at, n);
      }
    }
  }

  lemma SomeDistance(f: seq<bv8>, g: seq<bv8>)
    requires |f| == |g| && f != g
    ensures Distance(FrameBits(f), FrameBits(g)) >= 1
  {
    if Distance(FrameBits(f), FrameBits(g)) == 0 {
      NoDistance(FrameBits(f), FrameBits(g));
      FrameBitsInjective(f, g);
    }
  }

  // ----- Retrying -----------------------------------------------------------------------

  function Clamp(attempts: nat): (n: nat)
    ensures 1 <= n <= 10
    ensures 1 <= attempts <= 10 ==> n == attempts
  {
    if attempts < 1 then 1 else if attempts > 10 then 10 else attempts
  }

  /** The first of the attempts up to the n-th that yields words, from the k-th on. */
  function FirstGood(bus: Bus, q: Request, k: nat, n: nat): (r: Option<nat>)
    ensures r.Some? ==> k <= r.value <= n && Attempt(bus, r.value, q).Some?
    ensures r.Some? ==> forall j | k <= j < r.value :: Attempt(bus, j, q).None?
    ensures r.None? ==> forall j | k <= j <= n :: Attempt(bus, j, q).None?
    decreases n + 1 - k
  {
    if k > n then None
    else if Attempt(bus, k, q).Some? then Some(k)
    else FirstGood(bus, q, k + 1, n)
  }

  /** The waits of one, two, three and ten failed attempts, in milliseconds. */
  lemma WaitsInFigures()
    ensures 100 * (Pow2(0) - 1) == 0 && 100 * (Pow2(1) - 1) == 100 && 100 * (Pow2(2) - 1) == 300
    ensures 100 * (Pow2(9) - 1) == 51100
  {
  }

  lemma OneTry(bus: Bus, q: Request, k: nat, n: nat)
    requires 1 <= k <= n
    ensures FirstGood(bus, q, k, n) ==
            if Attempt(bus, k, q).Some? then Some(k) else if k == n then None else FirstGood(bus, q, k + 1, n)
    ensures Pow2(0) == 1 && Pow2(k) == 2 * Pow2(k - 1)
  {
  }

  class Client {
    var initialized: bool

    constructor ()
      ensures !initialized
    {
      initialized := false;
    }

    method Begin()
      modifies this
      ensures initialized
    {
      initialized := true;
    }

    method End()
      modifies this
      ensures !initialized
    {
      initialized := false;
    }

    /** Builds a request; refuses every function that is not a read. */
    method BuildReadFrame(slave: bv8, fc: bv8, start: uint16, count: uint16, frame: array<bv8>) returns (n: nat)
      requires frame.Length >= 8
      modifies frame
      ensures !ReadFunction(fc) ==> n == 0 && unchanged(frame)
      ensures ReadFunction(fc) ==> n == 8 && frame[..8] == RequestFrame(Request(slave, fc, start, count))
    {
      if fc != FC_READ_HOLDING_REGISTERS && fc != FC_READ_INPUT_REGISTERS {
        return 0;
      }
      FillRequest(slave, fc, start, count, frame);
      ghost var bytes := RequestBytes(Request(slave, fc, start, count));
      FrameParts(Request(slave, fc, start, count));
      hide Hi, Lo, RequestFrame, RequestBytes, Crc;
      var crc := CalculateCRC(frame, 6);
      frame[6], frame[7] := Lo(crc), Hi(crc);
      assert frame[..6] == bytes && frame[..8] == frame[..6] + [frame[6], frame[7]];
      n := 8;
    }

    method FillRequest(slave: bv8, fc: bv8, start: uint16, count: uint16, frame: array<bv8>)
      requires frame.Length >= 8
      modifies frame
      ensures frame[..6] == RequestBytes(Request(slave, fc, start, count))
    {
      hide HighByte, LowByte;
      frame[0], frame[1] := slave, fc;
      frame[2], frame[3] := HighByte(start), LowByte(start);
      frame[4], frame[5] := HighByte(count), LowByte(count);
    }

    /** Takes the registers out of a response; on refusal the caller's buffer is untouched. */
    method ParseReadResponse(response: array<bv8>, length: nat, count: nat, data: array<bv16>) returns (ok: bool)
      requires length <= response.Length && count <= MAX_REGISTERS && count <= data.Length
      modifies data
      ensures ok <==> Parsed(response[..length], count).Some?
      ensures ok ==> data[..count] == Parsed(response[..length], count).value && data[count..] == old(data[count..])
      ensures !ok ==> unchanged(data)
    {
      if length < 5 {
        return false;
      }
      var fc := response[1];
      if fc & 0x80 != 0 {
        return false;
      }
      var byteCount := response[2] as int;
      var expectedBytes := count * 2;
      if byteCount != expectedBytes {
        return false;
      }
      if length < 3 + byteCount + 2 {
        return false;
      }
      hide Payload;
      TakeWords(response, length, count, data);
      ok := true;
    }

    /** Big-endian register words into the caller's buffer. */
    method TakeWords(response: array<bv8>, length: nat, count: nat, data: array<bv16>)
      requires 3 + 2 * count <= length <= response.Length && count <= data.Length
      modifies data
      ensures data[..count] == Payload(response[..length], count)
      ensures data[count..] == old(data[count..])
    {
      hide Join16;
      var i := 0;
      while i < count
        invariant 0 <= i <= count
        invariant forall j | 0 <= j < i :: data[j] == Join16(response[3 + 2 * j], response[4 + 2 * j])
        invariant data[count..] == old(data[count..])
      {
        var offset := 3 + (i * 2);
        data[i] := Join16(response[offset], response[offset + 1]);
        i := i + 1;
      }
    }

    /** One transaction: build, send, receive, check, parse. */
    method ReadOnce(slave: bv8, fc: bv8, start: uint16, count: nat, data: array<bv16>, bus: Bus, k: nat) returns (ok: bool)
      requires count <= MAX_REGISTERS && count <= data.Length
      modifies data
      ensures var words := Attempt(bus, k, Request(slave, fc, start, count));
              && (ok <==> words.Some?)
              && (ok ==> data[..count] == words.value && data[count..] == old(data[count..]))
              && (!ok ==> unchanged(data))
    {
      hide Parsed, Intact;
      var frame := new bv8[8];
      var n := BuildReadFrame(slave, fc, start, count, frame);
      if n == 0 {
        return false;
      }
      var reply := bus(k, frame[..8]);
      if reply.None? || |reply.value| > RESPONSE_BUFFER || |reply.value| < 5 {
        return false;
      }
      var response := new bv8[|reply.value|](i requires 0 <= i < |reply.value| => reply.value[i]);
      assert response[..response.Length] == reply.value;
      var intact := ValidateCRC(response, response.Length);
      if !intact {
        return false;
      }
      ok := ParseReadResponse(response, response.Length, count, data);
    }

    /** Up to n attempts, waiting twice as long after each failure. */
    method ReadWithRetry(slave: bv8, fc: bv8, start: uint16, count: uint16, data: array<bv16>, maxAttempts: nat, bus: Bus)
      returns (ok: bool, attempts: nat, waited: nat)
      requires count <= data.Length
      modifies data
      ensures var q, n := Request(slave, fc, start, count), Clamp(maxAttempts);
              var good := if initialized && 1 <= count <= 125 then FirstGood(bus, q, 1, n) else None;
              && (ok <==> good.Some?)
              && (ok ==> attempts == good.value && data[..count] == Attempt(bus, attempts, q).value
                         && data[count..] == old(data[count..]))
              && (!ok ==> unchanged(data) && attempts == if initialized && 1 <= count <= 125 then n else 0)
      ensures waited == if attempts == 0 then 0 else 100 * (Pow2(attempts - 1) - 1)
    {
      attempts, waited := 0, 0;
      if !initialized || count == 0 || count > MAX_REGISTERS {
        return false, 0, 0;
      }
      OneTry(bus, Request(slave, fc, start, count), 1, 1);
      var n := if maxAttempts < 1 then 1 else if maxAttempts > 10 then 10 else maxAttempts;
      assert n == Clamp(maxAttempts);
      hide Attempt, FirstGood, Pow2, Clamp, ReadFunction, RequestFrame;
      ghost var q := Request(slave, fc, start, count);
      var backoff := INITIAL_BACKOFF_MS;
      attempts := 1;
      while true
        invariant 1 <= attempts <= n && unchanged(data)
        invariant FirstGood(bus, q, 1, n) == FirstGood(bus, q, attempts, n)
        invariant backoff == INITIAL_BACKOFF_MS * Pow2(attempts - 1)
        invariant waited == INITIAL_BACKOFF_MS * (Pow2(attempts - 1) - 1)
        decreases n - attempts
      {
        OneTry(bus, q, attempts, n);
        ok := ReadOnce(slave, fc, start, count, data, bus, attempts);
        if ok {
          return;
        }
        if attempts == n {
          return;
        }
        waited := waited + backoff;
        backoff := backoff * 2;
        attempts := attempts + 1;
      }
    }
  }
}
