/**
 * Yubico OTP over HID feature reports of 7 bytes and a tag: requests arrive as the ten reports of a
 * 70-byte frame, answers leave as numbered reports and one that ends them.
 */
module OtpLink {
  import opened Bytes
  import opened Crc16

  const FRAME: nat := 70
  const CHUNK: nat := 7
  const DATA: nat := 64
  const RESET: byte := 0xFF

  /** A feature report; its tag is the eighth byte. */
  datatype Report = Report(payload: octets, tag: byte)

  datatype Reply = Sent(report: Report) | StatusPage

  /** What a complete request asks for. */
  datatype Request = Request(slot: bv8, data: octets)

  /** The frame buffers, how much of the answer is unsent, and the sequence numbers of the next and the last report. */
  datatype Link = Link(rx: octets, tx: octets, unsent: nat, curr: byte, exp: byte)

  /** What is unsent is in the buffer, and the reports that it takes are those still expected. */
  predicate Sound(s: Link) {
    && |s.rx| == FRAME && |s.tx| == FRAME
    && (s.unsent > 0 ==> CHUNK * s.curr + s.unsent <= FRAME && s.exp == s.curr + Chunks(s.unsent))
  }

  /** How many reports n bytes take. */
  function Chunks(n: nat): nat {
    if n % CHUNK == 0 then n / CHUNK else n / CHUNK + 1
  }

  // ---------- answers ----------

  /** n bytes of an answer followed by the complement of their checksum. */
  function Framed(answer: octets): octets {
    answer + LittleEndian16(!Crc(answer))
  }

  /** `otp_send_frame` for an answer of n bytes that is in the buffer. */
  function Send(s: Link, n: nat): (s': Link)
    requires Sound(s) && n + 2 <= FRAME
    ensures Sound(s')
  {
    s.(tx := Overwrite(s.tx, n, LittleEndian16(!Crc(s.tx[..n]))), unsent := n + 2, curr := 0, exp := Chunks(n + 2))
  }

  /** 0x40 with the sequence number. */
  function Tag(seqNo: byte): byte {
    if seqNo / 64 % 2 == 1 then seqNo else seqNo + 64
  }

  /** `otp_hid_get_report_cb`. */
  function Poll(s: Link): (r: (Reply, Link))
    requires Sound(s)
    ensures Sound(r.1)
  {
    if s.unsent > 0 then
      var k := Min(CHUNK, s.unsent);
      var from := CHUNK * s.curr;
      (Sent(Report(s.tx[from..from + k] + Fill<bv8>(0, CHUNK - k), Tag(s.curr))),
       s.(curr := s.curr + 1, unsent := s.unsent - k))
    else if s.curr == s.exp && s.exp > 0 then (Sent(Report(Fill<bv8>(0, CHUNK), 0x40)), s.(curr := 0, exp := 0))
    else (StatusPage, s)
  }

  function After(s: Link, n: nat): (s': Link)
    requires Sound(s)
    ensures Sound(s')
  {
    if n == 0 then s else Poll(After(s, n - 1)).1
  }

  /** What poll number n gets. */
  function Polled(s: Link, n: nat): Reply
    requires Sound(s)
  {
    Poll(After(s, n)).0
  }

  /** What the first n polls get. */
  function Polls(s: Link, n: nat): (r: seq<Reply>)
    requires Sound(s)
    ensures |r| == n
    ensures forall i :: 0 <= i < n ==> r[i] == Polled(s, i)
  {
    seq(n, i requires 0 <= i => Polled(s, i))
  }

  /** The payloads of all reports, one after the other. */
  function Payloads(r: seq<Reply>): octets {
    if r == [] then []
    else Payloads(r[..|r| - 1]) + (if r[|r| - 1].Sent? then r[|r| - 1].report.payload else [])
  }

  /** The state after i data reports of an answer. */
  lemma {:induction false} AfterReports(s: Link, i: nat)
    requires Sound(s) && s.curr == 0 && (i == 0 || CHUNK * (i - 1) < s.unsent)
    ensures After(s, i) == s.(curr := i, unsent := if CHUNK * i <= s.unsent then s.unsent - CHUNK * i else 0)
  {
    if i > 0 {
      AfterReports(s, i - 1);
    }
  }

  /** Data report number i of an answer. */
  lemma DataReport(s: Link, i: nat)
    requires Sound(s) && s.curr == 0 && CHUNK * i < s.unsent
    ensures var k := Min(CHUNK, s.unsent - CHUNK * i);
      0 < k && CHUNK * i + k <= FRAME
      && Polled(s, i) == Sent(Report(s.tx[CHUNK * i..CHUNK * i + k] + Fill<bv8>(0, CHUNK - k), 64 + i))
  {
    AfterReports(s, i);
  }

  lemma ExtendPrefix(s: octets, i: nat, k: nat)
    requires i + k <= |s|
    ensures s[..i] + s[i..i + k] == s[..i + k]
  {
  }

  lemma WholeReport(s: Link, i: nat)
    requires Sound(s) && s.curr == 0 && CHUNK * i + CHUNK <= s.unsent
    ensures Polled(s, i) == Sent(Report(s.tx[CHUNK * i..CHUNK * i + CHUNK], 64 + i))
  {
    DataReport(s, i);
    AppendNothing(s.tx[CHUNK * i..CHUNK * i + CHUNK]);
  }

  predicate IsChunk(r: Reply, tx: octets, from: nat) {
    from + CHUNK <= |tx| && r.Sent? && r.report.payload == tx[from..from + CHUNK]
  }

  lemma {:induction false} PayloadsOfChunks(r: seq<Reply>, tx: octets)
    requires forall i :: 0 <= i < |r| ==> IsChunk(r[i], tx, CHUNK * i)
    ensures CHUNK * |r| <= |tx| && Payloads(r) == tx[..CHUNK * |r|]
  {
    if r != [] {
      var k := |r| - 1;
      PayloadsOfChunks(r[..k], tx);
      assert IsChunk(r[k], tx, CHUNK * k);
      ExtendPrefix(tx, CHUNK * k, CHUNK);
    }
  }

  lemma PayloadsWhole(s: Link, n: nat)
    requires Sound(s) && s.curr == 0 && CHUNK * n <= s.unsent && s.unsent > 0
    ensures Payloads(Polls(s, n)) == s.tx[..CHUNK * n]
  {
    forall i | 0 <= i < n
      ensures IsChunk(Polled(s, i), s.tx, CHUNK * i)
    {
      WholeReport(s, i);
    }
    PayloadsOfChunks(Polls(s, n), s.tx);
  }

  lemma ChunksExact(n: nat, whole: nat, part: nat)
    requires n == CHUNK * whole + part && part < CHUNK
    ensures Chunks(n) == if part == 0 then whole else whole + 1
  {
  }

  lemma PollsNext(s: Link, n: nat)
    requires Sound(s) && Polled(s, n).Sent?
    ensures Payloads(Polls(s, n + 1)) == Payloads(Polls(s, n)) + Polled(s, n).report.payload
  {
    assert Polls(s, n + 1)[..n] == Polls(s, n);
  }

  lemma PartialReport(s: Link, whole: nat, part: nat)
    requires Sound(s) && s.curr == 0 && s.unsent == CHUNK * whole + part && 0 < part < CHUNK
    ensures Polled(s, whole)
      == Sent(Report(s.tx[CHUNK * whole..CHUNK * whole + part] + Fill<bv8>(0, CHUNK - part), 64 + whole))
  {
    DataReport(s, whole);
  }

  lemma PayloadsPartial(s: Link, whole: nat, part: nat)
    requires Sound(s) && s.curr == 0 && s.unsent == CHUNK * whole + part && 0 < part < CHUNK
    ensures Payloads(Polls(s, whole + 1)) == s.tx[..s.unsent] + Fill<bv8>(0, CHUNK - part)
  {
    PayloadsWhole(s, whole);
    PartialReport(s, whole, part);
    PollsNext(s, whole);
    PartialPiece(s.tx, CHUNK * whole, part, Fill<bv8>(0, CHUNK - part));
  }

  /** All data reports of an answer together. */
  lemma PayloadsJoin(s: Link)
    requires Sound(s) && s.curr == 0 && s.unsent > 0
    ensures Payloads(Polls(s, Chunks(s.unsent))) == s.tx[..s.unsent] + Fill<bv8>(0, CHUNK * Chunks(s.unsent) - s.unsent)
  {
    var (whole, part) := (s.unsent / CHUNK, s.unsent % CHUNK);
    ChunksExact(s.unsent, whole, part);
    if part == 0 {
      PayloadsWhole(s, whole);
      AppendNothing(s.tx[..s.unsent]);
    } else {
      PayloadsPartial(s, whole, part);
    }
  }

  lemma AppendNothing(s: octets)
    ensures s + Fill<bv8>(0, 0) == s
  {
  }

  lemma PartialPiece(s: octets, i: nat, k: nat, z: octets)
    requires i + k <= |s|
    ensures s[..i] + (s[i..i + k] + z) == s[..i + k] + z
  {
  }

  /** After the last data report: one report that ends the answer, then the status page for good. */
  lemma {:induction false} AfterAnswer(s: Link, i: nat)
    requires Sound(s) && s.curr == 0 && Chunks(s.unsent) <= i && s.unsent > 0
    ensures Polled(s, i) == if i == Chunks(s.unsent) then Sent(Report(Fill<bv8>(0, CHUNK), 0x40)) else StatusPage
    ensures After(s, i + 1) == s.(curr := 0, exp := 0, unsent := 0)
  {
    if i == Chunks(s.unsent) {
      AfterReports(s, i);
    } else {
      AfterAnswer(s, i - 1);
    }
  }

  /**
   * An answer of n bytes leaves in exactly the reports that n + 2 bytes need, numbered from 0; their
   * payloads are the answer and its checksum, padded with zeros, and pass the check; then comes one
   * terminating report.
   */
  lemma AnswerDelivered(s: Link, n: nat)
    requires Sound(s) && n + 2 <= FRAME
    ensures var (s', count) := (Send(s, n), Chunks(n + 2));
      && Payloads(Polls(s', count)) == Framed(s.tx[..n]) + Fill<bv8>(0, CHUNK * count - (n + 2))
      && Passes(Framed(s.tx[..n]))
      && (forall i :: 0 <= i < count ==> Polled(s', i).Sent? && Polled(s', i).report.tag == 64 + i)
      && Polled(s', count) == Sent(Report(Fill<bv8>(0, CHUNK), 0x40))
      && (forall i :: i > count ==> Polled(s', i) == StatusPage)
  {
    var (s', count) := (Send(s, n), Chunks(n + 2));
    assert s'.tx[..n + 2] == Framed(s.tx[..n]);
    PayloadsJoin(s');
    FramedPasses(s.tx[..n]);
    forall i | 0 <= i < count
      ensures Polled(s', i).Sent? && Polled(s', i).report.tag == 64 + i
    {
      DataReport(s', i);
    }
    AfterAnswer(s', count);
    forall i | i > count
      ensures Polled(s', i) == StatusPage
    {
      AfterAnswer(s', i);
    }
  }

  lemma FramedPasses(answer: octets)
    ensures Passes(Framed(answer))
  {
    PassesExactly(answer, Low(!Crc(answer)), High(!Crc(answer)));
  }

  // ---------- requests ----------

  /** The checksum of the data, not complemented, follows the slot byte. */
  predicate Valid(frame: octets)
    requires |frame| == FRAME
  {
    Crc(frame[..DATA]) == Word(frame[DATA + 1], frame[DATA + 2])
  }

  /** The request in a complete frame. */
  function Pending(frame: octets): (r: Request)
    requires |frame| == FRAME
    ensures |r.data| == DATA
  {
    Request(frame[DATA], frame[..DATA])
  }

  /** `otp_hid_set_report_cb` up to the request it completes. */
  function Accept(s: Link, r: Report): (out: (Option<Request>, Link))
    requires Sound(s) && |r.payload| == CHUNK
    ensures Sound(out.1)
  {
    if r.tag == RESET then (None, s.(tx := Fill<bv8>(0, FRAME), unsent := 0, curr := 0, exp := 0))
    else if r.tag < 0x80 || r.tag % 32 >= 10 then (None, s)
    else
      var k := r.tag % 32;
      var rx := Overwrite(if k == 0 then Fill<bv8>(0, FRAME) else s.rx, CHUNK * k, r.payload);
      (if k == 9 && Valid(rx) then Some(Pending(rx)) else None, s.(rx := rx))
  }

  /** The report is piece k of a frame: the top bit of its tag is set, and the low five hold k. */
  predicate IsPiece(r: Report, k: nat) {
    0x80 <= r.tag < 0xFF && r.tag % 32 == k && k <= 9
  }

  /** A reset ends the answer in progress; what is neither a reset nor a piece of a frame is ignored. */
  lemma OthersIgnored(s: Link, r: Report)
    requires Sound(s) && |r.payload| == CHUNK
    ensures r.tag == 0xFF ==> Accept(s, r) == (None, Link(s.rx, Fill<bv8>(0, 70), 0, 0, 0))
    ensures r.tag != 0xFF && !IsPiece(r, r.tag % 32) ==> Accept(s, r) == (None, s)
  {
  }

  /** A piece is put in its place, the first into an empty frame; the last completes a request if the CRC fits. */
  lemma PieceTaken(s: Link, r: Report, k: nat)
    requires Sound(s) && |r.payload| == CHUNK && IsPiece(r, k)
    ensures var (request, s') := Accept(s, r);
      && s' == s.(rx := s'.rx) && |s'.rx| == 70
      && (forall i :: 0 <= i < 70 ==>
            s'.rx[i] == if 7 * k <= i < 7 * k + 7 then r.payload[i - 7 * k] else if k == 0 then 0 else s.rx[i])
      && (request.Some? <==>
            k == 9 && Crc(s'.rx[..64]) == (s'.rx[65] as bv16) | ((s'.rx[66] as bv16) << 8))
      && (request.Some? ==> request.value == Request(s'.rx[64], s'.rx[..64]))
  {
    AcceptsPiece(s, r, k);
    OverwriteBytes(if k == 0 then Fill<bv8>(0, FRAME) else s.rx, CHUNK * k, r.payload);
    ValidMeans(Accept(s, r).1.rx);
  }

  lemma AcceptsPiece(s: Link, r: Report, k: nat)
    requires Sound(s) && |r.payload| == CHUNK && IsPiece(r, k)
    ensures var rx := Overwrite(if k == 0 then Fill<bv8>(0, FRAME) else s.rx, CHUNK * k, r.payload);
      Accept(s, r) == (if k == 9 && Valid(rx) then Some(Pending(rx)) else None, s.(rx := rx))
  {
  }

  lemma ValidMeans(frame: octets)
    requires |frame| == FRAME
    ensures Valid(frame) <==> Crc(frame[..64]) == (frame[65] as bv16) | ((frame[66] as bv16) << 8)
  {
  }

  lemma OverwriteBytes(d: octets, at: nat, v: octets)
    requires at + |v| <= |d|
    ensures |Overwrite(d, at, v)| == |d|
    ensures forall i :: 0 <= i < |d| ==> Overwrite(d, at, v)[i] == if at <= i < at + |v| then v[i - at] else d[i]
  {
  }

  /** The reports of a frame, as a host numbers them. */
  function Piece(frame: octets, k: nat): (r: Report)
    requires |frame| == FRAME && k < 10
    ensures |r.payload| == CHUNK
  {
    Report(frame[CHUNK * k..CHUNK * k + CHUNK], 0x80 + k)
  }

  /** After the first n reports of a frame. */
  function Received(s: Link, frame: octets, n: nat): (s': Link)
    requires Sound(s) && |frame| == FRAME && n <= 10
    ensures Sound(s')
  {
    if n == 0 then s else Accept(Received(s, frame, n - 1), Piece(frame, n - 1)).1
  }

  lemma AcceptPiece(s: Link, frame: octets, k: nat)
    requires Sound(s) && |frame| == FRAME && k < 10
    ensures var before := if k == 0 then Fill<bv8>(0, FRAME) else s.rx;
      var rx := Overwrite(before, CHUNK * k, frame[CHUNK * k..CHUNK * k + CHUNK]);
      Accept(s, Piece(frame, k))
        == (if k == 9 && Valid(rx) then Some(Pending(rx)) else None, s.(rx := rx))
  {
  }

  lemma PatchNext(frame: octets, rx: octets, i: nat)
    requires |frame| == |rx| && i + CHUNK <= |rx| && rx == frame[..i] + Fill<bv8>(0, |rx| - i)
    ensures Overwrite(rx, i, frame[i..i + CHUNK]) == frame[..i + CHUNK] + Fill<bv8>(0, |rx| - i - CHUNK)
  {
    ExtendPrefix(frame, i, CHUNK);
    assert rx[i + CHUNK..] == Fill<bv8>(0, |rx| - i - CHUNK);
    assert rx[..i] == frame[..i];
  }

  lemma {:induction false} ReceivedPrefix(s: Link, frame: octets, n: nat)
    requires Sound(s) && |frame| == FRAME && 0 < n <= 10
    ensures Received(s, frame, n) == s.(rx := frame[..CHUNK * n] + Fill<bv8>(0, FRAME - CHUNK * n))
  {
    var before := Received(s, frame, n - 1);
    AcceptPiece(before, frame, n - 1);
    if n == 1 {
      assert before == s;
      assert frame[..0] + Fill<bv8>(0, FRAME) == Fill<bv8>(0, FRAME);
      PatchNext(frame, Fill<bv8>(0, FRAME), 0);
    } else {
      ReceivedPrefix(s, frame, n - 1);
      PatchNext(frame, before.rx, CHUNK * (n - 1));
    }
  }

  /**
   * Whatever came before, the ten reports of a frame rebuild it exactly. The request it holds is
   * taken at the last report and not sooner, if and only if the checksum fits.
   */
  lemma FrameRebuilt(s: Link, frame: octets)
    requires Sound(s) && |frame| == FRAME
    ensures Received(s, frame, 10) == s.(rx := frame)
    ensures forall k :: 0 <= k < 10 ==>
      Accept(Received(s, frame, k), Piece(frame, k)).0
        == if k == 9 && Valid(frame) then Some(Pending(frame)) else None
  {
    ReceivedPrefix(s, frame, 10);
    AppendNothing(frame);
    assert frame[..FRAME] == frame;
    forall k | 0 <= k < 10
      ensures Accept(Received(s, frame, k), Piece(frame, k)).0
        == if k == 9 && Valid(frame) then Some(Pending(frame)) else None
    {
      AcceptPiece(Received(s, frame, k), frame, k);
      if k == 9 {
        LastPiece(s, frame);
      }
    }
  }

  lemma LastPiece(s: Link, frame: octets)
    requires Sound(s) && |frame| == FRAME
    ensures Overwrite(Received(s, frame, 9).rx, CHUNK * 9, frame[CHUNK * 9..]) == frame
  {
    ReceivedPrefix(s, frame, 9);
    assert Received(s, frame, 9).rx[..CHUNK * 9] == frame[..CHUNK * 9];
  }

  /** The frame of a request, as a host builds it. */
  function Requested(r: Request, filler: octets): (frame: octets)
    requires |r.data| == DATA && |filler| == 3
    ensures |frame| == FRAME
  {
    r.data + [r.slot] + LittleEndian16(Crc(r.data)) + filler
  }

  lemma WordOfLittleEndian(c: bv16)
    ensures Word(Low(c), High(c)) == c
  {
  }

  /** A request arrives as it was sent. */
  lemma RequestArrives(s: Link, r: Request, filler: octets)
    requires Sound(s) && |r.data| == DATA && |filler| == 3
    ensures var frame := Requested(r, filler);
      Accept(Received(s, frame, 9), Piece(frame, 9)).0 == Some(r)
  {
    var frame := Requested(r, filler);
    assert frame[..DATA] == r.data && frame[DATA] == r.slot;
    assert frame[DATA + 1] == Low(Crc(r.data)) && frame[DATA + 2] == High(Crc(r.data));
    WordOfLittleEndian(Crc(r.data));
    FrameRebuilt(s, frame);
  }

  /** The checksum covers the data and its own two bytes; not the slot byte, and not the last three. */
  predicate Covered(i: nat) {
    i < DATA || i == DATA + 1 || i == DATA + 2
  }

  lemma OverwrittenAt(frame: octets, i: nat, a: bv8, b: bv8, k: nat)
    requires i + 1 < |frame| && k < |frame|
    ensures Overwrite(frame, i, [a, b])[k] == if k == i then a else if k == i + 1 then b else frame[k]
  {
  }

  lemma ChangedData(data: octets, tail: octets, i: nat, d: octets)
    requires i + |d| <= |data|
    ensures Overwrite(data + tail, i, d)[..|data|] == data[..i] + d + data[i + |d|..]
  {
  }

  /** Two bytes of the data are changed. */
  lemma DataChangeFound(frame: octets, i: nat, a: bv8, b: bv8)
    requires |frame| == FRAME && Valid(frame) && i + 1 < DATA
    ensures Valid(Overwrite(frame, i, [a, b])) <==> a == frame[i] && b == frame[i + 1]
  {
    var (data, changed) := (frame[..DATA], Overwrite(frame, i, [a, b]));
    assert frame == data + frame[DATA..];
    ChangedData(data, frame[DATA..], i, [a, b]);
    OverwrittenAt(frame, i, a, b, DATA + 1);
    OverwrittenAt(frame, i, a, b, DATA + 2);
    assert data == data[..i] + [frame[i], frame[i + 1]] + data[i + 2..];
    if Valid(changed) {
      BurstDetected(data[..i], frame[i], frame[i + 1], a, b, data[i + 2..]);
    }
  }

  /** The last byte of the data and the slot byte are changed. */
  lemma LastDataChangeFound(frame: octets, a: bv8, b: bv8)
    requires |frame| == FRAME && Valid(frame)
    ensures Valid(Overwrite(frame, DATA - 1, [a, b])) <==> a == frame[DATA - 1]
  {
    var (data, changed) := (frame[..DATA], Overwrite(frame, DATA - 1, [a, b]));
    OverwrittenAt(frame, DATA - 1, a, b, DATA + 1);
    OverwrittenAt(frame, DATA - 1, a, b, DATA + 2);
    assert changed[..DATA] == data[DATA - 1 := a];
    if a != frame[DATA - 1] {
      OneByteDetected(data, DATA - 1, a);
    } else {
      assert data[DATA - 1 := a] == data;
    }
  }

  lemma WordInjective(lo: bv8, hi: bv8, lo': bv8, hi': bv8)
    ensures Word(lo, hi) == Word(lo', hi') <==> lo == lo' && hi == hi'
  {
  }

  /** Two bytes behind the data are changed. */
  lemma TailChangeFound(frame: octets, i: nat, a: bv8, b: bv8)
    requires |frame| == FRAME && Valid(frame) && DATA <= i && i + 1 < FRAME
    ensures Valid(Overwrite(frame, i, [a, b]))
      <==> (Covered(i) ==> a == frame[i]) && (Covered(i + 1) ==> b == frame[i + 1])
  {
    var changed := Overwrite(frame, i, [a, b]);
    OverwrittenAt(frame, i, a, b, DATA + 1);
    OverwrittenAt(frame, i, a, b, DATA + 2);
    assert changed[..DATA] == frame[..DATA];
    TailValid(frame, changed);
  }

  lemma TailValid(frame: octets, changed: octets)
    requires |frame| == |changed| == FRAME && Valid(frame) && changed[..DATA] == frame[..DATA]
    ensures Valid(changed) <==> changed[DATA + 1] == frame[DATA + 1] && changed[DATA + 2] == frame[DATA + 2]
  {
    WordInjective(frame[DATA + 1], frame[DATA + 2], changed[DATA + 1], changed[DATA + 2]);
  }

  /**
   * A valid frame in which two adjacent bytes are changed is still taken exactly when the changes are
   * not to the data and not to the checksum.
   */
  lemma ChangeFoundExactly(frame: octets, i: nat, a: bv8, b: bv8)
    requires |frame| == FRAME && Valid(frame) && i + 1 < FRAME
    ensures Valid(Overwrite(frame, i, [a, b]))
      <==> (Covered(i) ==> a == frame[i]) && (Covered(i + 1) ==> b == frame[i + 1])
  {
    if i + 1 < DATA {
      DataChangeFound(frame, i, a, b);
    } else if i < DATA {
      LastDataChangeFound(frame, a, b);
    } else {
      TailChangeFound(frame, i, a, b);
    }
  }

  lemma RequestedValid(r: Request, filler: octets)
    requires |r.data| == DATA && |filler| == 3
    ensures Valid(Requested(r, filler)) && Pending(Requested(r, filler)) == r
  {
    var frame := Requested(r, filler);
    assert frame[..DATA] == r.data && frame[DATA] == r.slot;
    assert frame[DATA + 1] == Low(Crc(r.data)) && frame[DATA + 2] == High(Crc(r.data));
    WordOfLittleEndian(Crc(r.data));
  }

  /** A request with its data or checksum changed, within two adjacent bytes of the frame, is not taken. */
  lemma ChangedRequestDropped(s: Link, r: Request, filler: octets, i: nat, a: bv8, b: bv8)
    requires Sound(s) && |r.data| == DATA && |filler| == 3 && i + 1 < FRAME
    requires var frame := Requested(r, filler);
      (Covered(i) && a != frame[i]) || (Covered(i + 1) && b != frame[i + 1])
    ensures var frame := Overwrite(Requested(r, filler), i, [a, b]);
      Accept(Received(s, frame, 9), Piece(frame, 9)).0 == None
  {
    RequestedValid(r, filler);
    ChangeFoundExactly(Requested(r, filler), i, a, b);
    FrameRebuilt(s, Overwrite(Requested(r, filler), i, [a, b]));
  }

  /** A request with its slot byte changed is taken, for the other slot. */
  lemma ChangedSlotTaken(s: Link, r: Request, filler: octets, slot: bv8)
    requires Sound(s) && |r.data| == DATA && |filler| == 3
    ensures var frame := Requested(r, filler)[DATA := slot];
      Accept(Received(s, frame, 9), Piece(frame, 9)).0 == Some(r.(slot := slot))
  {
    assert Requested(r, filler)[DATA := slot] == Requested(r.(slot := slot), filler);
    RequestArrives(s, r.(slot := slot), filler);
  }

  // ---------- from request to answer ----------

  /** The application behind the link: the answer to a request, if there is one. */
  ghost predicate Fits(app: Request -> Option<octets>) {
    forall r :: app(r).Some? ==> 0 < |app(r).value| <= FRAME - 2
  }

  /** A request that completes is passed on, and its answer is sent. */
  function Serve(s: Link, r: Report, app: Request -> Option<octets>): (s': Link)
    requires Sound(s) && |r.payload| == CHUNK && Fits(app)
    ensures Sound(s')
  {
    var (request, s1) := Accept(s, r);
    if request.None? then s1 else Forward(s1, request.value, app)
  }

  function Forward(s: Link, request: Request, app: Request -> Option<octets>): (s': Link)
    requires Sound(s) && Fits(app)
    ensures Sound(s')
  {
    if app(request).None? then s else Answer(s, app(request).value)
  }

  function Answer(s: Link, answer: octets): (s': Link)
    requires Sound(s) && 0 < |answer| <= FRAME - 2
    ensures Sound(s')
  {
    Send(s.(tx := Overwrite(s.tx, 0, answer)), |answer|)
  }

  lemma Served(s: Link, report: Report, r: Request, app: Request -> Option<octets>)
    requires Sound(s) && |report.payload| == CHUNK && Fits(app)
    requires Accept(s, report).0 == Some(r) && app(r).Some?
    ensures Serve(s, report, app) == Answer(Accept(s, report).1, app(r).value)
  {
  }

  lemma AnswerPolled(s: Link, answer: octets)
    requires Sound(s) && 0 < |answer| <= FRAME - 2
    ensures var n := |answer| + 2;
      Payloads(Polls(Answer(s, answer), Chunks(n))) == Framed(answer) + Fill<bv8>(0, CHUNK * Chunks(n) - n)
  {
    var ready := s.(tx := Overwrite(s.tx, 0, answer));
    AnswerDelivered(ready, |answer|);
    assert ready.tx[..|answer|] == answer;
  }

  /**
   * From the request to the answer: when the tenth report completes a request, the polls that follow
   * deliver the application's answer to it.
   */
  lemma RequestAnswered(s: Link, r: Request, filler: octets, app: Request -> Option<octets>)
    requires Sound(s) && |r.data| == DATA && |filler| == 3 && Fits(app) && app(r).Some?
    ensures var frame := Requested(r, filler);
      var (s', n) := (Serve(Received(s, frame, 9), Piece(frame, 9), app), |app(r).value| + 2);
      Payloads(Polls(s', Chunks(n))) == Framed(app(r).value) + Fill<bv8>(0, CHUNK * Chunks(n) - n)
  {
    var frame := Requested(r, filler);
    var (before, last) := (Received(s, frame, 9), Piece(frame, 9));
    RequestArrives(s, r, filler);
    Served(before, last, r, app);
    AnswerPolled(Accept(before, last).1, app(r).value);
  }
}
