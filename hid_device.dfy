/**
 * The HID transport session of HidDevice.cpp: enumeration with a first-match
 * filter, the handle bookkeeping, report framing for writes and the bounded
 * read with its timeout and cancellation.
 *
 * The operating system is an oracle: an enumeration is a list of candidate
 * interfaces, every write is accepted or refused by a scripted outcome, every
 * read completes, fails, or pends and then is signalled, times out or fails.
 * `ops` records, in order, every enumeration, and every write, read, wait,
 * cancel and event reset made on an open handle.
 */
module HidTransport {
  import opened Base

  // Error codes. HidDevice.h is not part of this model: the values follow
  // the order of the error table, starting at 1; 0 means success.
  const E_ERR_INV_PARAM: int := 1
  const E_ERR_NOTFOUND: int := 2
  const E_ERR_IO: int := 3
  const E_ERR_TIMEOUT: int := 4
  const E_ERR_OTHER: int := 5
  const E_ERR_LIMIT: int := 6

  /** One row of `tabErrorsName`. */
  datatype ErrorName = ErrorName(code: int, name: string)

  /** `tabErrorsName[E_ERR_LIMIT]`: five listed rows; the sixth is zero-initialised. */
  const ERROR_TABLE: seq<ErrorName> := [
    ErrorName(E_ERR_INV_PARAM, "Invalid parameter"),
    ErrorName(E_ERR_NOTFOUND, "Device not found"),
    ErrorName(E_ERR_IO, "Error calling I/O function"),
    ErrorName(E_ERR_TIMEOUT, "Timeout"),
    ErrorName(0, "No error"),
    ErrorName(0, "")
  ]

  /** `E_REPORT_TYPE`; `ReportOther` stands for any value outside the enumeration. */
  datatype ReportType = ReportIn | ReportOut | ReportFeature | ReportOther(code: int)

  /** A Win32 file handle: `INVALID_HANDLE_VALUE`, or open on an interface path. */
  datatype Handle = Invalid | Opened(path: string)

  /** What reaches the device: an output report through `WriteFile` on the
      write handle, or a feature report through `HidD_SetFeature` on the main handle. */
  datatype Frame = OutputReport(bytes: seq<byte>) | FeatureReport(bytes: seq<byte>)

  /** A call that reached the operating system, in order. */
  datatype Op =
    | Enumerate                        // SetupDiGetClassDevs
    | Write(frame: Frame)              // WriteFile / HidD_SetFeature
    | ReadFile(length: int)            // overlapped ReadFile of `length` bytes
    | Wait(timeout: int)               // WaitForSingleObject on the read event
    | CancelIo
    | ResetEvent
    | GetFeature(id: byte, length: int)

  /** How a pending read ends. `Signalled` carries the report, id byte first. */
  datatype WaitResult = Signalled(data: seq<byte>) | TimedOut | WaitFailed

  /** How a `ReadFile` call returns: completed at once, failed, or pending. */
  datatype ReadOutcome = Completed(data: seq<byte>) | Failed | Pending(wait: WaitResult)

  /** `HIDP_CAPS`, as far as Open uses it. */
  datatype Caps = Caps(usagePage: int, inputLength: int, outputLength: int)

  /** One enumerated HID interface and what the system calls on it return.
      `None` for a string or for the capabilities means the query fails. */
  datatype Candidate = Candidate(
    path: string,
    openable: bool,          // CreateFile(path) succeeds
    vid: int,
    pid: int,
    manufacturer: Option<string>,
    product: Option<string>,
    caps: Option<Caps>,      // HidD_GetPreparsedData and HidP_GetCaps
    writeOpenable: bool,     // the write-only CreateFile succeeds
    readOpenable: bool)      // the overlapped read-only CreateFile succeeds

  /** The arguments of Open. */
  datatype Filter = Filter(vid: int, pid: int, vendorName: Option<string>,
                           productName: Option<string>, usagePage: int)

  // ---------------------------------------------------------------------
  // The scripted operating system

  /** Whether the next write is accepted; an exhausted script accepts. */
  predicate Accepts(script: seq<bool>) { |script| == 0 || script[0] }

  function Tail<T>(s: seq<T>): seq<T> { if |s| == 0 then [] else s[1..] }

  /** The script after `k` outcomes are used. */
  function Drop<T>(s: seq<T>, k: nat): seq<T> { if k >= |s| then [] else s[k..] }

  /** The next read outcome; an exhausted script leaves the device silent. */
  function NextRead(s: seq<ReadOutcome>): ReadOutcome
  {
    if |s| == 0 then Pending(TimedOut) else s[0]
  }

  /** The interfaces the next enumeration lists; none once the script is exhausted. */
  function NextEnumeration(s: seq<seq<Candidate>>): seq<Candidate>
  {
    if |s| == 0 then [] else s[0]
  }

  /** A frame reaches the device only through a valid handle of its kind. */
  predicate Usable(writeOpen: bool, open: bool, f: Frame)
  {
    if f.OutputReport? then writeOpen else open
  }

  /** How many of `frames` reach the device when they are sent one after
      another and the sender stops at the first one that fails. */
  function Reach(w: bool, h: bool, script: seq<bool>, frames: seq<Frame>): (n: nat)
    ensures n <= |frames|
    ensures Delivered(w, h, script, frames) ==> n == |frames|
    decreases |frames|
  {
    if frames == [] || !Usable(w, h, frames[0]) then 0
    else if Accepts(script) then 1 + Reach(w, h, Tail(script), frames[1..])
    else 1
  }

  /** Whether every one of `frames` is accepted. */
  predicate Delivered(w: bool, h: bool, script: seq<bool>, frames: seq<Frame>)
    decreases |frames|
  {
    frames == [] ||
    (Usable(w, h, frames[0]) && Accepts(script) && Delivered(w, h, Tail(script), frames[1..]))
  }

  /** The log entries of frames handed to the operating system. */
  function Writes(frames: seq<Frame>): (r: seq<Op>)
    ensures |r| == |frames|
  {
    if frames == [] then [] else [Write(frames[0])] + Writes(frames[1..])
  }

  lemma DropTail<T>(s: seq<T>, k: nat)
    ensures Tail(Drop(s, k)) == Drop(s, k + 1)
    ensures Drop(s, 0) == s
  {
  }

  lemma {:induction false} WritesAppend(a: seq<Frame>, b: seq<Frame>)
    ensures Writes(a + b) == Writes(a) + Writes(b)
    decreases |a|
  {
    if a == [] {
      assert a + b == b;
    } else {
      assert (a + b)[1..] == a[1..] + b;
      WritesAppend(a[1..], b);
      ConcatAssoc([Write(a[0])], Writes(a[1..]), Writes(b));
    }
  }

  /** Sending `a` then `b` is sending `a + b`: `b` starts where `a`'s
      outcomes end, and only if all of `a` got through. */
  lemma {:induction false} ReachAppend(w: bool, h: bool, s: seq<bool>, a: seq<Frame>, b: seq<Frame>)
    ensures Delivered(w, h, s, a + b) == (Delivered(w, h, s, a) && Delivered(w, h, Drop(s, |a|), b))
    ensures Reach(w, h, s, a + b) ==
            if Delivered(w, h, s, a) then |a| + Reach(w, h, Drop(s, |a|), b) else Reach(w, h, s, a)
    decreases |a|
  {
    DropTail(s, 0);
    if a == [] {
      assert a + b == b;
    } else {
      assert (a + b)[0] == a[0];
      assert (a + b)[1..] == a[1..] + b;
      if Usable(w, h, a[0]) && Accepts(s) {
        ReachAppend(w, h, Tail(s), a[1..], b);
        DropOfTail(s, |a| - 1);
      }
    }
  }

  lemma DropOfTail<T>(s: seq<T>, k: nat)
    ensures Drop(Tail(s), k) == Drop(s, k + 1)
  {
  }

  /** Through valid handles, the frames sent are exactly those up to and
      including the first refused one. */
  lemma {:induction false} ReachFirstRefusal(s: seq<bool>, frames: seq<Frame>, j: nat)
    requires j < |frames| && j < |s| && !s[j]
    requires forall k :: 0 <= k < j ==> s[k]
    ensures Reach(true, true, s, frames) == j + 1
    ensures !Delivered(true, true, s, frames)
    decreases j
  {
    if j > 0 {
      assert Tail(s)[j - 1] == s[j];
      ReachFirstRefusal(Tail(s), frames[1..], j - 1);
    }
  }

  /** Through valid handles, frames all get through when no outcome they use is a refusal. */
  lemma {:induction false} ReachNoRefusal(s: seq<bool>, frames: seq<Frame>)
    requires forall k :: 0 <= k < |frames| && k < |s| ==> s[k]
    ensures Delivered(true, true, s, frames)
    ensures Reach(true, true, s, frames) == |frames|
    decreases |frames|
  {
    if frames != [] {
      assert forall k :: 0 <= k < |frames| - 1 && k < |Tail(s)| ==> Tail(s)[k] == s[k + 1];
      ReachNoRefusal(Tail(s), frames[1..]);
    }
  }

  /** The part of a session that sending reports uses and changes: whether
      the write handle and the main handle are open, the outcomes still to
      come, and the log. */
  datatype Link = Link(writeOpen: bool, open: bool, script: seq<bool>, log: seq<Op>)

  /** Sends `frames` one after another, stopping after the first failure. */
  function Send(l: Link, frames: seq<Frame>): (r: Link)
    ensures r.writeOpen == l.writeOpen && r.open == l.open
    ensures |l.log| <= |r.log| <= |l.log| + |frames|
    ensures r.log[..|l.log|] == l.log
  {
    var n := Reach(l.writeOpen, l.open, l.script, frames);
    Link(l.writeOpen, l.open, Drop(l.script, n), l.log + Writes(frames[..n]))
  }

  /** Whether every one of `frames` is accepted. */
  predicate Accepted(l: Link, frames: seq<Frame>)
  {
    Delivered(l.writeOpen, l.open, l.script, frames)
  }

  lemma ConcatAssoc<T>(x: seq<T>, y: seq<T>, z: seq<T>)
    ensures x + (y + z) == x + y + z
  {
  }

  lemma DropDrop<T>(s: seq<T>, j: nat, k: nat)
    ensures Drop(Drop(s, j), k) == Drop(s, j + k)
  {
  }

  /** Sending `a + b` is sending `a`, then `b` if all of `a` got through. */
  lemma SendAppend(l: Link, a: seq<Frame>, b: seq<Frame>)
    ensures Accepted(l, a + b) == (Accepted(l, a) && Accepted(Send(l, a), b))
    ensures Accepted(l, a) ==> Send(l, a + b) == Send(Send(l, a), b)
    ensures !Accepted(l, a) ==> Send(l, a + b) == Send(l, a)
  {
    ReachAppend(l.writeOpen, l.open, l.script, a, b);
    if Accepted(l, a) {
      SendAppendAccepted(l, a, b);
    } else {
      SendAppendRefused(l, a, b);
    }
  }

  lemma SendAppendAccepted(l: Link, a: seq<Frame>, b: seq<Frame>)
    requires Accepted(l, a)
    ensures Send(l, a + b) == Send(Send(l, a), b)
  {
    var w, h, s := l.writeOpen, l.open, l.script;
    var m := Reach(w, h, Drop(s, |a|), b);
    assert Reach(w, h, s, a + b) == |a| + m by {
      ReachAppend(w, h, s, a, b);
    }
    SendAll(l, a);
    var la := Send(l, a);
    SendIs(la, b, m);
    SendIs(l, a + b, |a| + m);
    var x, y := Send(l, a + b), Send(la, b);
    assert x.script == y.script by {
      DropDrop(s, |a|, m);
    }
    assert x.log == y.log by {
      LogAppend(l.log, a, b, m);
    }
    LinkFields(x, y);
  }

  /** Links that agree field by field are equal. */
  lemma LinkFields(x: Link, y: Link)
    requires x.writeOpen == y.writeOpen && x.open == y.open
    requires x.script == y.script && x.log == y.log
    ensures x == y
  {
  }

  /** Send spelled out when every frame gets through. */
  lemma SendAll(l: Link, frames: seq<Frame>)
    requires Accepted(l, frames)
    ensures Send(l, frames).script == Drop(l.script, |frames|)
    ensures Send(l, frames).log == l.log + Writes(frames)
  {
    assert frames[..|frames|] == frames;
  }

  lemma LogAppend(log: seq<Op>, a: seq<Frame>, b: seq<Frame>, m: nat)
    requires m <= |b|
    ensures log + Writes((a + b)[..|a| + m]) == log + Writes(a) + Writes(b[..m])
  {
    assert (a + b)[..|a| + m] == a + b[..m];
    WritesAppend(a, b[..m]);
    ConcatAssoc(log, Writes(a), Writes(b[..m]));
  }

  /** Send spelled out once the number of frames that reach the device is known. */
  lemma SendIs(l: Link, frames: seq<Frame>, n: nat)
    requires Reach(l.writeOpen, l.open, l.script, frames) == n
    ensures n <= |frames|
    ensures Send(l, frames).script == Drop(l.script, n)
    ensures Send(l, frames).log == l.log + Writes(frames[..n])
  {
  }

  lemma SendAppendRefused(l: Link, a: seq<Frame>, b: seq<Frame>)
    requires !Accepted(l, a)
    ensures Send(l, a + b) == Send(l, a)
  {
    var w, h, s := l.writeOpen, l.open, l.script;
    ReachAppend(w, h, s, a, b);
    var n := Reach(w, h, s, a);
    assert (a + b)[..n] == a[..n];
  }

  /** Sending nothing changes nothing. */
  lemma SendNothing(l: Link)
    ensures Send(l, []) == l && Accepted(l, [])
  {
    DropTail(l.script, 0);
    assert l.log + Writes([]) == l.log;
  }


  /** Through a closed write handle no output report reaches the device and nothing is logged. */
  lemma {:induction false} SendClosed(l: Link, frames: seq<Frame>)
    requires !l.writeOpen && |frames| > 0 && frames[0].OutputReport?
    ensures Send(l, frames) == l && !Accepted(l, frames)
  {
    assert frames[..0] == [];
  }

  // ---------------------------------------------------------------------
  // Report layouts

  /** `sendbuf` of WriteReport: the id in byte 0, the payload from byte 1,
      zero up to 65 bytes. */
  function ReportFrame(id: int, payload: seq<byte>): (r: seq<byte>)
    requires |payload| < 65
    ensures |r| == 65 && r[0] == id % 256
    ensures r[1..|payload| + 1] == payload
    ensures forall i :: |payload| < i < 65 ==> r[i] == 0
  {
    [id % 256] + payload + Zeros(64 - |payload|)
  }

  /** The caller's buffer after a successful read of `size` bytes: the report
      `data` as delivered (id byte first) with the id byte stripped, and zero
      past what the device delivered. */
  function Payload(data: seq<byte>, size: nat): seq<byte>
  {
    seq(size, i => if 0 <= i < |data| - 1 then data[i + 1] else 0)
  }

  /** A report of exactly the requested length comes back with just its id byte removed. */
  lemma PayloadStripsId(data: seq<byte>, size: nat)
    requires |data| == size + 1
    ensures Payload(data, size) == data[1..]
  {
  }

  /** What a bounded IN read does. */
  datatype InRead = InRead(status: int, ops: seq<Op>, data: Option<seq<byte>>)

  /** The IN branch of ReadReport: `length` bytes are asked for, `o` is how the
      `ReadFile` call returns; a wait on an event that was never created fails. */
  function ReadInput(readOpen: bool, eventOk: bool, o: ReadOutcome, length: int, timeout: int): (r: InRead)
    ensures r.status == 0 <==> r.data.Some?
    ensures r.status == 0 || r.status == E_ERR_IO || r.status == E_ERR_TIMEOUT
    ensures r.status == E_ERR_TIMEOUT ==> r.ops == [ReadFile(length), Wait(timeout), CancelIo, ResetEvent]
    ensures !readOpen ==> r == InRead(E_ERR_IO, [], None)
    ensures readOpen ==> |r.ops| > 0 && r.ops[0] == ReadFile(length)
  {
    if !readOpen then InRead(E_ERR_IO, [], None)
    else match o
      case Completed(d) => InRead(0, [ReadFile(length)], Some(d))
      case Failed => InRead(E_ERR_IO, [ReadFile(length)], None)
      case Pending(w) =>
        match (if eventOk then w else WaitFailed)
        case Signalled(d) => InRead(0, [ReadFile(length), Wait(timeout), ResetEvent], Some(d))
        case TimedOut => InRead(E_ERR_TIMEOUT, [ReadFile(length), Wait(timeout), CancelIo, ResetEvent], None)
        case WaitFailed => InRead(E_ERR_IO, [ReadFile(length), Wait(timeout), ResetEvent], None)
  }

  // ---------------------------------------------------------------------
  // The enumeration filter of Open

  /** What one pass of Open's loop makes of a candidate: skip it keeping the
      error code, reject it with a new error code, or accept it. */
  datatype Verdict = Skip | Reject(error: int) | Accept

  /** VID and PID 0 match anything. */
  predicate IdMatches(c: Candidate, f: Filter)
  {
    (f.vid == 0 || c.vid == f.vid) && (f.pid == 0 || c.pid == f.pid)
  }

  function Judge(c: Candidate, f: Filter): (v: Verdict)
    ensures v.Skip? <==> !c.openable || !IdMatches(c, f)
    ensures v.Reject? ==> v.error == E_ERR_NOTFOUND || v.error == E_ERR_IO
    ensures f.vendorName == None && f.productName == None && f.usagePage < 0 ==> (v.Accept? <==> !v.Skip?)
  {
    if !c.openable then Skip
    else if f.vid != 0 && c.vid != f.vid then Skip
    else if f.pid != 0 && c.pid != f.pid then Skip
    else if f.vendorName.Some? && c.manufacturer.None? then Reject(E_ERR_IO)
    else if f.vendorName.Some? && c.manufacturer.value != f.vendorName.value then Reject(E_ERR_NOTFOUND)
    else if f.productName.Some? && c.product.None? then Reject(E_ERR_IO)
    else if f.productName.Some? && c.product.value != f.productName.value then Reject(E_ERR_NOTFOUND)
    else if f.usagePage >= 0 && c.caps.None? then Reject(E_ERR_IO)
    else if f.usagePage >= 0 && c.caps.value.usagePage != f.usagePage then Reject(E_ERR_NOTFOUND)
    else Accept
  }

  datatype ScanResult = Found(index: nat) | Missed(error: int)

  /** Open's loop from candidate `i` on, with error code `err` so far. */
  function ScanFrom(cands: seq<Candidate>, i: nat, f: Filter, err: int): (r: ScanResult)
    requires i <= |cands|
    ensures r.Found? ==> i <= r.index < |cands| && Judge(cands[r.index], f).Accept?
    ensures r.Found? ==> forall j :: i <= j < r.index ==> !Judge(cands[j], f).Accept?
    ensures r.Missed? ==> forall j :: i <= j < |cands| ==> !Judge(cands[j], f).Accept?
    decreases |cands| - i
  {
    if i == |cands| then Missed(err)
    else match Judge(cands[i], f)
      case Skip => ScanFrom(cands, i + 1, f, err)
      case Reject(e) => ScanFrom(cands, i + 1, f, e)
      case Accept => Found(i)
  }

  /** When nothing matches, the error is the one left by the last candidate
      whose ids matched (NOTFOUND, or IO if one of its queries failed), or
      NOTFOUND when no candidate's ids matched. */
  lemma {:induction false} MissedError(cands: seq<Candidate>, i: nat, f: Filter, err: int)
    requires i <= |cands| && ScanFrom(cands, i, f, err).Missed?
    ensures var e := ScanFrom(cands, i, f, err).error;
      || (e == err && forall j :: i <= j < |cands| ==> Judge(cands[j], f).Skip?)
      || (exists j :: i <= j < |cands| && Judge(cands[j], f) == Reject(e) &&
                      forall k :: j < k < |cands| ==> Judge(cands[k], f).Skip?)
    decreases |cands| - i
  {
    if i < |cands| {
      MissedError(cands, i + 1, f, if Judge(cands[i], f).Reject? then Judge(cands[i], f).error else err);
    }
  }

  /** With wildcard ids and no string or usage-page check, Open takes the
      first interface it can open, and reports NOTFOUND when there is none. */
  lemma {:induction false} WildcardTakesFirstOpenable(cands: seq<Candidate>, i: nat, err: int)
    requires i <= |cands|
    ensures var r := ScanFrom(cands, i, Filter(0, 0, None, None, -1), err);
      && (r.Found? <==> exists j :: i <= j < |cands| && cands[j].openable)
      && (r.Found? ==> cands[r.index].openable && forall j :: i <= j < r.index ==> !cands[j].openable)
      && (r.Missed? ==> r.error == err)
    decreases |cands| - i
  {
    if i < |cands| {
      WildcardTakesFirstOpenable(cands, i + 1, err);
    }
  }

  /** CreateReadWriteHandles' result: IO when either handle cannot be
      created, OTHER when the wait event is needed and cannot be created. */
  function HandlesResult(canWrite: bool, canRead: bool, eventCreated: bool, eventCreatable: bool): int
  {
    if !canWrite || !canRead then E_ERR_IO
    else if eventCreated || eventCreatable then 0
    else E_ERR_OTHER
  }

  /** Open's result. */
  function OpenResult(cands: seq<Candidate>, f: Filter, eventCreated: bool, eventCreatable: bool): (status: int)
    ensures status == 0 ==> exists k :: 0 <= k < |cands| && Judge(cands[k], f).Accept?
    ensures (forall k :: 0 <= k < |cands| ==> !Judge(cands[k], f).Accept?) ==>
              status == E_ERR_NOTFOUND || status == E_ERR_IO
  {
    match ScanFrom(cands, 0, f, E_ERR_NOTFOUND)
    case Missed(e) =>
      MissedError(cands, 0, f, E_ERR_NOTFOUND);
      e
    case Found(k) =>
      HandlesResult(cands[k].writeOpenable, cands[k].readOpenable, eventCreated, eventCreatable)
  }

  // ---------------------------------------------------------------------
  // UnicodeToAscii

  /** The 16-bit unit `k` of a byte buffer, little-endian as on the x86 targets. */
  function Unit(buf: seq<byte>, k: nat): int
    requires 2 * k + 1 < |buf|
  {
    buf[2 * k] as int + 256 * buf[2 * k + 1] as int
  }

  /** The buffer holds `n` non-zero units below 256 and then a zero unit. */
  predicate Terminated(buf: seq<byte>, n: nat)
  {
    2 * n + 1 < |buf| && Unit(buf, n) == 0 &&
    forall k :: 0 <= k < n ==> 0 < Unit(buf, k) < 256
  }

  /** The buffer holds `n` non-zero units of any width and then a zero unit. */
  predicate TerminatedWide(buf: seq<byte>, n: nat)
  {
    2 * n + 1 < |buf| && Unit(buf, n) == 0 &&
    forall k :: 0 <= k < n ==> Unit(buf, k) != 0
  }

  /** The byte a unit narrows to: itself below 256, '?' otherwise. */
  function Narrow(u: int): (b: byte)
    requires 0 <= u < 0x1_0000
    ensures u < 256 ==> b == u
    ensures u >= 256 ==> b == 0x3F
  {
    if u >= 256 then 0x3F else u
  }

  /** The two pointers of UnicodeToAscii: `read` counts units, `write` bytes. */
  datatype Cursor = Cursor(buf: seq<byte>, read: nat, write: nat)

  /** One turn of UnicodeToAscii's loop body. */
  function ConvertStep(c: Cursor): Cursor
    requires 2 * c.read + 1 < |c.buf| && c.write < |c.buf|
  {
    var u := Unit(c.buf, c.read);
    if u >= 256 then Cursor(c.buf[c.write := 0x3F], c.read, c.write + 1)   // '?'
    else Cursor(c.buf[c.write := u], c.read + 1, c.write + 1)
  }

  /** Up to `k` turns of the loop, stopping at a zero unit or at the end of the buffer. */
  function Run(c: Cursor, k: nat): Cursor
    decreases k
  {
    if k == 0 || !(2 * c.read + 1 < |c.buf| && c.write < |c.buf|) || Unit(c.buf, c.read) == 0 then c
    else Run(ConvertStep(c), k - 1)
  }

  /** A unit of 256 or more stays one of 256 or more after a turn, whatever
      byte the turn overwrites, and the read pointer does not move. */
  lemma WideUnitStalls(c: Cursor)
    requires 2 * c.read + 1 < |c.buf| && c.write < |c.buf|
    requires Unit(c.buf, c.read) >= 256
    ensures ConvertStep(c).read == c.read
    ensures 2 * c.read + 1 < |ConvertStep(c).buf| && Unit(ConvertStep(c).buf, c.read) >= 256
  {
    var b := c.buf[c.write := 0x3F];
    assert b[2 * c.read + 1] >= 1;
  }

  /** Once the read pointer is on a unit of 256 or more it never advances,
      so the loop never reaches the terminating zero unit. */
  lemma {:induction false} WideUnitNeverAdvances(c: Cursor, k: nat)
    requires 2 * c.read + 1 < |c.buf| && Unit(c.buf, c.read) >= 256
    ensures Run(c, k).read == c.read
    ensures 2 * c.read + 1 < |Run(c, k).buf| && Unit(Run(c, k).buf, c.read) >= 256
    decreases k
  {
    if k > 0 && c.write < |c.buf| {
      WideUnitStalls(c);
      WideUnitNeverAdvances(ConvertStep(c), k - 1);
    }
  }

  // ---------------------------------------------------------------------

  class HidDevice {
    var handle: Handle
    var writeHandle: Handle
    var readHandle: Handle
    var eventCreated: bool       // hEventObject != NULL
    var eventsCreated: nat       // successful CreateEvent calls so far
    var vid: int
    var pid: int
    var usagePage: int
    var reportInLength: int
    var reportOutLength: int
    var path: string

    // The operating system's side.
    var enumerations: seq<seq<Candidate>>
    var eventCreatable: bool
    var writeScript: seq<bool>
    var readScript: seq<ReadOutcome>
    var ops: seq<Op>

    /** The wait event is created at most once, however often the device is reopened. */
    ghost predicate Valid()
      reads this
    {
      eventsCreated == if eventCreated then 1 else 0
    }

    constructor (enumerations: seq<seq<Candidate>>, eventCreatable: bool,
                 writeScript: seq<bool>, readScript: seq<ReadOutcome>)
      ensures Valid() && !IsOpened()
      ensures writeHandle == Invalid && readHandle == Invalid && !eventCreated
      ensures vid == 0 && pid == 0 && usagePage == -1
      ensures reportInLength == 0 && reportOutLength == 0
      ensures this.enumerations == enumerations && this.eventCreatable == eventCreatable
      ensures this.writeScript == writeScript && this.readScript == readScript && ops == []
    {
      handle, writeHandle, readHandle := Invalid, Invalid, Invalid;
      eventCreated, eventsCreated := false, 0;
      vid, pid, usagePage := 0, 0, -1;
      reportInLength, reportOutLength := 0, 0;
      path := "";
      this.enumerations := enumerations;
      this.eventCreatable := eventCreatable;
      this.writeScript := writeScript;
      this.readScript := readScript;
      ops := [];
    }

    predicate IsOpened()
      reads this
    {
      handle.Opened?
    }

    /** Short description of an error code: the scan of the table stops at
        its first zero code, so 0 and every unlisted code give "". */
    static method GetErrorDesc(errorCode: int) returns (desc: string)
      ensures errorCode == E_ERR_INV_PARAM ==> desc == "Invalid parameter"
      ensures errorCode == E_ERR_NOTFOUND ==> desc == "Device not found"
      ensures errorCode == E_ERR_IO ==> desc == "Error calling I/O function"
      ensures errorCode == E_ERR_TIMEOUT ==> desc == "Timeout"
      ensures !(E_ERR_INV_PARAM <= errorCode <= E_ERR_TIMEOUT) ==> desc == ""
    {
      var a := 0;
      while ERROR_TABLE[a].code > 0
        invariant 0 <= a <= 4
        invariant forall k :: 0 <= k < a ==> ERROR_TABLE[k].code != errorCode
        decreases 4 - a
      {
        if ERROR_TABLE[a].code == errorCode {
          return ERROR_TABLE[a].name;
        }
        a := a + 1;
      }
      assert ERROR_TABLE[0].code != errorCode && ERROR_TABLE[1].code != errorCode;
      assert ERROR_TABLE[2].code != errorCode && ERROR_TABLE[3].code != errorCode;
      return "";
    }

    /** Narrows, in place, a zero-terminated string of 16-bit units below 256
        to bytes: byte k becomes unit k, then a zero byte follows. The write
        index never passes the read position, so no unit is overwritten before
        it is read. A unit of 256 or more would stall the loop for ever
        (WideUnitNeverAdvances), so the precondition excludes it. */
    static method UnicodeToAscii(buffer: array<byte>, ghost n: nat)
      requires Terminated(buffer[..], n)
      modifies buffer
      ensures forall k :: 0 <= k < n ==> buffer[k] == Unit(old(buffer[..]), k)
      ensures buffer[n] == 0
      ensures forall j :: n < j < buffer.Length ==> buffer[j] == old(buffer[j])
    {
      var unicode := 0;   // units read
      var ascii := 0;     // bytes written
      while buffer[2 * unicode] as int + 256 * buffer[2 * unicode + 1] as int != 0
        invariant 0 <= ascii <= 2 * unicode
        invariant ascii == unicode <= n
        invariant forall k :: 0 <= k < ascii ==> buffer[k] == Unit(old(buffer[..]), k)
        invariant forall j :: ascii <= j < buffer.Length ==> buffer[j] == old(buffer[j])
        decreases n - unicode
      {
        assert buffer[2 * unicode] == old(buffer[..])[2 * unicode];
        assert buffer[2 * unicode + 1] == old(buffer[..])[2 * unicode + 1];
        var u := buffer[2 * unicode] as int + 256 * buffer[2 * unicode + 1] as int;
        assert u == Unit(old(buffer[..]), unicode);
        if u >= 256 {
          // '?' without advancing the read pointer: excluded by the precondition.
          assert false;
        } else {
          buffer[ascii] := u;
          ascii := ascii + 1;
          unicode := unicode + 1;
        }
      }
      assert buffer[2 * unicode] == old(buffer[..])[2 * unicode];
      assert buffer[2 * unicode + 1] == old(buffer[..])[2 * unicode + 1];
      assert Unit(old(buffer[..]), unicode) == 0;
      buffer[ascii] := 0;
    }

    /** UnicodeToAscii as its '?' branch evidently intends: a unit of 256 or
        more becomes '?' and the read pointer moves past it like any other,
        so every zero-terminated buffer is converted. */
    static method UnicodeToAsciiReplacing(buffer: array<byte>, ghost n: nat)
      requires TerminatedWide(buffer[..], n)
      modifies buffer
      ensures forall k :: 0 <= k < n ==> buffer[k] == Narrow(Unit(old(buffer[..]), k))
      ensures buffer[n] == 0
      ensures forall j :: n < j < buffer.Length ==> buffer[j] == old(buffer[j])
    {
      var unicode := 0;   // units read
      var ascii := 0;     // bytes written
      while buffer[2 * unicode] as int + 256 * buffer[2 * unicode + 1] as int != 0
        invariant ascii == unicode <= n
        invariant forall k :: 0 <= k < ascii ==> buffer[k] == Narrow(Unit(old(buffer[..]), k))
        invariant forall j :: ascii <= j < buffer.Length ==> buffer[j] == old(buffer[j])
        decreases n - unicode
      {
        assert buffer[2 * unicode] == old(buffer[..])[2 * unicode];
        assert buffer[2 * unicode + 1] == old(buffer[..])[2 * unicode + 1];
        var u := buffer[2 * unicode] as int + 256 * buffer[2 * unicode + 1] as int;
        assert u == Unit(old(buffer[..]), unicode);
        if u >= 256 {
          buffer[ascii] := 0x3F;     // '?'
        } else {
          buffer[ascii] := u;
        }
        ascii := ascii + 1;
        unicode := unicode + 1;
      }
      assert buffer[2 * unicode] == old(buffer[..])[2 * unicode];
      assert buffer[2 * unicode + 1] == old(buffer[..])[2 * unicode + 1];
      assert Unit(old(buffer[..]), unicode) == 0;
      buffer[ascii] := 0;
    }

    /** What sending reports uses and changes. */
    function LinkState(): Link
      reads this
    {
      Link(writeHandle.Opened?, handle.Opened?, writeScript, ops)
    }

    /** `WriteFile` on the write handle or `HidD_SetFeature` on the main
        handle: an invalid handle fails at once, otherwise the script decides. */
    method OsWrite(f: Frame) returns (ok: bool)
      modifies this`ops, this`writeScript
      ensures LinkState() == Send(old(LinkState()), [f])
      ensures ok == Accepted(old(LinkState()), [f])
    {
      DropTail(writeScript, 0);
      assert [f][..1] == [f] && [f][..0] == [] && [f][1..] == [];
      assert Delivered(writeHandle.Opened?, handle.Opened?, Tail(writeScript), []);
      if !Usable(writeHandle.Opened?, handle.Opened?, f) {
        return false;
      }
      ok := Accepts(writeScript);
      ops := ops + [Write(f)];
      writeScript := Tail(writeScript);
    }

    /** Sends `len` bytes of `buffer` verbatim as an output report. */
    method WriteReportOut(buffer: seq<byte>, len: int) returns (status: int)
      requires 0 <= len <= |buffer|
      modifies this`ops, this`writeScript
      ensures LinkState() == Send(old(LinkState()), [OutputReport(buffer[..len])])
      ensures status == 0 <==> Accepted(old(LinkState()), [OutputReport(buffer[..len])])
      ensures status == 0 || status == E_ERR_IO
    {
      var ok := OsWrite(OutputReport(buffer[..len]));
      status := if ok then 0 else E_ERR_IO;
    }

    /** Frames `len` payload bytes into a 65-byte report with `id` in byte 0.
        An output report sends `len + 1` bytes of it, a feature report all 65;
        IN and unknown kinds are refused before anything is sent. */
    method WriteReport(kind: ReportType, id: int, buffer: seq<byte>, len: int) returns (status: int)
      requires 0 <= len < 65 && len <= |buffer|
      modifies this`ops, this`writeScript
      ensures kind.ReportIn? || kind.ReportOther? ==>
                status == E_ERR_INV_PARAM && ops == old(ops) && writeScript == old(writeScript)
      ensures kind.ReportOut? ==>
                var fs := [OutputReport(ReportFrame(id, buffer[..len])[..len + 1])];
                LinkState() == Send(old(LinkState()), fs) && (status == 0 <==> Accepted(old(LinkState()), fs))
      ensures kind.ReportFeature? ==>
                var fs := [FeatureReport(ReportFrame(id, buffer[..len]))];
                LinkState() == Send(old(LinkState()), fs) && (status == 0 <==> Accepted(old(LinkState()), fs))
      ensures kind.ReportOut? || kind.ReportFeature? ==> status == 0 || status == E_ERR_IO
    {
      var sendbuf := new byte[65](_ => 0);
      sendbuf[0] := id % 256;
      var k := 0;
      while k < len
        modifies sendbuf
        invariant 0 <= k <= len
        invariant sendbuf[0] == id % 256
        invariant forall i :: 0 <= i < k ==> sendbuf[i + 1] == buffer[i]
        invariant forall i :: k < i < 65 ==> sendbuf[i] == 0
      {
        sendbuf[k + 1] := buffer[k];
        k := k + 1;
      }
      assert sendbuf[..] == ReportFrame(id, buffer[..len]);
      if kind.ReportIn? || kind.ReportOther? {
        return E_ERR_INV_PARAM;
      }
      var ok: bool;
      if kind.ReportOut? {
        assert sendbuf[..len + 1] == ReportFrame(id, buffer[..len])[..len + 1];
        ok := OsWrite(OutputReport(sendbuf[..len + 1]));
      } else {
        ok := OsWrite(FeatureReport(sendbuf[..]));
      }
      status := if ok then 0 else E_ERR_IO;
    }

    /** Reads one report into `buffer[..len]`, stripping the id byte, and
        returns the new value of `*len`. An IN read waits at most `timeout`;
        when it times out the read is cancelled, so the device stays usable. */
    method ReadReport(kind: ReportType, id: int, buffer: array<byte>, len: int, timeout: int)
      returns (status: int, newLen: int)
      requires 0 <= len < 65 && len <= buffer.Length
      modifies this`ops, this`readScript, buffer
      ensures kind.ReportOut? || kind.ReportOther? ==>
                && status == E_ERR_INV_PARAM && newLen == len + 1
                && ops == old(ops) && readScript == old(readScript) && buffer[..] == old(buffer[..])
      ensures kind.ReportIn? ==>
                var r := ReadInput(old(readHandle.Opened?), eventCreated, NextRead(old(readScript)), len + 1, timeout);
                && status == r.status
                && ops == old(ops) + r.ops
                && readScript == (if old(readHandle.Opened?) then Tail(old(readScript)) else old(readScript))
                && (r.data.Some? ==> newLen == len && buffer[..len] == Payload(r.data.value, len)
                                     && buffer[len..] == old(buffer[len..]))
                && (r.data.None? ==> newLen == len + 1 && buffer[..] == old(buffer[..]))
      ensures kind.ReportFeature? ==>
                var o := NextRead(old(readScript));
                && newLen == len + 1
                && (!old(handle.Opened?) ==>
                      status == E_ERR_IO && ops == old(ops) &&
                      readScript == old(readScript) && buffer[..] == old(buffer[..]))
                && (old(handle.Opened?) ==>
                      ops == old(ops) + [GetFeature(id % 256, len + 1)] &&
                      readScript == Tail(old(readScript)))
                && (old(handle.Opened?) && o.Completed? ==>
                      status == 0 && buffer[..len] == Payload(o.data, len) && buffer[len..] == old(buffer[len..]))
                && (old(handle.Opened?) && !o.Completed? ==> status == E_ERR_IO && buffer[..] == old(buffer[..]))
    {
      var outBufSize := len;
      var rcvbuf := new byte[65](_ => 0);
      rcvbuf[0] := id % 256;
      newLen := len + 1;
      match kind
      case ReportIn =>
        if !readHandle.Opened? {
          return E_ERR_IO, newLen;
        }
        var o := NextRead(readScript);
        readScript := Tail(readScript);
        ops := ops + [ReadFile(newLen)];
        match o {
        case Completed(d) =>
          Deliver(rcvbuf, d, newLen);
          newLen := outBufSize;
          CopyPayload(buffer, rcvbuf, d, newLen);
          return 0, newLen;
        case Failed =>
          return E_ERR_IO, newLen;
        case Pending(w) =>
          ops := ops + [Wait(timeout)];
          var result := if eventCreated then w else WaitFailed;
          match result {
          case Signalled(d) =>
            Deliver(rcvbuf, d, newLen);
            newLen := outBufSize;
            ops := ops + [ResetEvent];
            CopyPayload(buffer, rcvbuf, d, newLen);
            return 0, newLen;
          case TimedOut =>
            ops := ops + [CancelIo, ResetEvent];
            return E_ERR_TIMEOUT, newLen;
          case WaitFailed =>
            ops := ops + [ResetEvent];
            return E_ERR_IO, newLen;
          }
        }
      case ReportOut =>
        return E_ERR_INV_PARAM, newLen;
      case ReportFeature =>
        if !handle.Opened? {
          return E_ERR_IO, newLen;
        }
        var o := NextRead(readScript);
        readScript := Tail(readScript);
        ops := ops + [GetFeature(id % 256, newLen)];
        if o.Completed? {
          Deliver(rcvbuf, o.data, newLen);
          CopyPayload(buffer, rcvbuf, o.data, outBufSize);
          return 0, newLen;
        }
        return E_ERR_IO, newLen;
      case ReportOther(_) =>
        return E_ERR_INV_PARAM, newLen;
    }

    /** The operating system fills the first `n` bytes of `rcvbuf` at most with the report. */
    static method Deliver(rcvbuf: array<byte>, data: seq<byte>, n: int)
      requires 0 < n <= rcvbuf.Length
      modifies rcvbuf
      ensures forall i :: 0 <= i < rcvbuf.Length ==>
                rcvbuf[i] == if i < n && i < |data| then data[i] else old(rcvbuf[i])
    {
      var k := 0;
      while k < n && k < |data|
        invariant 0 <= k <= n
        invariant k <= |data|
        invariant forall i :: 0 <= i < rcvbuf.Length ==>
                    rcvbuf[i] == if i < k then data[i] else old(rcvbuf[i])
      {
        rcvbuf[k] := data[k];
        k := k + 1;
      }
    }

    /** `memcpy(buffer, rcvbuf + 1, size)` after `rcvbuf` was zeroed and the report delivered. */
    static method CopyPayload(buffer: array<byte>, rcvbuf: array<byte>, data: seq<byte>, size: int)
      requires 0 <= size < rcvbuf.Length && size <= buffer.Length && buffer != rcvbuf
      requires forall i :: 1 <= i <= size ==> rcvbuf[i] == if i < |data| then data[i] else 0
      modifies buffer
      ensures buffer[..size] == Payload(data, size)
      ensures buffer[size..] == old(buffer[size..])
    {
      var j := 0;
      while j < size
        invariant 0 <= j <= size
        invariant forall i :: 0 <= i < j ==> buffer[i] == rcvbuf[i + 1]
        invariant forall i :: j <= i < buffer.Length ==> buffer[i] == old(buffer[i])
      {
        buffer[j] := rcvbuf[j + 1];
        j := j + 1;
      }
    }

    /** Releases all three handles; calling it again changes nothing. */
    method Close()
      modifies this`handle, this`writeHandle, this`readHandle
      ensures handle == Invalid && writeHandle == Invalid && readHandle == Invalid
    {
      if handle.Opened? { handle := Invalid; }
      if writeHandle.Opened? { writeHandle := Invalid; }
      if readHandle.Opened? { readHandle := Invalid; }
    }

    /** CreateReadWriteHandles' effect on the handles and the wait event,
        from a state whose read handle and event were `read0`, `event0`, `count0`. */
    predicate HandlesSpec(read0: Handle, event0: bool, count0: nat,
                          path: string, canWrite: bool, canRead: bool, status: int)
      reads this
    {
      var creates := canWrite && canRead && !event0 && eventCreatable;
      && writeHandle == (if canWrite then Opened(path) else Invalid)
      && readHandle == (if !canWrite then read0 else if canRead then Opened(path) else Invalid)
      && (creates ==> eventCreated && eventsCreated == count0 + 1)
      && (!creates ==> eventCreated == event0 && eventsCreated == count0)
      && status == HandlesResult(canWrite, canRead, event0, eventCreatable)
    }

    /** Opens the write handle and the overlapped read handle on `path`, and
        the wait event if it does not exist yet. */
    method CreateReadWriteHandles(path: string, canWrite: bool, canRead: bool) returns (status: int)
      requires Valid()
      modifies this`writeHandle, this`readHandle, this`eventCreated, this`eventsCreated
      ensures Valid()
      ensures HandlesSpec(old(readHandle), old(eventCreated), old(eventsCreated),
                          path, canWrite, canRead, status)
    {
      writeHandle := if canWrite then Opened(path) else Invalid;
      if !writeHandle.Opened? {
        return E_ERR_IO;
      }
      readHandle := if canRead then Opened(path) else Invalid;
      if !readHandle.Opened? {
        return E_ERR_IO;
      }
      if !eventCreated {
        if !eventCreatable {
          return E_ERR_OTHER;
        }
        eventCreated := true;
        eventsCreated := eventsCreated + 1;
      }
      return 0;
    }

    /** Open's effect: one enumeration; the first candidate that passes the
        filter keeps its handle and gets its read and write handles. */
    twostate predicate OpenSpec(f: Filter, status: int)
      reads this
    {
      var cands := NextEnumeration(old(enumerations));
      && usagePage == f.usagePage
      && enumerations == Tail(old(enumerations))
      && ops == old(ops) + [Enumerate]
      && writeScript == old(writeScript) && readScript == old(readScript)
      && eventCreatable == old(eventCreatable)
      && status == OpenResult(cands, f, old(eventCreated), old(eventCreatable))
      && match ScanFrom(cands, 0, f, E_ERR_NOTFOUND)
         case Missed(_) =>
           && handle == Invalid
           && writeHandle == old(writeHandle) && readHandle == old(readHandle)
           && eventCreated == old(eventCreated) && eventsCreated == old(eventsCreated)
           && vid == old(vid) && pid == old(pid) && path == old(path)
           && reportInLength == old(reportInLength) && reportOutLength == old(reportOutLength)
         case Found(k) =>
           var c := cands[k];
           && handle == Opened(c.path) && path == c.path
           && HandlesSpec(old(readHandle), old(eventCreated), old(eventsCreated),
                          c.path, c.writeOpenable, c.readOpenable, status)
           && (f.usagePage >= 0 ==>
                 c.caps.Some? && vid == c.vid && pid == c.pid &&
                 reportInLength == c.caps.value.inputLength &&
                 reportOutLength == c.caps.value.outputLength)
           && (f.usagePage < 0 ==>
                 vid == old(vid) && pid == old(pid) &&
                 reportInLength == old(reportInLength) && reportOutLength == old(reportOutLength))
    }

    /** Enumerates the present HID interfaces and keeps the first one whose
        VID, PID (0 = any), vendor and product strings (when given) and usage
        page (when >= 0) match; handles of earlier candidates are closed. */
    method Open(vid: int, pid: int, vendorName: Option<string>, productName: Option<string>, usagePage: int)
      returns (status: int)
      requires Valid()
      modifies this`usagePage, this`enumerations, this`ops, this`handle, this`path
      modifies this`vid, this`pid, this`reportInLength, this`reportOutLength
      modifies this`writeHandle, this`readHandle, this`eventCreated, this`eventsCreated
      ensures Valid()
      ensures OpenSpec(Filter(vid, pid, vendorName, productName, usagePage), status)
    {
      var f := Filter(vid, pid, vendorName, productName, usagePage);
      var cands := BeginEnumeration(usagePage);
      var i, errorCode := Scan(cands, f);
      if handle.Opened? {
        assert Judge(cands[i], f).Accept?;
        errorCode := Adopt(cands[i], usagePage);
        assert ScanFrom(cands, 0, f, E_ERR_NOTFOUND) == Found(i);
      } else {
        assert ScanFrom(cands, 0, f, E_ERR_NOTFOUND) == Missed(errorCode);
      }
      status := errorCode;
    }

    /** The start of Open: the usage-page filter is remembered and the
        present interfaces are enumerated once. */
    method BeginEnumeration(usagePage: int) returns (cands: seq<Candidate>)
      modifies this`usagePage, this`enumerations, this`ops
      ensures this.usagePage == usagePage && cands == NextEnumeration(old(enumerations))
      ensures enumerations == Tail(old(enumerations)) && ops == old(ops) + [Enumerate]
    {
      this.usagePage := usagePage;
      cands := NextEnumeration(enumerations);
      enumerations := Tail(enumerations);
      ops := ops + [Enumerate];
    }

    /** The end of Open once candidate `c` matched: with a usage-page filter
        its ids and report lengths are kept; then its path is remembered and
        the read and write handles are created. */
    method Adopt(c: Candidate, usagePage: int) returns (status: int)
      requires Valid()
      requires usagePage >= 0 ==> c.caps.Some?
      modifies this`vid, this`pid, this`reportInLength, this`reportOutLength, this`path
      modifies this`writeHandle, this`readHandle, this`eventCreated, this`eventsCreated
      ensures Valid()
      ensures path == c.path
      ensures HandlesSpec(old(readHandle), old(eventCreated), old(eventsCreated),
                          c.path, c.writeOpenable, c.readOpenable, status)
      ensures usagePage >= 0 ==>
                vid == c.vid && pid == c.pid &&
                reportInLength == c.caps.value.inputLength &&
                reportOutLength == c.caps.value.outputLength
      ensures usagePage < 0 ==>
                vid == old(vid) && pid == old(pid) &&
                reportInLength == old(reportInLength) && reportOutLength == old(reportOutLength)
    {
      if usagePage >= 0 {
        vid := c.vid;
        pid := c.pid;
        reportInLength := c.caps.value.inputLength;
        reportOutLength := c.caps.value.outputLength;
      }
      path := c.path;
      status := CreateReadWriteHandles(c.path, c.writeOpenable, c.readOpenable);
    }

    /** The loop of Open over one enumeration: on a match it stops with that
        candidate's handle open, otherwise with no handle and the error code
        the last candidate left. */
    method Scan(cands: seq<Candidate>, f: Filter) returns (i: nat, errorCode: int)
      modifies this`handle
      ensures i <= |cands|
      ensures handle.Opened? ==> i < |cands| && handle == Opened(cands[i].path)
      ensures ScanFrom(cands, 0, f, E_ERR_NOTFOUND) == if handle.Opened? then Found(i) else Missed(errorCode)
    {
      errorCode := E_ERR_NOTFOUND;
      i := 0;
      while true
        invariant 0 <= i <= |cands|
        invariant ScanFrom(cands, 0, f, E_ERR_NOTFOUND) == ScanFrom(cands, i, f, errorCode)
        decreases |cands| - i
      {
        if handle.Opened? {
          handle := Invalid;     // CloseHandle of the previous candidate
        }
        if i == |cands| {
          break;                 // SetupDiEnumDeviceInterfaces: no more interfaces
        }
        var c := cands[i];
        if !c.openable {
          i := i + 1;
          continue;
        }
        handle := Opened(c.path);
        if f.vid != 0 && c.vid != f.vid {
          i := i + 1;
          continue;
        }
        if f.pid != 0 && c.pid != f.pid {
          i := i + 1;
          continue;
        }
        errorCode := E_ERR_NOTFOUND;
        if f.vendorName.Some? {
          if c.manufacturer.None? {
            errorCode := E_ERR_IO;
            i := i + 1;
            continue;
          }
          if c.manufacturer.value != f.vendorName.value {
            i := i + 1;
            continue;
          }
        }
        if f.productName.Some? {
          if c.product.None? {
            errorCode := E_ERR_IO;
            i := i + 1;
            continue;
          }
          if c.product.value != f.productName.value {
            i := i + 1;
            continue;
          }
        }
        if f.usagePage >= 0 {
          if c.caps.None? {
            errorCode := E_ERR_IO;
            i := i + 1;
            continue;
          }
          if c.caps.value.usagePage != f.usagePage {
            i := i + 1;
            continue;
          }
        }
        break;
      }
    }
  }
}
