/**
 * The driver of PolycomCX300.cpp: the file's static state (the tick
 * counter, the latched key and hook state, and the mailbox the host fills)
 * as the fields of a Driver, the report writers it uses, and the poll tick
 * that reconnects, refreshes the LED, keeps the phone alive and reads one
 * input report.
 *
 * The host application is a trace: every `Key(keyCode, state)` and
 * `RunScriptAsync(script)` call the driver makes is appended to `host`.
 */
module PolycomCX300 {
  import opened Base
  import opened HidTransport
  import opened Cx300Codec
  import opened Configuration

  /** `hidDevice.Open(VendorID, ProductID, NULL, NULL)`: the usage page takes its default, no check. */
  const CX300_FILTER: Filter := Filter(VENDOR_ID, PRODUCT_ID, None, None, -1)

  // ---------------------------------------------------------------------
  // Report writers

  /** Blanks the display. */
  method ClearDisplay(dev: HidDevice) returns (status: int)
    modifies dev`ops, dev`writeScript
    ensures dev.LinkState() == Send(old(dev.LinkState()), [OutputReport(DISPLAY_CLEAR)])
    ensures status == 0 <==> Accepted(old(dev.LinkState()), [OutputReport(DISPLAY_CLEAR)])
    ensures status == 0 || status == E_ERR_IO
  {
    assert DISPLAY_CLEAR[..|DISPLAY_CLEAR|] == DISPLAY_CLEAR;
    status := dev.WriteReportOut(DISPLAY_CLEAR, |DISPLAY_CLEAR|);
  }

  /** The 18-byte display report for the characters of `text` from
      `textPos`: they are copied to an 8-byte chunk padded with zeros, then
      spread out behind the 0x15 tag and the continuation byte. */
  method BuildChunk(text: seq<byte>, textPos: nat) returns (report: seq<byte>)
    requires textPos < |text|
    ensures report == ChunkFrame(text, textPos)
  {
    ghost var chars := ChunkChars(text, textPos);
    var chunkLen := if |text| - textPos >= CHUNK_LENGTH then CHUNK_LENGTH else |text| - textPos;
    var chunk := new byte[CHUNK_LENGTH];
    var j := 0;
    while j < chunkLen                       // memcpy
      invariant 0 <= j <= chunkLen
      invariant forall k :: 0 <= k < j ==> chunk[k] == chars[k]
    {
      chunk[j] := text[textPos + j];
      j := j + 1;
    }
    while j < CHUNK_LENGTH                   // memset
      invariant chunkLen <= j <= CHUNK_LENGTH
      invariant forall k :: 0 <= k < j ==> chunk[k] == chars[k]
    {
      chunk[j] := 0;
      j := j + 1;
    }
    var buffer := new byte[2 + 2 * CHUNK_LENGTH];
    buffer[0] := 0x15;
    buffer[1] := if textPos + CHUNK_LENGTH < |text| then 0x00 else 0x80;   // continuation
    j := 0;
    while j < CHUNK_LENGTH
      invariant 0 <= j <= CHUNK_LENGTH
      invariant forall k :: 0 <= k < CHUNK_LENGTH ==> chunk[k] == chars[k]
      invariant buffer[0] == 0x15 && buffer[1] == if textPos + CHUNK_LENGTH < |text| then 0x00 else 0x80
      invariant forall k :: 0 <= k < j ==> buffer[2 + 2 * k] == chars[k] && buffer[3 + 2 * k] == 0
    {
      buffer[2 + 2 * j] := chunk[j];
      buffer[3 + 2 * j] := 0x00;             // filler
      j := j + 1;
    }
    report := buffer[..];
    ChunkFrameBytes(text, textPos, report);
  }

  /** Both lines of the display: the two-line mode, then each line. The
      first refused write ends it with its status, and nothing after it is
      sent. */
  method SetDisplayTwoLines(dev: HidDevice, line1: seq<byte>, line2: seq<byte>) returns (status: int)
    modifies dev`ops, dev`writeScript
    ensures dev.LinkState() == Send(old(dev.LinkState()), DisplayFrames(line1, line2))
    ensures status == 0 <==> Accepted(old(dev.LinkState()), DisplayFrames(line1, line2))
    ensures status == 0 || status == E_ERR_IO
  {
    ghost var l0 := dev.LinkState();
    ghost var all := DisplayFrames(line1, line2);
    ghost var mode := [OutputReport(TEXT_MODE_TWO_LINES)];
    ghost var top := LineFrames(TEXT_TOP_LINE, line1);
    ghost var bottom := LineFrames(TEXT_BOTTOM_LINE, line2);
    assert TEXT_MODE_TWO_LINES[..|TEXT_MODE_TWO_LINES|] == TEXT_MODE_TWO_LINES;
    status := dev.WriteReportOut(TEXT_MODE_TWO_LINES, |TEXT_MODE_TWO_LINES|);
    SendAppend(l0, mode, top + bottom);
    if status != 0 {
      return;
    }
    var i := 0;
    while i < 2
      invariant 0 <= i <= 2 && status == 0
      invariant var rest := if i == 0 then top + bottom else if i == 1 then bottom else [];
                && Send(l0, all) == Send(dev.LinkState(), rest)
                && Accepted(l0, all) == Accepted(dev.LinkState(), rest)
    {
      ghost var l := dev.LinkState();
      if i == 0 {
        status := SetLine(dev, TEXT_TOP_LINE, line1);
        SendAppend(l, top, bottom);
      } else {
        status := SetLine(dev, TEXT_BOTTOM_LINE, line2);
        SendAppend(l, bottom, []);
        assert bottom + [] == bottom;
      }
      if status != 0 {
        return;
      }
      i := i + 1;
    }
    SendNothing(dev.LinkState());
  }

  /** One line, the body of SetDisplayTwoLines' loop: the line selector,
      then the line's reports. */
  method SetLine(dev: HidDevice, select: seq<byte>, text: seq<byte>) returns (status: int)
    modifies dev`ops, dev`writeScript
    ensures dev.LinkState() == Send(old(dev.LinkState()), LineFrames(select, text))
    ensures status == 0 <==> Accepted(old(dev.LinkState()), LineFrames(select, text))
    ensures status == 0 || status == E_ERR_IO
  {
    ghost var l0 := dev.LinkState();
    assert select[..|select|] == select;
    status := dev.WriteReportOut(select, |select|);
    SendAppend(l0, [OutputReport(select)], ChunksFrom(text, 0));
    if status != 0 {
      return;
    }
    status := SendChunks(dev, text);
  }

  /** The text of a line, eight characters per report, until one is refused. */
  method SendChunks(dev: HidDevice, text: seq<byte>) returns (status: int)
    modifies dev`ops, dev`writeScript
    ensures dev.LinkState() == Send(old(dev.LinkState()), ChunksFrom(text, 0))
    ensures status == 0 <==> Accepted(old(dev.LinkState()), ChunksFrom(text, 0))
    ensures status == 0 || status == E_ERR_IO
  {
    ghost var l0 := dev.LinkState();
    ghost var all := ChunksFrom(text, 0);
    status := 0;
    var textPos: nat := 0;
    while textPos < |text|
      invariant status == 0
      invariant Send(l0, all) == Send(dev.LinkState(), ChunksFrom(text, textPos))
      invariant Accepted(l0, all) == Accepted(dev.LinkState(), ChunksFrom(text, textPos))
      decreases |text| - textPos
    {
      status := SendChunk(dev, text, textPos);
      if status != 0 {
        return;
      }
      textPos := textPos + CHUNK_LENGTH;
    }
    SendNothing(dev.LinkState());
  }

  /** The body of SendChunks' loop: the report for the characters from
      `textPos`. Once it is accepted, what is left to send is the rest of
      the line; a refusal ends the line. */
  method SendChunk(dev: HidDevice, text: seq<byte>, textPos: nat) returns (status: int)
    requires textPos < |text|
    modifies dev`ops, dev`writeScript
    ensures status == 0 || status == E_ERR_IO
    ensures var l0, rest := old(dev.LinkState()), ChunksFrom(text, textPos + CHUNK_LENGTH);
            if status == 0 then
              && Send(l0, ChunksFrom(text, textPos)) == Send(dev.LinkState(), rest)
              && Accepted(l0, ChunksFrom(text, textPos)) == Accepted(dev.LinkState(), rest)
            else
              && Send(l0, ChunksFrom(text, textPos)) == dev.LinkState()
              && !Accepted(l0, ChunksFrom(text, textPos))
  {
    ghost var l := dev.LinkState();
    var buffer := BuildChunk(text, textPos);
    assert buffer[..|buffer|] == buffer;
    status := dev.WriteReportOut(buffer, |buffer|);
    SendAppend(l, [OutputReport(buffer)], ChunksFrom(text, textPos + CHUNK_LENGTH));
  }

  /** `buf` of SetLed: the two pattern bytes, then zeros up to 64 bytes, so
      that the byte the device reads past the report is 0. */
  method LedBuffer(leds: seq<byte>) returns (buf: seq<byte>)
    requires |leds| >= 2
    ensures |buf| == 64 && buf[..2] == leds[..2]
    ensures forall i :: 2 <= i < 64 ==> buf[i] == 0
  {
    var a := new byte[64](_ => 0);           // memset
    a[0] := leds[0];                         // memcpy of two bytes
    a[1] := leds[1];
    buf := a[..];
  }

  /** Sets the status LED: one output report of the two pattern bytes. */
  method SetLed(dev: HidDevice, leds: seq<byte>) returns (status: int)
    requires |leds| == 2
    modifies dev`ops, dev`writeScript
    ensures dev.LinkState() == Send(old(dev.LinkState()), [OutputReport(leds)])
    ensures status == 0 <==> Accepted(old(dev.LinkState()), [OutputReport(leds)])
    ensures status == 0 || status == E_ERR_IO
  {
    var buf := LedBuffer(leds);
    assert buf[..2] == leds;
    status := dev.WriteReportOut(buf, 2);
  }

  /** The keepalive: feature report 0x17 with payload 09 04 01 02. */
  method SendKeepalive(dev: HidDevice) returns (status: int)
    modifies dev`ops, dev`writeScript
    ensures dev.LinkState() == Send(old(dev.LinkState()), [KeepaliveFrame()])
    ensures status == 0 <==> Accepted(old(dev.LinkState()), [KeepaliveFrame()])
    ensures status == 0 || status == E_ERR_IO
  {
    var sendbuf: seq<byte> := [0x17, 0x09, 0x04, 0x01, 0x02];
    assert sendbuf[1..][..|sendbuf| - 1] == [0x09, 0x04, 0x01, 0x02];
    status := dev.WriteReport(ReportFeature, sendbuf[0], sendbuf[1..], |sendbuf| - 1);
  }

  /** The LED self test after connecting: each pattern in turn, closing the
      device and stopping at the first one refused. */
  method SelfTest(dev: HidDevice) returns (closed: bool)
    modifies dev`ops, dev`writeScript, dev`handle, dev`writeHandle, dev`readHandle
    ensures var l := Send(old(dev.LinkState()), LedFrames(SELF_TEST));
            dev.ops == l.log && dev.writeScript == l.script
    ensures closed == !Accepted(old(dev.LinkState()), LedFrames(SELF_TEST))
    ensures closed ==> dev.handle == Invalid && dev.writeHandle == Invalid && dev.readHandle == Invalid
    ensures !closed ==> dev.handle == old(dev.handle) && dev.writeHandle == old(dev.writeHandle)
                        && dev.readHandle == old(dev.readHandle)
  {
    ghost var l0 := dev.LinkState();
    ghost var fs := LedFrames(SELF_TEST);
    var leds := SELF_TEST;
    var i := 0;
    while i < |leds|
      invariant 0 <= i <= |leds| && leds == SELF_TEST
      invariant Send(l0, fs) == Send(dev.LinkState(), fs[i..])
      invariant Accepted(l0, fs) == Accepted(dev.LinkState(), fs[i..])
      invariant dev.handle == old(dev.handle) && dev.writeHandle == old(dev.writeHandle)
      invariant dev.readHandle == old(dev.readHandle)
    {
      ghost var l := dev.LinkState();
      var status := SetLed(dev, LedCode(leds[i]));
      assert fs[i..] == [fs[i]] + fs[i + 1..];
      SendAppend(l, [fs[i]], fs[i + 1..]);
      if status != 0 {
        dev.Close();
        return true;
      }
      i := i + 1;
    }
    SendNothing(dev.LinkState());
    return false;
  }

  /** What Poll does once Open succeeded: the keepalive, closing the device
      if it is refused; the display clear, whose status is ignored; the LED
      self test. */
  method ConnectSequence(dev: HidDevice) returns (closed: bool)
    modifies dev`ops, dev`writeScript, dev`handle, dev`writeHandle, dev`readHandle
    ensures var c := Connect(old(dev.LinkState()));
            dev.ops == c.link.log && dev.writeScript == c.link.script && closed == c.closed
    ensures closed ==> dev.handle == Invalid && dev.writeHandle == Invalid && dev.readHandle == Invalid
    ensures !closed ==> dev.handle == old(dev.handle) && dev.writeHandle == old(dev.writeHandle)
                        && dev.readHandle == old(dev.readHandle)
  {
    var status := SendKeepalive(dev);
    if status != 0 {
      dev.Close();
      SendClosed(dev.LinkState(), [OutputReport(DISPLAY_CLEAR)]);
    }
    var clearStatus := ClearDisplay(dev);
    if status != 0 {
      SendClosed(dev.LinkState(), LedFrames(SELF_TEST));
    }
    closed := SelfTest(dev);
  }

  /** What a poll may change, and what it depends on, as a value: a tick's
      effect is stated as a relation between the snapshot before and after it. */
  datatype Snapshot = Snapshot(
    link: Link,
    handle: Handle,
    writeHandle: Handle,
    readHandle: Handle,
    readScript: seq<ReadOutcome>,
    enumerations: seq<seq<Candidate>>,
    eventCreated: bool,
    eventCreatable: bool,
    host: seq<HostCall>,
    keys: KeyState,
    displayUpdateFlag: bool,
    ringUpdateFlag: bool)

  /** The read and write handles and the wait event CreateReadWriteHandles
      leaves for candidate `c`, from a state `b`: the write handle first, the
      read handle only when the write handle opened, the event created once
      both handles opened, if it did not exist yet and can be created. */
  predicate HandlesMade(b: Snapshot, c: Candidate, a: Snapshot)
  {
    && a.writeHandle == (if c.writeOpenable then Opened(c.path) else Invalid)
    && a.readHandle == (if !c.writeOpenable then b.readHandle
                        else if c.readOpenable then Opened(c.path) else Invalid)
    && a.eventCreated == (b.eventCreated || (c.writeOpenable && c.readOpenable && b.eventCreatable))
  }

  /** A disconnected tick that looks for the phone, from `b` to `a`: one
      enumeration. When no interface matches, no handle is open and the
      read and write handles and the event are as before. When one matches
      but its read or write handle or the event fails, its main handle stays
      open with what CreateReadWriteHandles left. When Open succeeds, the
      connection sequence (Connect) runs on the fresh link and, unless it
      closes the device, leaves all three handles open. */
  predicate Reconnected(b: Snapshot, a: Snapshot)
  {
    var cands := NextEnumeration(b.enumerations);
    var scan := ScanFrom(cands, 0, CX300_FILTER, E_ERR_NOTFOUND);
    var open := OpenResult(cands, CX300_FILTER, b.eventCreated, b.eventCreatable);
    var l1 := Link(true, true, b.link.script, b.link.log + [Enumerate]);
    var c := Connect(l1);
    && a.enumerations == Tail(b.enumerations)
    && a.readScript == b.readScript
    && a.eventCreatable == b.eventCreatable
    && a.host == b.host && a.keys == b.keys
    && a.displayUpdateFlag == b.displayUpdateFlag && a.ringUpdateFlag == b.ringUpdateFlag
    && (scan.Missed? ==>
          && a.handle == Invalid && a.writeHandle == b.writeHandle && a.readHandle == b.readHandle
          && a.eventCreated == b.eventCreated
          && a.link.log == l1.log && a.link.script == l1.script)
    && (scan.Found? && open != 0 ==>
          && a.handle == Opened(cands[scan.index].path) && HandlesMade(b, cands[scan.index], a)
          && a.link.log == l1.log && a.link.script == l1.script)
    && (open == 0 ==>
          && scan.Found? && a.eventCreated
          && a.link.log == c.link.log && a.link.script == c.link.script
          && (c.closed ==> a.handle == Invalid && a.writeHandle == Invalid && a.readHandle == Invalid)
          && (!c.closed ==> a.handle == Opened(cands[scan.index].path) && HandlesMade(b, cands[scan.index], a)))
  }

  /** A search whose Open succeeded and whose connection sequence kept the
      device leaves the main, write and read handles open and the wait
      event created: the next tick is a connected one that can read. */
  lemma ReconnectedOpen(b: Snapshot, a: Snapshot)
    requires Reconnected(b, a)
    requires OpenResult(NextEnumeration(b.enumerations), CX300_FILTER, b.eventCreated, b.eventCreatable) == 0
    requires !Connect(Link(true, true, b.link.script, b.link.log + [Enumerate])).closed
    ensures a.handle.Opened? && a.writeHandle.Opened? && a.readHandle.Opened? && a.eventCreated
  {
    var cands := NextEnumeration(b.enumerations);
    var k := ScanFrom(cands, 0, CX300_FILTER, E_ERR_NOTFOUND).index;
    assert HandlesResult(cands[k].writeOpenable, cands[k].readOpenable, b.eventCreated, b.eventCreatable) == 0;
  }

  /** The device closed: no handle is left, and nothing else changes. */
  function Closed(m: Snapshot): Snapshot
  {
    m.(link := m.link.(writeOpen := false, open := false),
       handle := Invalid, writeHandle := Invalid, readHandle := Invalid)
  }

  /** The read of a connected tick from `m`: one input report of
      REPORT_IN_SIZE bytes waited for at most READ_TIMEOUT; a report is
      handled, a timeout ignored, any other error closes the device. */
  function AfterRead(ringing: bool, dialKey: string, m: Snapshot): Snapshot
  {
    var r := ReadInput(m.readHandle.Opened?, m.eventCreated, NextRead(m.readScript),
                       REPORT_IN_SIZE + 1, READ_TIMEOUT);
    var m1 := m.(link := m.link.(log := m.link.log + r.ops),
                 readScript := if m.readHandle.Opened? then Tail(m.readScript) else m.readScript);
    if r.status == 0 then
      var report := Payload(r.data.value, REPORT_IN_SIZE);
      m1.(host := m1.host + Reaction(m1.keys, report, ringing, dialKey), keys := Next(report, ringing, dialKey))
    else if r.status == E_ERR_TIMEOUT then m1
    else Closed(m1)
  }

  /** The state of a connected tick at counter value `cnt` once its reports
      are sent: the reports of TickFrames go out until one is refused;
      `idle` (no call in progress) asks for a display refresh on every
      fourth tick, and the ring flag is cleared unless a report was refused. */
  function AfterSends(cnt: bv32, ringing: bool, registered: bool, idle: bool, b: Snapshot): Snapshot
  {
    var fs := TickFrames(cnt, ringing, registered);
    b.(link := Send(b.link, fs),
       displayUpdateFlag := b.displayUpdateFlag || (idle && cnt & 3 == 0),
       ringUpdateFlag := b.ringUpdateFlag && !Accepted(b.link, fs))
  }

  /** A connected tick from `b`: after the sends, a refusal closes the
      device, otherwise one input report is read and handled. */
  function TickResult(cnt: bv32, ringing: bool, registered: bool, idle: bool, dialKey: string, b: Snapshot): Snapshot
  {
    var m := AfterSends(cnt, ringing, registered, idle, b);
    if Accepted(b.link, TickFrames(cnt, ringing, registered)) then AfterRead(ringing, dialKey, m)
    else Closed(m)
  }

  /** What a read from `m` to `a` must do, field by field: the input call is
      logged and consumes one outcome; a report yields its Reaction and the
      key state Next; a timeout keeps the device open, any other error
      closes it; nothing else changes. */
  predicate Handled(ringing: bool, dialKey: string, m: Snapshot, a: Snapshot)
  {
    var r := ReadInput(m.readHandle.Opened?, m.eventCreated, NextRead(m.readScript),
                       REPORT_IN_SIZE + 1, READ_TIMEOUT);
    && a.link.log == m.link.log + r.ops && a.link.script == m.link.script
    && a.readScript == (if m.readHandle.Opened? then Tail(m.readScript) else m.readScript)
    && a.enumerations == m.enumerations && a.eventCreated == m.eventCreated
    && a.displayUpdateFlag == m.displayUpdateFlag && a.ringUpdateFlag == m.ringUpdateFlag
    && (r.status == 0 ==>
          && a.host == m.host + Reaction(m.keys, Payload(r.data.value, REPORT_IN_SIZE), ringing, dialKey)
          && a.keys == Next(Payload(r.data.value, REPORT_IN_SIZE), ringing, dialKey))
    && (r.status != 0 ==> a.host == m.host && a.keys == m.keys)
    && (r.status == 0 || r.status == E_ERR_TIMEOUT <==>
          a.handle == m.handle && a.writeHandle == m.writeHandle && a.readHandle == m.readHandle)
    && (r.status != 0 && r.status != E_ERR_TIMEOUT ==>
          a.handle == Invalid && a.writeHandle == Invalid && a.readHandle == Invalid)
  }

  /** The device closed from `m` to `a`, and nothing else changed. */
  predicate Dropped(m: Snapshot, a: Snapshot)
  {
    && a.handle == Invalid && a.writeHandle == Invalid && a.readHandle == Invalid
    && a.link.log == m.link.log && a.link.script == m.link.script
    && a.readScript == m.readScript && a.enumerations == m.enumerations
    && a.eventCreated == m.eventCreated
    && a.host == m.host && a.keys == m.keys
    && a.displayUpdateFlag == m.displayUpdateFlag && a.ringUpdateFlag == m.ringUpdateFlag
  }

  /** What a connected tick from `b` to `a` must do: the reports of
      TickFrames are sent until one is refused; a refusal closes the device
      and clears nothing, otherwise the ring flag is cleared and the read is
      Handled. */
  predicate Served(cnt: bv32, ringing: bool, registered: bool, idle: bool, dialKey: string,
                   b: Snapshot, a: Snapshot)
  {
    var fs := TickFrames(cnt, ringing, registered);
    var l1 := Send(b.link, fs);
    var m := b.(link := l1,
                displayUpdateFlag := b.displayUpdateFlag || (idle && cnt & 3 == 0),
                ringUpdateFlag := false);
    && a.displayUpdateFlag == m.displayUpdateFlag
    && (!Accepted(b.link, fs) ==> Dropped(m.(ringUpdateFlag := b.ringUpdateFlag), a))
    && (Accepted(b.link, fs) ==> Handled(ringing, dialKey, m, a))
  }

  /** AfterRead does what a read must do, field by field, when the tick
      starts with all three handles open (so that closing is a change). */
  lemma AfterReadHandled(ringing: bool, dialKey: string, m: Snapshot)
    requires m.handle.Opened? && m.writeHandle.Opened? && m.readHandle.Opened?
    ensures Handled(ringing, dialKey, m, AfterRead(ringing, dialKey, m))
  {
  }

  /** TickResult does what a connected tick must do, as long as the device
      is open when the tick starts. */
  lemma TickResultServed(cnt: bv32, ringing: bool, registered: bool, idle: bool, dialKey: string, b: Snapshot)
    requires b.handle.Opened? && b.writeHandle.Opened? && b.readHandle.Opened?
    ensures Served(cnt, ringing, registered, idle, dialKey, b, TickResult(cnt, ringing, registered, idle, dialKey, b))
  {
    AfterReadHandled(ringing, dialKey, AfterSends(cnt, ringing, registered, idle, b));
  }

  /** What a connected tick leaves alone on the device: the ids, path,
      usage page and report lengths Open stored, and the event count. */
  twostate predicate IdentityKept(d: HidDevice)
    reads d
  {
    unchanged(d`vid, d`pid, d`path, d`usagePage, d`reportInLength, d`reportOutLength, d`eventsCreated)
  }

  // ---------------------------------------------------------------------

  class Driver {
    const dev: HidDevice
    const conf: CustomConf

    /** `static unsigned int loopCnt` of Poll. */
    var loopCnt: bv32
    /** The key of the last input report; KEY_NONE is `None`. */
    var lastKey: Option<Key>
    var lastOffHook: bool

    // The mailbox the host fills.
    var regState: int
    var callState: int
    var ringState: int
    var callDisplay: string
    var displayUpdateFlag: bool
    var ringUpdateFlag: bool

    /** The calls made into the host application, in order. */
    var host: seq<HostCall>

    /** The device's wait event exists at most once, and the latched key is never the hook. */
    ghost predicate Valid()
      reads this, dev
    {
      dev.Valid() && lastKey != Some(Hook)
    }

    function Keys(): KeyState
      reads this`lastKey, this`lastOffHook
    {
      KeyState(lastKey, lastOffHook)
    }

    function Snap(): Snapshot
      reads this`host, this`lastKey, this`lastOffHook, this`displayUpdateFlag, this`ringUpdateFlag, dev
    {
      Snapshot(dev.LinkState(), dev.handle, dev.writeHandle, dev.readHandle, dev.readScript,
             dev.enumerations, dev.eventCreated, dev.eventCreatable,
             host, Keys(), displayUpdateFlag, ringUpdateFlag)
    }

    constructor (dev: HidDevice, conf: CustomConf)
      requires dev.Valid()
      ensures Valid() && this.dev == dev && this.conf == conf
      ensures loopCnt == 0 && Keys() == KeyState(None, false)
      ensures regState == 0 && callState == 0 && ringState == 0 && callDisplay == ""
      ensures !displayUpdateFlag && !ringUpdateFlag && host == []
    {
      this.dev := dev;
      this.conf := conf;
      loopCnt := 0;
      lastKey, lastOffHook := None, false;
      regState, callState, ringState := 0, 0, 0;
      callDisplay := "";
      displayUpdateFlag, ringUpdateFlag := false, false;
      host := [];
    }

    /** Turns one input report into host calls: the hold script, the key
        press or release, the hook change; then latches the key and the hook bit. */
    method HandleReportIn(report: seq<byte>)
      requires Valid() && |report| >= 2
      modifies this`host, this`lastKey, this`lastOffHook
      ensures Valid()
      ensures host == old(host) + Reaction(old(Keys()), report, ringState != 0, conf.dialKey)
      ensures Keys() == Next(report, ringState != 0, conf.dialKey)
    {
      var calls: seq<HostCall> := [];      // the host calls, in the order they are made
      var key := DecodeKeyCode(report[1], conf.dialKey);
      var report0WithoutHook := WithoutHook(report[0]);
      if report0WithoutHook == 0x20 {
        key := Some(if ringState != 0 then CallHangup else C);
      } else if report0WithoutHook == 0x02 {
        calls := calls + [Script("ToggleHold()")];     // the hold key
      }
      ghost var hold := calls;
      assert key == ReportKey(report, ringState != 0, conf.dialKey);
      assert hold == if HoldRequested(report) then [Script("ToggleHold()")] else [];
      if lastKey.None? && key.Some? {
        calls := calls + [KeyCall(key.value, 1)];
      } else if lastKey.Some? && key.None? {
        calls := calls + [KeyCall(lastKey.value, 0)];
      }
      // A long press (bit 3 with the key unchanged) is only logged.
      assert calls == hold + KeyEdge(lastKey, key);
      var offHook := OffHook(report[0]);
      if offHook != lastOffHook {
        calls := calls + [KeyCall(Hook, if offHook then 0 else 1)];   // 1 = handset down
      }
      assert calls == Reaction(Keys(), report, ringState != 0, conf.dialKey);
      host := host + calls;
      lastKey := key;
      lastOffHook := offHook;
    }

    /** `PolycomCX300::Close`. */
    method Close()
      requires Valid()
      modifies dev`handle, dev`writeHandle, dev`readHandle
      ensures Valid() && !dev.IsOpened()
      ensures dev.writeHandle == Invalid && dev.readHandle == Invalid
    {
      dev.Close();
    }

    method UpdateCallState(state: int, display: string)
      modifies this`callState, this`callDisplay, this`displayUpdateFlag
      ensures callState == state && callDisplay == display && displayUpdateFlag
    {
      callState := state;
      callDisplay := display;
      displayUpdateFlag := true;
    }

    /** `UpdateRing(int)`: only a change of the ring state raises the flag. */
    method UpdateRing(state: int)
      modifies this`ringState, this`ringUpdateFlag
      ensures ringState == state
      ensures ringUpdateFlag == (old(ringUpdateFlag) || old(ringState) != state)
    {
      if ringState != state {
        ringState := state;
        ringUpdateFlag := true;
      }
    }

    method UpdateRegistrationState(state: int)
      modifies this`regState, this`displayUpdateFlag
      ensures regState == state && displayUpdateFlag
    {
      regState := state;
      displayUpdateFlag := true;
    }

    /** `UpdateRing(HidDevice&)`: the device has no ringer; the flag is cleared. */
    method UpdateRingOnDevice() returns (status: int)
      modifies this`ringUpdateFlag
      ensures !ringUpdateFlag && status == 0
    {
      ringUpdateFlag := false;
      status := 0;
    }

    /** The disconnected branch of Poll on a connecting tick. */
    method Reconnect()
      requires Valid() && !dev.IsOpened()
      modifies dev
      ensures Valid()
      ensures Reconnected(old(Snap()), Snap())
    {
      ghost var cands := NextEnumeration(dev.enumerations);
      ghost var l1 := Link(true, true, dev.writeScript, dev.ops + [Enumerate]);
      var status := dev.Open(VENDOR_ID, PRODUCT_ID, None, None, -1);
      if status == 0 {
        assert ScanFrom(cands, 0, CX300_FILTER, E_ERR_NOTFOUND).Found?;
        assert dev.LinkState() == l1;
        var closed := ConnectSequence(dev);
      }
    }

    /** The connected branch of Poll. */
    method ServiceTick(cnt: bv32)
      requires Valid()
      modifies this`displayUpdateFlag, this`ringUpdateFlag, this`host, this`lastKey, this`lastOffHook
      modifies dev`ops, dev`writeScript, dev`readScript, dev`handle, dev`writeHandle, dev`readHandle
      ensures Valid()
      ensures Snap() == TickResult(cnt, ringState != 0, regState != 0, callState == 0, conf.dialKey, old(Snap()))
    {
      var status := SendTick(cnt);
      Finish(status == 0);
    }

    /** The rest of a connected tick: the read when every report went out,
        the close otherwise. */
    method Finish(accepted: bool)
      requires Valid()
      modifies this`host, this`lastKey, this`lastOffHook
      modifies dev`ops, dev`readScript, dev`handle, dev`writeHandle, dev`readHandle
      ensures Valid()
      ensures Snap() == if accepted then AfterRead(ringState != 0, conf.dialKey, old(Snap())) else Closed(old(Snap()))
    {
      if !accepted {
        Drop();
      } else {
        ReadAndHandle();
      }
    }

    /** The sending half of a connected tick: the display refresh request,
        the reports of this tick, and the ring update once they are sent. */
    method SendTick(cnt: bv32) returns (status: int)
      modifies this`displayUpdateFlag, this`ringUpdateFlag, dev`ops, dev`writeScript
      ensures Snap() == AfterSends(cnt, ringState != 0, regState != 0, callState == 0, old(Snap()))
      ensures status == 0 <==> Accepted(old(dev.LinkState()), TickFrames(cnt, ringState != 0, regState != 0))
    {
      ghost var fs := TickFrames(cnt, ringState != 0, regState != 0);
      RequestRefresh(cnt);
      ghost var b1 := Snap();
      status := SendTickReports(cnt);
      assert Snap() == b1.(link := dev.LinkState());
      status := RingTail(status);
    }

    /** With no call in progress the shown time is refreshed on every fourth tick. */
    method RequestRefresh(cnt: bv32)
      modifies this`displayUpdateFlag
      ensures Snap() == old(Snap()).(displayUpdateFlag := old(displayUpdateFlag) || (callState == 0 && cnt & 3 == 0))
    {
      if callState == 0 {
        if cnt & 0x03 == 0 {
          displayUpdateFlag := true;       // the time shown would be refreshed
        }
      }
    }

    /** After the reports of a tick went out, the ring state is passed on. */
    method RingTail(status0: int) returns (status: int)
      modifies this`ringUpdateFlag
      ensures Snap() == old(Snap()).(ringUpdateFlag := old(ringUpdateFlag) && status0 != 0)
      ensures status == status0
    {
      status := status0;
      if status == 0 && ringUpdateFlag {
        status := UpdateRingOnDevice();
      }
    }

    /** A refused report closes the device. */
    method Drop()
      requires Valid()
      modifies dev`handle, dev`writeHandle, dev`readHandle
      ensures Valid()
      ensures Snap() == Closed(old(Snap()))
    {
      dev.Close();
    }

    /** The LED on every fourth tick, then the keepalive on every 512th
        unless the LED was refused. */
    method SendTickReports(cnt: bv32) returns (status: int)
      modifies dev`ops, dev`writeScript
      ensures dev.LinkState() == Send(old(dev.LinkState()), TickFrames(cnt, ringState != 0, regState != 0))
      ensures status == 0 <==> Accepted(old(dev.LinkState()), TickFrames(cnt, ringState != 0, regState != 0))
    {
      status := 0;
      ghost var l0 := dev.LinkState();
      ghost var led := [LedFrame(LedFor(cnt, ringState != 0, regState != 0))];
      if cnt & 0x03 == 0 {
        if ringState != 0 {
          if cnt & 0x07 == 0 {
            status := SetLed(dev, LedCode(Red));
          } else {
            status := SetLed(dev, LedCode(Off));
          }
        } else {
          if regState != 0 {
            status := SetLed(dev, LedCode(Green));
          } else {
            status := SetLed(dev, LedCode(Off));
          }
        }
      }
      ghost var l1 := dev.LinkState();
      if status == 0 && cnt & 0x1FF == 0 {
        status := SendKeepalive(dev);
      }
      TickSent(l0, cnt, ringState != 0, regState != 0, l1, dev.LinkState(), status);
    }

    /** The read of a connected tick: one input report of REPORT_IN_SIZE
        bytes, waited for at most READ_TIMEOUT; a report is handled, a
        timeout ignored, any other error closes the device. */
    method ReadAndHandle()
      requires Valid()
      modifies this`host, this`lastKey, this`lastOffHook
      modifies dev`ops, dev`readScript, dev`handle, dev`writeHandle, dev`readHandle
      ensures Valid()
      ensures Snap() == AfterRead(ringState != 0, conf.dialKey, old(Snap()))
    {
      var status, newSize, report := ReadIn();
      React(status, newSize, report);
    }

    /** The input call of a connected tick, into a zeroed buffer of REPORT_IN_SIZE bytes. */
    method ReadIn() returns (status: int, newSize: int, report: seq<byte>)
      modifies dev`ops, dev`readScript
      ensures |report| == REPORT_IN_SIZE
      ensures var b := old(Snap());
              var r := ReadInput(b.readHandle.Opened?, b.eventCreated, NextRead(b.readScript),
                                 REPORT_IN_SIZE + 1, READ_TIMEOUT);
              && Snap() == b.(link := b.link.(log := b.link.log + r.ops),
                              readScript := if b.readHandle.Opened? then Tail(b.readScript) else b.readScript)
              && status == r.status
              && (r.data.Some? ==> newSize == REPORT_IN_SIZE && report == Payload(r.data.value, REPORT_IN_SIZE))
    {
      var rcvbuf := new byte[REPORT_IN_SIZE](_ => 0);
      var size := REPORT_IN_SIZE;
      status, newSize := dev.ReadReport(ReportIn, 0, rcvbuf, size, READ_TIMEOUT);
      report := rcvbuf[..];
    }

    /** What a read's outcome leads to: a full report is handled, a timeout
        ignored, any other error closes the device. */
    method React(status: int, newSize: int, report: seq<byte>)
      requires Valid() && |report| == REPORT_IN_SIZE
      modifies this`host, this`lastKey, this`lastOffHook, dev`handle, dev`writeHandle, dev`readHandle
      ensures Valid()
      ensures status == 0 && newSize == REPORT_IN_SIZE ==>
                Snap() == old(Snap()).(host := old(host) + Reaction(old(Keys()), report, ringState != 0, conf.dialKey),
                                       keys := Next(report, ringState != 0, conf.dialKey))
      ensures (status == 0 && newSize != REPORT_IN_SIZE) || status == E_ERR_TIMEOUT ==> Snap() == old(Snap())
      ensures status != 0 && status != E_ERR_TIMEOUT ==>
                Snap() == Closed(old(Snap()))
    {
      if status == 0 {
        if newSize == REPORT_IN_SIZE {
          HandleReportIn(report);
        }
      } else if status != E_ERR_TIMEOUT {
        dev.Close();
      }
    }

    /** What the sends of a connected tick add up to: `l1` after the LED
        step, `l` after the keepalive step. */
    static lemma TickSent(l0: Link, cnt: bv32, ringing: bool, registered: bool, l1: Link, l: Link, status: int)
      requires var led := [LedFrame(LedFor(cnt, ringing, registered))];
               && (cnt & 3 != 0 ==> l1 == l0)
               && (cnt & 3 == 0 ==> l1 == Send(l0, led))
               && (cnt & 3 == 0 && !Accepted(l0, led) ==> l == l1 && status != 0)
               && ((cnt & 3 != 0 || Accepted(l0, led)) && cnt & 0x1FF != 0 ==> l == l1 && status == 0)
               && ((cnt & 3 != 0 || Accepted(l0, led)) && cnt & 0x1FF == 0 ==>
                     l == Send(l1, [KeepaliveFrame()]) && (status == 0 <==> Accepted(l1, [KeepaliveFrame()])))
      ensures l == Send(l0, TickFrames(cnt, ringing, registered))
      ensures status == 0 <==> Accepted(l0, TickFrames(cnt, ringing, registered))
    {
      var led := [LedFrame(LedFor(cnt, ringing, registered))];
      if cnt & 3 != 0 {
        assert cnt & 0x1FF != 0;
        assert TickFrames(cnt, ringing, registered) == [];
        assert l0.log + Writes([]) == l0.log;
      } else if cnt & 0x1FF != 0 {
        assert TickFrames(cnt, ringing, registered) == led;
      } else {
        KeepaliveAfterLed(cnt, ringing, registered);
        assert TickFrames(cnt, ringing, registered) == led + [KeepaliveFrame()];
        SendAppend(l0, led, [KeepaliveFrame()]);
      }
    }

    /** One call of `PolycomCX300::Poll`. The whole call works with the
        counter's value on entry; the increment that ends the call is taken
        first here, which changes nothing since nothing else reads it. */
    method Poll()
      requires Valid()
      modifies this`loopCnt, this`displayUpdateFlag, this`ringUpdateFlag, this`host, this`lastKey, this`lastOffHook
      modifies dev
      ensures Valid()
      ensures loopCnt == old(loopCnt) + 1
      ensures !old(dev.IsOpened()) && !ConnectTick(old(loopCnt)) ==> unchanged(dev) && Snap() == old(Snap())
      ensures !old(dev.IsOpened()) && ConnectTick(old(loopCnt)) ==> Reconnected(old(Snap()), Snap())
      ensures old(dev.IsOpened()) ==>
                Snap() == TickResult(old(loopCnt), ringState != 0, regState != 0, callState == 0, conf.dialKey, old(Snap()))
      ensures old(dev.IsOpened()) ==> IdentityKept(dev)
    {
      var cnt := loopCnt;
      loopCnt := loopCnt + 1;
      Tick(cnt);
    }

    /** The body of Poll at counter value `cnt`: a connecting tick while
        disconnected, or a connected tick. */
    method Tick(cnt: bv32)
      requires Valid()
      modifies this`displayUpdateFlag, this`ringUpdateFlag, this`host, this`lastKey, this`lastOffHook
      modifies dev
      ensures Valid()
      ensures !old(dev.IsOpened()) && !ConnectTick(cnt) ==> unchanged(dev) && Snap() == old(Snap())
      ensures !old(dev.IsOpened()) && ConnectTick(cnt) ==> Reconnected(old(Snap()), Snap())
      ensures old(dev.IsOpened()) ==>
                Snap() == TickResult(cnt, ringState != 0, regState != 0, callState == 0, conf.dialKey, old(Snap()))
      ensures old(dev.IsOpened()) ==> IdentityKept(dev)
    {
      if !dev.IsOpened() {
        Search(cnt);
      } else {
        Serve(cnt);
      }
    }

    /** The connected branch of Poll as Tick sees it: ServiceTick, which
        touches nothing Open stored. */
    method Serve(cnt: bv32)
      requires Valid()
      modifies this`displayUpdateFlag, this`ringUpdateFlag, this`host, this`lastKey, this`lastOffHook
      modifies dev`ops, dev`writeScript, dev`readScript, dev`handle, dev`writeHandle, dev`readHandle
      ensures Valid()
      ensures Snap() == TickResult(cnt, ringState != 0, regState != 0, callState == 0, conf.dialKey, old(Snap()))
      ensures IdentityKept(dev)
    {
      ServiceTick(cnt);
    }

    /** The disconnected branch of Poll: the phone is looked for on every
        hundredth tick. */
    method Search(cnt: bv32)
      requires Valid() && !dev.IsOpened()
      modifies dev
      ensures Valid()
      ensures !ConnectTick(cnt) ==> unchanged(dev) && Snap() == old(Snap())
      ensures ConnectTick(cnt) ==> Reconnected(old(Snap()), Snap())
    {
      if cnt % 100 == 0 {
        Reconnect();
      }
    }
  }
}
