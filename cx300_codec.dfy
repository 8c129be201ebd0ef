/**
 * The Polycom CX300's report protocol (PolycomCX300.cpp), as pure functions:
 * decoding an 8-byte input report into keys and hook changes, the output
 * reports that set the status LED and the display, the keepalive feature
 * report, and which reports a poll tick and a connection send.
 */
module Cx300Codec {
  import opened Base
  import opened HidTransport

  const VENDOR_ID: int := 0x095d
  const PRODUCT_ID: int := 0x9201
  const REPORT_IN_SIZE: int := 8
  /** Characters carried by one display report. */
  const CHUNK_LENGTH: int := 8
  /** Timeout, in milliseconds, of the read in every connected poll tick. */
  const READ_TIMEOUT: int := 100

  // ---------------------------------------------------------------------
  // Keys

  type DigitValue = d: int | 0 <= d <= 9

  /** The tSIP keys the phone produces (`E_KEY` of Phone.h, which is not part of this model). */
  datatype Key = Digit(d: DigitValue) | Star | Hash | Ok | C | CallHangup | Hook

  /** A call into the host application: `Key(keyCode, state)` or `RunScriptAsync(script)`. */
  datatype HostCall = KeyCall(key: Key, state: int) | Script(command: string)

  /** Byte 1 of an input report: the keypad key held, if any. The key that
      the dial key setting names ("*" or "#") reports Ok instead. */
  function DecodeKeyCode(code: byte, dialKey: string): (k: Option<Key>)
    ensures (k.Some? && k.value.Digit?) <==> 0x01 <= code <= 0x0A
    ensures k.Some? && k.value.Digit? ==> k.value.d == code - 1
    ensures k == Some(Ok) <==> (code == 0x0B && dialKey == "*") || (code == 0x0C && dialKey == "#")
    ensures k == Some(Star) <==> code == 0x0B && dialKey != "*"
    ensures k == Some(Hash) <==> code == 0x0C && dialKey != "#"
    ensures k.None? <==> code == 0x00 || code > 0x0C
  {
    match code
    case 0x01 => Some(Digit(0))
    case 0x02 => Some(Digit(1))
    case 0x03 => Some(Digit(2))
    case 0x04 => Some(Digit(3))
    case 0x05 => Some(Digit(4))
    case 0x06 => Some(Digit(5))
    case 0x07 => Some(Digit(6))
    case 0x08 => Some(Digit(7))
    case 0x09 => Some(Digit(8))
    case 0x0A => Some(Digit(9))
    case 0x0B => Some(if dialKey == "*" then Ok else Star)
    case 0x0C => Some(if dialKey == "#" then Ok else Hash)
    case _ => None     // 0x00: key up; anything else is unhandled
  }

  /** Different keypad codes never give the same key. */
  lemma DecodeKeyCodeInjective(a: byte, b: byte, dialKey: string)
    requires DecodeKeyCode(a, dialKey).Some? && DecodeKeyCode(a, dialKey) == DecodeKeyCode(b, dialKey)
    ensures a == b
  {
  }

  /** `report[0] & ~REPORT0_OFF_HOOK`. */
  function WithoutHook(b: byte): byte { b - b % 2 }

  /** Bit 0 of byte 0: the handset is off hook. */
  predicate OffHook(b: byte) { b % 2 == 1 }

  /** Bit 3 of byte 0: the device reports a long key press. */
  predicate LongPress(b: byte) { (b / 8) % 2 == 1 }

  /** Byte 0 without the hook bit is 0x02: the hold button. */
  predicate HoldRequested(report: seq<byte>)
    requires |report| >= 2
  {
    WithoutHook(report[0]) == 0x02
  }

  /** The key an input report holds: the button reported in byte 0 as 0x20
      (the C button, hang-up while ringing) overrides the keypad byte. */
  function ReportKey(report: seq<byte>, ringing: bool, dialKey: string): (k: Option<Key>)
    requires |report| >= 2
    ensures WithoutHook(report[0]) == 0x20 ==> k == Some(if ringing then CallHangup else C)
    ensures WithoutHook(report[0]) != 0x20 ==> k == DecodeKeyCode(report[1], dialKey)
    ensures k != Some(Hook)
  {
    if WithoutHook(report[0]) == 0x20 then Some(if ringing then CallHangup else C)
    else DecodeKeyCode(report[1], dialKey)
  }

  /** The chord byte decides between hang-up and C on its own, whatever the keypad byte says. */
  lemma ChordIgnoresKeypad(r1: seq<byte>, r2: seq<byte>, ringing: bool, dialKey: string)
    requires |r1| >= 2 && |r2| >= 2 && WithoutHook(r1[0]) == 0x20 && r2[0] == r1[0]
    ensures ReportKey(r1, ringing, dialKey) == ReportKey(r2, ringing, dialKey)
    ensures ReportKey(r1, ringing, dialKey) == Some(CallHangup) <==> ringing
  {
  }

  /** What the driver remembers between input reports. */
  datatype KeyState = KeyState(lastKey: Option<Key>, lastOffHook: bool)

  /** A key goes down when none was held, and up when none is held any more;
      a change from one key straight to another reports nothing. */
  function KeyEdge(last: Option<Key>, key: Option<Key>): seq<HostCall>
  {
    if last.None? && key.Some? then [KeyCall(key.value, 1)]
    else if last.Some? && key.None? then [KeyCall(last.value, 0)]
    else []
  }

  /** A hook change is reported as the Hook key, 1 meaning the handset is put down. */
  function HookEdge(last: bool, now: bool): seq<HostCall>
  {
    if now != last then [KeyCall(Hook, if now then 0 else 1)] else []
  }

  /** The host calls one input report causes, in order: the hold script,
      the key edge, the hook edge. */
  function Reaction(st: KeyState, report: seq<byte>, ringing: bool, dialKey: string): seq<HostCall>
    requires |report| >= 2
  {
    (if HoldRequested(report) then [Script("ToggleHold()")] else [])
    + KeyEdge(st.lastKey, ReportKey(report, ringing, dialKey))
    + HookEdge(st.lastOffHook, OffHook(report[0]))
  }

  /** What the driver remembers after an input report. */
  function Next(report: seq<byte>, ringing: bool, dialKey: string): KeyState
    requires |report| >= 2
  {
    KeyState(ReportKey(report, ringing, dialKey), OffHook(report[0]))
  }

  /** Input reports handled one after another. */
  function Replay(st: KeyState, reports: seq<seq<byte>>, ringing: bool, dialKey: string): seq<HostCall>
    requires forall i :: 0 <= i < |reports| ==> |reports[i]| >= 2
    decreases |reports|
  {
    if reports == [] then []
    else Reaction(st, reports[0], ringing, dialKey) + Replay(Next(reports[0], ringing, dialKey), reports[1..], ringing, dialKey)
  }

  /** Releasing a key reports the key that was last held. */
  lemma ReleaseNamesHeldKey(st: KeyState, report: seq<byte>, ringing: bool, dialKey: string)
    requires |report| >= 2 && st.lastKey.Some? && ReportKey(report, ringing, dialKey).None?
    ensures KeyCall(st.lastKey.value, 0) in Reaction(st, report, ringing, dialKey)
    ensures forall c :: c in Reaction(st, report, ringing, dialKey) && c.KeyCall? && c.key != Hook ==>
              c == KeyCall(st.lastKey.value, 0)
  {
  }

  /** A change from one key straight to another reports no key event, but
      the new key is remembered, so its release is reported later although
      its press never was. */
  lemma DirectKeyChangeUnreported(a: Key, b: Key, h: bool, r1: seq<byte>, r2: seq<byte>, ringing: bool, dialKey: string)
    requires |r1| >= 2 && |r2| >= 2 && a != b
    requires ReportKey(r1, ringing, dialKey) == Some(b) && ReportKey(r2, ringing, dialKey).None?
    requires !HoldRequested(r1) && !HoldRequested(r2) && OffHook(r1[0]) == h && OffHook(r2[0]) == h
    ensures Replay(KeyState(Some(a), h), [r1, r2], ringing, dialKey) == [KeyCall(b, 0)]
  {
    var st := KeyState(Some(a), h);
    assert Reaction(st, r1, ringing, dialKey) == [];
    assert Next(r1, ringing, dialKey) == KeyState(Some(b), h);
    assert Reaction(KeyState(Some(b), h), r2, ringing, dialKey) == [KeyCall(b, 0)];
    assert [r1, r2][1..] == [r2];
    assert [r2][1..] == [];
    assert Replay(KeyState(Some(b), h), [r2], ringing, dialKey) == [KeyCall(b, 0)] + [];
  }

  function Repeat(r: seq<byte>, n: nat): (rs: seq<seq<byte>>)
    ensures |rs| == n && forall i :: 0 <= i < n ==> rs[i] == r
  {
    seq(n, _ => r)
  }

  /** Once a key is held and remembered, the same report again, however
      often it repeats, reports nothing. */
  lemma {:induction false} SteadyReportSilent(r: seq<byte>, n: nat, ringing: bool, dialKey: string)
    requires |r| >= 2 && !HoldRequested(r)
    ensures Replay(Next(r, ringing, dialKey), Repeat(r, n), ringing, dialKey) == []
    decreases n
  {
    if n > 0 {
      assert Repeat(r, n)[1..] == Repeat(r, n - 1);
      SteadyReportSilent(r, n - 1, ringing, dialKey);
    }
  }

  /** A long-press report (bit 3 of byte 0) for the key already held, with
      the hook bit unchanged, is only logged: no host call, and the
      remembered state stays as it was. */
  lemma LongPressSilent(st: KeyState, r: seq<byte>, ringing: bool, dialKey: string)
    requires |r| >= 2 && LongPress(r[0]) && !HoldRequested(r)
    requires st.lastKey == ReportKey(r, ringing, dialKey) && st.lastOffHook == OffHook(r[0])
    ensures Reaction(st, r, ringing, dialKey) == [] && Next(r, ringing, dialKey) == st
  {
  }

  /** Reports that each name the key already held and keep the hook bit,
      such as the run a long press sends, report nothing, whatever else in
      byte 0 differs between them. */
  lemma {:induction false} SameKeyRunSilent(st: KeyState, reports: seq<seq<byte>>, ringing: bool, dialKey: string)
    requires forall i :: 0 <= i < |reports| ==> |reports[i]| >= 2 && !HoldRequested(reports[i])
    requires forall i :: 0 <= i < |reports| ==>
               ReportKey(reports[i], ringing, dialKey) == st.lastKey && OffHook(reports[i][0]) == st.lastOffHook
    ensures Replay(st, reports, ringing, dialKey) == []
    decreases |reports|
  {
    if reports != [] {
      assert Next(reports[0], ringing, dialKey) == st;
      SameKeyRunSilent(st, reports[1..], ringing, dialKey);
    }
  }

  /** Holding a key from idle reports exactly one press, however many
      reports the device sends while it is held. */
  lemma HeldKeyPressedOnce(r: seq<byte>, n: nat, k: Key, ringing: bool, dialKey: string)
    requires |r| >= 2 && !HoldRequested(r) && ReportKey(r, ringing, dialKey) == Some(k)
    ensures Replay(KeyState(None, OffHook(r[0])), Repeat(r, n + 1), ringing, dialKey) == [KeyCall(k, 1)]
  {
    assert Repeat(r, n + 1)[1..] == Repeat(r, n);
    SteadyReportSilent(r, n, ringing, dialKey);
  }

  /** How many times the hook bit changes along `bits`, starting from `last`. */
  function Toggles(last: bool, bits: seq<bool>): nat
    decreases |bits|
  {
    if bits == [] then 0
    else (if bits[0] != last then 1 else 0) + Toggles(bits[0], bits[1..])
  }

  /** How many host calls are Hook events. */
  function HookEvents(calls: seq<HostCall>): nat
    decreases |calls|
  {
    if calls == [] then 0
    else (if calls[0].KeyCall? && calls[0].key == Hook then 1 else 0) + HookEvents(calls[1..])
  }

  lemma {:induction false} HookEventsAppend(a: seq<HostCall>, b: seq<HostCall>)
    ensures HookEvents(a + b) == HookEvents(a) + HookEvents(b)
    decreases |a|
  {
    if a == [] {
      assert a + b == b;
    } else {
      assert (a + b)[0] == a[0];
      assert (a + b)[1..] == a[1..] + b;
      HookEventsAppend(a[1..], b);
    }
  }

  function HookBits(reports: seq<seq<byte>>): (bits: seq<bool>)
    requires forall i :: 0 <= i < |reports| ==> |reports[i]| >= 2
    ensures |bits| == |reports| && forall i :: 0 <= i < |reports| ==> bits[i] == OffHook(reports[i][0])
  {
    seq(|reports|, i requires 0 <= i < |reports| => OffHook(reports[i][0]))
  }

  /** One input report yields one Hook event exactly when it flips the hook bit. */
  lemma ReactionHookEvents(st: KeyState, r: seq<byte>, ringing: bool, dialKey: string)
    requires |r| >= 2 && st.lastKey != Some(Hook)
    ensures HookEvents(Reaction(st, r, ringing, dialKey)) == if OffHook(r[0]) != st.lastOffHook then 1 else 0
  {
    var hold: seq<HostCall> := if HoldRequested(r) then [Script("ToggleHold()")] else [];
    var edge := KeyEdge(st.lastKey, ReportKey(r, ringing, dialKey));
    var hook := HookEdge(st.lastOffHook, OffHook(r[0]));
    HookEventsAppend(hold + edge, hook);
    HookEventsAppend(hold, edge);
    assert HookEvents(hold) == 0;
    assert HookEvents(edge) == 0;
  }

  /** Every change of the hook bit, and only a change, is reported, once. */
  lemma {:induction false} HookChangesReported(st: KeyState, reports: seq<seq<byte>>, ringing: bool, dialKey: string)
    requires forall i :: 0 <= i < |reports| ==> |reports[i]| >= 2
    requires st.lastKey != Some(Hook)
    ensures HookEvents(Replay(st, reports, ringing, dialKey)) == Toggles(st.lastOffHook, HookBits(reports))
    decreases |reports|
  {
    if reports != [] {
      var r := reports[0];
      var st' := Next(r, ringing, dialKey);
      ReactionHookEvents(st, r, ringing, dialKey);
      HookEventsAppend(Reaction(st, r, ringing, dialKey), Replay(st', reports[1..], ringing, dialKey));
      assert HookBits(reports)[1..] == HookBits(reports[1..]);
      HookChangesReported(st', reports[1..], ringing, dialKey);
    }
  }

  // ---------------------------------------------------------------------
  // Status LED

  datatype LedPattern = Green | Red | OrangeRed | Orange | GreenOrange | Off

  /** The two-byte output report that sets the status LED. */
  function LedCode(p: LedPattern): (r: seq<byte>)
    ensures |r| == 2 && r[0] == 0x16
  {
    match p
    case Green => [0x16, 0x01]
    case Red => [0x16, 0x03]
    case OrangeRed => [0x16, 0x04]
    case Orange => [0x16, 0x05]
    case Off => [0x16, 0x07]
    case GreenOrange => [0x16, 0x08]
  }

  /** Reads an LED report back. */
  function LedPatternOf(r: seq<byte>): Option<LedPattern>
  {
    if |r| != 2 || r[0] != 0x16 then None
    else if r[1] == 0x01 then Some(Green)
    else if r[1] == 0x03 then Some(Red)
    else if r[1] == 0x04 then Some(OrangeRed)
    else if r[1] == 0x05 then Some(Orange)
    else if r[1] == 0x07 then Some(Off)
    else if r[1] == 0x08 then Some(GreenOrange)
    else None
  }

  /** Each pattern has its own code, and the code names the pattern. */
  lemma LedCodeRoundTrip(p: LedPattern, q: LedPattern)
    ensures LedPatternOf(LedCode(p)) == Some(p)
    ensures LedCode(p) == LedCode(q) ==> p == q
  {
  }

  /** SetLed sends the two pattern bytes as an output report. */
  function LedFrame(p: LedPattern): Frame { OutputReport(LedCode(p)) }

  /** The patterns shown once after connecting, in order. */
  const SELF_TEST: seq<LedPattern> := [Green, Red, OrangeRed, Orange, GreenOrange, Off]

  function LedFrames(ps: seq<LedPattern>): (fs: seq<Frame>)
    ensures |fs| == |ps| && forall i :: 0 <= i < |ps| ==> fs[i] == LedFrame(ps[i])
  {
    seq(|ps|, i requires 0 <= i < |ps| => LedFrame(ps[i]))
  }

  /** The LED a connected tick shows: blinking red while ringing, green when
      registered, off otherwise. */
  function LedFor(cnt: bv32, ringing: bool, registered: bool): (p: LedPattern)
    ensures ringing ==> (p == Red <==> cnt & 7 == 0) && (p != Red ==> p == Off)
    ensures !ringing ==> p == if registered then Green else Off
  {
    if ringing then (if cnt & 7 == 0 then Red else Off)
    else if registered then Green else Off
  }

  /** While ringing, successive LED ticks (every fourth) alternate between
      red and off, across the wrap of the 32-bit counter too. */
  lemma RingBlinkAlternates(cnt: bv32, registered: bool)
    requires cnt & 3 == 0
    ensures LedFor(cnt, true, registered) != LedFor(cnt + 4, true, registered)
  {
    assert (cnt + 4) & 7 == (cnt & 7) ^ 4;
  }

  // ---------------------------------------------------------------------
  // Keepalive and display

  /** Feature report 0x17 with the language byte 0x09 (English): without it
      the phone asks for an upgrade of Office Communicator. */
  function KeepaliveFrame(): (f: Frame)
    ensures f.FeatureReport? && |f.bytes| == 65
    ensures f.bytes[..5] == [0x17, 0x09, 0x04, 0x01, 0x02] && f.bytes[5..] == Zeros(60)
  {
    var payload: seq<byte> := [0x09, 0x04, 0x01, 0x02];
    var r := ReportFrame(0x17, payload);
    assert r[..5] == [r[0]] + r[1..5];
    assert r[5..] == Zeros(60);
    FeatureReport(r)
  }

  const DISPLAY_CLEAR: seq<byte> := [0x13, 0x00]
  const TEXT_MODE_TWO_LINES: seq<byte> := [0x13, 0x15]
  const TEXT_TOP_LINE: seq<byte> := [0x14, 0x05, 0x80]
  const TEXT_BOTTOM_LINE: seq<byte> := [0x14, 0x0A, 0x80]

  /** The eight characters of `text` from `pos`, zero past its end. */
  function ChunkChars(text: seq<byte>, pos: nat): (c: seq<byte>)
    ensures |c| == CHUNK_LENGTH
  {
    seq(CHUNK_LENGTH, j => if 0 <= j && pos + j < |text| then text[pos + j] else 0)
  }

  /** Each character followed by a zero filler byte. */
  function Spread(c: seq<byte>): (r: seq<byte>)
    ensures |r| == 2 * |c|
  {
    if c == [] then [] else [c[0], 0] + Spread(c[1..])
  }

  /** Character `j` sits at byte `2 * j`, a zero after it. */
  lemma {:induction false} SpreadAt(c: seq<byte>)
    ensures forall j :: 0 <= j < |c| ==> Spread(c)[2 * j] == c[j] && Spread(c)[2 * j + 1] == 0
    decreases |c|
  {
    if c != [] {
      SpreadAt(c[1..]);
      var r := Spread(c);
      assert r == [c[0], 0] + Spread(c[1..]);
      forall j | 1 <= j < |c|
        ensures r[2 * j] == c[j] && r[2 * j + 1] == 0
      {
        assert r[2 * j] == Spread(c[1..])[2 * (j - 1)];
        assert r[2 * j + 1] == Spread(c[1..])[2 * (j - 1) + 1];
      }
    }
  }

  /** The 18-byte display report carrying the characters of `text` from
      `pos`; byte 1 is 0x80 on the last report of the text. */
  function ChunkFrame(text: seq<byte>, pos: nat): (r: seq<byte>)
    ensures |r| == 2 + 2 * CHUNK_LENGTH && r[0] == 0x15
    ensures r[1] == if pos + CHUNK_LENGTH < |text| then 0x00 else 0x80
  {
    [0x15, if pos + CHUNK_LENGTH < |text| then 0x00 else 0x80] + Spread(ChunkChars(text, pos))
  }

  /** A display report is determined by its tag, its flag, and each
      character followed by a zero. */
  lemma ChunkFrameBytes(text: seq<byte>, pos: nat, r: seq<byte>)
    requires |r| == 2 + 2 * CHUNK_LENGTH && r[0] == 0x15
    requires r[1] == if pos + CHUNK_LENGTH < |text| then 0x00 else 0x80
    requires forall j :: 0 <= j < CHUNK_LENGTH ==> r[2 + 2 * j] == ChunkChars(text, pos)[j] && r[3 + 2 * j] == 0
    ensures r == ChunkFrame(text, pos)
  {
    var f := ChunkFrame(text, pos);
    var sp := Spread(ChunkChars(text, pos));
    SpreadAt(ChunkChars(text, pos));
    assert f[2..] == sp;
    forall i | 2 <= i < |r|
      ensures r[i] == f[i]
    {
      var j := (i - 2) / 2;
      assert i == 2 + 2 * j || i == 3 + 2 * j;
    }
  }

  /** The characters a display report carries. */
  function ChunkText(r: seq<byte>): seq<byte>
    requires |r| == 2 + 2 * CHUNK_LENGTH
  {
    seq(CHUNK_LENGTH, j requires 0 <= j < CHUNK_LENGTH => r[2 + 2 * j])
  }

  /** The display reports for `text` from `pos`, eight characters each. */
  function ChunksFrom(text: seq<byte>, pos: nat): seq<Frame>
    decreases |text| - pos
  {
    if pos >= |text| then []
    else [OutputReport(ChunkFrame(text, pos))] + ChunksFrom(text, pos + CHUNK_LENGTH)
  }

  /** A line of n characters takes n / 8 reports, rounded up. */
  lemma {:induction false} ChunkCount(text: seq<byte>, pos: nat)
    ensures |ChunksFrom(text, pos)| == if pos >= |text| then 0 else (|text| - pos + 7) / 8
    decreases |text| - pos
  {
    if pos < |text| {
      ChunkCount(text, pos + CHUNK_LENGTH);
    }
  }

  /** Report `i` of a line carries its characters from 8 * i. */
  lemma {:induction false} ChunkAt(text: seq<byte>, pos: nat, i: nat)
    requires i < |ChunksFrom(text, pos)|
    ensures ChunksFrom(text, pos)[i] == OutputReport(ChunkFrame(text, pos + 8 * i))
    decreases i
  {
    if i > 0 {
      ChunkAt(text, pos + CHUNK_LENGTH, i - 1);
    }
  }

  /** Only the last report of a line has the end flag, and an empty line sends no report. */
  lemma EndFlagOnLastChunk(text: seq<byte>, i: nat)
    requires i < |ChunksFrom(text, 0)|
    ensures ChunksFrom(text, 0)[i] == OutputReport(ChunkFrame(text, 8 * i))
    ensures ChunkFrame(text, 8 * i)[1] == 0x80 <==> i == |ChunksFrom(text, 0)| - 1
    ensures ChunksFrom([], 0) == []
  {
    ChunkAt(text, 0, i);
    ChunkCount(text, 0);
  }

  /** The text carried by a run of display reports. */
  function TextOf(fs: seq<Frame>): seq<byte>
    decreases |fs|
  {
    if fs == [] then []
    else (if |fs[0].bytes| == 2 + 2 * CHUNK_LENGTH then ChunkText(fs[0].bytes) else [])
         + TextOf(fs[1..])
  }

  lemma ChunkTextOfFrame(text: seq<byte>, pos: nat)
    ensures ChunkText(ChunkFrame(text, pos)) == ChunkChars(text, pos)
  {
    var r := ChunkFrame(text, pos);
    var sp := Spread(ChunkChars(text, pos));
    SpreadAt(ChunkChars(text, pos));
    assert forall j :: 0 <= j < CHUNK_LENGTH ==> r[2 + 2 * j] == sp[2 * j];
  }

  lemma TextOfCons(f: Frame, fs: seq<Frame>)
    requires |f.bytes| == 2 + 2 * CHUNK_LENGTH
    ensures TextOf([f] + fs) == ChunkText(f.bytes) + TextOf(fs)
  {
    assert ([f] + fs)[0] == f;
    assert ([f] + fs)[1..] == fs;
  }

  lemma ChunkCharsTail(text: seq<byte>, pos: nat)
    requires pos < |text| < pos + CHUNK_LENGTH
    ensures ChunkChars(text, pos) + [] == text[pos..] + Zeros(PadLength(|text| - pos))
  {
    assert PadLength(|text| - pos) == CHUNK_LENGTH - (|text| - pos);
    assert ChunkChars(text, pos) + [] == ChunkChars(text, pos);
  }

  lemma ChunkCharsInside(text: seq<byte>, pos: nat)
    requires pos + CHUNK_LENGTH <= |text|
    ensures ChunkChars(text, pos) == text[pos..pos + CHUNK_LENGTH]
  {
  }

  /** How many zero characters fill up the last report of a line of `n` characters. */
  function PadLength(n: nat): nat { (8 - n % 8) % 8 }

  /** The display reports of a line carry the line, padded with zeros to a
      whole number of reports. */
  lemma {:induction false} ChunksCarryText(text: seq<byte>, pos: nat)
    requires pos <= |text|
    ensures TextOf(ChunksFrom(text, pos)) == text[pos..] + Zeros(PadLength(|text| - pos))
    decreases |text| - pos
  {
    if pos < |text| {
      if pos + CHUNK_LENGTH <= |text| {
        ChunksCarryText(text, pos + CHUNK_LENGTH);
        FullChunkStep(text, pos);
      } else {
        LastChunkStep(text, pos);
      }
    }
  }

  lemma FullChunkStep(text: seq<byte>, pos: nat)
    requires pos + CHUNK_LENGTH <= |text|
    requires TextOf(ChunksFrom(text, pos + CHUNK_LENGTH)) ==
             text[pos + CHUNK_LENGTH..] + Zeros(PadLength(|text| - pos - CHUNK_LENGTH))
    ensures TextOf(ChunksFrom(text, pos)) == text[pos..] + Zeros(PadLength(|text| - pos))
  {
    var m := |text| - pos;
    var z := Zeros(PadLength(m));
    assert PadLength(m - 8) == PadLength(m);
    FirstChunk(text, pos);
    ChunkCharsInside(text, pos);
    SplitJoin(text, pos, CHUNK_LENGTH, z);
  }

  /** The first report of a line carries its first eight characters. */
  lemma FirstChunk(text: seq<byte>, pos: nat)
    requires pos < |text|
    ensures TextOf(ChunksFrom(text, pos)) == ChunkChars(text, pos) + TextOf(ChunksFrom(text, pos + CHUNK_LENGTH))
  {
    var rest := ChunksFrom(text, pos + CHUNK_LENGTH);
    assert ChunksFrom(text, pos) == [OutputReport(ChunkFrame(text, pos))] + rest;
    TextOfCons(OutputReport(ChunkFrame(text, pos)), rest);
    ChunkTextOfFrame(text, pos);
  }

  lemma SplitJoin(t: seq<byte>, pos: nat, k: nat, pad: seq<byte>)
    requires pos + k <= |t|
    ensures t[pos..pos + k] + (t[pos + k..] + pad) == t[pos..] + pad
  {
    ConcatAssoc(t[pos..pos + k], t[pos + k..], pad);
    assert t[pos..] == t[pos..pos + k] + t[pos + k..];
  }

  lemma LastChunkStep(text: seq<byte>, pos: nat)
    requires pos < |text| < pos + CHUNK_LENGTH
    ensures TextOf(ChunksFrom(text, pos)) == text[pos..] + Zeros(PadLength(|text| - pos))
  {
    FirstChunk(text, pos);
    LastChunkEmpty(text, pos);
    ChunkCharsTail(text, pos);
  }

  lemma LastChunkEmpty(text: seq<byte>, pos: nat)
    requires |text| < pos + CHUNK_LENGTH
    ensures TextOf(ChunksFrom(text, pos + CHUNK_LENGTH)) == []
  {
  }

  /** The reports of one line: the line selector, then its chunks. */
  function LineFrames(select: seq<byte>, text: seq<byte>): seq<Frame>
  {
    [OutputReport(select)] + ChunksFrom(text, 0)
  }

  /** The reports SetDisplayTwoLines sends, in order: the two-line mode,
      then the top line and the bottom line. */
  function DisplayFrames(line1: seq<byte>, line2: seq<byte>): seq<Frame>
  {
    [OutputReport(TEXT_MODE_TWO_LINES)] + (LineFrames(TEXT_TOP_LINE, line1) + LineFrames(TEXT_BOTTOM_LINE, line2))
  }

  /** Two lines take three control reports and one report per started
      eight characters of each line. */
  lemma DisplayFramesCount(line1: seq<byte>, line2: seq<byte>)
    ensures |DisplayFrames(line1, line2)| == 3 + (|line1| + 7) / 8 + (|line2| + 7) / 8
  {
    ChunkCount(line1, 0);
    ChunkCount(line2, 0);
  }

  /** The mode report, the top selector, the top line's reports, the
      bottom selector, the bottom line's reports: at these positions. */
  lemma DisplayFramesOrder(line1: seq<byte>, line2: seq<byte>)
    ensures var fs := DisplayFrames(line1, line2); var n1 := |ChunksFrom(line1, 0)|;
            && fs[0] == OutputReport(TEXT_MODE_TWO_LINES)
            && fs[1] == OutputReport(TEXT_TOP_LINE)
            && fs[2..2 + n1] == ChunksFrom(line1, 0)
            && fs[2 + n1] == OutputReport(TEXT_BOTTOM_LINE)
            && fs[3 + n1..] == ChunksFrom(line2, 0)
  {
    var top := LineFrames(TEXT_TOP_LINE, line1);
    var bottom := LineFrames(TEXT_BOTTOM_LINE, line2);
    var head := [OutputReport(TEXT_MODE_TWO_LINES)] + top;
    var n1 := |ChunksFrom(line1, 0)|;
    ConcatAssoc([OutputReport(TEXT_MODE_TWO_LINES)], top, bottom);
    assert DisplayFrames(line1, line2) == head + bottom;
    assert |head| == 2 + n1;
    assert head[2..] == ChunksFrom(line1, 0);
  }

  // ---------------------------------------------------------------------
  // What a poll sends

  /** The output and feature reports of a connected tick, in order: the LED
      every fourth tick, the keepalive every 512th. */
  function TickFrames(cnt: bv32, ringing: bool, registered: bool): seq<Frame>
  {
    (if cnt & 0x03 == 0 then [LedFrame(LedFor(cnt, ringing, registered))] else [])
    + (if cnt & 0x1FF == 0 then [KeepaliveFrame()] else [])
  }

  /** A keepalive tick is always an LED tick too, and the LED goes first. */
  lemma KeepaliveAfterLed(cnt: bv32, ringing: bool, registered: bool)
    requires cnt & 0x1FF == 0
    ensures TickFrames(cnt, ringing, registered) == [LedFrame(LedFor(cnt, ringing, registered)), KeepaliveFrame()]
  {
    assert cnt & 0x03 == 0;
  }

  /** A refused LED report stops the tick: the keepalive due on the same
      tick is not sent. */
  lemma KeepaliveNeedsLed(l: Link, cnt: bv32, ringing: bool, registered: bool)
    requires cnt & 0x1FF == 0
    requires !Accepted(l, [LedFrame(LedFor(cnt, ringing, registered))])
    ensures Send(l, TickFrames(cnt, ringing, registered)) == Send(l, [LedFrame(LedFor(cnt, ringing, registered))])
    ensures !Accepted(l, TickFrames(cnt, ringing, registered))
  {
    KeepaliveAfterLed(cnt, ringing, registered);
    var led := [LedFrame(LedFor(cnt, ringing, registered))];
    assert TickFrames(cnt, ringing, registered) == led + [KeepaliveFrame()];
    SendAppend(l, led, [KeepaliveFrame()]);
  }

  /** What connecting does after Open succeeded: the keepalive, then (if it
      got through) the display is cleared, whatever the outcome, and the LED
      self test runs until a pattern fails. `closed` says whether the
      driver then closed the device. */
  datatype Connection = Connection(link: Link, closed: bool)

  /** Every report connecting sends when nothing fails. */
  function ConnectFrames(): seq<Frame>
  {
    [KeepaliveFrame(), OutputReport(DISPLAY_CLEAR)] + LedFrames(SELF_TEST)
  }

  function Connect(l: Link): (c: Connection)
    ensures Accepted(l, ConnectFrames()) ==> c == Connection(Send(l, ConnectFrames()), false)
    ensures !Accepted(l, [KeepaliveFrame()]) ==> c == Connection(Send(l, [KeepaliveFrame()]), true)
    ensures c.closed ==> !Accepted(l, ConnectFrames())
  {
    var k := [KeepaliveFrame()];
    var l1 := Send(l, k);
    SendAppend(l, k, [OutputReport(DISPLAY_CLEAR)] + LedFrames(SELF_TEST));
    SendAppend(l1, [OutputReport(DISPLAY_CLEAR)], LedFrames(SELF_TEST));
    assert ConnectFrames() == k + ([OutputReport(DISPLAY_CLEAR)] + LedFrames(SELF_TEST));
    if !Accepted(l, k) then Connection(l1, true)
    else
      var l2 := Send(l1, [OutputReport(DISPLAY_CLEAR)]);
      Connection(Send(l2, LedFrames(SELF_TEST)), !Accepted(l2, LedFrames(SELF_TEST)))
  }

  /** A refused display clear does not close the device: the self test still runs. */
  lemma ClearFailureIgnored(l: Link)
    requires Accepted(l, [KeepaliveFrame()])
    requires !Accepted(Send(l, [KeepaliveFrame()]), [OutputReport(DISPLAY_CLEAR)])
    requires Accepted(Send(Send(l, [KeepaliveFrame()]), [OutputReport(DISPLAY_CLEAR)]), LedFrames(SELF_TEST))
    ensures !Connect(l).closed && !Accepted(l, ConnectFrames())
  {
    var k := [KeepaliveFrame()];
    SendAppend(l, k, [OutputReport(DISPLAY_CLEAR)] + LedFrames(SELF_TEST));
    SendAppend(Send(l, k), [OutputReport(DISPLAY_CLEAR)], LedFrames(SELF_TEST));
    assert ConnectFrames() == k + ([OutputReport(DISPLAY_CLEAR)] + LedFrames(SELF_TEST));
  }

  /** Off a connecting tick nothing happens; the device is looked for every 100th tick. */
  predicate ConnectTick(cnt: bv32) { cnt % 100 == 0 }

  /** The 32-bit tick counter wraps after 2^32 ticks, which is not a multiple
      of 100: the last connecting tick before the wrap is only 96 ticks before
      tick 0, the next one. */
  lemma ConnectTickAtWrap()
    ensures ConnectTick(0xFFFF_FFA0) && ConnectTick(0xFFFF_FFA0 + 96)
    ensures forall cnt: bv32 :: 0xFFFF_FFA0 < cnt ==> !ConnectTick(cnt)
  {
  }
}
