# Polycom CX300 phone plugin for tSIP, modelled in Dafny

The plugin drives a Polycom CX300 USB handset for the tSIP softphone. The
model has four parts.

- **HID transport** (`hid_device.dfy`, module `HidTransport`, HidDevice.cpp).
  `HidDevice` enumerates the HID interfaces and keeps the first one that
  passes a VID/PID, string and usage-page filter. It then opens that
  interface's read and write handles and its wait event. It frames output
  and feature reports and reads input reports with a timeout, cancelling
  the read when it times out.
  - The Windows side is an oracle held in the object's fields:
    - one enumeration per `Open`, as a list of candidate interfaces with
      what each system query returns;
    - one scripted outcome per write;
    - one scripted outcome per read;
    - whether the wait event can be created.
  - `ops` records, in order, every enumeration, and every write, read,
    wait, cancel and event reset made on an open handle.
  - The value-level `Link` and `Send` say what a run of reports does: they
    are sent one after another until the first refusal.
- **Report protocol** (`cx300_codec.dfy`, module `Cx300Codec`, the pure
  parts of PolycomCX300.cpp), as functions:
  - input-report decoding into tSIP keys and hook changes;
  - the status-LED codes and the keepalive feature report;
  - the 18-byte display reports;
  - the reports a poll tick and a connection send.
- **Driver** (`polycom_cx300.dfy`, module `PolycomCX300`, PolycomCX300.cpp).
  - `Driver` holds the file's static state: the tick counter, the latched
    key and hook bit, and the state mailbox the host fills.
  - The host application is a trace, `host`, of its `Key` and
    `RunScriptAsync` calls.
  - `Poll` is proved against the functions `TickResult` and `Reconnected`,
    and its effect is stated on a `Snapshot` of everything a tick reads or
    changes.
- **Settings** (`custom_conf.dfy`, module `Configuration`, CustomConf.cpp):
  the three settings and their JSON form, with a round trip.

`base.dfy` holds the byte and 32-bit types and `Option`.

## Model

| member | source | states |
|---|---|---|
| Configuration.Render | CustomConf.cpp:18-24 | toJson writes an object with exactly the members detailedLogging, ringType and dialKey |
| Configuration.Apply | CustomConf.cpp:26-36 | a value that is not an object changes nothing; a ring type in range stays in range, and any new ring type is below RING_TYPE_MAX |
| Configuration.RoundTrip | CustomConf.cpp:18-36 | loading what toJson wrote restores the settings, whatever they were before, when the ring type is below 5 |
| Configuration.OutOfRangeRingTypeIgnored | CustomConf.cpp:30-34 | a stored ring type of 5 or more is not loaded and the other two settings are |
| Configuration.ApplyIdempotent | CustomConf.cpp:26-36 | loading the same JSON twice is the same as loading it once |
| Configuration.CustomConf.constructor | CustomConf.cpp:10-16 | the settings start as logging off, ring type 0, dial key "#" |
| Configuration.CustomConf.ToJson | CustomConf.cpp:18-24 | the object built member by member is the rendering of the current settings |
| Configuration.CustomConf.FromJson | CustomConf.cpp:26-36 | the new settings are Apply of the JSON to the old ones |
| HidTransport.HidDevice.GetErrorDesc | HidDevice.cpp:55-80 | the four listed codes give their names; 0 and every other code give "", because the scan stops at the first zero code |
| HidTransport.HidDevice.UnicodeToAscii | HidDevice.cpp:82-94 | a zero-terminated string of units below 256 is narrowed in place, byte k becoming unit k, then a zero byte; the rest of the buffer is untouched |
| HidTransport.WideUnitNeverAdvances | HidDevice.cpp:86-90 | once the read pointer reaches a unit of 256 or more, no number of loop turns moves it, and the unit stays 256 or more |
| HidTransport.ConvertStep | HidDevice.cpp:86-90 | one turn of the loop: a unit below 256 is copied to the write pointer and both pointers move; a wider unit writes '?' and only the write pointer moves |
| HidTransport.Run | HidDevice.cpp:86-92 | up to k turns of the loop, which stops at a zero unit or at the end of the buffer |
| HidTransport.WideUnitStalls | HidDevice.cpp:86-90 | after one turn on a unit of 256 or more the read pointer has not moved and the unit, whatever byte the turn overwrote, is still 256 or more |
| HidTransport.HidDevice.UnicodeToAsciiReplacing | HidDevice.cpp:82-94 | the corrected converter: every zero-terminated string is narrowed, units of 256 or more becoming '?' |
| HidTransport.HidDevice.constructor | HidDevice.cpp:96-110 | no handle, no event, VID/PID 0, usage page -1, report lengths 0 |
| HidTransport.Judge | HidDevice.cpp:155-211 | one pass of the loop: a candidate that cannot be opened or whose VID/PID differ is skipped with the error kept; a failed string or caps query rejects it with IO, a mismatched string or usage page with NOTFOUND; with no string or usage-page check every id-matching candidate is accepted |
| HidTransport.ScanFrom | HidDevice.cpp:139-229 | a found index is the first candidate the filter accepts; a miss means no candidate is accepted |
| HidTransport.MissedError | HidDevice.cpp:133-211 | on a miss the error is the one the last id-matching candidate left (NOTFOUND, or IO when one of its queries failed), or NOTFOUND when no ids matched |
| HidTransport.WildcardTakesFirstOpenable | HidDevice.cpp:155-171 | with VID/PID 0 and no further checks, Open finds something iff some interface can be opened, takes the first such, and otherwise reports the initial error |
| HidTransport.OpenResult | HidDevice.cpp:126-241 | success implies an accepted candidate; with no accepted candidate the result is NOTFOUND or IO |
| HidTransport.HandlesResult | HidDevice.cpp:248-290 | IO when the write or read handle cannot be made, OTHER when the wait event is missing and cannot be made, 0 otherwise |
| HidTransport.HidDevice.HandlesSpec | HidDevice.cpp:248-290 | the write handle is opened or invalid; the read handle is untouched when the write handle failed, otherwise opened or invalid; the event is created, once, only when both handles opened and it did not exist; the status is HandlesResult |
| HidTransport.HidDevice.OpenSpec | HidDevice.cpp:126-241 | the usage page is stored and one enumeration taken; on a miss no handle is open and the read/write handles, event, ids, path and lengths are as before; on a match the candidate's handle and path are kept and HandlesSpec holds; the status is OpenResult |
| HidTransport.HidDevice.Scan | HidDevice.cpp:139-229 | the loop over the enumeration ends as ScanFrom says, with the matching candidate's handle open or with no handle |
| HidTransport.HidDevice.Adopt | HidDevice.cpp:214-235 | with a usage page the matching interface's ids and report lengths are kept; the path is kept and the read and write handles are created |
| HidTransport.HidDevice.BeginEnumeration | HidDevice.cpp:136-137 | the usage page is remembered and exactly one enumeration is taken |
| HidTransport.HidDevice.Open | HidDevice.cpp:126-241 | one enumeration; on a match that interface's handle is kept and its read/write handles made, as OpenSpec and OpenResult say; on a miss no handle is open and the rest is unchanged |
| HidTransport.HidDevice.CreateReadWriteHandles | HidDevice.cpp:248-290 | IO when the write or read handle fails (the read handle is untouched if the write handle failed); OTHER when the event is needed and cannot be made; the event is created at most once |
| HidTransport.HidDevice.Close | HidDevice.cpp:330-347 | all three handles are invalid afterwards |
| HidTransport.ReportFrame | HidDevice.cpp:351-357 | the 65-byte report carries the id in byte 0, the payload from byte 1, zeros after it |
| HidTransport.HidDevice.WriteReport | HidDevice.cpp:349-380 | IN and unknown kinds give INV_PARAM and send nothing; an output report sends len+1 framed bytes, a feature report all 65; status 0 iff the report was accepted, IO otherwise |
| HidTransport.HidDevice.WriteReportOut | HidDevice.cpp:382-395 | the bytes go out verbatim as one output report; status 0 iff accepted, IO otherwise |
| HidTransport.ReadInput | HidDevice.cpp:412-444 | success iff data arrived; a timeout cancels the read and resets the event; no read handle fails with IO at once |
| HidTransport.HidDevice.ReadReport | HidDevice.cpp:399-464 | IN reads len+1 bytes and returns the report without its id byte, with the length restored only on success; a timeout is cancelled; OUT and unknown kinds give INV_PARAM; feature reads use the main handle |
| HidTransport.PayloadStripsId | HidDevice.cpp:425-449 | a report of the requested length comes back with only its id byte removed |
| HidTransport.Reach | PolycomCX300.cpp:201-272 | how many of a run of reports are handed to the system when each is sent after the previous one was accepted: none past an unusable handle, and the first refused one is the last |
| HidTransport.Delivered | PolycomCX300.cpp:201-272 | every report of the run finds its handle open and is accepted; then all of them are handed over |
| HidTransport.ReachFirstRefusal | PolycomCX300.cpp:201-272 | through open handles, when report j is the first refused, exactly j+1 reports are handed over and the run is not delivered |
| HidTransport.ReachNoRefusal | PolycomCX300.cpp:201-272 | through open handles, when no outcome the run uses is a refusal, every report is handed over and the run is delivered |
| HidTransport.Send | PolycomCX300.cpp:201-272 | sending a run of reports leaves the handles as they were and extends the log by at most one entry per report, keeping the old log as its prefix |
| HidTransport.SendAppend | PolycomCX300.cpp:203-262 | the callers' "stop at the first failed write": sending a+b is sending a, then b only if all of a was accepted; a+b is accepted iff a is and then b is |
| HidTransport.SendClosed | HidDevice.cpp:382-395 | with the write handle closed, a run of reports that starts with an output report sends and logs nothing and is refused |
| Cx300Codec.DecodeKeyCode | PolycomCX300.cpp:101-154 | codes 1-10 are digits 0-9; 0x0B/0x0C are star/hash, or OK when the dial key names them; any other code is no key (both directions) |
| Cx300Codec.DecodeKeyCodeInjective | PolycomCX300.cpp:101-154 | different key codes never give the same key |
| Cx300Codec.ReportKey | PolycomCX300.cpp:156-172 | byte 0 (hook bit cleared) 0x20 overrides the keypad, giving hang-up while ringing and C otherwise; no report gives the Hook key |
| Cx300Codec.ChordIgnoresKeypad | PolycomCX300.cpp:156-166 | with 0x20 in byte 0 the keypad byte is irrelevant, and the key is hang-up iff ringing |
| Cx300Codec.KeyEdge | PolycomCX300.cpp:173-179 | a press is reported when no key was held and one is now, a release of the held key when none is now, and nothing otherwise |
| Cx300Codec.HookEdge | PolycomCX300.cpp:188-193 | a change of the hook bit is the Hook key, 1 when the handset goes down and 0 when it is lifted |
| Cx300Codec.Reaction | PolycomCX300.cpp:156-194 | the host calls of one report in order: the hold script when byte 0 is 0x02, the key edge, the hook edge |
| Cx300Codec.Next | PolycomCX300.cpp:186-194 | after a report the driver remembers its key and its hook bit |
| Cx300Codec.Replay | PolycomCX300.cpp:98-195 | reports handled one after another, each from the state the previous one left |
| Cx300Codec.ReleaseNamesHeldKey | PolycomCX300.cpp:177-180 | a release reports the key that was last held, and no other key |
| Cx300Codec.DirectKeyChangeUnreported | PolycomCX300.cpp:174-186 | a change from one key straight to another reports nothing, yet the release of the new key is reported later |
| Cx300Codec.SteadyReportSilent | PolycomCX300.cpp:174-186 | the same report repeated any number of times, once its key and hook bit are remembered, reports nothing more |
| Cx300Codec.LongPressSilent | PolycomCX300.cpp:181-186 | a long-press report for the key already held, with the hook bit unchanged, causes no host call and leaves the remembered state as it was |
| Cx300Codec.SameKeyRunSilent | PolycomCX300.cpp:173-194 | any run of reports each naming the held key with the hook bit unchanged, whatever else byte 0 holds, causes no host call |
| Cx300Codec.HeldKeyPressedOnce | PolycomCX300.cpp:174-186 | holding a key from idle reports exactly one press |
| Cx300Codec.HookChangesReported | PolycomCX300.cpp:188-194 | over any run of reports the Hook events are exactly the changes of the hook bit |
| Cx300Codec.LedCode | PolycomCX300.cpp:50-55 | every LED code is two bytes starting with 0x16 |
| Cx300Codec.LedCodeRoundTrip | PolycomCX300.cpp:50-55 | every LED pattern has its own code, and the code reads back as that pattern |
| Cx300Codec.LedFor | PolycomCX300.cpp:393-405 | while ringing: red iff the counter is 0 mod 8, off otherwise; else green when registered, off when not |
| Cx300Codec.RingBlinkAlternates | PolycomCX300.cpp:393-399 | while ringing, successive LED ticks alternate red and off, across the 32-bit wrap too |
| Cx300Codec.KeepaliveFrame | PolycomCX300.cpp:311-322 | the keepalive is a 65-byte feature report 17 09 04 01 02 followed by 60 zeros |
| Cx300Codec.ChunkChars | PolycomCX300.cpp:235-241 | the eight characters of the line from the position, zero past its end |
| Cx300Codec.ChunksFrom | PolycomCX300.cpp:234-257 | one display report per eight characters from the position on, none once the position is past the line |
| Cx300Codec.ChunkFrame | PolycomCX300.cpp:243-250 | a display report is 18 bytes: tag 0x15, then 0x80 on the last report of a line and 0x00 otherwise |
| Cx300Codec.ChunkCount | PolycomCX300.cpp:234 | a line of n characters takes n/8 reports, rounded up |
| Cx300Codec.ChunkAt | PolycomCX300.cpp:234-250 | report i of a line carries its characters from 8*i |
| Cx300Codec.EndFlagOnLastChunk | PolycomCX300.cpp:245 | the end flag is set on the last report of a line and only there; an empty line sends no report |
| Cx300Codec.ChunksCarryText | PolycomCX300.cpp:234-250 | a line's reports carry the line in order, zero-padded to a whole number of reports |
| Cx300Codec.DisplayFramesCount | PolycomCX300.cpp:201-272 | two lines take three control reports plus one per started 8 characters of each line |
| Cx300Codec.DisplayFramesOrder | PolycomCX300.cpp:201-257 | mode report, top selector, top line's reports, bottom selector, bottom line's reports, in that order |
| Cx300Codec.DisplayFrames | PolycomCX300.cpp:201-257 | the reports SetDisplayTwoLines sends when none is refused: the two-line mode, the top selector and line, the bottom selector and line |
| Cx300Codec.KeepaliveAfterLed | PolycomCX300.cpp:393-410 | a keepalive tick is always an LED tick, and the LED report goes first |
| Cx300Codec.KeepaliveNeedsLed | PolycomCX300.cpp:408 | a refused LED report stops the tick: the keepalive due on it is not sent |
| Cx300Codec.TickFrames | PolycomCX300.cpp:393-410 | the reports of a connected tick: the LED on every fourth tick, then the keepalive on every 512th |
| Cx300Codec.Connect | PolycomCX300.cpp:360-378 | when everything is accepted nothing is closed; a refused keepalive closes the device; a close implies some report was refused |
| Cx300Codec.ClearFailureIgnored | PolycomCX300.cpp:365 | a refused display clear does not close the device and the self test still runs |
| Cx300Codec.ConnectTickAtWrap | PolycomCX300.cpp:343-345 | the 32-bit counter's wrap puts the last search before it only 96 ticks before the next |
| PolycomCX300.ClearDisplay | PolycomCX300.cpp:197-199 | one output report 13 00; status 0 iff accepted |
| PolycomCX300.BuildChunk | PolycomCX300.cpp:235-250 | the copied chunk, padded with zeros and spread behind the tag and the continuation byte, is the display report ChunkFrame |
| PolycomCX300.SetDisplayTwoLines | PolycomCX300.cpp:201-272 | sends exactly the display reports in order until the first refusal; status 0 iff all were accepted |
| PolycomCX300.SetLine | PolycomCX300.cpp:208-257 | the line selector, then the line's reports, stopping at a refusal |
| PolycomCX300.SendChunks | PolycomCX300.cpp:234-257 | the line's reports, eight characters each, until one is refused |
| PolycomCX300.SendChunk | PolycomCX300.cpp:235-256 | one chunk's report: when it is accepted the rest of the line is left to send, otherwise the line ends |
| PolycomCX300.LedBuffer | PolycomCX300.cpp:331-333 | a 64-byte buffer holding the two pattern bytes and zeros |
| PolycomCX300.SetLed | PolycomCX300.cpp:324-338 | one output report of the two pattern bytes; status 0 iff accepted |
| PolycomCX300.SendKeepalive | PolycomCX300.cpp:311-322 | the keepalive feature report; status 0 iff accepted |
| PolycomCX300.SelfTest | PolycomCX300.cpp:367-378 | the six LED patterns in order until one is refused, which closes the device |
| PolycomCX300.ConnectSequence | PolycomCX300.cpp:360-378 | after a successful Open the device ends as Connect says: keepalive, display clear, self test |
| PolycomCX300.AfterReadHandled | PolycomCX300.cpp:423-440 | the read of a tick on an open device handles a report, ignores a timeout, and closes on any other error |
| PolycomCX300.TickResultServed | PolycomCX300.cpp:384-442 | a connected tick sends its reports until a refusal, closes on a refusal, clears the ring flag otherwise and does the read |
| PolycomCX300.Closed | PolycomCX300.cpp:446-448 | the device closed: no main, write or read handle, nothing else changed |
| PolycomCX300.AfterSends | PolycomCX300.cpp:385-418 | after the sends of a tick: TickFrames sent until a refusal, a display refresh requested every fourth idle tick, the ring flag cleared iff all were accepted |
| PolycomCX300.AfterRead | PolycomCX300.cpp:423-440 | one input read of 8 bytes with a 100 ms timeout: a report is handled by Reaction and Next, a timeout changes only the log and read script, any other error closes the device |
| PolycomCX300.TickResult | PolycomCX300.cpp:384-442 | a connected tick: after the sends a refusal closes the device, otherwise the read follows |
| PolycomCX300.Handled | PolycomCX300.cpp:423-440 | field by field: the read is logged and uses one outcome; a report adds its Reaction and stores Next; a timeout keeps all three handles; any other error closes them; nothing else changes |
| PolycomCX300.Dropped | PolycomCX300.cpp:420-422 | all three handles invalid and every other field unchanged |
| PolycomCX300.Served | PolycomCX300.cpp:384-442 | what a connected tick must do: TickFrames sent until a refusal; a refusal is Dropped with the ring flag kept; otherwise the ring flag is cleared and the read is Handled |
| PolycomCX300.HandlesMade | HidDevice.cpp:248-290 | the write handle opened or invalid, the read handle untouched when the write handle failed, the event created once both handles opened if it was missing and can be made |
| PolycomCX300.Reconnected | PolycomCX300.cpp:344-383 | a search: one enumeration; a miss leaves no main handle; a match whose handles fail keeps the main handle with HandlesMade; a successful Open runs Connect on the fresh link and, unless it closes, leaves all handles open |
| PolycomCX300.IdentityKept | PolycomCX300.cpp:384-442 | a connected tick leaves the ids, path, usage page, report lengths and event count Open stored as they were |
| PolycomCX300.Driver.constructor | PolycomCX300.cpp:78-89 | counter 0, no key held, on hook, empty mailbox, no host calls |
| PolycomCX300.Driver.HandleReportIn | PolycomCX300.cpp:98-195 | the host calls of one input report are the hold script, the key edge, then the hook edge; the key and hook bit are latched |
| PolycomCX300.Driver.Close | PolycomCX300.cpp:446-448 | the device is closed |
| PolycomCX300.Driver.UpdateCallState | PolycomCX300.cpp:451-456 | the call state and display text are stored and a display update is requested |
| PolycomCX300.Driver.UpdateRing | PolycomCX300.cpp:458-465 | the ring state is stored; the ring flag is raised only by a change |
| PolycomCX300.Driver.UpdateRegistrationState | PolycomCX300.cpp:467-471 | the registration state is stored and a display update is requested |
| PolycomCX300.Driver.UpdateRingOnDevice | PolycomCX300.cpp:298-309 | the ring flag is cleared and the status is 0 |
| PolycomCX300.Driver.Reconnect | PolycomCX300.cpp:345-382 | one enumeration; on a miss no main handle and the read/write handles and event as before; on a match whose handles fail, the main handle open with what CreateReadWriteHandles left; on success the connection sequence runs on the fresh link and, unless it closes the device, all three handles stay open and the event exists |
| PolycomCX300.ReconnectedOpen | HidDevice.cpp:248-290 | a search whose Open succeeded and whose connection sequence kept the device leaves the main, write and read handles open and the wait event created |
| PolycomCX300.Driver.Poll | PolycomCX300.cpp:342-444 | the counter grows by one, wrapping at 2^32; disconnected, only a tick at 0 mod 100 looks for the phone, as Reconnected says; connected, the tick is TickResult and leaves the ids, path, usage page and report lengths alone |
| PolycomCX300.Driver.Tick | PolycomCX300.cpp:344-442 | a disconnected tick searches, a connected one is TickResult and leaves what Open stored alone |
| PolycomCX300.Driver.Serve | PolycomCX300.cpp:384-442 | the connected tick is TickResult and touches none of the ids, path, usage page, report lengths or event count |
| PolycomCX300.Driver.Search | PolycomCX300.cpp:344-383 | off a connecting tick nothing changes; on one the phone is looked for |
| PolycomCX300.Driver.ServiceTick | PolycomCX300.cpp:384-442 | the connected tick's whole effect is TickResult of the state before it |
| PolycomCX300.Driver.SendTick | PolycomCX300.cpp:385-418 | the refresh request, the tick's reports and the ring update; status 0 iff all reports were accepted |
| PolycomCX300.Driver.Finish | PolycomCX300.cpp:420-441 | a refusal closes the device; otherwise the read is AfterRead |
| PolycomCX300.Driver.RequestRefresh | PolycomCX300.cpp:386-391 | with no call in progress every fourth tick requests a display refresh |
| PolycomCX300.Driver.RingTail | PolycomCX300.cpp:416-418 | the ring flag is cleared iff every report of the tick was accepted |
| PolycomCX300.Driver.Drop | PolycomCX300.cpp:420-422 | the device is closed and nothing else changes |
| PolycomCX300.Driver.SendTickReports | PolycomCX300.cpp:393-410 | the LED every fourth tick, and the keepalive every 512th unless the LED was refused |
| PolycomCX300.Driver.TickSent | PolycomCX300.cpp:393-410 | the LED step and the keepalive step together send TickFrames |
| PolycomCX300.Driver.ReadAndHandle | PolycomCX300.cpp:423-440 | the read of a connected tick is AfterRead |
| PolycomCX300.Driver.ReadIn | PolycomCX300.cpp:424-427 | one IN read of 8 bytes into a zeroed buffer, waiting at most 100 ms |
| PolycomCX300.Driver.React | PolycomCX300.cpp:428-440 | a full report is handled, a report of another size or a timeout is ignored, any other error closes the device |

## Findings

| source | as written | input that shows it | evidently intended | confidence | as-written member | corrected member |
|---|---|---|---|---|---|---|
| HidDevice.cpp:86-90 | the '?' branch advances only the write pointer, so the read pointer stays on a unit of 256 or more | a manufacturer or product string holding a character above U+00FF, such as 0x0141 | replace the unit by '?' and move both pointers on | not executed | HidTransport.WideUnitNeverAdvances | HidTransport.HidDevice.UnicodeToAsciiReplacing |

Because the read pointer never moves, the loop never reaches the
terminating zero. It goes on writing '?' until the write pointer runs off
the 512-byte buffer. The write pointer starts at or below the stuck
unit's first byte, so it does reach the unit and overwrites both of its
bytes with '?'. The unit then reads 0x3F3F, still 256 or more and never
zero (WideUnitStalls). The as-written method,
`HidTransport.HidDevice.UnicodeToAscii`, keeps the source's loop. Its
precondition excludes wide units.

## Left out

- The Windows API calls are the oracle described above. These are SetupDi, CreateFile, HidD_*, HidP_GetCaps, WriteFile, ReadFile, WaitForSingleObject, CancelIo, ResetEvent and CreateEvent. Their error codes and GetLastErrorMessage are not modelled.
- Logging (LOG, DET_LOG), `Sleep` and GetHidGuid are left out. They only log, wait or copy the class GUID.
- DumpCapabilities and the `once` capability dump in Poll are left out. They only query HidP_GetCaps and log the result, and the result is only read when detailed logging is on.
- The destructor is left out. It frees the OVERLAPPED structure and the preparsed data and closes the handles, as `Close` does.
- Most operating-system calls are not in `ops`: CreateFile, CloseHandle, HidD_GetAttributes, the string, preparsed-data and caps queries, HidD_FlushQueue, CreateEvent and SetupDiDestroyDeviceInfoList. Their outcomes are fields of the candidate or of the device.
- A write or read on an invalid handle is not logged, and it fails with no script outcome used. Examples are the display clear and the first self-test LED after a refused keepalive closed the device. The source still calls WriteFile with INVALID_HANDLE_VALUE there.
- CommThread.cpp and the mutex guarding the mailbox are left out. The model is single-threaded, and each mailbox setter is one atomic step.
- UpdateDisplay (PolycomCX300.cpp:274-296) is left out. Its call in Poll is compiled out by `#if 0`. The `#if 0` TEXT_END write and the `#else` split-buffer variant of SetDisplayTwoLines are also left out.
- HidDevice.h and Phone.h are not part of this model. The error codes are taken as INV_PARAM 1, NOTFOUND 2, IO 3 and TIMEOUT 4, the order of the first four rows of the error table, then OTHER 5 and LIMIT 6. OTHER is not in the table. Keys are a datatype, not E_KEY numbers. Open's default usage page is taken as -1, the value the constructor sets.
- HidTransport.HidDevice.UnicodeToAscii: its precondition requires every unit to be below 256. On a wider unit the loop does not terminate (see Findings).
- HidTransport.HidDevice.Open: vendor and product strings are compared as already-converted strings. The in-place UnicodeToAscii of the 512-byte query buffer is not modelled. `HidD_FlushQueue` and the preparsed data are left out.
- HidTransport.HidDevice.Open: it does not close the main handle when CreateReadWriteHandles fails, and neither does the source. `IsOpened` is then true with a missing read or write handle, and the model says so.
- PolycomCX300.SetLed: the source writes through the global `hidDevice` and ignores its `dev` argument. The model writes to `dev`, which is the same device at every call site. It requires exactly the two pattern bytes every caller passes.
- PolycomCX300.Driver.Poll: the increment of the counter, the last statement in the source, is done first, with the tick running on the old value. Nothing in a tick reads the counter otherwise.
- Configuration.Apply: `getUInt` on a missing member leaves `tmp` uninitialised in the source. The model treats a missing or non-integer ringType as no change.
- Configuration: the comment "0...5" disagrees with the `< RING_TYPE_MAX` check. The model follows the check: 0 to 4.
- PolycomCX300.SendChunks: `textPos` is an unsigned int and could overflow for a line longer than 2^32 characters. The model uses unbounded integers.
- PolycomCX300.Driver.Reconnect: the contract covers the enumeration, the three handles, the wait event and the reports sent. It does not state the path, usage page, ids and report lengths Open stores. Poll opens without a usage page, and HidTransport.HidDevice.Open states that the ids and lengths then stay as they were.
