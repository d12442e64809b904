# dls_pmaclib in Dafny

A model of three parts of the Python library `dls_pmaclib`, which talks to Delta Tau PMAC
motion controllers, with proofs about each part.

1. **RemotePmacInterface** (`dls_pmaclib/dls_pmacremote.py`), with its Ethernet and Telnet
   transports. It covers:
   - the connection state (host, port, open flag);
   - the connection semaphore, kept as a count of free permits;
   - the cached model flag and axis count;
   - the MACRO station table and the axis addressing rules;
   - the I-variable and MACRO station queries;
   - the jog and home commands and the hardware-limits toggle;
   - the batch download loop of `sendSeriesThread`;
   - the Ethernet packet header and the Telnet reply patterns.

   The wire is an oracle. It gets the number of exchanges so far and the bytes written, and
   says what comes back. Module `RemoteSpec` states every operation as a function from the
   object's attributes before the call to the attributes after it and the outcome: a value,
   or the exception that escapes. Class `Remote.RemotePmac` keeps those attributes as fields.
   Its methods update the fields in place and are proved to agree with the `RemoteSpec`
   functions. Modules `Addressing`, `Commands` and `Transport` hold the pure parts: table
   arithmetic, command text and reply parsing, and packet framing and pattern matching.
2. **The PMC preprocessor** (`clsPmacParser` in `dls_pmaclib/dls_pmcpreprocessor.py`). It:
   - cuts comments when asked;
   - turns blank lines into empty entries;
   - collects `#define` macros;
   - splices in `#include` files;
   - expands macros longest name first;
   - trims line ends.

   Module `Preprocessor` states a parse as functions over the file's text (`Expand`, `Run`,
   `Preprocessed`). Class `Preprocessor.PmcParser` is the parser object: it appends to its
   `output` list line by line and is proved to build the same list. Module
   `PreprocessorFacts` proves what whole lines turn into.
3. **PmacGather** (`dls_pmaclib/pmacgather.py`). It configures a data gather, triggers it,
   collects the `list gather` reply and deals the gathered words out to the channels.
   - `GatherSpec` states these operations over any `sendCommand` that behaves as the
     interface's is proved to.
   - `Gather.PmacGather` is the object, calling the interface object.
   - `GatherFacts` proves what goes over the wire and how the words are dealt.

Module `Py` holds the Python semantics the library relies on: `str` methods, `%d`/`%x`
formatting, list indexing with negative indices, and bit operations.

The code is followed wherever a comment in it says something else. For example, the comment
above `getOnboardAxisI7000PlusVarsBase` gives 7000 as the first base, but the code gives
7010 for axis 1, and so does the model.

These quirks of the code are modelled as written:
- `checkAxisIsInRange` lets axis 0 through. `getAxisMacroStationNumber(0)` then reads table
  index -1, which is station 65.
- `jogInc` and `jogContinous` with an unknown direction raise `UnboundLocalError`.
- `setConnectionParams` keeps the old port when the port argument is falsy.
- `sendSeriesThread` raises `UnboundLocalError` when no line was sent.
- `sendSeriesThread` keeps the semaphore when `struct.error` or `AttributeError` escapes its loop.
- An Ethernet interface whose `connect` never got past its host and port guards has no `self.sock`, so `sendCommand` raises AttributeError out of `_sendCommand`. A Telnet interface without a session gets a failure reply instead.

## Model

| member | source | states |
|---|---|---|
| Addressing.TableFormula | dls_pmaclib/dls_pmacremote.py:42 | entry k of the MACRO station table is 4·(k div 2) + k mod 2 |
| Addressing.TableIncreasing | dls_pmaclib/dls_pmacremote.py:42 | the table is strictly increasing, so no two MACRO axes share a station |
| Addressing.StationOfMacroAxis | dls_pmaclib/dls_pmacremote.py:202-210 | table[k-1] with Python indexing: the entry for 1..34, station 65 for k = 0, and IndexError exactly when k-1 is outside -34..33 |
| Addressing.I7000BlocksDisjoint | dls_pmaclib/dls_pmacremote.py:276-279 | for on-board axes 1..8 the I7000+ base is a multiple of ten in 7010..7140, and the ten-variable blocks of two different axes never overlap |
| Addressing.PresentIcs | dls_pmaclib/dls_pmacremote.py:177-180 | the count of present MACRO ICs is at most the number looked at, and is 0 exactly when every base address read is "$0" |
| Addressing.PresentIcsCount | dls_pmaclib/dls_pmacremote.py:177-180 | the count is exactly the number of base addresses read that are not "$0" |
| Addressing.MacroAxesFromBases | dls_pmaclib/dls_pmacremote.py:174-181 | the MACRO axis count is eight times the number of I20..I23 values that are not "$0": one of 0, 8, 16, 24, 32, and 0 exactly when all four read "$0"; fewer than four values raise IndexError |
| Commands.IVarsCommand | dls_pmaclib/dls_pmacremote.py:222-225 | the getIVars query is empty exactly when there are no variables |
| Commands.MsIVarsCommand | dls_pmaclib/dls_pmacremote.py:254-256 | the getAxisMsIVars query is empty exactly when there are no variables |
| Commands.BuildIVarsCommand | dls_pmaclib/dls_pmacremote.py:223-225 | the accumulating loop builds the query IVarsCommand specifies |
| Commands.BuildMsIVarsCommand | dls_pmaclib/dls_pmacremote.py:254-256 | the accumulating loop builds the query MsIVarsCommand specifies |
| Commands.IVarWordRead | dls_pmaclib/dls_pmacremote.py:225 | the controller reads variable v back out of "i<v>" |
| Commands.IVarsCommandWords | dls_pmaclib/dls_pmacremote.py:223-225 | split on blanks, the query gives exactly the words "i<v>", one per variable, in order |
| Commands.IVarsCommandQueries | dls_pmaclib/dls_pmacremote.py:223-225 | the controller reads the requested variables, in order and no others, out of the query |
| Commands.MsIVarWordRead | dls_pmaclib/dls_pmacremote.py:256 | the controller reads station s and variable v back out of "ms<s>,i<v>" |
| Commands.MsIVarsCommandWords | dls_pmaclib/dls_pmacremote.py:254-256 | split on blanks, the query gives exactly the words "ms<s>,i<v>", one per variable, in order |
| Commands.MsIVarsCommandQueries | dls_pmaclib/dls_pmacremote.py:254-256 | the controller reads the station and each requested variable, in order, out of the query |
| Commands.ReplyValues | dls_pmaclib/dls_pmacremote.py:228 | no value of `retStr.split('\r')[:-1]` holds a CR |
| Commands.ReplyValuesOfAnswer | dls_pmaclib/dls_pmacremote.py:228 | a reply of CR-terminated values (plus any CR-free tail) gives back exactly those values |
| Commands.CidCodeOfAnswer | dls_pmaclib/dls_pmacremote.py:145-147 | "<digits>\r\x06", with or without a final newline that `$` allows, is read as its model code |
| Commands.CidCodeRejects | dls_pmaclib/dls_pmacremote.py:145-149 | a reply yields a code only when it is exactly one or more digits, CR and ACK, possibly followed by the newline `$` allows, and the code is the digits' value |
| Commands.ModelName | dls_pmaclib/dls_pmacremote.py:152-159 | exactly the codes 602413 and 603382 are known, and only 603382 is the Geo Brick |
| Commands.VersionReplyAccepted | dls_pmaclib/dls_pmacremote.py:474 | a firmware version "<major>.<minor>\r\x06" matches the `ver` check |
| Commands.LimitsBitValue | dls_pmaclib/dls_pmacremote.py:390 | the limits flag is bit 17, the value 0x20000 |
| Commands.NewLimitsBits | dls_pmaclib/dls_pmacremote.py:390-398 | nothing is written exactly when the limits are already as asked; otherwise the flag ends up as asked and every other bit is kept |
| Commands.LimitsReadBackOfWritten | dls_pmaclib/dls_pmacremote.py:389-399 | a flag word written as "$<hex>" and echoed back with CR and ACK is read as the same value |
| Commands.MotionCommandsRead | dls_pmaclib/dls_pmacremote.py:347-380 | every jog and home command asks the controller for exactly that motion (increment, with sign, stop, absolute, continuous with direction, home) of exactly that motor |
| Transport.AddHeader | dls_pmaclib/dls_pmacremote.py:507-511 | a packet exists exactly when the command is shorter than 256 characters (otherwise struct.error), and it is 8 bytes longer than the command |
| Transport.PacketRoundTrip | dls_pmaclib/dls_pmacremote.py:507-511 | a packet is what addHeader builds for a command exactly when the controller reads that command out of it |
| Transport.Received | dls_pmaclib/dls_pmacremote.py:519 | recv(2048) returns a prefix of at most 2048 characters, all of the data when it fits |
| Transport.FirstErrorFrom | dls_pmaclib/dls_pmacremote.py:536 | the search finds the leftmost BEL ERRnnn CR report at or after i, or there is none |
| Transport.Classify | dls_pmaclib/dls_pmacremote.py:534-545 | a match ends inside the buffered text at one of the five patterns, and there is none exactly when the text holds neither an ACK nor an error report |
| Transport.ClassifyShape | dls_pmaclib/dls_pmacremote.py:534-545 | a pattern-0 match ends in a whole error report; any other match ends at the first ACK of the text |
| Transport.ExpectKeepsText | dls_pmaclib/dls_pmacremote.py:608 | expect() neither loses nor invents text: reply and leftover come from the buffered and arrived text, a timeout returns all of it, EOFError only on an empty closed stream |
| Transport.ExpectReplyShape | dls_pmaclib/dls_pmacremote.py:608 | the reply expect() returns ends in a full error report (pattern 0) or in its first and only ACK |
| Transport.AckEndsExpect | dls_pmaclib/dls_pmacremote.py:544 | once an ACK has arrived expect() always matches, so a timeout means no ACK came |
| Transport.HexValueReply | dls_pmaclib/dls_pmacremote.py:538 | a "$<hex>\r\x06" answer is classified as pattern 1, the whole text |
| Transport.UpperAlnumReply | dls_pmaclib/dls_pmacremote.py:538 | "$", upper-case letters and digits, CR, ACK is pattern 1 over the whole text |
| RemoteSpec.Init | dls_pmaclib/dls_pmacremote.py:14-42 | a new interface is closed with one free permit, no socket or Telnet session object, nothing sent, model unknown, and the axis count the caller gave |
| RemoteSpec.SetConnectionParams | dls_pmaclib/dls_pmacremote.py:44-48 | the host is set, the port only for a truthy port argument, and nothing else changes |
| RemoteSpec.Exchange | dls_pmaclib/dls_pmacremote.py:496-529 | _sendCommand of either transport changes only the wire (permits given back), writes at most once, and raises only IOError, struct.error, or the AttributeError of a missing `self.sock` |
| RemoteSpec.ExchangeDelivers | dls_pmaclib/dls_pmacremote.py:507-516 | whatever an exchange writes, the controller reads back exactly the command |
| RemoteSpec.ExchangeErrors | dls_pmaclib/dls_pmacremote.py:496-529 | AttributeError('sock') exactly for an Ethernet interface that never created its socket; struct.error exactly for an Ethernet command of 256 characters or more on one that did; nothing is written exactly in those cases and when there is no connection object; a Telnet interface without a session raises IOError('Communication with PMAC broken.') and changes nothing; an Ethernet reply is at most 2048 characters |
| RemoteSpec.TelnetReplyShape | dls_pmaclib/dls_pmacremote.py:597-622 | a Telnet reply is the text up to the matched pattern: it ends in a full error report or in its first and only ACK |
| RemoteSpec.SendCommand | dls_pmaclib/dls_pmacremote.py:72-81 | sendCommand changes only the wire and lets only struct.error and the AttributeError of a missing socket escape |
| RemoteSpec.SendCommandOutcome | dls_pmaclib/dls_pmacremote.py:72-81 | an exception escapes exactly for an Ethernet interface with no socket or a command of 256 characters or more, and it is the exchange's; success exactly when the exchange returns, with its response even if ERRnnn; an IOError becomes ("I/O error during comm with PMAC: " + message, False) |
| RemoteSpec.GetPmacModel | dls_pmaclib/dls_pmacremote.py:140-161 | asking the model changes only the wire |
| RemoteSpec.GetPmacModelOfCode | dls_pmaclib/dls_pmacremote.py:145-159 | a controller answering "cid" with code c gets the Geo Brick for 603382, Turbo PMAC2-VME for 602413, and ValueError('Unsupported PMAC model') otherwise |
| RemoteSpec.GetPmacModelNames | dls_pmaclib/dls_pmacremote.py:152-161 | a model returned is one of the two known names |
| RemoteSpec.IsModelGeobrick | dls_pmaclib/dls_pmacremote.py:163-167 | the flag is whether getPmacModel names the Geo Brick, found exactly when the model is; it is computed once and cached; once known, the call sends nothing and returns it |
| RemoteSpec.IsModelGeobrickOfCode | dls_pmaclib/dls_pmacremote.py:140-167 | asked for the first time, a controller answering "cid" with 603382 is a Geo Brick, with 602413 is not, and any other code raises ValueError('Unsupported PMAC model') |
| RemoteSpec.GetIVars | dls_pmaclib/dls_pmacremote.py:221-230 | getIVars changes only the wire |
| RemoteSpec.GetIVarsOutcome | dls_pmaclib/dls_pmacremote.py:226-230 | the values of the reply are returned; a failed exchange raises IOError('Cannot retrieve variable: ...') |
| RemoteSpec.GetIVarsAsks | dls_pmaclib/dls_pmacremote.py:222-226 | the query asks for exactly the variables base + offset, in order |
| RemoteSpec.MacroStationAxes | dls_pmaclib/dls_pmacremote.py:173-181 | the MACRO axis count is eight times the number of values read for I20..I23 that are not "$0"; it is found exactly when that read succeeds with four values; only the wire changes |
| RemoteSpec.NumberOfAxes | dls_pmaclib/dls_pmacremote.py:184-192 | the count is cached once found; a count given or found before is returned with nothing sent |
| RemoteSpec.NumberOfAxesCounted | dls_pmaclib/dls_pmacremote.py:184-189 | a counted total is eight on-board axes on a Geo Brick (none otherwise) plus eight for each of I20..I23 that is not "$0": 8..40 on a Geo Brick, 0..32 otherwise |
| RemoteSpec.NumberOfAxesCached | dls_pmaclib/dls_pmacremote.py:185 | asking again gives the same count and changes nothing |
| RemoteSpec.CheckAxisRange | dls_pmaclib/dls_pmacremote.py:194-198 | the check passes exactly for 0 <= axis <= count; a negative axis and an axis past the count raise ValueError with the source's messages |
| RemoteSpec.AxisMacroStationTable | dls_pmaclib/dls_pmacremote.py:202-210 | a station is table[axis-1] off a Geo Brick (65 for axis 0) and table[axis-9] for axes past 8 on one; on-board axes get none |
| RemoteSpec.IsMacroStationAxis | dls_pmaclib/dls_pmacremote.py:213-218 | true for every axis off a Geo Brick, axis > 8 on one |
| RemoteSpec.SetVarOutcome | dls_pmaclib/dls_pmacremote.py:232-235 | setVar writes name=value and succeeds exactly when the exchange returns, otherwise IOError('Cannot set variable: ...') |
| RemoteSpec.AxisSetupChecked | dls_pmaclib/dls_pmacremote.py:240-248 | an axis out of range raises before anything is sent; in range the variables read or set are I(100·axis + offset) |
| RemoteSpec.AxisMsIVarsStation | dls_pmaclib/dls_pmacremote.py:251-266 | MACRO station variables are read and set at the axis's station, after the range check |
| RemoteSpec.OnboardBaseAxes | dls_pmaclib/dls_pmacremote.py:270-280 | a base is given only for on-board Geo Brick axes 0..8, and for 1..8 it lies in 7010..7140 as a multiple of ten |
| RemoteSpec.GetOnboardVars | dls_pmaclib/dls_pmacremote.py:282-284 | reading an on-board axis's I7000+ variables changes only the wire and the caches |
| RemoteSpec.SetOnboardVar | dls_pmaclib/dls_pmacremote.py:286-289 | setting an on-board axis's I7000+ variable changes only the wire and the caches |
| RemoteSpec.Command | dls_pmaclib/dls_pmacremote.py:357-360 | a motion method returns the command it sent along with the reply |
| RemoteSpec.MotionSent | dls_pmaclib/dls_pmacremote.py:347-380 | each jog and home method sends the command for its motion of its motor; an unknown direction raises UnboundLocalError with nothing sent |
| RemoteSpec.WithOnboardAxes | dls_pmaclib/dls_pmacremote.py:186-189 | the total is the MACRO axis count plus eight on a Geo Brick; it is cached exactly when it was found, and nothing else changes |
| RemoteSpec.CheckAxis | dls_pmaclib/dls_pmacremote.py:194-198 | the range check changes only the wire and the caches |
| RemoteSpec.AxisMacroStation | dls_pmaclib/dls_pmacremote.py:202-210 | looking up a station changes only the wire and the caches |
| RemoteSpec.SetVar | dls_pmaclib/dls_pmacremote.py:232-235 | setVar changes only the wire |
| RemoteSpec.GetAxisSetupIVars | dls_pmaclib/dls_pmacremote.py:240-243 | reading an axis's setup variables changes only the wire and the caches |
| RemoteSpec.SetAxisSetupIVar | dls_pmaclib/dls_pmacremote.py:245-248 | setting an axis's setup variable changes only the wire and the caches |
| RemoteSpec.GetAxisMsIVars | dls_pmaclib/dls_pmacremote.py:251-261 | reading an axis's MACRO station variables changes only the wire and the caches |
| RemoteSpec.SetAxisMsIVar | dls_pmaclib/dls_pmacremote.py:263-266 | setting an axis's MACRO station variable changes only the wire and the caches |
| RemoteSpec.OnboardBase | dls_pmaclib/dls_pmacremote.py:270-280 | finding an on-board axis's I7000+ base changes only the wire and the caches |
| RemoteSpec.JogInc | dls_pmaclib/dls_pmacremote.py:347-355 | an incremental jog changes only the wire |
| RemoteSpec.JogStop | dls_pmaclib/dls_pmacremote.py:357-360 | a jog stop changes only the wire |
| RemoteSpec.JogTo | dls_pmaclib/dls_pmacremote.py:362-365 | an absolute jog changes only the wire |
| RemoteSpec.JogContinuous | dls_pmaclib/dls_pmacremote.py:367-375 | a continuous jog changes only the wire |
| RemoteSpec.Home | dls_pmaclib/dls_pmacremote.py:377-380 | a home command changes only the wire |
| RemoteSpec.DisableLimits | dls_pmaclib/dls_pmacremote.py:382-401 | disableLimits changes only the wire |
| RemoteSpec.ProgressEvents | dls_pmaclib/dls_pmacremote.py:329-330 | one progress event per line sent |
| RemoteSpec.PlanLimits | dls_pmaclib/dls_pmacremote.py:385-398 | a write is planned only after a successful read, and writes the word NewLimits derives from it |
| RemoteSpec.LimitsWritten | dls_pmaclib/dls_pmacremote.py:399-401 | the write's outcome carries the command "i<m>24=$<hex>" |
| RemoteSpec.DisableLimitsUnchanged | dls_pmaclib/dls_pmacremote.py:392-398 | when the limits already are as asked, only the read goes over the wire and ('', '', False) comes back |
| RemoteSpec.DisableLimitsCommand | dls_pmaclib/dls_pmacremote.py:392-399 | the word written is NewLimits of the word read |
| RemoteSpec.DisableLimitsWrites | dls_pmaclib/dls_pmacremote.py:390-401 | a write happens only when the state differs; it sets the flag as asked and keeps every other bit |
| RemoteSpec.SeriesSweep | dls_pmaclib/dls_pmacremote.py:313-330 | the loop only adds replies, at most one per line, and changes only the wire |
| RemoteSpec.Failures | dls_pmaclib/dls_pmacremote.py:324-326 | the error list has at most one entry per reply |
| RemoteSpec.FailuresExact | dls_pmaclib/dls_pmacremote.py:324-326 | (n, response) is on the error list exactly when line n's reply failed or carried ERRnnn, with that response |
| RemoteSpec.SweepStops | dls_pmaclib/dls_pmacremote.py:313-322 | no line is sent once cancelled; the loop ends at the end, at cancellation, or at an exception sendCommand lets escape (struct.error or AttributeError), which is not the last line's |
| RemoteSpec.SendSeries | dls_pmaclib/dls_pmacremote.py:303-341 | a series changes only the wire and the semaphore |
| RemoteSpec.SeriesEnd | dls_pmaclib/dls_pmacremote.py:332-341 | after the loop, progress events 1..k come first |
| RemoteSpec.SendSeriesSemaphore | dls_pmaclib/dls_pmacremote.py:309-341 | the semaphore is taken once and given back exactly once unless an exception escapes the loop, which then propagates with only the progress events posted; otherwise the progress event len+1 follows; no line sent means UnboundLocalError |
| RemoteSpec.SendSeriesAll | dls_pmaclib/dls_pmacremote.py:337-341 | an uncancelled series that meets no exception sends every line and posts len+2 events, the last carrying the error list of the replies and the last line number |
| RemoteSpec.Disconnect | dls_pmaclib/dls_pmacremote.py:487-494 | disconnect closes the connection and changes nothing else; a closed one stays as it is |
| RemoteSpec.EthernetConnect | dls_pmaclib/dls_pmacremote.py:442-477 | connect changes only the open flag, the socket and the wire; it creates the socket exactly when the connection was closed and the host and port are set, whether or not connect() then succeeds |
| RemoteSpec.VerChecked | dls_pmaclib/dls_pmacremote.py:469-477 | the connection stays open exactly when the "ver" reply matches the version pattern |
| RemoteSpec.EthernetConnectOpen | dls_pmaclib/dls_pmacremote.py:442-477 | connect returns a message, never raises; 'Socket is already open' when open; the guards refuse an unset host or port; success exactly when "ver" answers a version |
| RemoteSpec.EthernetConnectVersion | dls_pmaclib/dls_pmacremote.py:467-477 | a device answering "ver" with "<major>.<minor>\r\x06" is connected and left open |
| RemoteSpec.EthernetReceives | dls_pmaclib/dls_pmacremote.py:512-523 | an Ethernet exchange on a created socket whose answer fits one recv writes the packet and returns the answer whole |
| Remote.RemotePmac.constructor | dls_pmaclib/dls_pmacremote.py:14-42 | the attributes are those of RemoteSpec.Init |
| Remote.RemotePmac.SetConnectionParams | dls_pmaclib/dls_pmacremote.py:44-48 | updates the fields as RemoteSpec.SetConnectionParams |
| Remote.RemotePmac.Exchange | dls_pmaclib/dls_pmacremote.py:496-529 | both transports' _sendCommand, semaphore taken and given back, as RemoteSpec.Exchange; the Telnet branch is lines 597-622 |
| Remote.RemotePmac.SendCommand | dls_pmaclib/dls_pmacremote.py:72-81 | as RemoteSpec.SendCommand |
| Remote.RemotePmac.GetPmacModel | dls_pmaclib/dls_pmacremote.py:140-161 | as RemoteSpec.GetPmacModel |
| Remote.RemotePmac.IsModelGeobrick | dls_pmaclib/dls_pmacremote.py:163-167 | writes the cached flag as RemoteSpec.IsModelGeobrick |
| Remote.RemotePmac.GetIVars | dls_pmaclib/dls_pmacremote.py:221-230 | builds the query in a loop and returns as RemoteSpec.GetIVars |
| Remote.RemotePmac.MacroStationAxes | dls_pmaclib/dls_pmacremote.py:173-181 | counts present ICs in a loop, as RemoteSpec.MacroStationAxes |
| Remote.RemotePmac.NumberOfAxes | dls_pmaclib/dls_pmacremote.py:184-192 | writes the cached count as RemoteSpec.NumberOfAxes |
| Remote.RemotePmac.CheckAxis | dls_pmaclib/dls_pmacremote.py:194-198 | as RemoteSpec.CheckAxis |
| Remote.RemotePmac.AxisMacroStation | dls_pmaclib/dls_pmacremote.py:202-210 | as RemoteSpec.AxisMacroStation |
| Remote.RemotePmac.IsMacroStationAxis | dls_pmaclib/dls_pmacremote.py:213-218 | as RemoteSpec.IsMacroStationAxis |
| Remote.RemotePmac.SetVar | dls_pmaclib/dls_pmacremote.py:232-235 | as RemoteSpec.SetVar |
| Remote.RemotePmac.GetAxisSetupIVars | dls_pmaclib/dls_pmacremote.py:240-243 | as RemoteSpec.GetAxisSetupIVars |
| Remote.RemotePmac.SetAxisSetupIVar | dls_pmaclib/dls_pmacremote.py:245-248 | as RemoteSpec.SetAxisSetupIVar |
| Remote.RemotePmac.GetAxisMsIVars | dls_pmaclib/dls_pmacremote.py:251-261 | builds the query in a loop and returns as RemoteSpec.GetAxisMsIVars |
| Remote.RemotePmac.SetAxisMsIVar | dls_pmaclib/dls_pmacremote.py:263-266 | as RemoteSpec.SetAxisMsIVar |
| Remote.RemotePmac.OnboardBase | dls_pmaclib/dls_pmacremote.py:270-280 | as RemoteSpec.OnboardBase |
| Remote.RemotePmac.GetOnboardVars | dls_pmaclib/dls_pmacremote.py:282-284 | as RemoteSpec.GetOnboardVars |
| Remote.RemotePmac.SetOnboardVar | dls_pmaclib/dls_pmacremote.py:286-289 | as RemoteSpec.SetOnboardVar |
| Remote.RemotePmac.JogInc | dls_pmaclib/dls_pmacremote.py:347-355 | as RemoteSpec.JogInc |
| Remote.RemotePmac.JogStop | dls_pmaclib/dls_pmacremote.py:357-360 | as RemoteSpec.JogStop |
| Remote.RemotePmac.JogTo | dls_pmaclib/dls_pmacremote.py:362-365 | as RemoteSpec.JogTo |
| Remote.RemotePmac.JogContinuous | dls_pmaclib/dls_pmacremote.py:367-375 | as RemoteSpec.JogContinuous |
| Remote.RemotePmac.Home | dls_pmaclib/dls_pmacremote.py:377-380 | as RemoteSpec.Home |
| Remote.RemotePmac.DisableLimits | dls_pmaclib/dls_pmacremote.py:382-401 | as RemoteSpec.DisableLimits |
| Remote.RemotePmac.SendSeries | dls_pmaclib/dls_pmacremote.py:303-341 | takes and gives back the semaphore around the loop, and posts the events, as RemoteSpec.SendSeries |
| Remote.RemotePmac.SendLines | dls_pmaclib/dls_pmacremote.py:313-330 | the loop's progress events, error list and last line number are those of the replies of RemoteSpec.SeriesSweep |
| Remote.RemotePmac.EthernetConnect | dls_pmaclib/dls_pmacremote.py:442-477 | as RemoteSpec.EthernetConnect |
| Remote.RemotePmac.Disconnect | dls_pmaclib/dls_pmacremote.py:487-494 | as RemoteSpec.Disconnect |
| Preprocessor.FileLines | dls_pmaclib/dls_pmcpreprocessor.py:50 | iterating a file yields non-empty lines, each with a line end only as its last character |
| PreprocessorFacts.FileLinesJoined | dls_pmaclib/dls_pmcpreprocessor.py:50 | the lines put back together are the file's text |
| Preprocessor.Ordered | dls_pmaclib/dls_pmcpreprocessor.py:113-115 | the sorted names are as many as the keys, and every one is a key |
| Preprocessor.OrderedMembers | dls_pmaclib/dls_pmcpreprocessor.py:113-115 | every key appears in the order, and nothing else does |
| Preprocessor.OrderedSorted | dls_pmaclib/dls_pmcpreprocessor.py:113-115 | longer names come first, and among names of one length the greater comes first (sorted (len, name) pairs, reversed) |
| Preprocessor.PmcParser.SubstituteMacros | dls_pmaclib/dls_pmcpreprocessor.py:109-118 | the replacement loop computes Substitute: every key replaced in that order |
| PreprocessorFacts.SubstituteAbsent | dls_pmaclib/dls_pmcpreprocessor.py:109-118 | a text holding no macro name, or given an empty dictionary, comes back unchanged |
| PreprocessorFacts.SubstituteOne | dls_pmaclib/dls_pmcpreprocessor.py:109-118 | with one macro, substitute_macros is text.replace(name, value) |
| PreprocessorFacts.ReplaceFront | dls_pmaclib/dls_pmcpreprocessor.py:117 | replace on a text starting with the name gives the value, then the rest replaced |
| PreprocessorFacts.UseLine | dls_pmaclib/dls_pmcpreprocessor.py:99-104 | a line that starts with the one macro's name and holds it nowhere else comes out with the value in its place, line end trimmed |
| PreprocessorFacts.TextLine | dls_pmaclib/dls_pmcpreprocessor.py:57-105 | a line that is neither blank nor a directive and holds no ';' gives its macro-expanded, trimmed text after its debug line |
| PreprocessorFacts.UseExpand | dls_pmaclib/dls_pmcpreprocessor.py:99-105 | after "#define NAME VALUE", a line starting with NAME gives that line with VALUE in place of NAME |
| PreprocessorFacts.DefineThenUse | dls_pmaclib/dls_pmcpreprocessor.py:50-118 | the lines "#define NAME VALUE" and one starting with NAME give '' and then the second line with VALUE in place of NAME, leaving NAME bound to VALUE |
| PreprocessorFacts.DefineUseLines | dls_pmaclib/dls_pmcpreprocessor.py:50 | the text of a define line, "\n" and a use line is read as exactly those two lines |
| PreprocessorFacts.ParseDefineThenUse | dls_pmaclib/dls_pmcpreprocessor.py:50-118 | parse of such a two-line file reads those two lines and gives '' and then the second line with VALUE in place of NAME |
| PreprocessorFacts.DefineThenUseExample | tests/test_dlspmcpreprocessor.py:33-43 | the file "#define test P10\ntest = 1" is read as two lines that give "" and "P10 = 1", with test bound to P10 |
| PreprocessorFacts.BlankLine | dls_pmaclib/dls_pmcpreprocessor.py:57-63 | a line blank once its comment is cut gives one '' entry after its debug line and changes no macro |
| PreprocessorFacts.IncludeDirective | dls_pmaclib/dls_pmcpreprocessor.py:57-76 | "#include \"NAME\"" keeps its text when comments are cut, is not blank, is an include and not a define directive, and has the quoted name as its one statement |
| PreprocessorFacts.ExpandInclude | dls_pmaclib/dls_pmcpreprocessor.py:74-97 | an include line gives, after its debug line, the entries of each of its statements and changes no macro |
| PreprocessorFacts.QuotedEntries | dls_pmaclib/dls_pmcpreprocessor.py:75-96 | the statement "\"NAME\"" names file NAME after strip(' "\r'); it gives that file's lines, or '' when it is not found or gives nothing |
| PreprocessorFacts.IncludeLine | dls_pmaclib/dls_pmcpreprocessor.py:74-97 | "#include \"NAME\"" gives the lines of file NAME when it was found and gave some, and one '' entry otherwise |
| Preprocessor.Arguments | dls_pmaclib/dls_pmcpreprocessor.py:68 | findall gives one or two matches, the first being the rest of the directive line up to its line end |
| Preprocessor.SplitAtBlanks | dls_pmaclib/dls_pmcpreprocessor.py:70 | there is no split exactly when the text has no space or tab (the source then raises IndexError); otherwise the name is the blank-free text before the first one |
| Preprocessor.IncludeEntries | dls_pmaclib/dls_pmcpreprocessor.py:76-96 | an include statement adds at least one entry: the included lines, or '' when the file is not found or gives nothing |
| Preprocessor.Included | dls_pmaclib/dls_pmcpreprocessor.py:75-97 | an include line adds at least one entry per statement |
| Preprocessor.Trim | dls_pmaclib/dls_pmcpreprocessor.py:100-104 | no CR or LF is left at the right end, nor at the left end when comments are cut |
| PreprocessorFacts.TrimPlain | dls_pmaclib/dls_pmcpreprocessor.py:100-104 | a line ending in "", "\n" or "\r\n" gets exactly that line end removed |
| Preprocessor.Expand | dls_pmaclib/dls_pmcpreprocessor.py:51-105 | every line gives at least one entry after its debug line, and exactly one unless it is an include line |
| PreprocessorFacts.CommentIgnored | dls_pmaclib/dls_pmcpreprocessor.py:58-59 | with comments cut, whatever follows the first ';' has no effect on the line |
| PreprocessorFacts.DefineStatement | dls_pmaclib/dls_pmcpreprocessor.py:68-70 | " NAME VALUE" binds NAME to VALUE with the earlier macros expanded in it |
| PreprocessorFacts.DefineStatementWithoutValue | dls_pmaclib/dls_pmcpreprocessor.py:70 | " NAME" alone binds nothing and raises IndexError |
| PreprocessorFacts.DefineBinds | dls_pmaclib/dls_pmcpreprocessor.py:66-71 | a "#define NAME VALUE" line gives one '' entry and binds NAME for the later lines |
| PreprocessorFacts.DefineWithoutValue | dls_pmaclib/dls_pmcpreprocessor.py:66-71 | "#define NAME" gives its '' entry, then raises IndexError with the macros unchanged |
| PreprocessorFacts.PlainLine | dls_pmaclib/dls_pmcpreprocessor.py:99-105 | a plain line with no macro in it comes out as itself without its line end, after its debug line |
| PreprocessorFacts.RunOne | dls_pmaclib/dls_pmcpreprocessor.py:50-106 | a one-line file is that line's processing |
| PreprocessorFacts.RunTwo | dls_pmaclib/dls_pmcpreprocessor.py:50-106 | a second line sees the macros the first left, and is not processed when the first raised |
| PreprocessorFacts.RunEntries | dls_pmaclib/dls_pmcpreprocessor.py:49-105 | without include lines, a file processed to the end gives one entry per line, two with debug lines |
| Preprocessor.PmcParser.constructor | dls_pmaclib/dls_pmcpreprocessor.py:10-20 | "/" is searched first, then the given paths, and the output starts empty |
| Preprocessor.PmcParser.Parse | dls_pmaclib/dls_pmcpreprocessor.py:31-106 | the outcome, the output list and the caller's macros are those of Preprocessed; the file's directory goes first in the include paths only when the file opened |
| Preprocessor.PmcParser.ParseLines | dls_pmaclib/dls_pmcpreprocessor.py:49-106 | the line loop builds Run's output and macros, and stops at the line that raised |
| Preprocessor.PmcParser.ParseLine | dls_pmaclib/dls_pmcpreprocessor.py:51-105 | one line appends exactly Expand's entries and leaves its macros and failure flag |
| Preprocessor.PmcParser.DefineAll | dls_pmaclib/dls_pmcpreprocessor.py:68-70 | the define loop computes Define |
| Preprocessor.PmcParser.IncludeAll | dls_pmaclib/dls_pmcpreprocessor.py:75-97 | the include loop appends exactly Included's entries |
| Gather.AxisBits | dls_pmaclib/pmacgather.py:24-29 | for n axes the mask has bits 0..n-1 set (2^n - 1), and is 0 exactly when there are no axes |
| GatherFacts.MaskGrows | dls_pmaclib/pmacgather.py:26-27 | setting bit a of 2^a - 1 gives 2^(a+1) - 1 |
| GatherSpec.SendWrites | dls_pmaclib/dls_pmacremote.py:72-81 | sendCommand keeps the permits and the connection object, writes its command when it returns and a connection object exists, nothing otherwise, and returns for a short command on a connection object |
| GatherSpec.TransmitSends | dls_pmaclib/dls_pmacremote.py:72-81 | the interface's sendCommand behaves as PmacGather relies on |
| GatherSpec.ReadWords | dls_pmaclib/pmacgather.py:60 | readWords is the word count rounded up to even, equal to it exactly when it is even |
| GatherSpec.NewChannel | dls_pmaclib/pmacgather.py:41-46 | channel i uses I-variable "i50%02d" of i+1 and starts without data |
| GatherFacts.IVarDigits | dls_pmaclib/pmacgather.py:44 | "i50" and exactly two digits for channel numbers below 100 |
| GatherFacts.IVarDistinct | dls_pmaclib/pmacgather.py:44 | different channels below 100 get different I-variables |
| GatherSpec.GatherConfig | dls_pmaclib/pmacgather.py:19-64 | samples and sample time are always kept; False exactly without axes, then with nothing sent |
| GatherFacts.AxisChannels | dls_pmaclib/pmacgather.py:40-50 | the channels for the axes from k on are at most one per axis |
| GatherFacts.SetupChannels | dls_pmaclib/pmacgather.py:40-55 | the channel loop adds the axes' channels in order, all of them exactly when nothing escapes |
| GatherFacts.SetupWrites | dls_pmaclib/pmacgather.py:40-47 | the channel loop writes one address assignment per added channel, in order, when the interface has a connection object, and nothing without one |
| GatherFacts.ConfigChannels | dls_pmaclib/pmacgather.py:38-58 | the channels are appended in axis order with I-variables i5001, i5002, ...; after a full configuration every axis has a channel and no_of_words is the total width over WORD |
| GatherFacts.ConfigWrites | dls_pmaclib/pmacgather.py:19-64 | a full configuration writes exactly the mask 2^n-1, the sample time, one assignment per channel and "define gather" for the buffer size, in that order, when the interface has a connection object, and nothing without one |
| Gather.PmacGather.constructor | dls_pmaclib/pmacgather.py:12-17 | no channels, no words, no samples, sample time 0 |
| Gather.PmacGather.Send | dls_pmaclib/pmacgather.py:33 | one sendCommand of the interface object, as its Transmit |
| Gather.PmacGather.GatherConfig | dls_pmaclib/pmacgather.py:19-64 | updates the object and the interface as GatherSpec.GatherConfig |
| Gather.PmacGather.AddChannels | dls_pmaclib/pmacgather.py:38-55 | the channel loop appends channels and sums widths as GatherSpec.AddChannels |
| Gather.PmacGather.DefineBuffer | dls_pmaclib/pmacgather.py:57-64 | records no_of_words and sizes the buffer as GatherSpec.DefineBuffer |
| Gather.PmacGather.GatherTrigger | dls_pmaclib/pmacgather.py:66-68 | sends "gather" as GatherSpec.GatherTrigger, returning the exception that escapes if any, and changes nothing else |
| GatherFacts.TriggerWrites | dls_pmaclib/pmacgather.py:66-67 | gatherTrigger writes exactly "gather" on a connection object, nothing without one or when it raises, and never raises with a socket |
| Gather.PmacGather.CollectData | dls_pmaclib/pmacgather.py:70-83 | the token loop computes GatherSpec.CollectData, and the object is unchanged |
| GatherFacts.CollectWrites | dls_pmaclib/pmacgather.py:70-83 | writes exactly "list gather" on a connection object and nothing without one; an escaping exception propagates; a successful reply gives the halves of its blank-separated tokens, after dropping its last character; a failed one gives nothing |
| GatherFacts.HalvesShape | dls_pmaclib/pmacgather.py:75-77 | twice as many strings as tokens: token[6:] then token[:6], which put back in reverse give the stripped token |
| GatherSpec.DealOne | dls_pmaclib/pmacgather.py:92-112 | one string keeps the walk's channel within the channels and one array per channel |
| GatherSpec.Dealt | dls_pmaclib/pmacgather.py:92-112 | the walk keeps one array per channel |
| GatherFacts.DealtStaysRaised | dls_pmaclib/pmacgather.py:92-101 | once the walk raised, later strings change nothing |
| GatherFacts.DealNoChannels | dls_pmaclib/pmacgather.py:93-101 | without channels the walk raises IndexError exactly when the word count is even and there is a string |
| GatherFacts.DealNeverRaises | dls_pmaclib/pmacgather.py:92-112 | with at least one channel the walk never raises |
| GatherFacts.ParseRaises | dls_pmaclib/pmacgather.py:85-112 | parseData raises exactly when there are no channels, the word count is even and there is a string, and then the channels are unchanged |
| GatherFacts.ParseKeeps | dls_pmaclib/pmacgather.py:114-115 | parseData changes only the data of the channels |
| GatherFacts.WordColumns | dls_pmaclib/pmacgather.py:92-104 | with only WORD channels, string k goes to channel k mod p, p the channel count plus one dummy when the word count is odd |
| GatherFacts.ParseWordColumns | dls_pmaclib/pmacgather.py:85-117 | with only WORD channels each channel's data is its column: string k goes to channel k mod the channel count, or is dropped at the dummy slot when the word count is odd |
| GatherFacts.LongwordPairs | dls_pmaclib/pmacgather.py:105-112 | a LONGWORD channel stores each pair of strings as second + first, holding an odd last string back |
| GatherFacts.HalvesPairs | dls_pmaclib/pmacgather.py:75-77 | pairing the halves collectData produces gives back the stripped tokens |
| GatherFacts.LongwordRoundTrip | dls_pmaclib/pmacgather.py:75-112 | with an even word count, parseData of collectData's halves on one LONGWORD channel gives back the stripped tokens (each longer than six characters) |
| Gather.PmacGather.ParseData | dls_pmaclib/pmacgather.py:85-117 | sets the channels' data as GatherSpec.ParseData, or raises leaving them as they were |
| Gather.PmacGather.DealStrings | dls_pmaclib/pmacgather.py:86-112 | the dealing loop over channel and carry computes the arrays of Dealt, or its IndexError |

## Left out

- Socket and Telnet I/O: `connect()`, `sendall`, `recv`, `tn.write` and `tn.expect` are an oracle. The oracle is a function of the exchange count and the bytes written: a recv's data or a socket error for Ethernet; received pieces and then a timeout or the end of the stream for Telnet.
- Timeouts are only as the Telnet oracle reports them; no clock is modelled.
- The Ethernet `connect()` attempt is a parameter: connected, unknown host, or refused.
- The Telnet `connect` is not modelled. `telnetlib` is never imported in the file, so as written it raises NameError before `self.tn` is set, and the rest of it is session I/O. A Telnet interface without a session object gets IOError('Communication with PMAC broken.') from `_sendCommand`; the Telnet exchanges on a session, which the file's own Telnet connect could not create, are modelled as the code intends them.
- `QCustomEvent` and `QThread` are taken to be bound. As written, `from PyQt4 import *` binds only PyQt4's submodules, so the first post in `sendSeriesThread` would raise NameError with the semaphore held; the model posts the events as the code intends.
- `self.sock` is kept only as whether the attribute exists: it is set once the Ethernet `connect` passes its guards, and `disconnect` closes the socket without deleting it. Whether the socket is closed is not modelled; the Ethernet oracle decides what a send on it gives, where the source's closed socket raises socket.error, turned into IOError('Socket communication error').
- RemoteSpec.JogInc, RemoteSpec.JogStop, RemoteSpec.JogTo, RemoteSpec.JogContinuous, RemoteSpec.Home, RemoteSpec.DisableLimits: the motor, the distance and the position are integers formatted in decimal. The source applies `str()` to any object, which the model does not cover.
- The base-class `connect`, `disconnect` and `_sendCommand`, which only raise NotImplementedError, are not modelled; only the two transports are.
- Transports other than Ethernet and Telnet are not part of this model.
- `updateThread`, `startPollingStatus` and the thread `sendSeries` starts are not modelled: they are polling and threading.
- The semaphore is a count of free permits, not concurrency. A call that would wait with no permit free would block forever, so such calls require a free permit.
- Qt event posting is kept as the list of events a series posts.
- `canceledDownload` is a function from the line index to a flag. It stands for the receiver attribute the loop reads before each line.
- `print`, verbose logging, `testSendCommand`, the `test*` helpers and `runTests` are not modelled: they only print.
- Strings are Python 2 `str` as sequences of characters. A packet byte is a character below 256.
- Py.PyHex: Python 2's `hex()` of a `long` (a value above `sys.maxint`) ends in "L", which the model does not add. Ixx24 values are 24-bit words, far below that.
- `telnetlib` doubles every IAC byte (0xFF) it writes; the Telnet model writes the command and "\r\n" as they are. Commands are ASCII, so they hold no such byte.
- The preprocessor's file opening is a parameter: the file's text, or None when it cannot be opened.
- `os.path.abspath` and `os.path.dirname` are parameters.
- Include files are a map from include name to the lines parsing that file gave. The `os.path.lexists` search through `includePaths` and the nested parse are not modelled.
- Preprocessor.Expand: macros defined inside an included file are not added to the including file's dictionary, and an IndexError inside an included file is not propagated. The included file is given only as its lines.
- `saveOutput` and the `print` of include warnings are not modelled: they are file output.
- `defines=None` is the empty map.
- `sleep` in `gatherTrigger` is not modelled.
- `gatherchannel` is not part of this model. `dataSources`, `motorBaseAddrs`, the width `getDataInfo` reads and the WORD and LONGWORD widths are the `Tables` parameter. `setDataGatherPointer`, `strToRaw` and `rawToScaled` are not modelled.
- The `print` in `collectData` is not modelled.
- Gather.PmacGather.GatherConfig: requires WORD > 0. With WORD = 0 the source raises ZeroDivisionError, which is not modelled.
- Gather.PmacGather.AddChannels: `int(total_width / WORD)` is taken as floor division. Python 2 floors; Python 3 truncates toward zero. The two agree because widths are non-negative.
- `gatherBufSize` uses `/` on an even `readWords`, so it is exact whether `/` is integer or true division. The model uses integer division.
- `sendCommand` as the gather object calls it has a no-permit branch, which gives a failure reply instead of blocking. No modelled call reaches that branch.
