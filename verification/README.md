# Ground-station terminal: a verified model

This project models the parts of a UHF ground-station terminal that compute: its calendar and
clock arithmetic, the GUI backend's in-memory state, its wire formats, the antenna rotator's
deadband, and the ownership of packet buffers on the uplink. Code that works by changing state
step by step is a class or a method over arrays, proved against a specification function; the
properties of those functions are lemmas for all inputs, all runs and all reachable states.

| file | part of the station |
|---|---|
| `Calendar.dfy` | Julian date of a year, day of the year, closed-form day number |
| `Predictor.dfy` | the predictor's linear clock and the epoch of an element set |
| `Timestamp.dfy` | seconds broken down into date and time by counting years and months |
| `LineFramer.dfy` | the GUI backend's command stream in a 1024-byte buffer |
| `EventRing.dfy` | the 64-slot event ring and GET_EVENTS |
| `PassJson.dfy`, `PassReader.dfy` | the bounded pass schedule in a status snapshot, and a reader of its JSON text (RFC 8259) |
| `HexCodec.dfy` | hexadecimal dump and hexadecimal decoder |
| `CspHeader.dfy` | the six-byte packet file header, packed, unpacked, printed and re-read |
| `Numerals.dfy`, `Itoa.dfy` | positional numerals and the station's own `itoa` |
| `HeaderText.dfy` | the same header built as a string of binary digits |
| `PositionCodec.dfy` | the 56-bit aircraft position |
| `FloatStorage.dfy`, `PositionStorage.dfy` | storing a double as a nearest `float`, and positions as a receiver gets them |
| `Rotator.dfy` | the rotator's deadband over whole runs of requests |
| `UplinkBuffers.dfy` | packet buffers from the CSP pool to the radio |
| `CArith.dfy`, `Bits.dfy`, `CText.dfy`, `Options.dfy` | C's truncation and narrowing, bitwise operators, terminated text, absent values |

Doubles are exact reals; casts to integers truncate, and narrowing to `int`, `uint8_t`,
`uint16_t` and `size_t` is written out where it matters. `dafny verify dfyconfig.toml` checks
everything.

## What the proofs found

- `csp_sendto` answers -5 for every failed send (`lib/libcsp/src/csp_io.c:483-484`), although
  its header promises -1 (`lib/libcsp/include/csp/csp.h:196`), and the sender tests for -1
  only. A failed send is therefore reported as a success and its buffer belongs to nobody.
  Free and handed-over buffers make up the pool exactly when such answers meet only calls that
  found no free buffer.
- The packet's data member is declared with no elements, so its `sizeof` is zero and the GUI's
  SEND_PACKET, whose payload is never empty, is always refused.
- Bytes that exactly fill the receive buffer are dropped even if they are finished commands.
- Five or more scheduled passes never fit their field. They are shown as an empty array, or, when
  a name holds a closing bracket early enough, as the first 511 characters of the array.
- Names are not escaped: the schedule reads back as JSON exactly when no name holds a quotation
  mark, a backslash or a control character.
- A decoded aircraft position can be off by more than half a grid step, because the angle is
  rounded once more when it is stored in a `float`: latitude -68.23980712890625 arrives as
  -68.23983001708984. Which angles stay within half a step is decided by the spacing of the
  floats around them.
- The text header's word is narrowed to a `char` before printing; its low byte is the zero
  flags, so addresses and ports that are not negative never reach the output. A negative one ends
  the reading of the text, and what stands in front of it is printed.
- A rotator command that fails is not retried by repeating the request, because the target is
  remembered before the port is opened; requests to negative angles are never ignored.
- Years 52 to 56 of an element set are read a century apart by the tracker and the decay test,
  and `DayNum` splits year 51 between 1951 and 2051.
- The Julian date of a year is the Gregorian one exactly from year 1 on.

## Model

| member | source | states |
|---|---|---|
| Calendar.JulianDateIsGregorian | src/predict.c:428-450 | for every integer year, the truncating Meeus form is the Gregorian day count if and only if the year is at least 1 |
| Calendar.JulianDateDrift | src/predict.c:428-450 | for every year, by how many days the truncating casts push the Meeus form past the Gregorian count: none from year 1 on, one or two before |
| Calendar.JulianYearStep | src/predict.c:428-450 | for every integer year, the Julian dates of it and the next are one year length apart if and only if the year is at least 1, or at most -2 with neither it nor the year before a leap year |
| Calendar.Doy | src/predict.c:475-496 | the accumulating loop adds the days of the months before, the day, and the leap day after February; its table is never overrun |
| Calendar.JulianDateNext | src/predict.c:428-496 | from each Gregorian date to the next, across months, years and leap days, Julian date of year plus day of year rises by exactly one |
| Calendar.JulianDateOrdersDates | src/predict.c:428-496 | dates are ordered as their Julian dates, and no two valid dates share one |
| Calendar.DayNumRefinesMeeus | src/predict.c:1214-1236 | for every month, day and two-digit or longer year, the closed form plus 2444238.5 is the Meeus date plus the day of the year of the year it stands for, if and only if that year is at least 1; the pivot splits year 51 |
| Calendar.DayNumIsDayCount | src/predict.c:1214-1236 | for every month, day and year, the closed form is the Gregorian count of days of the year it stands for, less a constant |
| Predictor.EpochPackingRoundTrip | src/predict.c:452-473 | 1000 times the year plus the day, as PreCalc packs them, unpacks with modf to the Julian date of that day of 20yy for years below 57 and of 19yy from 57 on |
| Predictor.PivotsDisagree | src/predict.c:1432 | the epoch used by the decay test and the tracker's are the same instant, except for years 52 to 56, where they are 36525 days apart |
| Predictor.LinearClock | src/predict.c:1238-1240 | the constants 3651 and 2444238.5 put every Unix time where the calendar puts it |
| Predictor.Tracker.SetCalcTime | src/predict.c:1238-1240 | the stored day number is the calendar instant of the Unix time |
| Predictor.Tracker.Track | src/doppler_freq_correction.c:415-425 | the three calls of a tracking step leave the calendar distance from the element set's epoch to the given time |
| Timestamp.FormatTimestamp | src/get_timestamp.c:58-102 | for every 64-bit count and base year, the fields name exactly the instant of the low 32 bits of its magnitude, in range, with midnights that open a month shown as the day past the end of the month before |
| Timestamp.CountMonths | src/get_timestamp.c:88-95 | at most a year is left, so the month loop stops within the twelve entries of its table |
| Timestamp.DenotesUnique | src/get_timestamp.c:75-102 | the specification admits one set of fields for each number of seconds |
| Timestamp.CalendarRoundTrip | src/get_timestamp.c:75-102 | Julian date of the printed year plus day of year plus time of day is the instant of the predictor's linear clock, boundary midnights and negative counts included |
| Timestamp.ElapsedRoundTrip | src/get_timestamp.c:58-102 | the same for any base year from 1 on: the fields are as far from the base year's first day as the count says |
| Timestamp.BoundaryMidnights | src/get_timestamp.c:82-95 | the day past the end of a month is shown if and only if the time is a midnight, after the start, that opens a month; the fields are a valid Gregorian date at every other time and only then |
| Timestamp.GetTime | src/get_timestamp.c:48-56 | nanoseconds in the upper word are lost, the fields are the clock plus eight hours, and they are right if and only if that sum fits a 32-bit int |
| LineFramer.LinesRejoin | src/gui_backend.c:1122-1146 | lines and residue are the stream cut at every newline and nowhere else |
| LineFramer.LinesOfConcat | src/gui_backend.c:1122-1153 | only the residue of what was received before matters for what comes next |
| LineFramer.ChunkInvariance | src/gui_backend.c:1287-1311 | for any stream in any chunks, the commands run are the stream's lines in order and the residue is what follows the last newline, as long as no chunk fills the buffer, and the client is told of an overflow exactly when one does |
| LineFramer.ServedExactlyWhenNeverFilled | src/gui_backend.c:1300-1309 | the replies are those of the stream's lines if and only if no chunk fills the buffer |
| LineFramer.CutsDoNotMatter | src/gui_backend.c:1287-1311 | two ways of cutting the same stream are answered alike |
| LineFramer.ShortLinesNeverFill | src/gui_backend.c:1300-1309 | lines up to a limit, in chunks that leave room for it, never fill the buffer |
| LineFramer.FullBufferIsDropped | src/gui_backend.c:1301-1305 | 1024 bytes received at once are dropped, whatever they hold, and any smaller number is served |
| LineFramer.OverflowStartsAfresh | src/gui_backend.c:1300-1309 | when a chunk fills the buffer, the lines finished before it are answered, the client is told once, the residue and the whole chunk are dropped, and the rest of the run is answered as on a new connection |
| LineFramer.CarriageReturnDropped | src/gui_backend.c:1140-1143 | one carriage return at the end of a line is dropped, and a line without one is left as it is |
| LineFramer.NulEndsCommand | src/gui_backend.c:1132-1144 | a line is read up to its first NUL, whatever follows |
| LineFramer.PlainCommandsServed | src/gui_backend.c:1122-1153 | commands each ended by a newline or by carriage return and newline, cut in any way that never fills the buffer, are answered by exactly those commands |
| LineFramer.Client.Recv | src/gui_backend.c:1289-1310 | the buffer stays below its size and free of newlines in every reachable state, so at least one byte is asked for; replies and residue are those of one specified step, or the client is closed |
| LineFramer.Client.ProcessBuffer | src/gui_backend.c:1122-1153 | in place: every finished line is dispatched once, in order, and the residue is moved to the front |
| LineFramer.Client.DispatchLine | src/gui_backend.c:1132-1144 | the line is copied within its buffer and handed on as the command text that LineFramer.CarriageReturnDropped and LineFramer.NulEndsCommand describe |
| LineFramer.Client.Accept | src/gui_backend.c:1269-1276 | a new connection starts with an empty buffer |
| LineFramer.Client.Close | src/gui_backend.c:1155-1163 | an open client is emptied and closed, a closed one is left alone |
| EventRing.RingIsLastPushes | src/gui_backend.c:396-407 | after any run of pushes the contents are the last 64 of the whole history |
| EventRing.PollingSeesAll | src/gui_backend.c:953-965 | a client sees every event since its last question if and only if there were at most 64 |
| EventRing.WindowGrows | src/gui_backend.c:397-402 | writing the slot behind a ring that is not full appends the event and keeps the others in order |
| EventRing.WindowSlides | src/gui_backend.c:397-406 | writing the oldest slot of a full ring drops the oldest event, appends the new one and keeps the others in order |
| EventRing.EventSays | src/gui_backend.c:376-395 | kind and time as given, and each text in its own field, cut to 31, 127 and 255 characters; a missing origin is "UNKNOWN", other missing texts are empty |
| EventRing.Ring.PushEvent | src/gui_backend.c:376-408 | the slots abstract to the last 64 pushed events, in push order, and the newest holds the arguments, each text in its own field and cut to it |
| EventRing.Ring.GetEvents | src/gui_backend.c:936-965 | GET_EVENTS n returns the last n events of the history that the ring still holds, oldest first, and rejects any token that is not a number from 1 to 64 |
| PassJson.BuildPassesJson | src/gui_backend.c:558-634 | the 512-character field, built in place with cut-off prints, ends up holding exactly the specified text for any passes |
| PassJson.AllOrNothing | src/gui_backend.c:622-634 | without closing brackets in names, the field is the complete array when that needs at most 511 characters and the empty array otherwise |
| PassJson.ShownExactly | src/gui_backend.c:587-633 | for any passes: the whole array when it needs at most 511 characters; otherwise its first 511 if a closing bracket of some name falls among them, and the empty array if none does |
| PassJson.MarkedNameIsCut | src/gui_backend.c:629-633 | five passes of a satellite named "SAT [+]" are shown as a piece of an array |
| PassJson.FivePassesAreNone | src/gui_backend.c:571-594 | five or more passes with times of any year never fit, and without closing brackets in names are shown as none |
| PassReader.TimeReads | src/gui_backend.c:575-582 | a printed time, read as year, month, day, hour, minute and second at their ISO 8601 places, is the time it was printed from |
| PassReader.ArrayReadsBack | src/gui_backend.c:571-594 | the complete array, read as JSON, is the schedule it was built from, each value under its own key and each time field at its own place, if and only if no name holds a quotation mark, a backslash or a character below the space |
| PassReader.FieldReadsAllOrNone | src/gui_backend.c:558-634 | without closing brackets in names, what the field shows reads as the whole schedule when that fits and as no passes when it does not, if and only if the names of a schedule that fits are plain |
| PassReader.ShownTellsSchedule | src/gui_backend.c:558-634 | two schedules with plain names and no brackets that are shown alike, and not as none, are the same schedule |
| HexCodec.BytesToHex | src/serial_rotator.c:55-70 | the output is a terminated prefix of the full dump, as long as fits, and nothing beyond the given size is written |
| HexCodec.HexTextLength | src/serial_rotator.c:62-69 | the dump of n bytes is 3n-1 characters, so 3n hold it with its terminator |
| HexCodec.DumpPlaces | src/serial_rotator.c:62-69 | each byte's two digits stand at three times its place, with a space behind all but the last |
| HexCodec.Hex2IsValue | src/serial_rotator.c:62-69 | two upper-case digits that read in base sixteen as the byte |
| HexCodec.HexToBytes | src/gui_backend.c:839-868 | accepts exactly the nonempty texts of an even number of hexadecimal digits in either case, given memory; each byte is the value of its two digits in base sixteen |
| HexCodec.DecodeOfDump | src/gui_backend.c:839-868 | decoding a dump without its spaces gives the bytes back, for all bytes |
| HexCodec.DumpOfDecode | src/serial_rotator.c:55-70 | dumping decoded bytes gives the text back in upper case |
| HexCodec.CaseIsIgnored | src/gui_backend.c:854-863 | two texts decode alike if and only if they differ in case only |
| CspHeader.FillHeader | src/receive_packet.c:205-212 | the bytes are filled in place with the big-endian CSP identifier and the big-endian length |
| CspHeader.PackFollowsLayout | src/receive_packet.c:206-210 | for any field values, the first four bytes are the 2-5-5-6-6-8 bit identifier of the fields cut to their widths |
| CspHeader.HeaderRoundTrip | src/process_mcs_file.c:61-75 | unpacking packed bytes, printing the fields in decimal and reading them again gives every field back, cut to its width, and the length modulo 256 |
| CspHeader.LengthSurvives | src/process_mcs_file.c:72 | the length comes back if and only if it is below 256 |
| CspHeader.TextsFitBuffers | src/send_packet.c:182 | no decimal text overruns the buffer it is printed into |
| CspHeader.BytesRoundTrip | src/send_packet.c:192-220 | any six bytes, read as an uplink header and packed again with the unread reserve nibble and length byte, are the same six bytes |
| Numerals.ValueOfNumeral | src/itoa.c:75-81 | reading a numeral positionally gives the number back, in any base from 2 to 36, and it has no leading zero |
| Numerals.NumeralUnique | src/itoa.c:75-81 | a text of digits without a leading zero is the numeral of its value |
| Numerals.DigitAlphabet | src/itoa.c:77-79 | the digits are 0 to 9 and then a to z |
| Itoa.TextIsNumeral | src/itoa.c:53-95 | the text is the numeral of every number that is not negative, and '-' with the numeral of the magnitude for negative numbers in base ten |
| Itoa.NegativeText | src/itoa.c:66-82 | a negative number in a base other than ten has no sign: at each place stands the character as far below '0' as the digit of its magnitude counts |
| Itoa.Itoa | src/itoa.c:53-95 | in place: the buffer holds that text and its terminator, and is unchanged beyond it, for every int but the most negative |
| Itoa.ReverseString | src/itoa.c:97-109 | the recursive swaps end and exactly reverse the positions from i to len - i, leaving all others alone |
| HeaderText.AssembleHeader | src/generate_csp_header.c:62-129 | for all `char` values, negative ones included, on which the padding loops end (HeaderText.PaddingTerminates says which), the character buffers end up holding "00", source, destination, destination port and source port, each padded to its width, and eight zeros |
| HeaderText.AppendPadded | src/generate_csp_header.c:81-91 | in place: the padding loop puts as many zeros in front of the digits as the width lacks; its precondition on the digits is the exact condition of HeaderText.PaddingTerminates |
| HeaderText.PaddingTerminates | src/generate_csp_header.c:85-89 | for every number, the counter that is run down to exactly zero gets there if and only if the number's magnitude is below two to the field's width |
| HeaderText.ConstructionsAgree | src/generate_csp_header.c:62-129 | the text is 32 binary digits and its value is the word of the bit-packed header with priority, reserve and flags zero |
| HeaderText.GenerateCspHeader | src/generate_csp_header.c:130-161 | for all `char` values on which the padding ends and every length: when no address or port is negative, or the source is, the output is "0" and the two digits of the length, a negative one as "00"; otherwise the low byte of what stands in front of the first negative field is printed, as a signed `char` |
| HeaderText.HeaderReads | src/generate_csp_header.c:130-134 | the number the text is read as: fields and padding up to the first negative field, or the whole word |
| HeaderText.PrintedIsNumeral | src/generate_csp_header.c:132-134 | the narrowed word is printed as the hexadecimal numeral of a signed `char` made unsigned |
| PositionCodec.UnpackOfPack | clients/gatoss-uc/gatoss_common.c:19-25 | three codes that fit 23, 22 and 11 bits survive the seven bytes |
| PositionCodec.PackOfUnpack | clients/gatoss-uc/gatoss_common.c:32-34 | seven bytes survive the three codes: all 56 bits are used |
| PositionCodec.RoundsBack | clients/gatoss-uc/gatoss_common.c:15-16 | for every code, an angle off its grid point rounds back to it if and only if it is off by less than 1/46600 degree, or by exactly that much downward; at code 0, where the cast truncates upward, any castable angle below does too |
| PositionCodec.ReencodingStable | clients/gatoss-uc/gatoss_common.c:13-41 | for every code, decompressing, moving each angle by less than 1/46600 degree and compressing gives the code back, timestamp included |
| FloatStorage.FloatStorageError | clients/gatoss-uc/io/gatoss.h:97-98 | storing an angle as a nearest single-precision number moves it by at most two to the -17 degree |
| PositionStorage.FloatRoundTrip | clients/gatoss-uc/gatoss_common.c:36-39 | decoding into floats and encoding again is the identity on codes |
| PositionCodec.NothingMasked | clients/gatoss-uc/gatoss_common.c:15-17 | a mask leaves a code alone if and only if it fits its field |
| PositionCodec.DecodedNear | clients/gatoss-uc/gatoss_common.c:32-37 | before they are stored, both decoded angles are within 1/46600 degree |
| PositionStorage.LossyBound | clients/gatoss-uc/gatoss_common.c:13-41 | on the grid no mask drops a bit; both angles, stored as floats, arrive within 1/46600 + 1/131072 degree, the altitude rounded down to a multiple of 25, the timestamp as it was |
| PositionStorage.HalfStepKeptExactly | clients/gatoss-uc/gatoss_common.c:13-41 | for angles that are floats, as the encoder's are, what arrives is within 1/46600 degree if and only if the distance from the angle to its grid angle, counted in spacings of the floats at the grid angle, is below 1/46600 degree in those spacings, rounded down, and a half; or below it rounded to a whole number, for an angle halfway between two multiples of the spacing |
| PositionStorage.HalfStepExceeded | clients/gatoss-uc/gatoss_common.c:13-41 | latitude -8944328/131072, itself a float, arrives off by more than 1/46600 degree, whichever nearest float is stored |
| PositionStorage.FarLongitudesKept | clients/gatoss-uc/gatoss_common.c:15-37 | every float longitude from 129 degrees on, east or west, is among those that arrive within 1/46600 degree |
| PositionStorage.EveryCodeIsStored | clients/gatoss-uc/gatoss_common.c:30-41 | for every code there is a position that a receiver may store, so the statements about stored positions are about all codes |
| FloatStorage.StoredAsNearestMultiple | clients/gatoss-uc/io/gatoss.h:97-98 | from a power of two to the next, storing as a nearest float is rounding to the nearest multiple of the spacing there |
| PositionCodec.GlobeIsOnGrid | clients/gatoss-uc/gatoss_common.c:15-17 | every longitude, latitude and altitude below 51200 is on the grid |
| PositionCodec.SentForm | clients/gatoss-uc/gatoss_common.c:15-26 | for any position the casts can hold, on the grid or off it: the seven bytes are one big-endian number of 23, 22 and 11 bits, each code modulo its field, and the timestamp's four bytes are reversed |
| PositionCodec.ReceivedForm | clients/gatoss-uc/gatoss_common.c:32-39 | for any seven bytes: the decoded position is the one whose codes that big-endian number holds, and the timestamp's four bytes are reversed |
| PositionCodec.AltitudeSurvives | clients/gatoss-uc/gatoss_common.c:17-38 | the altitude comes back, rounded down to a multiple of 25, if and only if it is below 51200 |
| Rotator.Driver.SetAzEl | src/serial_rotator.c:165-227 | exactly the requested angles are remembered and commanded if and only if the old target has a negative angle or lies two degrees off on some axis; otherwise nothing changes; the result tells whether a command got past the port's setup |
| Rotator.CommandsInOrder | src/serial_rotator.c:178-189 | over any run the commands are requests, unchanged and in order, the first among them, and every other request lies less than two degrees from the command before it, whose angles are not negative |
| Rotator.LastCommandNear | src/serial_rotator.c:178-189 | after any requests, the last attempted command is within one degree of the latest request on both axes |
| Rotator.CommandsFarApart | src/serial_rotator.c:178-186 | commands in a row are two degrees apart on some axis, unless the first was to a negative angle |
| Rotator.CommandsBounded | src/serial_rotator.c:178-189 | for any requests, the commands number at most one, plus half the travel, measured on the longer axis of each leg (and so also in total degrees), plus one for each command that follows one to a negative angle |
| Rotator.NonNegativeBounded | src/serial_rotator.c:178-189 | so for requests that are not negative the travel alone bounds the commands |
| Rotator.BoundIsTight | src/serial_rotator.c:178-189 | sweeps of every length meet the bound |
| Rotator.RepeatedRequest | src/serial_rotator.c:178-197 | a repeated request is attempted once, successful or not, if neither angle is negative, and every time otherwise |
| UplinkBuffers.BuffersConserved | src/send_packet.c:174-258 | over any run of calls with any answers, every buffer is free, handed over or lost, none twice, and one is lost for each misread radio code and for nothing else |
| UplinkBuffers.NothingLostExactly | src/send_packet.c:225-256 | over any run, free and handed-over buffers still make up the pool if and only if every call whose send was answered by a code other than 0 and -1 had found no free buffer |
| UplinkBuffers.KnownCodesLoseNothing | src/send_packet.c:62-67 | if the radio answers 0 or -1 only, nothing is lost |
| UplinkBuffers.FailedSendIsMisread | lib/libcsp/src/csp_io.c:482-487 | the code given for a failed send is one the sender misreads |
| UplinkBuffers.FailedSendReportedAsSuccess | src/send_packet.c:62-69 | such a send is reported as a success and loses its buffer |
| UplinkBuffers.FailedSendsDrainPool | src/send_packet.c:176-180 | failed sends in a row lose one buffer each until none is left |
| UplinkBuffers.Sender.BufferGet | lib/libcsp/src/csp_buffer.c:118-142 | the first free buffer is taken if and only if there is one and the size is at most a buffer's or so large that the sum with the overhead wraps, as the largest size does; otherwise the queue is as it was |
| UplinkBuffers.Sender.SendPacketExecute | src/send_packet.c:38-169 | which packets reach the radio, when the buffer counts as consumed, and the status: for the radio, failure exactly at code -1; for station commands, by first byte, length and selected satellite |
| UplinkBuffers.RadioFate | src/send_packet.c:62-76 | a packet for the radio: handed over at 0, given back and failed at -1, lost and successful at any other code |
| UplinkBuffers.StatusTellsHandover | src/send_packet.c:62-76 | for codes 0 and -1 a call reports success if and only if its buffer was handed over |
| UplinkBuffers.StationCommandFate | src/send_packet.c:77-135 | a station command never reaches the radio, its buffer is given back, and its success depends on its first byte alone, its length and the selected satellite |
| UplinkBuffers.RefusedFate | src/send_packet.c:186-190 | a refused packet fails without a radio send and its buffer is given back |
| UplinkBuffers.FileSays | src/process_mcs_file.c:28-74 | files of six bytes or fewer are refused; otherwise the header's fields are these bits of its bytes, and as many bytes are sent as the sixth byte counts: the file's data and, beyond its end, what the buffer held before |
| UplinkBuffers.StructSays | src/send_packet.c:243-247 | of packets in memory only those with an empty payload are executed |
| UplinkBuffers.SentIsExecuted | src/send_packet.c:47-63 | what goes out is the header's priority, destination and ports and the payload |
| UplinkBuffers.Sender.SendPacket | src/send_packet.c:174-229 | the pool after the call, the radio send made and the status, for every file and every answer |
| UplinkBuffers.Sender.SendPacketStruct | src/send_packet.c:231-258 | the same for a header and payload given in memory; any payload that is not empty is refused |
| UplinkBuffers.Sender.GuiSendPacket | src/gui_backend.c:894-933 | a packet from the GUI never reaches the radio and leaves the pool's buffers as they were |
| UplinkBuffers.DownlinkFileResent | src/send_packet.c:192-224 | a packet file saved on the downlink with data and sent up again reaches the radio with its priority, destination and ports cut to their widths, and with the first bytes of its data, as many as its length modulo 256, whatever the buffer held before |

## Left out

- Timestamp.FormatTimestamp: the fields are modelled, not the text they are printed into, nor the elapsed-time text for base years other than 1970; the count INT64_MIN, whose negation overflows, is excluded.
- Itoa.Itoa: the most negative int, whose negation overflows, is excluded; bases below 2 and above 36 do not occur.
- Calendar.Doy: month numbers above 13 read past the table in the source and are excluded.
- Timestamp.GetTime: nanoseconds are below 1000000000, as the clock keeps them, and the host is little-endian.
- HeaderText.GenerateCspHeader: values whose magnitude does not fit their field are excluded, because the padding loop then never reaches zero (see HeaderText.PaddingTerminates).
- HeaderText.AssembleHeader: the same.
- HeaderText.AppendPadded: digits wider than the field are excluded, because the loop then never reaches zero (see HeaderText.PaddingTerminates).
- PositionCodec.Compress: angles whose scaled value a `uint32_t` cannot hold make the cast undefined and are excluded; double arithmetic is exact, single-precision storage is rounded.
- LineFramer.Client: one client; the table of eight connections, select and the socket calls are not modelled beyond the bytes received.
- LineFramer.Client.DispatchLine: what a command line does, tokenizing included, is not part of the framer's model.
- EventRing.Ring: the lock makes each push and each query one step; number parsing is given as its outcome.
- PassJson.BuildPassesJson: the broken-down fields that `gmtime_r` makes of a time are given, years are printed without padding; names are terminated within their field.
- PassReader.ArrayReadsBack: the reader is not in the source; it accepts the members in the order in which they are written and no blanks between tokens. Names are characters, not bytes of an encoding.
- Rotator.Driver.SetAzEl: the command text and the serial line are left out; a port that cannot be opened or set up, and a finished write, are the outcomes.
- UplinkBuffers.Sender.SendPacket: reading the packet file is given as its outcome; a missing file ends the program in the source, and a file longer than the buffer is excluded. The backup copy on disk and the notification are left out.
- UplinkBuffers.Sender.SendPacketExecute: what a station command does to the satellite selection, the element sets or the radio's frequencies is given by its answers.
- UplinkBuffers.Pool: reference counts above one, and other users of the pool, are not modelled.
- Predictor.Tracker: tracking beyond time and epoch (SGP4, sun, observer geometry, pass search) is floating-point work outside this model, as are the checksum of element sets and the rest of the decay formula.
- Packet CRC on the downlink, TLE download, radio parameters, TCP server, downlink client, the other satellite clients and the GUI front end are input, output or tables.
