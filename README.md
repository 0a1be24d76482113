# Cell Broadcast, FMTP and tshark io,stat in Dafny

This project models three pieces of Wireshark 1.8.0, with proofs about each.

- **GSM/UMTS Cell Broadcast dissector** (`packet-cell_broadcast.c`, 3GPP TS 23.041 section 9.4):
  - the fixed page header: serial number, message identifier, coding scheme and page octet;
  - the serial number's bit fields and the page octet's nibbles;
  - the total classifier of message identifiers, which tries the exact table first and then the range chain;
  - `dissect_cbs_data`, which dispatches on the data-coding scheme and writes into the static `msgbuf`;
  - the arguments of the reassembly call, and the two reassembly tables as a class.
- **FMTP heuristic** (`packet-fmtp.c`):
  - the four header checks that claim a TCP segment;
  - the PDU length given to the TCP reassembler;
  - the type and system-message names shown for a PDU.
- **tshark `-z io,stat`** (`tap-iostat.c`):
  - `iostat_init`: the interval and its precision loop, the comma-counting loop and the filter-splitting loop;
  - `register_io_tap`: the `FUNC(field)` scan over `calc_type_table` and the field-type checks;
  - `iostat_packet`, as an `IoStat` class whose methods grow each column's bucket list, update the counters and raise the column maxima;
  - `magnitude` and the row count of the printed table.

The files are:

- `common.dfy`: Option/Result, the C word types, `tvb_get_ntohs`, and the C casts.
- `cbs_fields.dfy`, `cbs_text.dfy`, `cbs_reassembly.dfy`, `cbs_dissect.dfy`: the Cell Broadcast dissector.
- `fmtp.dfy`: the FMTP heuristic.
- `iostat_args.dfy`, `iostat_tap.dfy`, `iostat_draw.dfy`: io,stat.

Each loop of the source is a method with a loop (`while` or `for`), proved equal to a specification function. The properties are proved about those functions. The one exception is the loop that zeroes `max_vals` and `max_frame` in iostat_init, which the `IoStat` constructor does with array initialisers.

Calls into code outside these files become parameters:

- the 7-bit unpacker, the GSM to UTF-8 converter, iconv, and the memory that follows the converted 7-bit text (`Converters`);
- the data-coding-scheme decoder (a function from the octet to an encoding);
- the field registry (`Registry`);
- the field values of a frame.

## Model

| member | source | states |
|---|---|---|
| CbsFields.MaskedField | epan/dissectors/packet-cell_broadcast.c:425-437 | a field shown through a contiguous mask of `width` bits is below 2^width |
| CbsFields.SerialFieldsPartition | epan/dissectors/packet-cell_broadcast.c:425-437 | geographic scope (mask 0xC000) ≤ 3, message code (0x3FF0) ≤ 1023, update number (0x000F) ≤ 15; scope is sn / 0x4000, update is sn % 16, and together they rebuild the serial number |
| CbsFields.SerialFieldsRoundTrip | epan/dissectors/packet-cell_broadcast.c:425-437 | splitting a serial number composed from in-range fields gives each field back |
| CbsFields.AppendedMessageCodeAsWritten | epan/dissectors/packet-cell_broadcast.c:177 | the appended text `(sn & 0x3FF) >> 4` is at most 63 |
| CbsFields.AppendedCodeIsLowSixBits | epan/dissectors/packet-cell_broadcast.c:177 | the appended text equals the ten-bit message code modulo 64 |
| CbsFields.AppendedCodeDisagrees | epan/dissectors/packet-cell_broadcast.c:177 | for serial 0x0400 the message code field is 64, but the appended text says 0 |
| CbsFields.AppendedMessageCode | epan/dissectors/packet-cell_broadcast.c:177 | with the field's own mask, the appended code always equals the message code field |
| CbsFields.AppendedUpdateNumber | epan/dissectors/packet-cell_broadcast.c:177 | the appended update number equals the update number field |
| CbsFields.SerialNumberReturn | epan/dissectors/packet-cell_broadcast.c:170-184 | dissect_cbs_serial_number returns offset + 2, the offset after the field, not its width |
| CbsFields.HeaderOffsets | epan/dissectors/packet-cell_broadcast.c:328-331 | the serial routine returns offset + 2 and the identifier routine the width 2, so from offset 0 the caller reaches 2, then 4; adding the serial routine's return is correct only at offset 0 |
| CbsFields.FirstBandIsBracket | epan/dissectors/packet-cell_broadcast.c:193-246 | in strictly increasing bands, the first band whose bound exceeds the id is the one that brackets it |
| CbsFields.RangeChainIsBandTable | epan/dissectors/packet-cell_broadcast.c:193-246 | the if-chain equals the table of bands; the bounds strictly increase and end at 65536, so every id gets a string |
| CbsFields.ClassifyMessageId | epan/dissectors/packet-cell_broadcast.c:191-247 | an exact table match wins; any other id gets the string of its range band, which always exists |
| CbsFields.EarthquakeBand | epan/dissectors/packet-cell_broadcast.c:211-214 | 4352 lies in the "ETWS ... future extension" band |
| CbsFields.EarthquakeExample | epan/dissectors/packet-cell_broadcast.c:192-214 | 4352 is in the ETWS future-extension band, yet it is named the earthquake warning, because the exact table wins |
| CbsFields.CurrentPage | epan/dissectors/packet-cell_broadcast.c:333-334 | the current page is the high nibble, at most 15 |
| CbsFields.TotalPages | epan/dissectors/packet-cell_broadcast.c:333-335 | the total page count is the low nibble, at most 15 |
| CbsFields.PageNibblesRoundTrip | epan/dissectors/packet-cell_broadcast.c:333-335 | the two nibbles rebuild the octet, and an octet built from two nibbles splits back into them |
| CbsFields.ParsePage | epan/dissectors/packet-cell_broadcast.c:320-338 | a page parses exactly when it has its 6 header octets; the nibbles are ≤ 15 and the content has the remaining |p| - 6 octets |
| CbsFields.EncodePage | epan/dissectors/packet-cell_broadcast.c:328-338 | an encoded page is its content plus 6 header octets |
| CbsFields.PageRoundTrip | epan/dissectors/packet-cell_broadcast.c:328-338 | parsing an encoded page gives back its header and content |
| CbsFields.MessageKeySplits | epan/dissectors/packet-cell_broadcast.c:358 | `(serial << 16) + message_id` splits back into the pair, so distinct pairs get distinct keys |
| CbsFields.SlotOffsetLayout | epan/dissectors/packet-cell_broadcast.c:361 | pages 1..15 get disjoint consecutive 88-octet slots; page 0 wraps to 2^32 - 88 |
| CbsFields.ReassemblyCallRule | epan/dissectors/packet-cell_broadcast.c:349-362 | no call iff total_pages == 1; otherwise the key splits into serial and id, the length is 88, more pages iff current != total, and the offset is (current - 1) * 88 |
| CbsFields.PagesShareKey | epan/dissectors/packet-cell_broadcast.c:357-359 | two pages share a reassembly key iff they have the same serial number and message id |
| CbsText.SevenBitText | epan/dissectors/packet-cell_broadcast.c:264-272 | the 7-bit buffer is never NULL: it is out_len octets long, equal to the first out_len octets of the UTF-8 text when that is long enough, and otherwise starting with the whole text |
| CbsText.SeptetCount | epan/dissectors/packet-cell_broadcast.c:255-269 | the guint8 `out_len` is at most 255 and the septet count; it equals the count below 256 |
| CbsText.CbsData | epan/dissectors/packet-cell_broadcast.c:252-305 | 8-bit gives exactly the content; UCS-2 gives the content iff iconv opens and converts; an unhandled encoding gives NULL; 7-bit always gives a buffer of out_len octets that begins with the converted septets (all of it, or its first out_len octets) |
| CbsText.SevenBitCountWraps | epan/dissectors/packet-cell_broadcast.c:255-271 | 256 septets wrap out_len to 0 and give an empty buffer |
| CbsText.Scratched | epan/dissectors/packet-cell_broadcast.c:258-269 | on the 7-bit path msgbuf holds the septets, then the terminator at out_len, then its old octets; other paths leave it unchanged |
| CbsText.ScratchBuffer.constructor | epan/dissectors/packet-cell_broadcast.c:258 | the static buffer has 1024 octets |
| CbsText.ScratchBuffer.DissectCbsData | epan/dissectors/packet-cell_broadcast.c:252-305 | the returned buffer is CbsData, and msgbuf becomes Scratched of its old contents |
| CbsText.ScratchBuffer.UnpackSevenBit | epan/dissectors/packet-cell_broadcast.c:264-273 | the septets are written into msgbuf, terminated at out_len, and the out_len-octet buffer over their UTF-8 text (SevenBitText) is returned |
| CbsReassembly.StorePage | epan/dissectors/packet-cell_broadcast.c:359-362 | a page is added at its offset; a page already stored is kept (first writer wins) |
| CbsReassembly.AssembleLayout | epan/dissectors/packet-cell_broadcast.c:359-364 | the reassembled message is n * 88 octets long, and octet j of block k is octet j of page k |
| CbsReassembly.ReassembledIn | epan/dissectors/packet-cell_broadcast.c:359-364 | the message is recorded for exactly the frames that contributed a page |
| CbsReassembly.AddCheck | epan/dissectors/packet-cell_broadcast.c:359-362 | a revisit only looks the frame up in the message table; a page shorter than 88 octets changes nothing |
| CbsReassembly.AddCheckKeepsWellFormed | epan/dissectors/packet-cell_broadcast.c:359-362 | every stored page stays exactly one 88-octet slot |
| CbsReassembly.MessageIsAssembledPages | epan/dissectors/packet-cell_broadcast.c:359-364 | a message appears iff the page completes its record; it is then the pages in offset order, and the record leaves the page table |
| CbsReassembly.ReplayReturnsMessage | epan/dissectors/packet-cell_broadcast.c:359-364 | revisiting any contributing frame returns the same message and changes nothing |
| CbsReassembly.DuplicatePage | epan/dissectors/packet-cell_broadcast.c:359-362 | a second page at one offset flags a conflict iff its octets differ; the stored octets are kept |
| CbsReassembly.ProcessReassembled | epan/dissectors/packet-cell_broadcast.c:363-364 | the message buffer is returned only in the frame that completed it |
| CbsReassembly.PageMap | epan/dissectors/packet-cell_broadcast.c:359-362 | the pages with distinct offsets as a map, from each page's offset to its octets |
| CbsReassembly.StoreAllIsUnion | epan/dissectors/packet-cell_broadcast.c:359-362 | storing pages with distinct, fresh offsets adds exactly their offset-to-octets map to the slots |
| CbsReassembly.DistinctOnce | epan/dissectors/packet-cell_broadcast.c:359-362 | pages with distinct offsets occur at most once each |
| CbsReassembly.ReorderedDistinct | epan/dissectors/packet-cell_broadcast.c:359-362 | any reordering of pages with distinct offsets keeps them distinct |
| CbsReassembly.SameElements | epan/dissectors/packet-cell_broadcast.c:359-362 | a reordering holds exactly the same pages |
| CbsReassembly.SamePageMap | epan/dissectors/packet-cell_broadcast.c:359-362 | two sequences of the same distinct-offset pages have the same map |
| CbsReassembly.StoreAllAnyOrder | epan/dissectors/packet-cell_broadcast.c:356-362 | any number of pages with distinct, fresh offsets are stored into the same slots in every arrival order |
| CbsReassembly.TwoPagesEitherOrder | epan/dissectors/packet-cell_broadcast.c:356-364 | a two-page message reassembles to page 1 then page 2 whichever arrives first, and is attributed to the frame that completed it |
| CbsReassembly.PageStore.constructor | epan/dissectors/packet-cell_broadcast.c:143-144 | the two tables start empty |
| CbsReassembly.PageStore.ReassemblyInit | epan/dissectors/packet-cell_broadcast.c:164-168 | gsm_cbs_message_reassembly_init empties both tables |
| CbsReassembly.PageStore.FragmentAddCheck | epan/dissectors/packet-cell_broadcast.c:359-362 | the tables become AddCheck's new store and the result is its message |
| CbsDissect.DissectGsmCellBroadcast | epan/dissectors/packet-cell_broadcast.c:307-381 | a short page fails and changes nothing; otherwise the header is parsed, the page buffer is CbsData (never NULL for 7-bit), a single page is the message, and any other page goes through the reassembly tables |
| CbsDissect.UmtsMessageAsWritten | epan/dissectors/packet-cell_broadcast.c:383-409 | the coding scheme is octet 0 and the content follows; a NULL buffer from dissect_cbs_data ends in a dissector assertion |
| CbsDissect.UmtsSevenBitNeverAsserts | epan/dissectors/packet-cell_broadcast.c:401-408 | a 7-bit message never asserts; its contents are out_len octets |
| CbsDissect.UmtsUnhandledEncodingAsserts | epan/dissectors/packet-cell_broadcast.c:401-405 | an unhandled encoding makes the as-written UMTS dissector assert |
| CbsDissect.UmtsMessage | epan/dissectors/packet-cell_broadcast.c:383-409 | with the NULL buffer checked, the only failure is a missing coding-scheme octet |
| CbsDissect.UmtsMessageRefinesAsWritten | epan/dissectors/packet-cell_broadcast.c:401-408 | the checked dissector agrees wherever the original succeeds, and reports the reason where the original asserts |
| CbsDissect.DissectUmtsCellBroadcast | epan/dissectors/packet-cell_broadcast.c:383-409 | the result is UmtsMessage, which is the original's contents wherever the original does not assert, and fails exactly when the original reports truncation; msgbuf changes as Scratched says |
| Octets.NtohsRoundTrip | epan/dissectors/packet-cell_broadcast.c:172 | a big-endian word read back from its two octets is the word, and the octets are determined by it |
| Octets.ToU64 | ui/cli/tap-iostat.c:1292 | conversion to guint64 keeps values in range and is congruent modulo 2^64 |
| Octets.AddU64 | ui/cli/tap-iostat.c:153 | addition on guint64 is exact without overflow |
| Octets.AsInt32 | ui/cli/tap-iostat.c:239 | the `(gint32)` cast gives a 32-bit value congruent modulo 2^32 |
| Octets.AsInt64 | ui/cli/tap-iostat.c:245 | the `(gint64)` cast gives a 64-bit value congruent modulo 2^64 |
| Octets.Int32ThroughU64 | ui/cli/tap-iostat.c:238-239 | a gint32 stored in the guint64 `val` and cast back is unchanged |
| Octets.Int64ThroughU64 | ui/cli/tap-iostat.c:244-245 | a gint64 stored in the guint64 `val` and cast back is unchanged |
| Fmtp.HeuristicIsConjunction | epan/dissectors/packet-fmtp.c:136-155 | on a full header the heuristic accepts iff version 2, reserved 0, length ≤ 10245 and type 1..4; each failed check rejects |
| Fmtp.HeuristicReadsHeaderOnly | epan/dissectors/packet-fmtp.c:143-150 | only the first five octets decide |
| Fmtp.WrongVersionRejectsEarly | epan/dissectors/packet-fmtp.c:143 | a first octet other than 2 rejects, however short the segment |
| Fmtp.GetFmtpMessageLen | epan/dissectors/packet-fmtp.c:130-134 | the length is the big-endian word at offset + 2, unchanged |
| Fmtp.HeaderRoundTrip | epan/dissectors/packet-fmtp.c:131-150 | the length written into a header is read back; a version-2 header is claimed iff its length and type are in range |
| Fmtp.Hex | epan/dissectors/packet-fmtp.c:93 | hexadecimal digits, at most two for a byte |
| Fmtp.Hex02 | epan/dissectors/packet-fmtp.c:93 | `%02x` gives at least two digits, and exactly two for a byte |
| Fmtp.HexRoundTrip | epan/dissectors/packet-fmtp.c:93 | the digits read back give the value |
| Fmtp.Hex02RoundTrip | epan/dissectors/packet-fmtp.c:93 | the zero-padded digits read back give the value |
| Fmtp.UnknownNameInjective | epan/dissectors/packet-fmtp.c:93 | different values never share a fallback "Unknown (0x..)" text |
| Fmtp.TypeNamesDistinct | epan/dissectors/packet-fmtp.c:59-65 | types 1..4 have their own names, every other type gets "Unknown", and different types get different names |
| Fmtp.SystemNamesDistinct | epan/dissectors/packet-fmtp.c:67-72 | only 0x3030, 0x3031 and 0x3033 have names, and different values get different names |
| Fmtp.PayloadText | epan/dissectors/packet-fmtp.c:97-107 | the shown text is the packet_len - 5 octets from offset 5 |
| Fmtp.CString | epan/dissectors/packet-fmtp.c:99 | `%s` shows the prefix before the first NUL |
| Fmtp.InfoColumn | epan/dissectors/packet-fmtp.c:95-117 | the Info column raises only for a System PDU without a system-message word |
| Fmtp.ItemText | epan/dissectors/packet-fmtp.c:90-107 | the protocol item starts with ", " and the type name, and goes on with the payload text exactly for Identification and System PDUs |
| Fmtp.ItemTextMatchesInfo | epan/dissectors/packet-fmtp.c:90-109 | the item text is ", " and the Info column for every PDU but System; a System item shows its payload as an Identification PDU's Info column would, and never raises |
| Fmtp.IdentificationItemText | epan/dissectors/packet-fmtp.c:90-101 | an Identification PDU's item text is ", " followed by its Info column |
| Fmtp.SystemItemText | epan/dissectors/packet-fmtp.c:90-109 | a System PDU's item text ends as the Info column of the same PDU typed Identification would |
| Fmtp.PayloadShownUpToNul | epan/dissectors/packet-fmtp.c:97-107 | the payload shown is the octets from offset 5 up to the first NUL, never past the length field |
| IostatArgs.TrailingZerosMeaning | ui/cli/tap-iostat.c:1295-1300 | the value ends in that many decimal zeros, and in no more unless the cap is reached |
| IostatArgs.PrecisionMeaning | ui/cli/tap-iostat.c:1293-1300 | the interval is a multiple of 10^(6-p), and for p > 0 not of 10^(7-p) |
| IostatArgs.PrecisionUnique | ui/cli/tap-iostat.c:1295-1300 | those two facts determine the precision |
| IostatArgs.IntervalPrecision | ui/cli/tap-iostat.c:1295-1300 | the precision loop returns Precision: at most 6, and exact in the sense above |
| IostatArgs.IntervalAsWritten | ui/cli/tap-iostat.c:1287-1306 | 0 gives G_MAXINT32 with precision 0; other values are accepted iff their guint64 conversion is ≥ 1 |
| IostatArgs.NegativeIntervalAccepted | ui/cli/tap-iostat.c:1292-1306 | an interval of -1 s, rounded by truncation to -999999 µs, is accepted as 2^64 - 999999 microseconds |
| IostatArgs.Interval | ui/cli/tap-iostat.c:1287-1306 | with the intended check, an interval is accepted iff it is ≥ 1 µs; it is then kept with its precision |
| IostatArgs.IntervalFixAgrees | ui/cli/tap-iostat.c:1292-1306 | the intended check agrees with the original except on negative intervals, which only it refuses |
| IostatArgs.IndexOf | ui/cli/tap-iostat.c:1316 | strchr finds the character at or after the start |
| IostatArgs.IndexOfNoEarlier | ui/cli/tap-iostat.c:1316 | strchr finds the first occurrence, and finds nothing only when there is none |
| IostatArgs.CommaStep | ui/cli/tap-iostat.c:1316-1319 | one strchr round consumes one piece and one comma |
| IostatArgs.CountColumns | ui/cli/tap-iostat.c:1309-1323 | num_cols is 1, plus the number of commas when the filter text is not empty |
| IostatArgs.CountCommasLoop | ui/cli/tap-iostat.c:1316-1319 | the loop counts exactly the commas |
| IostatArgs.RawPiecesRoundTrip | ui/cli/tap-iostat.c:1340-1361 | there is one piece per comma plus one; no piece holds a comma, and joining the pieces gives the text back |
| IostatArgs.LeadingSpacesRun | ui/cli/tap-iostat.c:1347 | the leading count is the longest run of white space at the front |
| IostatArgs.TrailingSpacesRun | ui/cli/tap-iostat.c:1356 | the trailing count is the longest run of white space at the back |
| IostatArgs.StripTrims | ui/cli/tap-iostat.c:1347 | g_strstrip keeps one contiguous part, drops only white space around it, and the part neither starts nor ends with white space |
| IostatArgs.FiltersArePieces | ui/cli/tap-iostat.c:1342-1361 | column i's filter is piece i: none if empty; the last piece is none if it strips to nothing; any other piece is stripped |
| IostatArgs.ColumnsMatchCount | ui/cli/tap-iostat.c:1309-1361 | the split registers exactly num_cols columns |
| IostatArgs.SplitFilters | ui/cli/tap-iostat.c:1336-1362 | no filter text, or an empty one, gives the single NULL column; otherwise the result is the split loop's columns |
| IostatArgs.SplitText | ui/cli/tap-iostat.c:1340-1362 | the do-while loop yields the filters of the pieces, in order |
| IostatArgs.AddPiece | ui/cli/tap-iostat.c:1353-1360 | one round with a comma appends the stripped piece, or NULL when it is empty, and moves past the comma |
| IostatArgs.AddLastPiece | ui/cli/tap-iostat.c:1346-1352 | the last round appends the stripped rest, or NULL when nothing remains |
| IostatArgs.SplitIsFilters | ui/cli/tap-iostat.c:1342-1361 | running the loop from any state appends the remaining pieces' filters |
| IostatArgs.SplitNext | ui/cli/tap-iostat.c:1353-1360 | a round with a comma, in the loop and in the reference definition |
| IostatArgs.SplitLast | ui/cli/tap-iostat.c:1346-1352 | the final round without a comma |
| IostatArgs.ScanTable | ui/cli/tap-iostat.c:1134-1186 | a scan that succeeds stops at a table entry, or found no field |
| IostatArgs.ParseColumn | ui/cli/tap-iostat.c:1109-1256 | register_io_tap is the table loop followed by the type check (RegisterIoTap) |
| IostatArgs.ScanLoop | ui/cli/tap-iostat.c:1134-1186 | the loop over calc_type_table equals ScanTable from entry 0 with FRAMES BYTES and the whole filter |
| IostatArgs.PassEntry | ui/cli/tap-iostat.c:1136-1185 | an entry not called as `name(` moves the scan to the next entry as ScanTable does |
| IostatArgs.EndScan | ui/cli/tap-iostat.c:1139-1186 | the loop's exit, at a call or at the end of the table, gives ScanTable's result |
| IostatArgs.CallScan | ui/cli/tap-iostat.c:1139-1180 | `NAME(field)rest` stops the scan at its own entry: a field is refused, missing or unknown as the entry demands, and rest becomes the filter |
| IostatArgs.RawPiecesStep | ui/cli/tap-iostat.c:1353-1360 | one comma more keeps the piece count, the joined text and the comma-free pieces in step |
| IostatArgs.ScanCall | ui/cli/tap-iostat.c:1139-1180 | the `name(` branch gives the same result as the scan from that entry, whatever the state so far |
| IostatArgs.DefaultIsFramesAndBytes | ui/cli/tap-iostat.c:1124-1134 | a NULL filter gives a FRAMES BYTES column with no field and no filter |
| IostatArgs.FieldTypeRules | ui/cli/tap-iostat.c:1187-1256 | integers allow every statistic; float/double only SUM, COUNT, MAX, MIN, AVG; relative time also LOAD; any other type only COUNT |
| IostatArgs.TableNames | ui/cli/tap-iostat.c:55-66 | no table name holds '('; only FRAMES and FRAMES BYTES, and MIN and MAX, share a first letter, and they are told apart |
| IostatArgs.CallPrefixes | ui/cli/tap-iostat.c:1134-1139 | an earlier entry is never called by a later entry's `name(` |
| IostatArgs.ScanReachesCall | ui/cli/tap-iostat.c:1134-1186 | a filter `name(...` reaches its own entry with the scan still going, and gives the scan from that entry whatever the statistic and filter gathered so far |
| IostatArgs.ScanPasses | ui/cli/tap-iostat.c:1136-1185 | an entry not called passes on the statistic (set by a matching name) and the filter (emptied for FRAMES/BYTES) |
| IostatArgs.CallSyntax | ui/cli/tap-iostat.c:1139-1180 | `NAME(field)rest`: FRAMES/BYTES refuse a field; other statistics need a registered field of a supported type; rest becomes the filter |
| IostatArgs.IndexOfFirst | ui/cli/tap-iostat.c:1141 | strchr returns the first ')' |
| IostatArgs.CallText | ui/cli/tap-iostat.c:1139-1167 | the field is the text up to the first ')', and what follows is the rest |
| IostatArgs.MissingParenRefused | ui/cli/tap-iostat.c:1141-1146 | `NAME(` with no ')' after it is refused |
| IostatArgs.RegisterAll | ui/cli/tap-iostat.c:1336-1361 | the columns are registered in order; the first refused column ends registration, and all columns before it were accepted |
| IostatArgs.RegisterEach | ui/cli/tap-iostat.c:1336-1361 | one register_io_tap outcome per column filter |
| IostatArgs.IostatInit | ui/cli/tap-iostat.c:1270-1363 | on success the interval and precision are those Interval gives for the argument (so ≥ 1 and ≤ 6), and there are num_cols columns, column i being register_io_tap of filter i; it fails with the interval error exactly when the interval is refused; with a good interval it succeeds iff every column is accepted, and otherwise names the first refused column, all before it accepted |
| IostatDraw.Digits | ui/cli/tap-iostat.c:496-507 | every value has at least one digit |
| IostatDraw.DigitsMeaning | ui/cli/tap-iostat.c:496-507 | 10^(d-1) ≤ v < 10^d for a positive v with d digits |
| IostatDraw.DigitsUnique | ui/cli/tap-iostat.c:496-507 | a digit count that brackets v between powers of ten is Digits(v) |
| IostatDraw.Magnitude | ui/cli/tap-iostat.c:496-507 | for max_w ≥ 1 the result is min(max_w, digits of val), in 1..max_w; otherwise 0 |
| IostatDraw.RowCount | ui/cli/tap-iostat.c:934 | num_rows is the whole intervals plus one for a remainder ≥ 0.5 s; the rows cover the capture to within half a second |
| IostatDraw.WholeCaptureOneRow | ui/cli/tap-iostat.c:934 | an interval as long as the capture gives one row |
| IostatTap.Widen | ui/cli/tap-iostat.c:164-205 | one guint64 word per field value |
| IostatTap.SignedOrderIsValueOrder | ui/cli/tap-iostat.c:234-245 | for signed fields the `(gint32)`/`(gint64)` comparison is the values' own order |
| IostatTap.WidenedIsValue | ui/cli/tap-iostat.c:166-197 | the word added is the value modulo 2^64, and a relative time counts as seconds * 10^9 + nanoseconds |
| IostatTap.SumCounter | ui/cli/tap-iostat.c:161-208 | the SUM counter is the old counter plus the sum of the values, modulo 2^64 |
| IostatTap.MinFoldIsMinimum | ui/cli/tap-iostat.c:209-278 | MIN is ≤ every value in the field's order, ≤ the old counter unless the bucket starts now, and is one of them |
| IostatTap.MaxFoldIsMaximum | ui/cli/tap-iostat.c:279-341 | MAX is ≥ every value and ≥ the old counter, and is one of them |
| IostatTap.MinStaysAtZero | ui/cli/tap-iostat.c:219-227 | an unsigned MIN counter that was not replaced at the bucket's first value stays 0 |
| IostatTap.SumValues | ui/cli/tap-iostat.c:166-206 | the SUM loop computes Summed |
| IostatTap.MinValues | ui/cli/tap-iostat.c:217-276 | the MIN loop computes MinFold |
| IostatTap.MaxValues | ui/cli/tap-iostat.c:287-339 | the MAX loop computes MaxFold |
| IostatTap.AddToCounter | ui/cli/tap-iostat.c:153 | adding to one bucket's counter keeps the list's length |
| IostatTap.Spread | ui/cli/tap-iostat.c:411-420 | the backward walk changes counters only |
| IostatTap.LoadOne | ui/cli/tap-iostat.c:406-420 | one LOAD value changes counters only |
| IostatTap.SplitLoad | ui/cli/tap-iostat.c:408-420 | `tival` to the frame's bucket and the rest spread backwards changes counters only |
| IostatTap.Loaded | ui/cli/tap-iostat.c:401-421 | the LOAD values change counters only |
| IostatTap.SpreadConserves | ui/cli/tap-iostat.c:411-420 | the walk hands out exactly its value, modulo 2^64 |
| IostatTap.SplitLoadConserves | ui/cli/tap-iostat.c:406-420 | the bucket's part and the spread part add up to the value, modulo 2^64 |
| IostatTap.LoadOneConserves | ui/cli/tap-iostat.c:406-420 | one LOAD value adds exactly itself to the column's total, modulo 2^64 |
| IostatTap.LoadConserves | ui/cli/tap-iostat.c:392-423 | LOAD adds exactly the sum of the frame's values to the column's total, modulo 2^64 |
| IostatTap.SpreadLoad | ui/cli/tap-iostat.c:411-420 | the backward-walk loop computes Spread |
| IostatTap.LoadValues | ui/cli/tap-iostat.c:401-421 | the LOAD loop computes Loaded |
| IostatTap.LoadValue | ui/cli/tap-iostat.c:406-420 | one LOAD value computes LoadOne: `tival` to the frame's bucket and the rest spread backwards |
| IostatTap.LoadStep | ui/cli/tap-iostat.c:401-421 | each further LOAD value keeps the column's total equal to the old total plus the values' sum, modulo 2^64 |
| IostatTap.Tick | ui/cli/tap-iostat.c:147 | counting the frame keeps the list's length |
| IostatTap.RegisteredIsTapped | ui/cli/tap-iostat.c:1134-1256 | every column register_io_tap accepts that counts frames or bytes or names a field meets what iostat_packet needs (Tapped) |
| IostatTap.BareNameNotTapped | ui/cli/tap-iostat.c:1134-1186 | the filter `COUNT` is accepted as a COUNT column with no field and itself as filter, which is not Tapped |
| IostatTap.TickLaid | ui/cli/tap-iostat.c:147 | only the last bucket's frame count goes up, by one, wrapping on guint32 |
| IostatTap.Tally | ui/cli/tap-iostat.c:149-424 | frame counts and bucket starts are kept; only counters change (AVG also its sample size); the only error is LOAD on a field that is not a relative time |
| IostatTap.CountingAdds | ui/cli/tap-iostat.c:150-160 | FRAMES, BYTES and FRAMES BYTES add pkt_len to the frame's bucket, COUNT the number of occurrences; other buckets are unchanged |
| IostatTap.Quotient | ui/cli/tap-iostat.c:484-489 | guint64 division: q * d ≤ a < (q + 1) * d |
| IostatTap.MaxUpdate | ui/cli/tap-iostat.c:431-492 | max_vals and max_frame never decrease, reach the shown value, and max_frame changes only for FRAMES and FRAMES BYTES |
| IostatTap.Grown | ui/cli/tap-iostat.c:127-144 | the old buckets are kept and the last bucket covers the frame's time |
| IostatTap.GrownLands | ui/cli/tap-iostat.c:127-144 | bucket k starts at k * interval, the frame lands in bucket rt / interval, and every new bucket is empty |
| IostatTap.ArrivalTime | ui/cli/tap-iostat.c:110 | relative_time is the rounded microseconds since the first frame, unchanged when it is non-negative and fits a guint64 |
| IostatTap.EarlyFrameGrowsForever | ui/cli/tap-iostat.c:110-128 | a frame 1.5 µs before the first gets relative_time 2^64 - 1, passes the test for frames in the past, and meets the growth test for every bucket start |
| IostatTap.StepChecked | ui/cli/tap-iostat.c:110-147 | with the past test on the signed time, a frame before the first frame changes nothing; a frame whose bucket fits a guint64 is handled by Step |
| IostatTap.StepCheckedLands | ui/cli/tap-iostat.c:115-147 | with the check, a frame is ignored exactly when it lies before the first frame, past the guint64 range or before the last bucket; any other lands in bucket rt / interval with the layout kept |
| IostatTap.StepLands | ui/cli/tap-iostat.c:115-147 | a frame before the last bucket is ignored and changes nothing; any other lands in bucket rt / interval, keeps the layout, never lowers the maxima, and adds one to its bucket's frame count |
| IostatTap.OnlyOwnBucketCounts | ui/cli/tap-iostat.c:146-147 | every other bucket keeps its frame count |
| IostatTap.IoStat.constructor | ui/cli/tap-iostat.c:1283-1333 | one main bucket at time 0 per column; start time and maxima are zero |
| IostatTap.IoStat.Packet | ui/cli/tap-iostat.c:96-494 | the column's buckets and maxima become StepChecked's, so a frame before the first frame is ignored; the start time is set while it is still zero; other columns are unchanged |
| IostatTap.GrowBuckets | ui/cli/tap-iostat.c:127-144 | the growth loop computes Grown |
| IostatTap.Accumulate | ui/cli/tap-iostat.c:149-424 | the switch on the statistic computes Tally |
| IostatTap.StepColumn | ui/cli/tap-iostat.c:115-492 | the per-column update computes Step |

## Left out

- epan/reassemble.c is not part of this model. CbsReassembly.AddCheck assumes its completion rule: a message is complete once the final page is known and every 88-octet slot up to it is filled. Its conflict and multiple-tail flags follow only the call's arguments.
- The 7-bit unpacker, the GSM to UTF-8 converter, iconv and the data-coding-scheme decoder are parameters. When the UTF-8 text is shorter than out_len, the 7-bit buffer reads on past it into memory the model does not see; those octets are a parameter too (`pastText`). DissectGsmCellBroadcast and DissectUmtsCellBroadcast assume the unpacker writes at most the 1024 octets it is given.
- The FMTP Info column and protocol-item text are modelled as formatted strings (`InfoColumn`, `ItemText`). Their display is left out: inserting items into the protocol tree, and the length limits of the column and item buffers. So are the Cell Broadcast tree items, field registration, `tcp_dissect_pdus` and `call_dissector`; they display values and decide nothing the model covers.
- Floating-point statistics are left out: the float and double counters and their rounding into max_vals (`Shown` gives none for them). So are `interval_float * 1000000.0 + 0.5` and `sscanf`. The interval is taken as the rounded microseconds.
- `exit(10)` and `exit(1)` are modelled as error results. The registration failure of `register_tap_listener` (exit 1) is left out, because the tap layer is not part of this model.
- The printing in iostat_draw is left out, apart from `magnitude` and the row count.
- The `fvalue_get_*` accessors and `proto_get_finfo_ptr_array` are left out. A frame's field occurrences are given as a sequence of values.
- The linked list of `io_stat_item_t` is a sequence per column, with `prev` as the index before. Aliasing between items is not modelled.
- IostatTap.IoStat.Packet: follows the corrected StepChecked (see Findings). It also ignores a frame whose time plus the interval does not fit a guint64, about 584542 years into a capture, where the original's bucket starts would wrap; that wrap-around is not modelled.
- IostatTap.IoStat.Packet: requires the column to be `Tapped`. register_io_tap leaves that for every column it accepts that counts frames or bytes or names a field (RegisteredIsTapped). A bare table name such as `COUNT`, `SUM` or `LOAD` without parentheses is also accepted, with no field and the name itself as the filter (BareNameNotTapped). If `register_tap_listener` accepts that text as a display filter (not modelled), iostat_packet reads the column's unset `hf_index`, which is not modelled either, and neither are the unreachable `g_assert_not_reached` branches.
- IostatTap.Step: requires that the frame's time plus the interval fits a guint64 (StepChecked and Packet do not) and that the column is `Tapped`, as Packet does.
- IostatDraw.RowCount: requires that the quotient fits a C int and that the remainder plus half a second fits a guint64. Outside that range the casts wrap and the count is not described.
- CbsReassembly.AddCheck: assumes that a page shorter than the 88-octet fragment length is refused and changes nothing; in the original the copy of `length` octets out of the shorter buffer raises a bounds exception inside epan/reassemble.c, which is not part of this model. As a consequence the 8-bit and UCS-2 page buffers, 82 octets each, never reassemble in the model; only 7-bit pages of 88 octets or more do.
- CbsReassembly.StoreAllAnyOrder: arrival-order independence is proved for any number of pages at the level of stored slots; over the whole AddCheck sequence (completion and the message table) it is proved only for two pages (TwoPagesEitherOrder).
- CbsDissect.DissectUmtsCellBroadcast: computes the corrected UMTS result (UmtsMessage), not the as-written one. It agrees with UmtsMessageAsWritten wherever the original does not assert, and reports the reason where it asserts; see Findings.
- IostatArgs.IostatInit: uses the corrected interval check (Interval) rather than the original (IntervalAsWritten); see Findings.

## Findings

| source | as written | input that shows it | evidently intended | confidence | as-written member | corrected member |
|---|---|---|---|---|---|---|
| epan/dissectors/packet-cell_broadcast.c:177 | the appended "Message Code" is `(serial_number & 0x3FF) >> 4`, its low six bits only | serial number 0x0400: the field shows message code 64, the appended text shows 0 | the field's own mask, `(serial_number & 0x3FF0) >> 4` | not executed; high | CbsFields.AppendedMessageCodeAsWritten, CbsFields.AppendedCodeDisagrees | CbsFields.AppendedMessageCode |
| ui/cli/tap-iostat.c:1292-1306 | the rounded interval is stored in a guint64 before the `< 1` check, so a negative interval wraps and passes | `-z io,stat,-1`: the interval rounds to -999999 µs, becomes 2^64 - 999999 µs and is accepted | reject any interval below one microsecond | not executed; medium | IostatArgs.IntervalAsWritten, IostatArgs.NegativeIntervalAccepted | IostatArgs.Interval |
| ui/cli/tap-iostat.c:110-128 | relative_time is cast to guint64 before the test for frames in the past, and the growth loop adds the interval on guint64 | a frame 1.5 µs before the first frame (rel_ts 0 s, -1500 ns): relative_time is 2^64 - 1, which is not below any bucket start and is at least every guint64 `it->time + interval`, so the loop appends buckets without end | ignore every frame before the first frame, as the comment at :118 says | not executed; medium | IostatTap.GrowTestAsWritten, IostatTap.EarlyFrameGrowsForever | IostatTap.StepChecked, IostatTap.StepCheckedLands |
| epan/dissectors/packet-cell_broadcast.c:403-408 | `tvb_length` is taken of the buffer from dissect_cbs_data with no NULL check | a UMTS message whose coding scheme is unhandled: the buffer is NULL and the dissector asserts | show the contents only when there is a buffer | not executed; medium | CbsDissect.UmtsMessageAsWritten, CbsDissect.UmtsUnhandledEncodingAsserts | CbsDissect.UmtsMessage |
