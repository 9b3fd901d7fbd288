# Verified model of coolth's protocol stack

coolth talks to Midea air conditioners, over the local network or through the maker's cloud. These Dafny
files model the parts where hand-written byte handling must agree with a simple specification:

| files | what they model |
|---|---|
| `ByteStrings`, `Numerals` | bytes, searching, hex digits, numerals, exclusive or |
| `CrcTable`, `Checksum`, `Frame` | the 0xAA frame, its table-driven CRC and its checksum |
| `Cipher`, `Layers`, `Wire` | block modes, padding and hex; the 0x5A5A packet and the 0x8370 envelope; everything sent, read by offsets |
| `Lan`, `LanTransport`, `LanTheory`, `LanWrites`, `LanRuns`, `LanExchange` | the V2/V3 LAN transport: its steps as functions, the class, and what holds over whole runs |
| `Json`, `JsonScanner`, `JsonTheory`, `JsonStrings`, `JsonEndless` | the JSON scanner: specification, loops, theorems on the text of trees, the spellings of strings, and when the listing never ends |
| `Http`, `HttpReader`, `HttpTheory`, `HttpHeads` | the buffered HTTP response reader: specification, class, and theorems on well-formed responses and heads in any spelling |
| `Form`, `RelayText`, `Relay`, `RelayTheory`, `RelayOutcomes` | the cloud relay: form encoding, decimal text, packets, recovery of the initialisation vector, sending, and what every response comes to |
| `Tlv`, `Properties`, `Capabilities`, `CapabilityTables`, `Commercial` | the walks over tagged entries and the values in them |
| `State` | reading, changing and writing back the state of an air conditioner |

Code that works step by step is imperative here too: classes for the transports and the reader, methods with
loops for the scanners, parsers and builders. Each is proved equal to a function, and the theorems are about
those functions.

How the source is rendered:

- AES, MD5 and SHA-256 are any functions of the right output length (`Cipher.Primitives`); the one law used is
  that AES decryption undoes encryption under keys of 16, 24 or 32 bytes.
- The LAN peer is an arbitrary list of deliveries, one arriving before each read, and an arbitrary list of
  accepted and refused writes. A read fills all it was asked for or fails; on a lossy connection a failing read
  has thrown away what had come (`cli/net.cpp:123-134`), on others it takes nothing.
- The HTTP peer is an arbitrary infinite sequence of fragments of 1 to 4096 bytes, closings and failures. The
  bounds and termination hold for all. Contents are promised for any peer as far as the first reads, within
  8 MiB, settle them: a complete response in them is read the same whatever comes behind it.
- The relay's server is any function from path and body to a response or none.
- A `std::map` is the list of its items in key order, or a map where only look-ups matter.
- Indices and sizes are unbounded; every field that is cut to 8, 16 or 32 bits on the wire is cut here. The
  packet id wraps at 65536 and the relay's sequence number at 2^32. `strtoul` is that of a 64-bit
  `unsigned long`; `atoi` works on unbounded integers, since its overflow is undefined.
- An error message is a constructor of a datatype; output that a failing call leaves alone is a result that is
  no value.
- JSON texts are those of trees printed with any blanks between tokens. The keys looked for are any that can
  stand between the quotes of a string and do not begin like what comes behind one.
- `find_array_objects` loops for ever on an array such as `[}]`. The model returns what was found and says
  that the listing is endless.
- A struct of capabilities is the map of the fields it was given, the rest having their initial values.

Results that differ from what one might expect of the code:

- A name that ends in an escaped quote and the key looked for is mistaken for that key
  (`JsonTheory.EscapedQuoteMisleads`), and only such a name is (`JsonTheory.SearchIsMisledWhen`).
- `find_array_objects` does not return when the array has a stray closing brace, and only then
  (`JsonEndless.ListingIsEndless`).
- A read leaves the envelope boundary exactly when the next message comes in part
  (`LanTheory.ReadEndsOnBoundaryWhen`, with an instance in `LanTheory.CutOffLeavesBoundary`), and a run stays on
  boundaries exactly when none of its reads meets that (`LanRuns.RunStaysOnBoundariesWhen`).
- A key that begins with a blank, a comma, a colon or a closing bracket can be found between two strings
  (`JsonTheory.DelimiterMisleads`). All keys the client looks for are identifiers.
- The two halves of a surrogate pair are read as two codes of three bytes each, not as one of four
  (`JsonStrings.CodePointIsRead`).
- Of IECO's two layouts the byte of a request that a response keeps its switch in is always one, so only the
  value one survives; the buzzer never does (`Properties.PropertyRoundTrip`).
- A frame of 114 bytes cannot be found in the relay's own packet form (`RelayText.LengthByteMisleads`): any
  0xAA in the packet's header, and nothing else, leads the search astray (`RelayText.RelayPacketIsFound`).
- A temperature entry of exactly six bytes always claims decimals, and one of fewer says nothing
  (`Capabilities.SixLimitsClaimDecimals`).
- A state that is read keeps whatever freeze protection was known before, for responses do not carry it
  (`State.FreezeProtectionIsKept`).

## Model

| member | source | states |
|---|---|---|
| JsonTheory.TreeSkips | components/coolth/json_lite.cpp:28-45 | A printed value of any kind, with any blanks between its tokens, leaves the bracket count as it was, although only one kind of bracket is counted. |
| JsonTheory.ValueEnds | components/coolth/json_lite.cpp:11-52 | On the text of any tree, blanks and all, followed by a delimiter behind any blanks or by nothing, the scanner stops exactly at the end of that value (a bare literal takes the blanks behind it along). |
| JsonTheory.KeyInTree | components/coolth/json_lite.cpp:114-125 | The first match the key search accepts is the first field, in document order, that answers to the key, and it lands on that field's value; no match means no such field. |
| JsonTheory.FindValueInTree | components/coolth/json_lite.cpp:129-148 | `find_value` on a tree's text reports that field's value, unescaped if it is a string, and nothing exactly when no field answers. |
| JsonTheory.FindObjectInTree | components/coolth/json_lite.cpp:150-164 | `find_object` reports exactly the printed sub-object, and nothing if the field holds something else. |
| JsonTheory.FindArrayInTree | components/coolth/json_lite.cpp:166-194 | `find_array_objects` reports exactly the printed elements, a bare literal with the blanks behind it, and ends. |
| JsonEndless.ListingIsEndless | components/coolth/json_lite.cpp:166-194 | For every text and key the element loop never ends exactly when the array found under the key has a closing brace at its own level, outside strings and nested groups and before its end. |
| JsonEndless.StrayBraceLoops | components/coolth/json_lite.cpp:182-192 | One such text: `"k":[}]`. |
| JsonTheory.FindNamedValue | components/coolth/json_lite.cpp:114-148 | When no key holds a quote, the field reported is the first one of that very name, at any depth. |
| JsonTheory.SearchIsMisledWhen | components/coolth/json_lite.cpp:114-125 | On every tree the search lands on a field of that very name exactly when there is one and no field before the first such has a name ending in an escaped quote and the key. |
| JsonTheory.EscapedQuoteMisleads | components/coolth/json_lite.cpp:114-125 | A concrete text with an escaped quote in a name, in which a field is reported that is not there. |
| JsonTheory.DelimiterMisleads | components/coolth/json_lite.cpp:114-125 | A concrete text in which a key that begins like what comes behind a string is found between two strings. |
| JsonTheory.FlatObjectRoundTrip | components/coolth/cloud.cpp:219-236 | For every flat object of arbitrary names and values, looking a name up as it is written gives back the original value, unless an earlier name is the same or ends in a quote and that name. |
| Json.EscapeIsUndone | components/coolth/json_lite.cpp:54-111 | Unescaping undoes the client's escaping for every byte string, and the escaped text has no bare quote. |
| JsonScanner.SkipValue | components/coolth/json_lite.cpp:11-52 | The index loops stop where the specification on suffixes says, and fail exactly when it does. |
| JsonScanner.SkipString | components/coolth/json_lite.cpp:16-26 | The string loop finds the first unescaped quote. |
| JsonScanner.SkipBrackets | components/coolth/json_lite.cpp:28-45 | The bracket loop returns to depth zero where the specification does. |
| JsonScanner.UnescapeString | components/coolth/json_lite.cpp:54-111 | The unescaping loop computes the specified text, short and invalid \u escapes included. |
| JsonScanner.FindKey | components/coolth/json_lite.cpp:114-125 | The search returns the position behind the colon of the first accepted match, or none. |
| JsonScanner.FindValueIn | components/coolth/json_lite.cpp:129-148 | `find_value` refines its specification. |
| JsonScanner.FindObjectIn | components/coolth/json_lite.cpp:150-164 | `find_object` refines its specification. |
| JsonScanner.FindArrayObjectsIn | components/coolth/json_lite.cpp:166-194 | `find_array_objects` refines its specification; the endless case is reported instead of looped in. |
| JsonScanner.EscapeString | components/coolth/cloud.cpp:219-232 | The escaping loop computes the specified text. |
| Checksum.Crc8 | components/coolth/protocol.cpp:278-283 | The table loop computes the bitwise register. |
| CrcTable.TableIsEightSteps | components/coolth/protocol.cpp:233-255 | Each of the 256 table entries is eight steps of the reflected polynomial. |
| Checksum.CrcIsRemainder | components/coolth/protocol.cpp:278-283 | The checksum is the remainder of long division of the message by x^8+x^5+x^4+1. |
| Checksum.CrcIsLinear | components/coolth/protocol.cpp:278-283 | If a message is byte by byte the exclusive or of two others, its checksum is the exclusive or of theirs. |
| Checksum.ResidueIsZero | components/coolth/protocol.cpp:278-283 | A message and one more byte check to zero exactly when that byte is the checksum. |
| Checksum.BurstDetected | components/coolth/protocol.cpp:278-283 | Any change confined to eight consecutive bits, wherever they fall, changes the checksum. |
| Frame.FrameChecksum | components/coolth/protocol.cpp:226-230 | The 32-bit loop computes the two's complement of the sum, cut to a byte. |
| Frame.BuildCommand | components/coolth/protocol.cpp:257-274 | The frame built in steps is header, payload, message id, CRC and checksum. |
| Frame.FrameSumsToZero | components/coolth/protocol.cpp:257-267 | From its second byte on, every frame sums to zero modulo 256. |
| Frame.FrameDelimitsItself | components/coolth/protocol.cpp:257-267 | A frame is as long as its length byte says exactly when the payload is at most 245 bytes. |
| Frame.CommandHasZeroResidue | components/coolth/protocol.cpp:270-274 | The body of every command checks to CRC zero and begins with the payload. |
| Wire.CommandIsLaid | components/coolth/protocol.cpp:257-274 | By offsets: size at 1, device at 2, frame type at 9, then payload, message id and CRC, zeros between. |
| Wire.SetStateIsAddressed | components/coolth/protocol.cpp:299-348 | A state request is a control frame of kind 0x40 to an air conditioner. |
| Wire.SetPropertiesIsAddressed | components/coolth/properties.cpp:137-148 | A property request is a control frame of kind 0xB0 with its count and its entries one behind the other. |
| Wire.ControlIsAddressed | components/coolth/device_cc.cpp:57-70 | A control request is a control frame to a commercial unit. |
| Cipher.CbcInverts | components/coolth/protocol.cpp:63-119 | CBC decryption undoes encryption over any number of blocks. |
| Cipher.CbcUnderOtherIv | components/coolth/protocol.cpp:91-119 | Decrypting under another vector changes the first block only, by the difference of the vectors. |
| Cipher.UnpadUndoesPad | components/coolth/protocol.cpp:135-150 | Unpadding undoes padding, block-aligned data included. |
| Cipher.UnpadWhen | components/coolth/protocol.cpp:142-150 | Unpadding gives a text exactly if the last byte is the number of bytes taken off, from one to sixteen. |
| Cipher.EcbPaddedInverts | components/coolth/protocol.cpp:152-188 | Padded ECB decrypts to what was encrypted. |
| Cipher.AesEcbEncryptPadded | components/coolth/protocol.cpp:152-168 | The block loop computes ECB of the padded data. |
| Cipher.AesEcbDecryptUnpadded | components/coolth/protocol.cpp:170-188 | The block loop and the padding check compute the specified result, empty for failure. |
| Cipher.HexRoundTrip | components/coolth/protocol.cpp:190-216 | Reading hex undoes writing it. |
| Cipher.FromHexText | components/coolth/protocol.cpp:190-205 | The pair loop gives nothing at all when any pair is no hex, and ignores a lone last digit. |
| Cipher.HexPairsRead | components/coolth/protocol.cpp:190-205 | Text is read exactly if every whole pair is hex, pair by pair, the high digit first. |
| Cipher.HexIsLowerCase | components/coolth/protocol.cpp:207-216 | Hex is written in lower case. |
| Layers.BuildPacket | components/coolth/protocol.cpp:449-474 | The packet built in steps is the specified one. |
| Wire.PacketIsLaid | components/coolth/protocol.cpp:449-474 | By offsets: size at 4, timestamp at 12, device id at 20 modulo 2^64, low byte first, the frame under the key's digest from 40, and the digest of all before it and the key at the end. |
| Layers.PacketDeclaresItsSize | components/coolth/protocol.cpp:449-474 | A packet declares its own size exactly when the frame is at most 65471 bytes. |
| Layers.PacketRoundTrip | components/coolth/protocol.cpp:449-495 | Decoding a packet with anything behind it gives its frame, and refuses the empty frame. |
| Layers.ForgedSignatureRefused | components/coolth/protocol.cpp:476-495 | An accepted packet with any other signature is refused. |
| Wire.PacketIsAuthentic | components/coolth/protocol.cpp:476-495 | A packet that is accepted has the right start, fits its size, and carries the digest of its bytes and the key. |
| Layers.DeriveSessionKey | components/coolth/protocol.cpp:519-534 | The key loop computes the exclusive or of secret and key, or fails. |
| Layers.DerivedKeyIsChecked | components/coolth/protocol.cpp:519-534 | A key is derived exactly when sizes fit and the reply's hash is that of what it decrypts to. |
| Layers.HandshakeAgrees | components/coolth/protocol.cpp:519-534 | From an honest reply both sides get the same session key. |
| Layers.HandshakeLength | components/coolth/protocol.cpp:500-517 | A handshake is its declared length and eight bytes long exactly when the token fits sixteen bits. |
| Wire.HandshakeIsLaid | components/coolth/protocol.cpp:512-517 | By offsets: type 0, the token's size at 2, the packet id at 6, high byte first, and the token behind it. |
| Layers.EnvelopeDeclaresItsSize | components/coolth/protocol.cpp:536-561 | So is an encrypted envelope: the packet id counts for alignment but not for the length. |
| Layers.EnvelopeRoundTrip | components/coolth/protocol.cpp:536-589 | Opening an envelope gives its data exactly if it is of the response type, for every packet id, filler and key. |
| Wire.RequestIsOpened | components/coolth/protocol.cpp:536-561 | Read by an appliance on its own, every request is of type 6, decrypts to the packet id, high byte first, the data and the declared filler, and ends in the hash of header and plaintext. |
| Wire.ResponseIsAuthentic | components/coolth/protocol.cpp:563-589 | A response that is opened has the right start and type, and its last 32 bytes are the hash of header and plaintext. |
| Wire.ForgedHashRefused | components/coolth/protocol.cpp:576-583 | A response whose hash is replaced by any other is refused. |
| Layers.LayersInvert | components/coolth/protocol.cpp:449-589 | What an appliance wraps in packet and envelope the client unwraps to the same frame. |
| Transport.LanTransport.ReadEnvelope | components/coolth/lan.cpp:17-47 | The method takes the reading step of the state machine. |
| Transport.LanTransport.LogIn | components/coolth/lan.cpp:49-80 | The method takes the authentication step: new state and outcome. |
| Transport.LanTransport.TrySend | components/coolth/lan.cpp:102-165 | The method takes one attempt's step, V2 or V3. |
| Transport.LanTransport.Send | components/coolth/lan.cpp:82-100 | The method takes the step of a whole send, retries included. |
| Transport.LanTransport.UseCredentials | components/coolth/lan.cpp:7-11 | New credentials clear the session key and nothing else. |
| Transport.LanTransport.UseRetries | components/coolth/lan.h:39-43 | The retry count is at least one. |
| LanTheory.ReadTakes | components/coolth/lan.cpp:17-47 | However the peer delivers, a completed read takes exactly the one message it returns, no response takes nothing, and any other failure takes the header; a lossy connection loses what has come of a part that is not whole. |
| Wire.MessageIsRecognised | components/coolth/lan.cpp:17-47 | A message that is read begins as its protocol asks and is as long as it declares, up to 2054 bytes (V3) or 2048 (V2). |
| LanTheory.ReadStaysAligned | components/coolth/lan.cpp:17-47 | Behind whole messages a read either completes or finds nothing at all, and stays on a boundary. |
| LanTheory.ReadEndsOnBoundaryWhen | components/coolth/lan.cpp:17-47 | On a stream of whole messages, delivered in arbitrary pieces, a read ends on a boundary of the stream exactly when the next message does not come in part: nothing of it, or by the second delivery the whole, or less than a header on a connection that loses nothing. |
| LanTheory.CutsOffWhen | components/coolth/lan.cpp:17-47 | That is exactly when the read gives up on a message of which it has taken something. |
| LanTheory.CutOffLeavesBoundary | components/coolth/lan.cpp:33-47 | One such read, off every boundary: an envelope delivered as six, two and two bytes. |
| LanRuns.RunStaysFramed | components/coolth/lan.cpp:17-165 | Over any stream of whole messages in arbitrary deliveries, the position in the stream is on a boundary after every step of every run of logins, sends, resets and settings, successful or not, up to the first step that reads a message come in part, and that step ends off every boundary. |
| LanRuns.RunStaysOnBoundariesWhen | components/coolth/lan.cpp:17-165 | Every position of a run is a boundary of its stream exactly when no step of it reads while the next message comes in part. |
| LanRuns.WholeDeliveriesAreNotCut | components/coolth/lan.cpp:17-165 | To a peer that delivers whole messages this never happens, so its runs stay on boundaries to the end. |
| LanTheory.RetriesSucceedWhen | components/coolth/lan.cpp:88-99 | The loop succeeds exactly when an attempt within the limit does and no write failed before; state and reply are those of the first success. |
| LanTheory.SendSucceedsWhen | components/coolth/lan.cpp:82-100 | The same for a whole send with authentication in place. |
| LanWrites.SendWrites | components/coolth/lan.cpp:82-165 | A send writes at most one handshake, only if it has no key, then at most `retries` commands, each under the next packet id, only the last of which can have failed; behind a handshake only if it was accepted, and under the key that the envelope read in reply gives. |
| LanWrites.LoginSucceedsWhen | components/coolth/lan.cpp:49-80 | A login succeeds exactly when its sizes are right, its write is accepted and a reply of 72 bytes carries the hash of what it decrypts to. |
| LanWrites.BarePacketsAreWritten | components/coolth/lan.cpp:82-165 | A V2 send writes the packet as it is, at least once and at most `retries` times, and no handshake. |
| LanRuns.RunUnfolds | components/coolth/lan.cpp:49-165 | Every run of calls is a run of single handshakes, attempts and changes, and every attempt is made in an authenticated state. |
| LanRuns.RunIsAccounted | components/coolth/lan.cpp:49-165 | Over every V3 run from a session without a key: each command written is sealed under a key derived from the reply to an earlier accepted handshake of the run; that reply is a part of the stream and hashes right under the credentials then and still in force; no reset or new credentials lie between; the log is what the steps post; and an appliance reads off the written bytes packet ids one apart modulo 65536, the token of each handshake, and the packet and filler of each command. |
| LanRuns.ReplyIsOpened | components/coolth/lan.cpp:102-165 | A reply is returned only from a whole message off the front of the stream that opens, in V3 under the session key to a packet, and the packet to the frame. |
| LanExchange.AnswerIsFramed | components/coolth/lan.cpp:33-38 | An answer passes the reader's limits exactly when its frame is at most 1951 bytes (V3) or 1983 (V2). |
| LanExchange.HandshakeCompletes | components/coolth/lan.cpp:49-80 | An honest handshake reply authenticates the session with the agreed key. |
| LanExchange.IgnoredThenAnswered | components/coolth/lan.cpp:90-99 | Commands the appliance ignores cost attempts only; its answer to a later one is the reply. |
| LanExchange.FreshSessionIsAnswered | components/coolth/lan.cpp:49-165 | From no session key to the reply: handshake, ignored commands and the answer under the agreed key. |
| HttpReader.ResponseReader.Fill | cli/https.cpp:283-294 | A fill takes in one fragment and stays within the limit, or says why not. |
| HttpReader.ResponseReader.ReadLine | cli/https.cpp:243-256 | The line read is the next one of the stream, wherever the fragments were cut and whatever the peer does behind it. |
| HttpReader.ResponseReader.ReadExact | cli/https.cpp:258-268 | The bytes read are the next ones of the stream, whatever comes behind them; on failure nothing is consumed. |
| HttpReader.ResponseReader.ReadToEnd | cli/https.cpp:271-279 | All that remains, if the peer closes within the limit. |
| HttpReader.ResponseReader.ReadChunks | cli/https.cpp:340-358 | The chunk loop ends against any peer, and computes the chunked body of the stream as soon as any part of it within the limit holds one whole. |
| HttpReader.ResponseReader.ReadHeaders | cli/https.cpp:404-421 | The header loop ends against any peer, and computes the mode of the stream's head as soon as any part of it within the limit holds that whole. |
| HttpReader.ResponseReader.ReadResponse | cli/https.cpp:393-426 | Against any peer the read ends with at most 8 MiB and a fragment buffered; a stream of which some part within 8 MiB is a complete response, or which ends within 8 MiB, gives the same response in every fragmentation and whatever the peer sends afterwards. |
| HttpReader.FetchChunked | cli/https.cpp:364-426 | A chunked response arrives whole, however it is cut into chunks and these into fragments, whatever lengths it declares as well and whatever comes behind it. |
| HttpReader.FetchSized | cli/https.cpp:364-426 | So does a response of declared length. |
| HttpReader.FetchSent | cli/https.cpp:364-426 | Any response with a head in any spelling, in whatever fragments: chunks are joined, else a length counts, else the body goes up to the close. |
| HttpTheory.StrtoulOfDigits | cli/https.cpp:349-349 | A numeral is read as its value, or the largest number if that is greater. |
| HttpTheory.ChunksAreJoined | cli/https.cpp:340-358 | Every cutting of a body into chunks, with any size numerals, blanks and extensions, is undone, and what follows is left unread. |
| HttpTheory.TruncatedChunksAreRefused | cli/https.cpp:340-358 | A chunked body cut off anywhere before the end of its last chunk is never taken for a whole one. |
| HttpHeads.HeaderIsConsidered | cli/https.cpp:404-421 | Letter by letter: a line named transfer-encoding in any case sets chunking exactly if it mentions chunked in any case, one named content-length sets the length, with any blanks; every other line changes nothing. |
| HttpHeads.HeadDecides | cli/https.cpp:393-426 | On every such head the body is read as chunks if the last coding mentions them, else by the last length, else up to the end of the connection, and which error a short or lost one gives. |
| HttpHeads.HeadIsTruncated | cli/https.cpp:243-256 | A head that breaks off anywhere is an error, and which one says whether the peer closed or the connection failed. |
| HttpHeads.StrtoulReads | cli/https.cpp:349-349 | Spaces, a sign and a prefix, digits up to the first byte that is none, numbers below zero taken from 2^64, too large ones clamped. |
| HttpTheory.ConsiderDeclared | cli/https.cpp:412-420 | One more header line acts as the last field of its name does. |
| HttpTheory.ResponseIsRead | cli/https.cpp:393-426 | The body is read in the mode that the last transfer coding and the last length call for. |
| HttpTheory.ChunkedResponse | cli/https.cpp:338-362 | A chunked response is its joined chunks whatever length is declared as well. |
| HttpTheory.LengthResponse | cli/https.cpp:338-362 | Otherwise a declared length counts, and a body that falls short is refused. |
| RelayText.PrintText | components/coolth/cloud_lan.cpp:79-91 | The printing loop computes the comma-separated signed decimals. |
| RelayText.ParseText | components/coolth/cloud_lan.cpp:93-108 | The token loop computes the parse, and ends. |
| RelayText.TextRoundTrip | components/coolth/cloud_lan.cpp:79-108 | Parsing undoes printing for every byte string. |
| RelayText.TextAlphabet | components/coolth/cloud_lan.cpp:79-91 | The text has digits, minus signs and commas only, in tokens of at most four characters. |
| RelayText.TokensAreSigned | components/coolth/cloud_lan.cpp:79-91 | There is one token for each byte, and its number is the byte as a signed one. |
| RelayText.NumeralWraps | components/coolth/cloud_lan.cpp:93-108 | Any numeral, signed or not, is read as its value modulo 256. |
| RelayText.FromTextJoins | components/coolth/cloud_lan.cpp:93-108 | Texts joined by a comma parse to their parses joined. |
| RelayText.BlankTokensAddNothing | components/coolth/cloud_lan.cpp:99-101 | Blank tokens and trailing separators change nothing. |
| RelayText.AddsNothingWhen | components/coolth/cloud_lan.cpp:99-101 | A token adds nothing exactly if it is spaces, tabs and line ends only. |
| RelayText.BuildRelayPacket | components/coolth/cloud_lan.cpp:58-77 | Filling the buffer in place gives header, frame and sixteen zero bytes. |
| Wire.RelayPacketIsLaid | components/coolth/cloud_lan.cpp:58-77 | By offsets: size at 4, sequence number at 8, timestamp at 12, appliance id at 20 modulo 2^48, the frame at 40 and sixteen zeros behind it. |
| RelayText.FindFrame | components/coolth/cloud_lan.cpp:110-122 | The search loop computes the frame at the first 0xAA, or none. |
| RelayText.FoundWhen | components/coolth/cloud_lan.cpp:110-122 | A frame is found exactly if it stands at the first 0xAA, as long as its second byte says, and whole. |
| RelayText.FrameIsFound | components/coolth/cloud_lan.cpp:110-122 | Behind a header without 0xAA a self-delimiting frame is found whole, whatever follows. |
| RelayText.RelayPacketIsFound | components/coolth/cloud_lan.cpp:58-122 | For every self-delimiting frame the search in the relay's own packet begins at the frame exactly when neither byte of the length, the sequence number, the timestamp nor the appliance id has a 0xAA; then the frame is found whole. |
| RelayText.LengthByteMisleads | components/coolth/cloud_lan.cpp:58-122 | A frame of 114 bytes makes the length byte of the relay's own packet 0xAA and is never found. |
| Relay.CloudLan.Recover | components/coolth/cloud_lan.cpp:230-270 | The method takes the recovery step: state and outcome, vector untouched on failure. |
| Relay.CloudLan.Relay | components/coolth/cloud_lan.cpp:272-321 | The method takes the sending step. |
| RelayOutcomes.CodeDecides | components/coolth/cloud_lan.cpp:293-306 | For every response tree: the code "3176" is success without a frame whatever else is said; every other code than "0", and none at all, is an error with that code and message, or a question mark. |
| RelayOutcomes.AcceptedComesTo | components/coolth/cloud_lan.cpp:307-320 | The code "0": without an object `result` or a reply in it nothing is handed back, else the frame in its packet, or an error if it cannot be decrypted. |
| RelayOutcomes.NoAnswerFails | components/coolth/cloud_lan.cpp:272-295 | Without a session nothing is posted and nothing changes; without a response only the sequence number does. |
| RelayOutcomes.RecoveryComesTo | components/coolth/cloud_lan.cpp:230-270 | Without a marker, or a whole block behind the first, recovery fails and the vector stays; otherwise it is the first block echoed and the plaintext's combined. |
| RelayOutcomes.OrderIsSigned | components/coolth/cloud_lan.cpp:143-188 | What the server decodes of a request is the items in the order of their names, and the lower-case digest of path, items and key. |
| RelayOutcomes.PacketsAreNumbered | components/coolth/cloud_lan.cpp:58-77 | The sequence numbers an appliance reads off the packets of a session are one apart modulo 2^32. |
| JsonStrings.CodePointIsRead | components/coolth/json_lite.cpp:70-104 | Every escape of four hex digits, up to the highest code, is read as bytes that an independent UTF-8 reader reads back as that code: one, two or three by its size. |
| JsonStrings.SpellingsAreRead | components/coolth/json_lite.cpp:54-111 | Whatever mixture of spellings a server writes a byte string in, escapes of any code point included, it is read back exactly. |
| JsonStrings.SpelledValueIsFound | components/coolth/json_lite.cpp:129-148 | So `find_value` reports the text that the first field answering to the key spells. |
| JsonStrings.InvalidEscapeIsALetter | components/coolth/json_lite.cpp:78-92 | If one of the four bytes behind an escape is no digit, the letter stands for itself. |
| JsonStrings.ShortEscapeEnds | components/coolth/json_lite.cpp:60-77 | With fewer than four bytes behind it an escape ends the text, and a last backslash is dropped. |
| RelayTheory.IvIsRecovered | components/coolth/cloud_lan.cpp:230-270 | For every key and hidden vector: if the server echoes what it decrypts the received order to, the vector stored is the hidden one. |
| RelayTheory.OrderOpens | components/coolth/cloud_lan.cpp:280-289 | An order, taken out of the posted form, decrypted, unpadded and parsed, is the packet it carries. |
| RelayTheory.ReplyIsRead | components/coolth/cloud_lan.cpp:307-320 | A reply in the response's `result` is opened to the frame found in the packet it carries. |
| RelayTheory.EchoGivesVectorAway | components/coolth/cloud_lan.cpp:230-270 | The same for a server that spells its report by a fixed escaping, with any text without the marker before the echo. |
| RelayTheory.SendIsOpened | components/coolth/cloud_lan.cpp:279-295 | A logged-in send posts one request, which opens to the packet built for the frame. |
| RelayTheory.SendIsAnswered | components/coolth/cloud_lan.cpp:272-321 | Against a server that opens the request and returns an appliance's answer, the reply is the frame found in that answer. |
| RelayTheory.FrameComesBack | components/coolth/cloud_lan.cpp:272-321 | If the appliance's answer holds a self-delimiting frame behind a front without 0xAA, the send returns exactly that frame. |
| RelayTheory.SessionIsAnswered | components/coolth/cloud_lan.cpp:272-321 | So for any number of frames in a row, under advancing sequence numbers. |
| RelayTheory.RelayWorks | components/coolth/cloud_lan.cpp:230-321 | Recovery from an echo, and then every frame of a session answered, under the hidden vector. |
| Form.FormEncode | components/coolth/cloud.cpp:65-87 | The nested loops compute the encoding of the items in order. |
| Form.FormRoundTrip | components/coolth/cloud.cpp:65-87 | Splitting at ampersands and equals signs and percent-decoding gives back every list of arbitrary keys and values (sections 2.1 and 2.3 of RFC 3986). |
| Form.UnreservedStand | components/coolth/cloud.cpp:65-87 | Exactly the unreserved characters stand for themselves. |
| Tlv.WalkIsLongest | components/coolth/properties.cpp:160-188 | The walk visits the longest run of whole entries that the count allows. |
| Tlv.LongestIsWalk | components/coolth/properties.cpp:160-188 | And no other run is the longest. |
| Tlv.WalkFold | components/coolth/properties.cpp:158-188 | The position loop folds exactly those entries and leaves what the walk leaves. |
| Properties.PropertyRoundTrip | components/coolth/properties.cpp:36-101 | A value survives encoding and decoding exactly when it is in the stated domain of its id. |
| Properties.RequestMeans | components/coolth/properties.cpp:36-62 | Read by the layout of each property, the bytes of a request mean the value it was made for, the switch of IECO, the buzzer and breeze-away off included. |
| Properties.EntryIsLaid | components/coolth/properties.cpp:137-148 | An entry is its id, low byte first, the length of its value and the value. |
| Properties.ReportIsRecorded | components/coolth/properties.cpp:64-191 | What an entry records, by id and layout written out: nothing if the appliance refuses it. |
| Properties.BuildSetFrame | components/coolth/properties.cpp:137-148 | The loop builds the frame of all the entries. |
| Properties.ParsePropertiesFrame | components/coolth/properties.cpp:150-191 | The parser computes the fold over the walk, or refuses the frame. |
| Properties.ParseIsFold | components/coolth/properties.cpp:150-191 | On any accepted frame the result is the fold over the longest in-bounds run of at most `count` entries. |
| Properties.LastReportWins | components/coolth/properties.cpp:176-186 | The last entry that is not empty, refused or undecodable gives an id its value; ids without one keep theirs. |
| Properties.ConfirmedSetIsParsed | components/coolth/properties.cpp:137-191 | A set request whose entries are framed again with clear flags parses to exactly the values set. |
| Capabilities.ParseCapabilitiesFrame | components/coolth/capabilities.cpp:76-199 | The parser accumulates the fold over its walk and the trailing flag. |
| Capabilities.WriterWrites | components/coolth/capabilities.cpp:103-191 | The switch writes a field exactly from the entries of its one capability that are long enough: six bytes for the temperatures, two for the end of IECO, else one. |
| CapabilityTables.ModesAreReported | components/coolth/capabilities.cpp:140-147 | By value: the modes an appliance has. |
| CapabilityTables.FansAreReported | components/coolth/capabilities.cpp:121-129 | By value: the fan speeds it has. |
| CapabilityTables.SpeedsAre | components/coolth/capabilities.cpp:41-66 | Whatever entries came, the speeds supported: the usual four without a report, else what the last one's value says. |
| CapabilityTables.FlagIsReported | components/coolth/capabilities.cpp:103-191 | By id and value: the flag that a capability of one flag sets, and no other field. |
| CapabilityTables.GroupIsReported | components/coolth/capabilities.cpp:103-191 | By id and value: the fields of the smaller groups. |
| CapabilityTables.LimitsAreReported | components/coolth/capabilities.cpp:174-186 | The six limits byte by byte, and the decimals. |
| Capabilities.ReplyIsRead | components/coolth/capabilities.cpp:76-198 | On any reply, however its count and lengths were set, each field is as the last entry that sets it in the longest in-bounds run says, and as it was if none does; and the last byte of the body but one says whether there is more, if the walk leaves two. |
| Capabilities.FieldSurvives | components/coolth/capabilities.h:134-137 | A field keeps its value across a reply without a long enough entry of its own capability. |
| Capabilities.LastFanDecides | components/coolth/capabilities.cpp:41-66 | Whatever entries came, which fan speeds are supported is decided by the last entry about the fan alone, custom speed standing for all; without one it is as before. |
| Capabilities.SixLimitsClaimDecimals | components/coolth/capabilities.cpp:174-186 | A temperature entry of exactly six bytes sets the decimals flag whatever the bytes are, and one of fewer changes nothing. |
| Capabilities.LaterReplyWins | components/coolth/capabilities.h:134-137 | After two replies into one struct each field is as the last entry that sets it in the second says, else in the first, else as it was. |
| Capabilities.OrderIsFreeWhen | components/coolth/capabilities.h:134-137 | The order of two replies makes no difference exactly when they agree on every field that both set. |
| Capabilities.IdleWhen | components/coolth/capabilities.cpp:93-191 | An entry changes no struct exactly when it is empty, its id has no case in the switch, or it is of fewer than six temperature bytes. |
| Capabilities.IdleIsSteppedOver | components/coolth/capabilities.cpp:185-191 | Such an entry, of an unknown id and any length say, can be taken out of a reply anywhere without changing what is parsed. |
| Commercial.ControlRoundTrip | components/coolth/device_cc.cpp:34-49 | A control value survives exactly when it is a half degree from -40 to 87.5, or a whole number that fits a byte. |
| Commercial.BuildControlFrame | components/coolth/device_cc.cpp:57-70 | The loop builds the frame of all the controls. |
| Commercial.ParseControlFrame | components/coolth/device_cc.cpp:139-168 | The loop computes the fold over its walk and ends on any input. |
| Commercial.ControlsSurvive | components/coolth/device_cc.cpp:57-168 | Every nonempty list of controls with exact values is read back whole; an empty request is refused. |
| Commercial.ControlsAreLaid | components/coolth/device_cc.cpp:57-70 | By offsets: five bytes a control, the id high byte first, a one, the value and 0xFF. |
| Commercial.StepIs | components/coolth/device_cc.cpp:148-166 | A step of the parser takes five bytes for an empty value, else four more than its size, if so many are left. |
| Commercial.SetpointIsSent | components/coolth/device_cc.cpp:34-49 | A setpoint travels under the id three in half degrees above forty below zero. |
| State.SetMeansSettings | components/coolth/protocol.cpp:299-348 | Read by its own layout a set request means the settings it was built from exactly when they are representable (13 to 43.5 degrees among them). |
| State.FixedBytes | components/coolth/protocol.cpp:321-348 | The bytes of a set request that no setting changes. |
| State.ResponseIsParsed | components/coolth/protocol.cpp:377-433 | What an appliance reports, written by the layout of responses with the setpoint in either field, is exactly what is parsed; only freeze protection and an absent humidity are as they were. |
| State.SetFrameCarries | components/coolth/protocol.cpp:299-348 | Every set frame delimits itself, sums to zero and carries the payload. |
| State.ParsedIsRepresentable | components/coolth/protocol.cpp:377-433 | Whatever a response says, the settings parsed from it can be sent back. |
| State.ParsedIsRepeated | components/coolth/protocol.cpp:299-433 | Sending a parsed state back repeats every field of the response, bit by bit in the two layouts, with the beep off. |
| State.FreezeProtectionIsKept | components/coolth/protocol.cpp:377-433 | Parsing any response leaves freeze protection as it was known before. |
| State.ReadModifyWrite | components/coolth/protocol.cpp:299-433 | Reading a state and sending it with one change means the same settings with that change, exactly when the request has bits for it. |

## Left out

- TLS, sockets, discovery, environment and command line: input, output and library wrapping.
- The internals of AES, MD5 and SHA-256; mbedtls is not part of this model.
- Login and token flows of both clouds, password hashes and their request fields: straight-line calls. The
  relay's session id and key are given; only recovery and sending are modelled.
- The capability query frames: constants.
- Indoor and outdoor temperatures of a state response, `apply_properties`, fixed-offset state of commercial
  units: field copies and floating-point display values.
- Floating-point rounding: setpoints are whole half degrees and control values real numbers.
- `parse_url`, `render_headers`, the request line and the query frames: concatenation of constants.
- The overflow of `atoi` and memory exhaustion.
- HttpReader.ResponseReader.ReadResponse: for a response that is not complete within 8 MiB of a stream that goes
  on beyond, only the bounds and the end of the read are stated, because what has come when the limit is met
  depends on the fragments.
- JsonTheory.KeyInTree: is not about keys with a bare quote or a lone backslash, nor keys that begin with a blank,
  a comma, a colon or a closing bracket or brace: those can match text that is no name.
- Layers.EnvelopeRoundTrip: is stated for the functions; the appending of an envelope's parts is an expression
  here and not a sequence of steps.
