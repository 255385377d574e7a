# A verified model of the file-transfer client

The client registers with a server or reconnects to it, agrees on an AES key, sends each configured file
encrypted, and has the server confirm every file by its POSIX checksum. This project models the checksum,
the wire format, the stored credentials and the whole session, and proves what holds of them for every
file, every server, every network fault and every content of the credential files.

`dafny verify dfyconfig.toml` checks everything (Dafny 4.11).

## How the model is laid out

* **Checksum.** `Gf2` has polynomials over GF(2) as sets of exponents, with the ordinary product and
  remainder. `CrcRegister` is the bit-serial register and its algebra, `CrcWord` ties it to 32-bit words,
  `CrcTable` holds the 256 literal entries of `crctab[0]`, `Cksum` has the loops of `memcrc`, and
  `Detection` says which differences between files the checksum cannot miss. `CrcNumber` is the number a
  checksum word stands for.
* **Wire format.** `Protocol` describes requests and responses, `PacketBuilder` builds and parses them in
  buffers, `WireReader` and `WireFields` are the other end of the line: a reader for requests and an encoder
  for responses.
* **Credentials.** `Hex` and `Config` are `HexConverter` and the two files `me.info` and `priv.key`.
* **Session.** `Session` gives, for each step of `TransferClient.cpp`, its answer, what it does in order and
  the state it leaves, as functions. `TransferClient` has the classes themselves (`NetworkClient`,
  `ConfigManager`, `CryptoHelper`, `TransferClient`) with mutable fields; every method is proved to do what
  its function says. The theorems are about the functions: `SessionFacts` and `SessionLaws` (stopping at
  failures, framing in both directions), `Progress` (what a failure can come from), `FileExchange` (one file), `Authentication`, `RunLaws`, `Identity`,
  `Credentials` (one run after another), `Completeness` and `HonestServer` (a server that answers properly),
  `ReplyingServer` (a server that reads the requests off the wire and answers each), `FileSizes` (how large a
  file may be) and `EndToEnd` (what success says about the server's copy).

The server is an arbitrary sequence of bytes, so every theorem that does not mention answers holds for every
server. Any send may break after any number of bytes, and a read that finds too few bytes closes the socket.
Cryptography, the two credential files, which file operations work, whether the connection opens, and the
local files are parameters of a run (`Session.World`, `Config.Disk`).

One source function is sometimes several methods: `RegisterAndExchangeKeys`, `SaveAndExchangeKeys` and
`ExchangeKeys` are `registerAndExchangeKeys`; `TryReconnect` and `ReconnectAs` are `tryReconnect`;
`TransferAndVerify`, `TryOnce`, `AwaitReport`, `SendFileOnce`, `SendStatus` and `Conclude` are
`transferAndVerify`; `Run` and `SendAll` are `run`.

## What the proofs bring out about the code

* A file packet whose content and 267 bytes of metadata do not fit in 32 bits carries a wrong size field and
  cannot be read back (`WireReader.PacketReadsBackExactly`: it is read back if and only if they fit). Some
  server can still have such a file confirmed, exactly when the encrypted content alone stays below 2^32
  (`FileSizes.ConfirmedUnreadExactly`); from 2^32 on no run that has it to send returns true.
* `saveClientInfo` writes `me.info` before it opens `priv.key`. When the second fails, the new identity is on
  disk with whatever key was there before; `Credentials.SavedPairsUp` says exactly when the two still belong
  together, `Credentials.StaleKeySurvives` is a case where they do not, and
  `Credentials.NextRunAfterFailedSave` is what the next run then does.
* `toBytes` accepts more than hex digits, because `strtol` skips white space and takes signs: " a", "+f" and
  "-0" are read as bytes. `Hex.ChunkAccepted` lists exactly what is accepted, and `Hex.HexRewrites` says that
  writing the bytes back gives the same text in lower case if and only if every character was a hex digit.
* For an empty file `memcrc` feeds no length octet, where the cksum page of IEEE Std 1003.1-2017 says the
  length takes one octet or more. The result is the same (`Detection.EmptyFile`).
* For files of one length the checksum misses exactly the differences that G(x) divides
  (`Detection.MissedExactly`). A burst of 32 bits is always noticed, and every file has an unnoticed change
  within any 33 consecutive bits of it (`Detection.LongerBurstMissed`).
* The server's version byte is read and compared for a warning only; no answer is refused for it.
* A 900, 901 or 902 is sent for the report read just before it, and `true` is returned exactly when a 900
  went out and a 1604 with the session's identifier came back. So a 900 may go out and the run still fail.

## Model

| member | source | states |
|---|---|---|
| CrcTable.TableIsGenerated | EncryptedFile.cpp:11-64 | The table has 256 entries and each literal one is eight shift/xor steps with 0x04C11DB7 of its index in the top byte. |
| CrcWord.GeneratorWord | EncryptedFile.cpp:11-64 | The constant behind the table is the standard's G(x) without its leading term. |
| CrcWord.StepByteFeeds | EncryptedFile.cpp:452-453 | Shifting the register and adding the table entry for its top byte and the input is the same as feeding the input's eight bits, highest first, to the bit-serial register. |
| CrcRegister.FeedIsTheRemainder | EncryptedFile.cpp:451-461 | For every bit string, a polynomial is the remainder of it times x^32 by G(x) if and only if it is what the bit-serial register holds; quotient and uniqueness are proved from the GF(2) product. |
| Cksum.Memcrc | EncryptedFile.cpp:447-462 | Both loops, over a 64-bit value masked to 32 bits, stay inside the table, end, and return the checksum of the bytes followed by the octets of their length, with nothing in the upper half. |
| Cksum.RegisterFeeds | EncryptedFile.cpp:451-454 | From any register, the byte loop does to the 32-bit word what feeding all the bits does to the polynomial. |
| Cksum.CrcIsThePosixRemainder | EncryptedFile.cpp:447-462 | For every byte string, the complement of the checksum is the remainder of M(x) times x^32 by G(x), and no other polynomial is; M is the file and its minimal little-endian length octets. |
| Detection.OctetsAreTheLength | EncryptedFile.cpp:456-458 | The octets the length loop feeds are the length in base 256, lowest first, without a spare zero at the end. |
| CrcRegister.FeedInjective | EncryptedFile.cpp:451-461 | Different registers stay different under the same input, however long. |
| CrcRegister.WindowFactors | EncryptedFile.cpp:451-454 | Up to 32 bits of input act as if added to the top of the register first and zeros fed instead. |
| Detection.SameCrc | EncryptedFile.cpp:451-461 | Two files of equal length and equal checksum had equal registers before the length was fed. |
| Detection.BitBurstDetected | EncryptedFile.cpp:447-462 | Two files of equal length that agree outside 32 consecutive bits, anywhere, have the same checksum if and only if they are the same file. |
| Detection.BurstDetected | EncryptedFile.cpp:447-462 | The same for 4 consecutive bytes. |
| Detection.MissedExactly | EncryptedFile.cpp:447-462 | Two files of equal length have the same checksum if and only if G(x) divides their difference. |
| Detection.LongerBurstMissed | EncryptedFile.cpp:447-462 | 32 bits are the limit: for any file and any 33 consecutive bits in it there is a different file, changed only there, with the same checksum. |
| Detection.EmptyFile | EncryptedFile.cpp:456-461 | The checksum of the empty file is the one the standard gives with a length octet of zero, though none is fed. |
| Detection.CrcLinear | EncryptedFile.cpp:447-462 | For equal lengths the xor of the checksums is the zero-start, uncomplemented register of the files' xor followed by as many zero bytes as there are length octets. |
| Detection.LeadingZerosUnseen | EncryptedFile.cpp:449-454 | Zero bytes in front of a file do not change the register before the length is fed. |
| Detection.LeadingZerosDetected | EncryptedFile.cpp:451-461 | They always change the checksum when both lengths need the same number of octets and that is at most 4. |
| Cksum.TruncateWidened | EncryptedFile.cpp:513 | The cast of the result to 32 bits loses nothing. |
| CrcNumber.NumberInjective | TransferClient.cpp:240 | Checksums that compare equal as numbers are the same 32-bit word. |
| CrcNumber.NumberIsAtTwo | EncryptedFile.cpp:513 | The number that is compared is the value at 2 of the word's polynomial: bit k counts 2^k. |
| PacketBuilder.ByteBuffer.AppendUint16LE | Protocol.cpp:10-13 | Appends the two-byte little-endian form and leaves what was there. |
| PacketBuilder.ByteBuffer.AppendUint32LE | Protocol.cpp:15-20 | Appends the four-byte little-endian form and leaves what was there. |
| PacketBuilder.ByteBuffer.AppendFixedString | Protocol.cpp:37-42 | Appends a field of the given size holding at most one byte less of the text, then NULs. |
| PacketBuilder.ByteBuffer.AppendRequestHeader | Protocol.cpp:48-54 | Appends the 23 bytes of identifier, version 3, code and payload size. |
| Words.U16RoundTrip | Protocol.cpp:22-25 | Reading the two bytes written for any value gives the value. |
| Words.U32RoundTrip | Protocol.cpp:27-32 | Reading the four bytes written for any value gives the value. |
| Words.U32Reread | Protocol.cpp:27-32 | Writing the value read from any four bytes gives those bytes. |
| Words.WordsAreLittleEndian | Protocol.cpp:10-32 | What is written for a value is its base-256 digits, lowest first, in both widths. |
| PacketBuilder.BuildRegistration | Protocol.cpp:59-69 | Builds the 825 packet, under the zero identifier. |
| PacketBuilder.BuildPublicKeyExchange | Protocol.cpp:71-98 | Builds the 826 packet: name field, then exactly 160 bytes of key, cut or padded. |
| PacketBuilder.BuildSendFile | Protocol.cpp:100-133 | Builds the 828 packet, whose size fields are computed from the content size cut to 32 bits. |
| PacketBuilder.BuildCrcStatus | Protocol.cpp:135-152 | Builds the 900, 901 or 902 packet for a file name. |
| PacketBuilder.BuildReconnect | Protocol.cpp:154-170 | Builds the 827 packet. |
| PacketBuilder.Strnlen | Protocol.cpp:249 | The scan stops at the first NUL or at the limit, so the bytes before it are the field's text. |
| PacketBuilder.ParseFileCrcPayload | Protocol.cpp:231-257 | Refuses exactly payloads under 279 bytes and otherwise gives identifier, size, text of the name field and checksum from their places. |
| WireReader.SizeFieldCounts | Protocol.cpp:108-113 | The size field in a request's header is its payload's size if and only if the payload's size fits in 32 bits. |
| WireReader.PacketReadsBack | Protocol.cpp:37-170 | A reader taking 23 bytes and then as many as they announce recovers each built packet and leaves exactly the bytes after it. |
| WireReader.PacketReadsBackExactly | Protocol.cpp:100-133 | Alone on the wire, a packet is recovered if and only if its size fits. |
| WireReader.StreamReadsBack | Protocol.cpp:37-170 | Any list of requests that fit, one after the other, is recovered as exactly that list. |
| WireFields.FieldsRead | Protocol.cpp:59-170 | Every field of every request is recovered from its payload, up to the text after a NUL or byte 254 and the key's 160 bytes. |
| WireFields.FixedStringReads | Protocol.cpp:37-42 | A text field always ends in a NUL and is read as the text's part before its first NUL among the first bytes that fit. |
| WireFields.FixedStringAt | Protocol.cpp:37-42 | Each byte of a text field is the text's, as far as the last byte stays free, and NUL from there on. |
| WireFields.KeyFieldAt | Protocol.cpp:91-95 | Each of the 160 bytes of the key field is the key's, and NUL after it. |
| WireFields.NameSurvives | Protocol.cpp:37-42 | A name comes back whole from 825, 826 and 827 if and only if it has no NUL and at most 254 bytes, which covers the 1 to 100 bytes the configuration admits. |
| WireFields.HeaderReads | Protocol.cpp:175-186 | The seven header bytes written for any response are parsed back, whatever follows them. |
| WireFields.HeaderRereads | Protocol.cpp:175-186 | Any seven bytes are what writing their parsed header gives. |
| WireFields.FileCrcReads | Protocol.cpp:231-257 | A 1603 payload written for any identifier, size, checksum and NUL-free name of up to 255 bytes is parsed back. |
| WireFields.FileCrcRereads | Protocol.cpp:231-257 | Writing what was parsed from any 279 bytes gives them back but for the bytes after the name's first NUL, which become NUL. |
| WireFields.ClientIdReads | Protocol.cpp:207-229 | 16-byte payloads, and identifiers followed by a key, are parsed back. |
| WireFields.ExpectedSizes | Protocol.cpp:188-205 | A size is expected for a code if and only if it is that of its fields: an identifier for 1600, 1604 and 1606, one and an encrypted key of 128 bytes for 1602 and 1605, a whole report for 1603, nothing for 1601 and 1607. |
| Hex.ToHexLoop | ConfigManager.cpp:13-19 | The loop writes each byte as its two lower-case hex digits, in order. |
| Hex.ToBytesLoop | ConfigManager.cpp:21-37 | The loop accepts a text if and only if it has 32 characters and each pair is taken by strtol to its end with a value of 0 to 255, and gives those values. |
| Hex.ToBytesExactly | ConfigManager.cpp:21-37 | A text is an identifier if and only if it has 32 characters and each pair of them is one of those accepted, and byte k is the value of pair k. |
| Hex.DigitsAreHex | ConfigManager.cpp:13-37 | The digits written are 0 to 9 and a to f, those read are also A to F, and each has its place as its value. |
| Hex.ChunkAccepted | ConfigManager.cpp:28-33 | Of all two-character texts exactly two hex digits, white space or plus and a digit, or "-0" are accepted, with these values. |
| Hex.HexRoundTrip | ConfigManager.cpp:13-37 | Every identifier survives being written in hex and read back. |
| Hex.HexRewrites | ConfigManager.cpp:13-37 | Reading an accepted text and writing it gives it in lower case if and only if it is all hex digits. |
| Hex.HexIsAccepted | ConfigManager.cpp:21-37 | Every text of 32 hex digits in either case is accepted. |
| Config.InfoRoundTrip | ConfigManager.cpp:153-216 | What is saved in me.info is loaded as it was if and only if neither the name nor the key has a newline. |
| Config.KeyRoundTrip | ConfigManager.cpp:185-201 | What is saved in priv.key is loaded as it was if and only if it is one non-empty line. |
| Config.LoadsThreeLines | ConfigManager.cpp:153-183 | Of any text, taken as its lines, the first three are name, identifier and key; fewer than three, or a second that is no identifier, load nothing; a last line need not end in a newline. |
| Config.LoadsFirstLine | ConfigManager.cpp:185-201 | Of any priv.key that opens the first line is the key, with or without a newline after it, unless it is empty. |
| Config.LoadsWhatIsThere | ConfigManager.cpp:153-201 | A file that is missing or does not open loads nothing, and me.info is loaded exactly if its text can be. |
| TransferClient.NetworkClient.Connect | NetworkClient.cpp:20-42 | Afterwards the socket is open exactly if the connection was made; an earlier connection is dropped first. |
| TransferClient.NetworkClient.Send | NetworkClient.cpp:44-59 | All bytes go out, or the send fails and at most a part of them did; a closed socket sends nothing. |
| TransferClient.NetworkClient.ReceiveExact | NetworkClient.cpp:61-84 | Takes exactly so many bytes, or gives none and leaves the socket closed; asks for none without reading. |
| TransferClient.ConfigManager.LoadClientInfo | ConfigManager.cpp:153-183 | Loads the three lines exactly when they are there and the second is an accepted identifier, and otherwise keeps the old record. |
| TransferClient.ConfigManager.LoadPrivateKey | ConfigManager.cpp:185-201 | Gives the first line of priv.key unless it is missing, unreadable or empty. |
| TransferClient.ConfigManager.SaveClientInfo | ConfigManager.cpp:203-232 | States both files after success and after each failure. |
| TransferClient.ConfigManager.RemoveClientInfo | ConfigManager.cpp:234-237 | Each file is gone unless removing it failed. |
| TransferClient.CryptoHelper.LoadPrivateKeyBase64 | CryptoHelper.cpp:140-155 | The key is replaced exactly when the text decodes. |
| TransferClient.TransferClient.ReceiveResponse | TransferClient.cpp:26-69 | One response read, checked and accepted or refused, closing the socket on a wrong size. |
| TransferClient.TransferClient.RegisterAndExchangeKeys | TransferClient.cpp:72-131 | Does the specified registration: answer, whole new state and events in order. |
| TransferClient.TransferClient.SaveAndExchangeKeys | TransferClient.cpp:97-131 | Credentials are saved before 826 goes out, and it does not go out when saving fails. |
| TransferClient.TransferClient.ExchangeKeys | TransferClient.cpp:104-131 | 826, its answer, and the key taken from it. |
| TransferClient.TransferClient.TryReconnect | TransferClient.cpp:134-185 | Does the specified reconnection, with its three outcomes. |
| TransferClient.TransferClient.Authenticate | TransferClient.cpp:188-197 | Reconnects with stored credentials, registers without or after losing them. |
| TransferClient.TransferClient.TransferAndVerify | TransferClient.cpp:200-304 | The loop of up to four attempts does the specified exchange, and never runs off its end. |
| TransferClient.TransferClient.CreateEncryptedFile | EncryptedFile.cpp:471-517 | Checksum, size, name and content of the same bytes, or nothing when the file or the encryption fails. |
| TransferClient.TransferClient.SendSingleFile | TransferClient.cpp:306-325 | Prepares a file and hands it to the exchange. |
| TransferClient.TransferClient.Run | TransferClient.cpp:328-365 | Does the specified run on mutable client, socket, configuration and keys: answer, whole new state and events in order. |
| SessionFacts.ReceiveFacts | TransferClient.cpp:26-69 | Whatever arrives, only a response with an expected code, its code's payload size and, but for 1600 and 1606, the session's identifier is accepted, and a read sends nothing. |
| SessionFacts.ReceiveReads | TransferClient.cpp:26-69 | The bytes read are one whole frame when accepted. When refused they are one whole frame and the socket is open, or it is closed after less than a header, a header with a wrong code or size and nothing more, or a good header and less than its payload. |
| Completeness.ReceiveWholeFrame | TransferClient.cpp:26-69 | Any whole frame on the line is taken off it, accepted or not, and the socket stays open. |
| Completeness.ReceiveNoFrame | TransferClient.cpp:29-53 | Without one the socket ends up closed, after exactly the seven bytes of a wrong header or after all there was. |
| SessionFacts.LawfulThen | TransferClient.cpp:26-131 | Stopping at failures and framing in both directions carry over from two steps to their sequence. |
| SessionLaws.RunLawful | TransferClient.cpp:328-365 | For every server: after a failed send, a refused response or a failed save nothing further happens and the run returns false; the bytes sent are whole packets and at most a part of one whose send failed; the bytes read are the accepted, exactly sized frames, then at most one refused response, and with those left on the line they are all the server delivered. Before the run's own last disconnect the socket is still open, with whole frames read, unless the refused response had a wrong header or the line had no more to give. That disconnect comes exactly if the run could not connect or authenticated with a 32-byte key, so always when it returns true. |
| FileExchange.AttemptsSound | TransferClient.cpp:200-304 | For every server and number of attempts left: the requests are a prefix of (828 901)^k 828 900 or of (828 901)^3 828 902; each status follows at once on a report of the right size and is 900 exactly if its checksum matches; 902 comes only after every attempt mismatched; true exactly if 900 was sent and a 1604 for this identifier accepted. |
| FileExchange.TransferSound | TransferClient.cpp:200-304 | For every server: at most three 901s, 902 only after four mismatches, and no more than 8 sends and 5 responses. |
| FileExchange.AttemptsReportsFollow | TransferClient.cpp:204-223 | A report that is accepted follows at once on an 828 for this file. |
| Completeness.ReceiveTakesFrame | TransferClient.cpp:26-69 | An acceptable frame that is there is accepted, and exactly its bytes are taken. |
| Completeness.ExchangeCompletes | TransferClient.cpp:200-304 | On a line that holds, a server that reports k wrong checksums and then the right one gets k+1 828s, k 901s and one 900, and true is returned; four wrong ones end in 902 and false; exactly those answers are read. |
| Completeness.TransferCompletes | TransferClient.cpp:200-304 | With four attempts: up to three wrong checksums and then the right one give true and one 900; a fourth wrong one gives 902 and false. |
| Authentication.PublicKeyShape | TransferClient.cpp:104-131 | One 826 under the session's identifier; success means that an accepted 1602 for it followed and the AES key is what its 128 bytes decrypt to with this run's own private key. |
| Authentication.RegistrationShape | TransferClient.cpp:72-131 | The requests are a prefix of 825 826, the second under the identifier an accepted 1600 assigned and right after saving it; success means both and a key from a 1602. |
| Authentication.ReconnectionShape | TransferClient.cpp:134-185 | One 827 with the stored name and identifier; credentials are removed exactly when unusable or right after an accepted 1606. |
| Authentication.AuthenticateKeepsLaw | TransferClient.cpp:188-197 | The requests are a prefix of [827] 825 826 with the right names and identifiers; 825 follows 827 only over an accepted 1606; success means a key decrypted from a 1602 with the run's own key or from a 1605 with the stored one; the credential files end up as the removal, the save and the save that failed part way leave them. |
| Authentication.RegistersAgain | TransferClient.cpp:188-197 | For every server, each removal of credentials is followed at once by an attempt to send 825 under the configured name. |
| Progress.AuthenticationFails | TransferClient.cpp:72-197 | For every server, authentication fails only by a failed send, a refused response or a failed save, which is the last thing that happens. |
| Progress.AttemptsFail | TransferClient.cpp:200-304 | An exchange fails only so, by a report of another size, or after 902 was sent and confirmed. |
| Progress.RunFails | TransferClient.cpp:328-365 | A run that has a configuration and a connection returns false only so, for an AES key of another length, or because the last file it started could not be prepared. |
| RunLaws.SendSingleFileKeepsLaw | TransferClient.cpp:306-325 | A file that cannot be prepared sends nothing; any other stays in the exchange's language with at most 8 sends and 5 reads. |
| RunLaws.SendFilesKeepsLaw | TransferClient.cpp:356-362 | The requests are one confirmed exchange for each file in order up to the first that fails; true exactly if all were confirmed; nothing else of the session changes. |
| RunLaws.RunShape | TransferClient.cpp:328-365 | A run is authentication, then the files only with a 32-byte key from an accepted answer; it returns true exactly if authentication, key check and every file succeeded. |
| RunLaws.RunIsBounded | TransferClient.cpp:328-365 | At most 3+8n sends and 3+5n responses for n files; the files started are a prefix of the list, all of it on success. |
| Identity.RunHasOneIdentity | TransferClient.cpp:72-197 | 825 carries the zero identifier, 827 the stored one, and every other request one and the same, which is the stored one or was assigned by an accepted 1600; file requests need a 32-byte key. |
| Identity.RunStreamReadsBack | TransferClient.cpp:328-365 | If the file packets fit, what a whole run wrote is read back as its requests, with at most a part of one more. |
| Credentials.SavedIsLoaded | ConfigManager.cpp:153-232 | Completely saved credentials give name, identifier and key back, also when priv.key cannot be opened later. |
| Credentials.SavedPairsUp | ConfigManager.cpp:203-232 | After me.info was written, a later run uses the new key with the new identity if and only if priv.key was written too, or what it held gives no key or the same. |
| Credentials.StaleKeySurvives | ConfigManager.cpp:218-222 | A disk and a failing save after which the new identity is paired with an old key. |
| Credentials.RunSaves | TransferClient.cpp:93-102 | A run that saved leaves the configured name, its own key and the identifier an accepted 1600 carried. |
| Credentials.NextRunReconnects | TransferClient.cpp:134-173 | After it, the next run that finds that disk and can reload the key begins with 827 under that name and identifier. |
| Credentials.RunRemoves | TransferClient.cpp:140-173 | Every removal of stored credentials in a run comes first, because they are of no use, or right after an accepted 1606. |
| Credentials.RunRegistersAgain | TransferClient.cpp:188-197 | In a run each removal is followed at once by an attempt to send 825. |
| Credentials.RunRemovesBoth | ConfigManager.cpp:234-237 | A run that removed its credentials and saved none leaves neither file, except one whose removal failed, and that one as it was. |
| Credentials.SaveWrites | ConfigManager.cpp:203-232 | States each file after a run that saved or failed to: me.info is name, hexadecimal identifier and key in three lines if it could be created, priv.key the key alone if both could, and each is otherwise what a removal left; saving succeeds exactly if both could be created. |
| Credentials.RunKeeps | TransferClient.cpp:188-197 | Otherwise, and if it saves none, it leaves both files as they were. |
| Credentials.NextRunRegisters | TransferClient.cpp:188-197 | After a run that removed them and saved no others, the next begins with 825. |
| Credentials.FailedSave | TransferClient.cpp:93-102 | A run whose save failed leaves what the failed save left, under an identifier that an accepted 1600 carried: nothing new, or me.info and not priv.key. |
| Credentials.NextRunAfterFailedSave | TransferClient.cpp:134-173 | If me.info was new, the next run takes the new identity with the key text priv.key still held, which is the first run's own exactly if priv.key held none or the same; it begins with 827 under that identity if the text is a key, and otherwise by removing it. |
| Credentials.NextRunAfterRemoval | TransferClient.cpp:134-173 | Where the first run had removed priv.key, the next takes that run's own key with the new identity. |
| HonestServer.RegistrationCompletes | TransferClient.cpp:72-131 | On a line and a disk that work, proper 1600 and 1602 answers register the client under that identifier with that key. |
| HonestServer.ReconnectionCompletes | TransferClient.cpp:134-185 | A proper 1605 reconnects the stored identity. |
| HonestServer.AuthenticationStartsAgain | TransferClient.cpp:134-197 | On a line and a disk that work, a client whose credentials are of no use or answered by a 1606 registers anew: it sends exactly [827] 825 826 and ends up with the new identifier, key and credentials. |
| HonestServer.FilesComplete | TransferClient.cpp:356-362 | A server that answers each file in at most four attempts gets exactly one confirmed exchange for each, with as many retries as it refused, and exactly its answers are read. |
| HonestServer.FreshRunCompletes | TransferClient.cpp:328-365 | So a whole run of a new client returns true, sends exactly 825, 826 and those exchanges, reads exactly those answers and leaves its name, key and assigned identifier on disk. |
| HonestServer.ReturningRunCompletes | TransferClient.cpp:328-365 | And a run of a client with stored credentials returns true. |
| HonestServer.RejectedRunCompletes | TransferClient.cpp:328-365 | A whole run of such a client returns true, with the exchanges of its files after those requests. |
| HonestServer.SecondRunCompletes | TransferClient.cpp:134-185 | After such a first run, a run that finds the disk as it was left begins with 827 under the first run's name and identifier and returns true. |
| ReplyingServer.RepliesAreToRequests | Protocol.cpp:37-170 | A server that splits the bytes into packets and reads each one's fields answers exactly the requests that were built, as far as their fields carry them. |
| ReplyingServer.ServerServes | TransferClient.cpp:200-304 | A server that reports the checksum of what it made of each 828 refuses every copy damaged within 32 bits and confirms the right one. |
| ReplyingServer.ConversationCompletes | TransferClient.cpp:328-365 | A new client and such a server, joined by a line that holds, where what arrives is what the server answers to the very bytes sent: with up to three damaged copies of each file before a right one the run returns true, having sent exactly that conversation. |
| FileSizes.TooLargeFails | TransferClient.cpp:232-237 | With an encrypted size of 2^32 or more no exchange succeeds and nothing follows the first 828. |
| FileSizes.RunNeedsSmallFiles | TransferClient.cpp:328-365 | So in a run that returns true every file's encrypted size is below 2^32. |
| FileSizes.ConfirmableExactly | TransferClient.cpp:200-304 | Some server has a file confirmed if and only if its encrypted size is below 2^32. |
| FileSizes.ConfirmedUnreadExactly | Protocol.cpp:108-113 | Some server has it confirmed over a packet that cannot be read back if and only if that size is one of the last 267 below 2^32. |
| FileSizes.ConfirmedUnread | Protocol.cpp:108-113 | There are such files. |
| EndToEnd.FileDelivered | TransferClient.cpp:200-261 | In the exchange of a file that went through, the event just before its 900 is an accepted 1603 with the file's checksum and its ciphertext's size, and just before that its 828 went out, with the file's own size, name and ciphertext under the session's key, as packet 1 of 1. |
| EndToEnd.PreparedExactly | EncryptedFile.cpp:471-517 | A file is prepared if and only if it exists, opens and encrypts to something or is empty; its 828 then carries its size modulo 2^32, its name and its ciphertext, and a report matches if and only if it has its checksum and the ciphertext's size. |
| EndToEnd.DeliveredCopy | TransferClient.cpp:240 | That 1603 reports the checksum of a copy if and only if the copy has the file's checksum, which at the file's length means that G(x) divides its difference from the file and that it does not differ only within 32 consecutive bits. |
| EndToEnd.DeliveredCopyBytes | TransferClient.cpp:240 | Nor only within 4 consecutive bytes. |
| EndToEnd.FileCopied | TransferClient.cpp:306-325 | If every report is the checksum of the copy the server held then, the copy held at the report just before a file's 900 has the file's checksum; if it has its length, it is a multiple of G(x) away from it, and the file itself if within 32 bits of it. |
| EndToEnd.RunDelivers | TransferClient.cpp:328-365 | In a run that returns true, for each place in the list of files, while that file was the last one started, its 828, such a 1603 and the 900 for it stand one after the other; size, name, ciphertext and checksum are those of the file under the session's own identifier and 32-byte key. |
| EndToEnd.RunCopies | TransferClient.cpp:328-365 | Against a server whose reports are checksums of the copies it held, a run that returns true has for each place in the list such a 1603 just before its 900, made from a copy with the file's checksum; at the file's length, it is a multiple of G(x) away from the file, and the file itself if within 32 bits of it. |

## Left out

- RSA, OAEP, AES-CBC, DER and Base64 are functions of a run that may fail; nothing is assumed of them except, where a server answers properly, that its key decrypts to 32 bytes and that its last copy of a file, which it made by decrypting, is the file.
- Name resolution, the TCP connection and the inside of Boost.Asio: a socket is open or not, a send breaks or not, and the bytes a server delivers are given in advance, so nothing depends on timing.
- Reading the JSON configuration: a run has a validated record or none. Host and port only decide whether the connection opens.
- The file system: each credential file opens, is created or is removed or not, for a whole run; writes after opening succeed, local files do not change while they are read, and newline translation of text files is left out.
- Paths: the name a file is sent under is given with the file.
- Exceptions that leave `run`, such as asking a directory for its size.
- `crctab[1]` to `crctab[7]`, which no code reads.
- Console messages, among them the warning about the server's version, and `main`.
- Random key generation: a run generates at most one key pair, which is given in advance.
- Asynchrony of the network: which sends break, and after how many bytes, is a list given in advance; the theorems hold for every list.
