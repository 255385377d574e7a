/** The wire format of Protocol.cpp: requests, responses and their fields. */
module Protocol {
  import opened Types
  import opened Words

  const MAX_CRC_ATTEMPTS: nat := 4
  const CLIENT_VERSION: uint8 := 3
  const UUID_SIZE: nat := 16
  const FILE_NAME_FIELD_SIZE: nat := 255
  const FILE_METADATA_SIZE: nat := 267
  const NAME_FIELD_SIZE: nat := 255
  const PUBLIC_KEY_SIZE: nat := 160
  const REQUEST_HEADER_SIZE: nat := 23
  const RESPONSE_HEADER_SIZE: nat := 7
  const CRC_PAYLOAD_SIZE: nat := 279
  const AES_KEY_PAYLOAD_SIZE: nat := 144

  type ClientId = id: Bytes | |id| == 16 witness Zeros(16)

  const ZERO_ID: ClientId := Zeros(16)

  // Response codes stay plain words: the cast in parseHeader admits any value.
  const REGISTRATION_SUCCESS: uint16 := 1600
  const REGISTRATION_FAILED: uint16 := 1601
  const AES_KEY_RECEIVED: uint16 := 1602
  const FILE_RECEIVED_WITH_CRC: uint16 := 1603
  const MESSAGE_CONFIRMED: uint16 := 1604
  const RECONNECT_APPROVED: uint16 := 1605
  const RECONNECT_REJECTED: uint16 := 1606
  const GENERAL_ERROR: uint16 := 1607

  datatype Verdict = CrcValid | CrcInvalidRetry | CrcInvalidAbort

  /** One request, with the arguments its builder was given. */
  datatype Request =
    | Registration(name: Bytes)
    | PublicKey(id: ClientId, name: Bytes, key: Bytes)
    | Reconnect(id: ClientId, name: Bytes)
    | SendFile(id: ClientId, origSize: uint32, packetNum: uint16, totalPackets: uint16, fileName: Bytes, content: Bytes)
    | CrcStatus(id: ClientId, verdict: Verdict, fileName: Bytes)

  datatype ResponseHeader = ResponseHeader(version: uint8, code: uint16, payloadSize: uint32)
  datatype ServerResponse = ServerResponse(header: ResponseHeader, payload: Bytes)
  datatype AesKeyResponse = AesKeyResponse(id: ClientId, encryptedAesKey: Bytes)
  datatype FileCrcResponse = FileCrcResponse(id: ClientId, contentSize: uint32, fileName: Bytes, cksum: uint32)

  // ---- fields ----

  function Take(s: Bytes, n: nat): (r: Bytes)
    ensures |r| == Min(|s|, n)
  {
    s[..Min(|s|, n)]
  }

  /** A field of the given size: what fits, then NULs. */
  function Padded(s: Bytes, room: nat, size: nat): (r: Bytes)
    requires room <= size
    ensures |r| == size
  {
    Take(s, room) + Zeros(size - Min(|s|, room))
  }

  /** Text keeps one byte of its field for the terminator. */
  function FixedString(s: Bytes, size: nat): (r: Bytes)
    requires size > 0
    ensures |r| == size
  {
    Padded(s, size - 1, size)
  }

  /** What strnlen sees of a field: the bytes before the first NUL. */
  function CString(field: Bytes): (r: Bytes)
  {
    if field == [] || field[0] == 0 then [] else [field[0]] + CString(field[1..])
  }

  predicate NulFree(s: Bytes) {
    forall i :: 0 <= i < |s| ==> s[i] != 0
  }

  // ---- requests ----

  function IdOf(r: Request): ClientId {
    match r
    case Registration(_) => ZERO_ID
    case PublicKey(id, _, _) => id
    case Reconnect(id, _) => id
    case SendFile(id, _, _, _, _, _) => id
    case CrcStatus(id, _, _) => id
  }

  function VerdictCode(v: Verdict): uint16 {
    match v
    case CrcValid => 900
    case CrcInvalidRetry => 901
    case CrcInvalidAbort => 902
  }

  function CodeOf(r: Request): uint16 {
    match r
    case Registration(_) => 825
    case PublicKey(_, _, _) => 826
    case Reconnect(_, _) => 827
    case SendFile(_, _, _, _, _, _) => 828
    case CrcStatus(_, verdict, _) => VerdictCode(verdict)
  }

  function PayloadOf(r: Request): Bytes {
    match r
    case Registration(name) => FixedString(name, NAME_FIELD_SIZE)
    case PublicKey(_, name, key) =>
      FixedString(name, NAME_FIELD_SIZE) + Padded(key, PUBLIC_KEY_SIZE, PUBLIC_KEY_SIZE)
    case Reconnect(_, name) => FixedString(name, NAME_FIELD_SIZE)
    case SendFile(_, orig, num, total, fileName, content) =>
      U32LE(Narrow(|content|)) + U32LE(orig) + U16LE(num) + U16LE(total) +
      FixedString(fileName, FILE_NAME_FIELD_SIZE) + content
    case CrcStatus(_, _, fileName) => FixedString(fileName, FILE_NAME_FIELD_SIZE)
  }

  /** The payloadSize field: for a file, computed from the already narrowed content size. */
  function SizeField(r: Request): uint32 {
    match r
    case Registration(_) => Narrow(NAME_FIELD_SIZE)
    case PublicKey(_, _, _) => Narrow(NAME_FIELD_SIZE + PUBLIC_KEY_SIZE)
    case Reconnect(_, _) => Narrow(NAME_FIELD_SIZE)
    case SendFile(_, _, _, _, _, content) => Narrow(FILE_METADATA_SIZE + Narrow(|content|))
    case CrcStatus(_, _, _) => Narrow(FILE_NAME_FIELD_SIZE)
  }

  function HeaderBytes(id: ClientId, code: uint16, size: uint32): (b: Bytes)
    ensures |b| == REQUEST_HEADER_SIZE
  {
    id + [CLIENT_VERSION] + U16LE(code) + U32LE(size)
  }

  /** The packet a builder makes. */
  function Encode(r: Request): Bytes {
    HeaderBytes(IdOf(r), CodeOf(r), SizeField(r)) + PayloadOf(r)
  }

  function EncodeAll(rs: seq<Request>): Bytes {
    if rs == [] then [] else EncodeAll(rs[..|rs| - 1]) + Encode(rs[|rs| - 1])
  }

  // ---- responses ----

  function ParseHeader(b: Bytes): Option<ResponseHeader> {
    if |b| < RESPONSE_HEADER_SIZE then None
    else Some(ResponseHeader(b[0], ReadU16LE(b[1..]), ReadU32LE(b[3..])))
  }

  function ExpectedPayloadSize(code: uint16): Option<nat> {
    if code == REGISTRATION_SUCCESS || code == MESSAGE_CONFIRMED || code == RECONNECT_REJECTED then Some(UUID_SIZE)
    else if code == AES_KEY_RECEIVED || code == RECONNECT_APPROVED then Some(AES_KEY_PAYLOAD_SIZE)
    else if code == FILE_RECEIVED_WITH_CRC then Some(CRC_PAYLOAD_SIZE)
    else if code == REGISTRATION_FAILED || code == GENERAL_ERROR then Some(0)
    else None
  }

  function ParseClientId(payload: Bytes): Option<ClientId> {
    if |payload| < UUID_SIZE then None else Some(payload[..16])
  }

  function ParseAesKey(payload: Bytes): Option<AesKeyResponse> {
    if |payload| < UUID_SIZE then None else Some(AesKeyResponse(payload[..16], payload[16..]))
  }

  function FileCrcOf(payload: Bytes): FileCrcResponse
    requires |payload| >= CRC_PAYLOAD_SIZE
  {
    FileCrcResponse(payload[..16], ReadU32LE(payload[16..20]), CString(payload[20..275]), ReadU32LE(payload[275..279]))
  }

  function ParseFileCrc(payload: Bytes): Option<FileCrcResponse> {
    if |payload| < CRC_PAYLOAD_SIZE then None else Some(FileCrcOf(payload))
  }
}
