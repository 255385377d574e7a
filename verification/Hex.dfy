/** HexConverter of ConfigManager.cpp, over character codes. */
module Hex {
  import opened Types
  import opened Protocol

  function HexDigit(v: nat): uint8
    requires v < 16
  {
    if v < 10 then 48 + v else 87 + v
  }

  predicate IsHex(c: uint8) {
    48 <= c <= 57 || 65 <= c <= 70 || 97 <= c <= 102
  }

  function DigitOf(c: uint8): (v: nat)
    requires IsHex(c)
    ensures v < 16
  {
    if c <= 57 then c - 48 else if c <= 70 then c - 55 else c - 87
  }

  predicate IsSpace(c: uint8) {
    c == 32 || 9 <= c <= 13
  }

  /** A byte as two lower-case digits. */
  function PairOf(b: uint8): (p: Bytes)
    ensures |p| == 2
  {
    [HexDigit(b / 16), HexDigit(b % 16)]
  }

  function ToHex(b: Bytes): (s: Bytes)
    ensures |s| == 2 * |b|
  {
    if b == [] then [] else ToHex(b[..|b| - 1]) + PairOf(b[|b| - 1])
  }

  method ToHexLoop(b: Bytes) returns (s: Bytes)
    ensures s == ToHex(b)
  {
    s := [];
    for i := 0 to |b|
      invariant s == ToHex(b[..i])
    {
      var n := b[i];
      s := s + [HexDigit(n / 16), HexDigit(n % 16)];
      assert b[..i + 1][..i] == b[..i];
    }
    assert b[..|b|] == b;
  }

  // ---- strtol with base 16 ----

  function SkipSpaces(s: Bytes, i: nat): (p: nat)
    requires i <= |s|
    ensures i <= p <= |s|
    decreases |s| - i
  {
    if i < |s| && IsSpace(s[i]) then SkipSpaces(s, i + 1) else i
  }

  function DigitsFrom(s: Bytes, i: nat, value: nat): (r: (nat, nat))
    requires i <= |s|
    ensures i <= r.1 <= |s|
    decreases |s| - i
  {
    if i < |s| && IsHex(s[i]) then DigitsFrom(s, i + 1, 16 * value + DigitOf(s[i])) else (value, i)
  }

  function SignEnd(s: Bytes, p: nat): (q: nat)
    requires p <= |s|
    ensures p <= q <= |s|
  {
    if p < |s| && (s[p] == 43 || s[p] == 45) then p + 1 else p
  }

  /** A "0x" counts as a prefix only when a digit follows it. */
  function PrefixEnd(s: Bytes, q: nat): (r: nat)
    requires q <= |s|
    ensures q <= r <= |s|
  {
    if q + 2 < |s| && s[q] == 48 && (s[q + 1] == 120 || s[q + 1] == 88) && IsHex(s[q + 2])
    then q + 2 else q
  }

  /** The value, and where the scan ended: 0 when there was no digit. */
  function Strtol16(s: Bytes): (r: (int, nat)) {
    var p := SkipSpaces(s, 0);
    var start := PrefixEnd(s, SignEnd(s, p));
    if start < |s| && IsHex(s[start]) then
      var scan := DigitsFrom(s, start, 0);
      var value: int := scan.0;
      (if s[p] == 45 then -value else value, scan.1)
    else (0, 0)
  }

  function ChunkByte(chunk: Bytes): Option<uint8> {
    var (val, end) := Strtol16(chunk);
    if end != 2 || val < 0 || val > 0xFF then None else Some(val)
  }

  /** The bytes of the first n chunks of two characters, if read takes every one of them. */
  function Chunks(read: Bytes -> Option<uint8>, s: Bytes, n: nat): (r: Option<Bytes>)
    requires 2 * n <= |s|
    ensures r.Some? ==> |r.value| == n
  {
    if n == 0 then Some([])
    else match Chunks(read, s, n - 1)
      case None => None
      case Some(front) =>
        match read(s[2 * (n - 1)..2 * n])
        case None => None
        case Some(b) => Some(front + [b])
  }

  function ToBytes(s: Bytes): (r: Option<ClientId>) {
    if |s| != 32 then None else Chunks(ChunkByte, s, 16)
  }

  lemma {:induction false} LaterChunksFail(read: Bytes -> Option<uint8>, s: Bytes, n: nat, m: nat)
    requires n <= m && 2 * m <= |s| && Chunks(read, s, n).None?
    ensures Chunks(read, s, m).None?
  {
    if n < m {
      LaterChunksFail(read, s, n, m - 1);
    }
  }

  lemma NextChunk(read: Bytes -> Option<uint8>, s: Bytes, i: nat, bytes: Bytes)
    requires 2 * (i + 1) <= |s| && Chunks(read, s, i) == Some(bytes)
    ensures Chunks(read, s, i + 1) ==
      match read(s[2 * i..2 * (i + 1)]) case None => None case Some(b) => Some(bytes + [b])
  {
  }

  method ToBytesLoop(s: Bytes) returns (r: Option<ClientId>)
    ensures r == ToBytes(s)
  {
    if |s| != 32 {
      return None;
    }
    var bytes: Bytes := [];
    for i := 0 to 16
      invariant Chunks(ChunkByte, s, i) == Some(bytes)
    {
      var chunk := s[2 * i..2 * (i + 1)];
      var b := ReadChunk(chunk);
      NextChunk(ChunkByte, s, i, bytes);
      if b.None? {
        LaterChunksFail(ChunkByte, s, i + 1, 16);
        return None;
      }
      bytes := bytes + [b.value];
    }
    r := Some(bytes);
  }

  method ReadChunk(chunk: Bytes) returns (b: Option<uint8>)
    ensures b == ChunkByte(chunk)
  {
    var (val, end) := Strtol16(chunk);
    b := if end != 2 || val < 0 || val > 0xFF then None else Some(val);
  }

  // ---- which chunks are accepted, and round trips ----

  /** Two digits; or white space or a plus sign and a digit; or "-0". */
  predicate Accepted(c: uint8, d: uint8) {
    IsHex(d) && (IsHex(c) || c in {9, 10, 11, 12, 13, 32} || c == 43 || (c == 45 && d == 48))
  }

  lemma ScanOne(s: Bytes, value: nat)
    requires |s| == 2 && IsHex(s[1])
    ensures DigitsFrom(s, 1, value) == (16 * value + DigitOf(s[1]), 2)
  {
    assert DigitsFrom(s, 2, 16 * value + DigitOf(s[1])) == (16 * value + DigitOf(s[1]), 2);
  }

  lemma SkipOne(s: Bytes)
    requires |s| == 2
    ensures SkipSpaces(s, 1) == if IsSpace(s[1]) then 2 else 1
  {
    assert SkipSpaces(s, 2) == 2;
  }

  lemma HexFirst(s: Bytes)
    requires |s| == 2 && IsHex(s[0])
    ensures Strtol16(s) ==
      if IsHex(s[1]) then (16 * DigitOf(s[0]) + DigitOf(s[1]), 2)
      else (DigitOf(s[0]), 1)
  {
    var v := DigitOf(s[0]);
    if IsHex(s[1]) {
      ScanOne(s, v);
    } else {
      assert DigitsFrom(s, 1, v) == (v, 1);
    }
    assert DigitsFrom(s, 0, 0) == DigitsFrom(s, 1, v);
  }

  /** After one character of white space or sign there is room for one digit. */
  lemma PaddingFirst(s: Bytes)
    requires |s| == 2 && !IsHex(s[0])
    requires IsSpace(s[0]) || s[0] == 43 || s[0] == 45
    ensures !IsHex(s[1]) ==> Strtol16(s) == (0, 0)
    ensures IsHex(s[1]) ==>
      Strtol16(s) == (if s[0] == 45 then -(DigitOf(s[1]) as int) else DigitOf(s[1]), 2)
  {
    SkipOne(s);
    if IsHex(s[1]) {
      ScanOne(s, 0);
    }
  }

  lemma NothingFirst(s: Bytes)
    requires |s| == 2 && !IsHex(s[0]) && !IsSpace(s[0]) && s[0] != 43 && s[0] != 45
    ensures Strtol16(s) == (0, 0)
  {
  }

  /** Exactly these chunks are taken, and this is what they stand for. */
  lemma ChunkAccepted(s: Bytes)
    requires |s| == 2
    ensures ChunkByte(s) ==
      if !Accepted(s[0], s[1]) then None
      else if IsHex(s[0]) then Some(16 * DigitOf(s[0]) + DigitOf(s[1]))
      else Some(DigitOf(s[1]))
  {
    if IsHex(s[0]) {
      HexFirst(s);
    } else if IsSpace(s[0]) || s[0] == 43 || s[0] == 45 {
      PaddingFirst(s);
    } else {
      NothingFirst(s);
    }
  }

  // ---- round trips ----

  lemma DigitReads(v: nat)
    requires v < 16
    ensures IsHex(HexDigit(v)) && DigitOf(HexDigit(v)) == v
  {
  }

  lemma PairDigits(b: uint8)
    ensures AllHex(PairOf(b))
    ensures 16 * DigitOf(PairOf(b)[0]) + DigitOf(PairOf(b)[1]) == b
  {
    DigitReads(b / 16);
    DigitReads(b % 16);
  }

  lemma TwoDigitsRead(s: Bytes, n: nat)
    requires |s| == 2 && AllHex(s) && n == 16 * DigitOf(s[0]) + DigitOf(s[1])
    ensures ChunkByte(s) == Some(n)
  {
    HexFirst(s);
  }

  lemma PairReads(b: uint8)
    ensures ChunkByte(PairOf(b)) == Some(b)
  {
    PairDigits(b);
    TwoDigitsRead(PairOf(b), b);
  }

  lemma {:induction false} ChunksOfPrefix(read: Bytes -> Option<uint8>, s: Bytes, t: Bytes, n: nat)
    requires 2 * n <= |s|
    ensures Chunks(read, s + t, n) == Chunks(read, s, n)
  {
    if n > 0 {
      ChunksOfPrefix(read, s, t, n - 1);
      assert (s + t)[2 * (n - 1)..2 * n] == s[2 * (n - 1)..2 * n];
    }
  }

  lemma {:induction false} ChunksReadHex(read: Bytes -> Option<uint8>, b: Bytes)
    requires forall c: uint8 :: read(PairOf(c)) == Some(c)
    ensures Chunks(read, ToHex(b), |b|) == Some(b)
  {
    if b != [] {
      var n := |b| - 1;
      var front, last := b[..n], b[n];
      ChunksReadHex(read, front);
      ChunksOfPrefix(read, ToHex(front), PairOf(last), n);
      assert ToHex(b) == ToHex(front) + PairOf(last);
      assert ToHex(b)[2 * n..2 * (n + 1)] == PairOf(last);
      assert read(PairOf(last)) == Some(last);
      assert front + [last] == b;
    }
  }

  /** An identifier survives being written in hex and read back. */
  lemma HexRoundTrip(id: ClientId)
    ensures ToBytes(ToHex(id)) == Some(id)
  {
    forall c: uint8 ensures ChunkByte(PairOf(c)) == Some(c) { PairReads(c); }
    ChunksReadHex(ChunkByte, id);
  }

  predicate AllHex(s: Bytes) {
    forall i :: 0 <= i < |s| ==> IsHex(s[i])
  }

  function LowerChar(c: uint8): uint8 {
    if 65 <= c <= 90 then c + 32 else c
  }

  function Lower(s: Bytes): (r: Bytes)
    ensures |r| == |s| && forall i :: 0 <= i < |s| ==> r[i] == LowerChar(s[i])
  {
    seq(|s|, i requires 0 <= i < |s| => LowerChar(s[i]))
  }

  lemma DigitRewrites(c: uint8)
    requires IsHex(c)
    ensures HexDigit(DigitOf(c)) == LowerChar(c)
  {
  }

  lemma PairOfDigits(u: nat, v: nat, b: uint8)
    requires u < 16 && v < 16 && b == 16 * u + v
    ensures PairOf(b) == [HexDigit(u), HexDigit(v)]
  {
  }

  lemma NotHexStays(c: uint8)
    requires !IsHex(c)
    ensures LowerChar(c) != HexDigit(0)
  {
  }

  /** Reading a chunk and writing it back lowers its case, unless its first character was no digit. */
  lemma PairRewrites(s: Bytes, b: uint8)
    requires |s| == 2 && ChunkByte(s) == Some(b)
    ensures PairOf(b) == Lower(s) <==> AllHex(s)
  {
    ChunkAccepted(s);
    var v := DigitOf(s[1]);
    if IsHex(s[0]) {
      PairOfDigits(DigitOf(s[0]), v, b);
      DigitRewrites(s[0]);
      DigitRewrites(s[1]);
    } else {
      PairOfDigits(0, v, b);
      NotHexStays(s[0]);
      assert Lower(s)[0] != PairOf(b)[0];
    }
  }

  lemma {:induction false} ChunksRewrite(read: Bytes -> Option<uint8>, s: Bytes, n: nat)
    requires forall c: Bytes, b: uint8 :: |c| == 2 && read(c) == Some(b) ==> (PairOf(b) == Lower(c) <==> AllHex(c))
    requires 2 * n <= |s| && Chunks(read, s, n).Some?
    ensures ToHex(Chunks(read, s, n).value) == Lower(s[..2 * n]) <==> AllHex(s[..2 * n])
  {
    if n > 0 {
      var front, chunk := s[..2 * (n - 1)], s[2 * (n - 1)..2 * n];
      var bytes, b := Chunks(read, s, n - 1).value, read(chunk).value;
      ChunksRewrite(read, s, n - 1);
      assert s[..2 * n] == front + chunk;
      assert Chunks(read, s, n).value == bytes + [b];
      RewriteOneMore(bytes, b, front, chunk);
    }
  }

  lemma RewriteOneMore(bytes: Bytes, b: uint8, front: Bytes, chunk: Bytes)
    requires |front| == 2 * |bytes| && |chunk| == 2
    requires ToHex(bytes) == Lower(front) <==> AllHex(front)
    requires PairOf(b) == Lower(chunk) <==> AllHex(chunk)
    ensures ToHex(bytes + [b]) == Lower(front + chunk) <==> AllHex(front + chunk)
  {
    hide PairOf, LowerChar, AllHex;
    assert (bytes + [b])[..|bytes|] == bytes;
    assert Lower(front + chunk) == Lower(front) + Lower(chunk);
    SplitEqual(ToHex(bytes), PairOf(b), Lower(front), Lower(chunk));
    AllHexSplit(front, chunk);
  }

  lemma SplitEqual(a: Bytes, b: Bytes, c: Bytes, d: Bytes)
    requires |a| == |c| && |b| == |d|
    ensures a + b == c + d <==> a == c && b == d
  {
    assert (a + b)[..|a|] == a && (a + b)[|a|..] == b;
    assert (c + d)[..|a|] == c && (c + d)[|a|..] == d;
  }

  lemma AllHexSplit(a: Bytes, b: Bytes)
    ensures AllHex(a + b) <==> AllHex(a) && AllHex(b)
  {
    if AllHex(a + b) {
      forall i | 0 <= i < |a| ensures IsHex(a[i]) { assert (a + b)[i] == a[i]; }
      forall i | 0 <= i < |b| ensures IsHex(b[i]) { assert (a + b)[|a| + i] == b[i]; }
    }
  }

  /** Writing an accepted text back gives it in lower case exactly when it is all hex digits. */
  lemma HexRewrites(s: Bytes)
    requires ToBytes(s).Some?
    ensures ToHex(ToBytes(s).value) == Lower(s) <==> AllHex(s)
  {
    forall c: Bytes, b: uint8 | |c| == 2 && ChunkByte(c) == Some(b) ensures PairOf(b) == Lower(c) <==> AllHex(c) {
      PairRewrites(c, b);
    }
    ChunksRewrite(ChunkByte, s, 16);
    assert s[..32] == s;
  }

  lemma {:induction false} EveryChunkTaken(read: Bytes -> Option<uint8>, s: Bytes, n: nat)
    requires forall c: Bytes :: |c| == 2 && AllHex(c) ==> read(c).Some?
    requires 2 * n <= |s| && AllHex(s)
    ensures Chunks(read, s, n).Some?
  {
    if n > 0 {
      EveryChunkTaken(read, s, n - 1);
      var c := s[2 * (n - 1)..2 * n];
      assert AllHex(c) && read(c).Some?;
    }
  }

  /** Every text of 32 hex digits is accepted. */
  lemma HexIsAccepted(s: Bytes)
    requires |s| == 32 && AllHex(s)
    ensures ToBytes(s).Some?
  {
    forall c: Bytes | |c| == 2 && AllHex(c) ensures ChunkByte(c).Some? { ChunkAccepted(c); }
    EveryChunkTaken(ChunkByte, s, 16);
  }

  // ---- exactly what is accepted ----

  lemma {:induction false} ChunksExactly(read: Bytes -> Option<uint8>, s: Bytes, n: nat)
    requires 2 * n <= |s|
    ensures Chunks(read, s, n).Some? <==> forall k: nat :: k < n ==> read(s[2 * k..2 * k + 2]).Some?
    ensures Chunks(read, s, n).Some? ==>
      forall k: nat :: k < n ==> read(s[2 * k..2 * k + 2]) == Some(Chunks(read, s, n).value[k])
  {
    if n > 0 {
      ChunksExactly(read, s, n - 1);
      assert 2 * (n - 1) + 2 == 2 * n;
    }
  }

  /** What an accepted pair of characters stands for. */
  function PairValue(c: uint8, d: uint8): uint8
    requires Accepted(c, d)
  {
    if IsHex(c) then 16 * DigitOf(c) + DigitOf(d) else DigitOf(d)
  }

  predicate AllAccepted(s: Bytes) {
    |s| == 32 && forall k: nat :: k < 16 ==> AcceptedAt(s, k)
  }

  predicate AcceptedAt(s: Bytes, k: nat)
    requires |s| == 32 && k < 16
  {
    Accepted(s[2 * k], s[2 * k + 1])
  }

  /** A text is an identifier exactly if it is 32 characters long and each pair of them is accepted. */
  lemma ToBytesExactly(s: Bytes)
    ensures ToBytes(s).Some? <==> AllAccepted(s)
    ensures AllAccepted(s) ==>
      forall k: nat :: k < 16 ==> AcceptedAt(s, k) && ToBytes(s).value[k] == PairValue(s[2 * k], s[2 * k + 1])
  {
    if |s| == 32 {
      hide ChunkByte, Accepted;
      ChunksExactly(ChunkByte, s, 16);
      forall k: nat | k < 16
        ensures ChunkByte(s[2 * k..2 * k + 2]) ==
                if AcceptedAt(s, k) then Some(PairValue(s[2 * k], s[2 * k + 1])) else None
      {
        OnePair(s[2 * k..2 * k + 2]);
      }
    }
  }

  lemma OnePair(c: Bytes)
    requires |c| == 2
    ensures ChunkByte(c) == if Accepted(c[0], c[1]) then Some(PairValue(c[0], c[1])) else None
  {
    hide ChunkByte;
    ChunkAccepted(c);
  }

  // ---- the digits themselves ----

  const LOWER_DIGITS: string := "0123456789abcdef"
  const UPPER_DIGITS: string := "0123456789ABCDEF"

  /** Sixteen digits are written, lower case, and read in either case with their place as their value. */
  lemma DigitsAreHex(c: uint8)
    ensures IsHex(c) <==> exists v: nat :: v < 16 && (c == LOWER_DIGITS[v] as int || c == UPPER_DIGITS[v] as int)
    ensures forall v: nat :: v < 16 && (c == LOWER_DIGITS[v] as int || c == UPPER_DIGITS[v] as int) ==> DigitOf(c) == v
    ensures forall v: nat :: v < 16 ==> HexDigit(v) == LOWER_DIGITS[v] as int
  {
    if IsHex(c) {
      var v := DigitOf(c);
      assert c == LOWER_DIGITS[v] as int || c == UPPER_DIGITS[v] as int;
    }
  }
}
