/** Stored credentials: the two files ConfigManager.cpp keeps. */
module Config {
  import opened Types
  import opened Protocol
  import Hex

  const NEWLINE: uint8 := 10

  datatype ClientInfo = ClientInfo(name: Bytes, uuid: ClientId, privateKey: Bytes)

  /** me.info and priv.key, each present or not. */
  datatype Disk = Disk(meInfo: Option<Bytes>, privKey: Option<Bytes>)

  /** Which file operations work in a run; each operation is tried at most once. */
  datatype DiskAccess = DiskAccess(meOpens: bool, keyOpens: bool, meCreates: bool, keyCreates: bool,
                                   meRemoves: bool, keyRemoves: bool)

  predicate OneLine(s: Bytes) {
    NEWLINE !in s
  }

  /** std::getline: the text before the next newline or the end; fails only when nothing is left. */
  function GetLine(s: Bytes): (r: Option<(Bytes, Bytes)>) {
    if s == [] then None
    else if s[0] == NEWLINE then Some(([], s[1..]))
    else match GetLine(s[1..])
      case None => Some((s, []))
      case Some((line, rest)) => Some(([s[0]] + line, rest))
  }

  function ParseClientInfo(text: Bytes): Option<ClientInfo> {
    match GetLine(text)
    case None => None
    case Some((name, rest1)) =>
      match GetLine(rest1)
      case None => None
      case Some((uuid, rest2)) =>
        match GetLine(rest2)
        case None => None
        case Some((key, _)) =>
          match Hex.ToBytes(uuid)
          case None => None
          case Some(id) => Some(ClientInfo(name, id, key))
  }

  function LoadClientInfo(d: Disk, a: DiskAccess): Option<ClientInfo> {
    if d.meInfo.None? || !a.meOpens then None else ParseClientInfo(d.meInfo.value)
  }

  function LoadPrivateKey(d: Disk, a: DiskAccess): Option<Bytes> {
    if d.privKey.None? || !a.keyOpens then None
    else match GetLine(d.privKey.value)
      case None => None
      case Some((line, _)) => if line == [] then None else Some(line)
  }

  /** The key text a run takes: priv.key's first line, or else the third line of me.info. */
  function KeyText(d: Disk, a: DiskAccess, info: ClientInfo): Bytes {
    match LoadPrivateKey(d, a)
    case None => info.privateKey
    case Some(line) => line
  }

  function InfoText(name: Bytes, uuid: ClientId, key: Bytes): Bytes {
    name + [NEWLINE] + Hex.ToHex(uuid) + [NEWLINE] + key + [NEWLINE]
  }

  /** me.info is written before priv.key is opened, so a failure there leaves a new me.info behind. */
  function SaveClientInfo(d: Disk, a: DiskAccess, name: Bytes, uuid: ClientId, key: Bytes): (bool, Disk) {
    if !a.meCreates then (false, d)
    else
      var d' := d.(meInfo := Some(InfoText(name, uuid, key)));
      if !a.keyCreates then (false, d') else (true, d'.(privKey := Some(key)))
  }

  function RemoveClientInfo(d: Disk, a: DiskAccess): Disk {
    Disk(if a.meRemoves then None else d.meInfo, if a.keyRemoves then None else d.privKey)
  }

  // ---- what is saved is what is loaded ----

  lemma {:induction false} GetLineStops(line: Bytes, rest: Bytes)
    requires OneLine(line)
    ensures GetLine(line + [NEWLINE] + rest) == Some((line, rest))
  {
    var s := line + [NEWLINE] + rest;
    if line == [] {
      assert s == [NEWLINE] + rest;
    } else {
      assert s[1..] == line[1..] + [NEWLINE] + rest;
      assert s[0] == line[0] && line[0] in line;
      GetLineStops(line[1..], rest);
      assert [line[0]] + line[1..] == line;
    }
  }

  lemma {:induction false} GetLineIsOneLine(s: Bytes)
    requires s != []
    ensures GetLine(s).Some? && OneLine(GetLine(s).value.0)
    ensures OneLine(s) ==> GetLine(s) == Some((s, []))
  {
    if s[0] != NEWLINE {
      if |s| == 1 {
        assert s == [s[0]] && GetLine(s[1..]) == None;
      } else {
        GetLineIsOneLine(s[1..]);
        assert s == [s[0]] + s[1..];
      }
    }
  }

  lemma {:induction false} HexIsOneLine(b: Bytes)
    ensures OneLine(Hex.ToHex(b))
  {
    if b != [] {
      HexIsOneLine(b[..|b| - 1]);
    }
  }

  /** Saved credentials are loaded back as they were exactly when neither the name nor the key has a newline. */
  lemma InfoRoundTrip(name: Bytes, uuid: ClientId, key: Bytes)
    ensures ParseClientInfo(InfoText(name, uuid, key)) == Some(ClientInfo(name, uuid, key))
            <==> OneLine(name) && OneLine(key)
  {
    var text := InfoText(name, uuid, key);
    var hex := Hex.ToHex(uuid);
    if OneLine(name) && OneLine(key) {
      assert text == name + [NEWLINE] + (hex + [NEWLINE] + (key + [NEWLINE] + []));
      GetLineStops(name, hex + [NEWLINE] + (key + [NEWLINE] + []));
      HexIsOneLine(uuid);
      GetLineStops(hex, key + [NEWLINE] + []);
      GetLineStops(key, []);
      Hex.HexRoundTrip(uuid);
    }
    if ParseClientInfo(text).Some? {
      var (n, rest1) := GetLine(text).value;
      var (u, rest2) := GetLine(rest1).value;
      GetLineIsOneLine(text);
      GetLineIsOneLine(rest2);
    }
  }

  /** The stored private key is read back whole exactly when it is one non-empty line. */
  lemma KeyRoundTrip(d: Disk, a: DiskAccess, key: Bytes)
    requires d.privKey == Some(key) && a.keyOpens
    ensures LoadPrivateKey(d, a) == Some(key) <==> key != [] && OneLine(key)
  {
    if key != [] {
      GetLineIsOneLine(key);
    }
  }

  // ---- any text, line by line ----

  /** The text of whole lines. */
  function Joined(lines: seq<Bytes>): Bytes {
    if lines == [] then [] else lines[0] + [NEWLINE] + Joined(lines[1..])
  }

  predicate AllOneLine(lines: seq<Bytes>) {
    forall i :: 0 <= i < |lines| ==> OneLine(lines[i])
  }

  /** The lines of a text that ends in the given rest; a rest is a line unless it is empty. */
  function LinesOf(lines: seq<Bytes>, rest: Bytes): seq<Bytes> {
    if rest == [] then lines else lines + [rest]
  }

  /** Every text is some whole lines and a rest. */
  lemma {:induction false} TextSplits(text: Bytes) returns (lines: seq<Bytes>, rest: Bytes)
    ensures text == Joined(lines) + rest && AllOneLine(lines) && OneLine(rest)
    decreases |text|
  {
    if text == [] {
      lines, rest := [], [];
    } else {
      var more, last := TextSplits(text[1..]);
      assert text == [text[0]] + text[1..];
      if text[0] == NEWLINE {
        lines, rest := [[]] + more, last;
        assert Joined(lines) == [] + [NEWLINE] + Joined(more);
      } else if more == [] {
        lines, rest := [], [text[0]] + last;
      } else {
        lines, rest := [[text[0]] + more[0]] + more[1..], last;
        assert Joined(lines) == [text[0]] + more[0] + [NEWLINE] + Joined(more[1..]);
        assert Joined(lines) == [text[0]] + Joined(more);
      }
    }
  }

  lemma NextLine(lines: seq<Bytes>, rest: Bytes)
    requires AllOneLine(lines) && OneLine(rest)
    ensures GetLine(Joined(lines) + rest) ==
      if lines != [] then Some((lines[0], Joined(lines[1..]) + rest))
      else if rest != [] then Some((rest, []))
      else None
  {
    hide GetLine;
    if lines != [] {
      assert Joined(lines) + rest == lines[0] + [NEWLINE] + (Joined(lines[1..]) + rest);
      GetLineStops(lines[0], Joined(lines[1..]) + rest);
    } else {
      assert Joined(lines) + rest == rest;
      if rest != [] {
        GetLineIsOneLine(rest);
      } else {
        NoLine();
      }
    }
  }

  lemma NoLine()
    ensures GetLine([]) == None
  {
  }

  /** A line of the text is read, and the lines after it are left. */
  lemma LineTaken(lines: seq<Bytes>, rest: Bytes) returns (lines': seq<Bytes>, rest': Bytes)
    requires AllOneLine(lines) && OneLine(rest) && LinesOf(lines, rest) != []
    ensures AllOneLine(lines') && OneLine(rest') && LinesOf(lines', rest') == LinesOf(lines, rest)[1..]
    ensures GetLine(Joined(lines) + rest) == Some((LinesOf(lines, rest)[0], Joined(lines') + rest'))
  {
    hide GetLine;
    NextLine(lines, rest);
    if lines != [] {
      lines', rest' := lines[1..], rest;
    } else {
      lines', rest' := [], [];
      assert Joined([]) + [] == [];
    }
  }

  lemma NoLineTaken(lines: seq<Bytes>, rest: Bytes)
    requires AllOneLine(lines) && OneLine(rest) && LinesOf(lines, rest) == []
    ensures GetLine(Joined(lines) + rest) == None
  {
    NextLine(lines, rest);
  }

  /** me.info is loaded exactly if it has three lines and the second is an identifier; a fourth does not matter. */
  lemma LoadsThreeLines(lines: seq<Bytes>, rest: Bytes)
    requires AllOneLine(lines) && OneLine(rest)
    ensures
      var all := LinesOf(lines, rest);
      ParseClientInfo(Joined(lines) + rest) ==
      if |all| < 3 || Hex.ToBytes(all[1]).None? then None
      else Some(ClientInfo(all[0], Hex.ToBytes(all[1]).value, all[2]))
  {
    hide GetLine, LinesOf, Joined, Hex.ToBytes, AllOneLine, OneLine;
    var all := LinesOf(lines, rest);
    if all == [] {
      NoLineTaken(lines, rest);
    } else {
      var lines1, rest1 := LineTaken(lines, rest);
      if |all| == 1 {
        NoLineTaken(lines1, rest1);
      } else {
        var lines2, rest2 := LineTaken(lines1, rest1);
        if |all| == 2 {
          NoLineTaken(lines2, rest2);
        } else {
          var lines3, rest3 := LineTaken(lines2, rest2);
        }
      }
    }
  }

  /** The private key is the first line of priv.key, with or without a newline after it, unless that is empty. */
  lemma LoadsFirstLine(d: Disk, a: DiskAccess, lines: seq<Bytes>, rest: Bytes)
    requires AllOneLine(lines) && OneLine(rest) && d.privKey == Some(Joined(lines) + rest)
    ensures
      var all := LinesOf(lines, rest);
      LoadPrivateKey(d, a) == if !a.keyOpens || all == [] || all[0] == [] then None else Some(all[0])
  {
    hide GetLine, LinesOf, Joined, AllOneLine, OneLine;
    if LinesOf(lines, rest) == [] {
      NoLineTaken(lines, rest);
    } else {
      var lines1, rest1 := LineTaken(lines, rest);
    }
  }

  /** What cannot be opened or is not there is not loaded; otherwise me.info is what its text says. */
  lemma LoadsWhatIsThere(d: Disk, a: DiskAccess)
    ensures LoadClientInfo(d, a).Some? <==> a.meOpens && d.meInfo.Some? && ParseClientInfo(d.meInfo.value).Some?
    ensures LoadClientInfo(d, a).Some? ==> LoadClientInfo(d, a) == ParseClientInfo(d.meInfo.value)
    ensures LoadPrivateKey(d, a).Some? ==> a.keyOpens && d.privKey.Some?
  {
  }
}
