/** The envelope that presents an `frr.conf` body to Batfish as a concatenated Cumulus configuration
    (harness/tools/batfish.py): the line scan that finds interfaces and addresses, and the printer. */
module Cumulus {
  import opened Text

  // ---- Python's line and word splitting ---------------------------------

  /** The characters at which `str.splitlines` ends a line. */
  predicate IsBreak(c: char) {
    var n := c as int;
    0x0A <= n <= 0x0D || 0x1C <= n <= 0x1E || n == 0x85 || n == 0x2028 || n == 0x2029
  }

  /** What follows the line break that `s` starts with; "\r\n" is one break. */
  function AfterBreak(s: string): string
    requires s != []
  {
    if |s| > 1 && s[0] == '\r' && s[1] == '\n' then s[2..] else s[1..]
  }

  function SplitLines(s: string): (lines: seq<string>)
    ensures s != [] ==> lines != []
  {
    if s == [] then []
    else if IsBreak(s[0]) then [""] + SplitLines(AfterBreak(s))
    else if |s| == 1 then [s]
    else
      var rest := SplitLines(s[1..]);
      [[s[0]] + rest[0]] + rest[1..]
  }

  /** No line holds a line break. */
  lemma {:induction false} LinesUnbroken(s: string)
    ensures forall line, c | line in SplitLines(s) && c in line :: !IsBreak(c) && c in s
  {
    hide IsBreak;
    if s == [] {
    } else if IsBreak(s[0]) {
      LinesUnbroken(AfterBreak(s));
    } else if |s| > 1 {
      var rest := SplitLines(s[1..]);
      LinesUnbroken(s[1..]);
      assert s == [s[0]] + s[1..];
      assert forall line | line in SplitLines(s) :: line == [s[0]] + rest[0] || line in rest;
      assert rest[0] in rest;
    }
  }

  function FirstWord(s: string): (w: string)
    ensures w <= s
  {
    if s == [] || IsSpace(s[0]) then [] else [s[0]] + FirstWord(s[1..])
  }

  /** `str.split(None, maxsplit)`: the remainder keeps its trailing blanks. */
  function SplitWords(s: string, maxsplit: nat): seq<string>
    decreases maxsplit
  {
    var t := LStrip(s);
    if t == [] then []
    else if maxsplit == 0 then [t]
    else [FirstWord(t)] + SplitWords(t[|FirstWord(t)|..], maxsplit - 1)
  }

  function RStripNewlines(s: string): (t: string)
    ensures t <= s
  {
    if s != [] && s[|s| - 1] == '\n' then RStripNewlines(s[..|s| - 1]) else s
  }

  function Join(lines: seq<string>): string
    requires lines != []
  {
    if |lines| == 1 then lines[0] else Join(lines[..|lines| - 1]) + "\n" + lines[|lines| - 1]
  }

  lemma {:induction false} LStripFacts(s: string)
    ensures |LStrip(s)| <= |s| && LStrip(s) == s[|s| - |LStrip(s)|..]
    ensures LStrip(s) != [] ==> !IsSpace(LStrip(s)[0])
    ensures LStrip(s) == [] <==> forall c | c in s :: IsSpace(c)
  {
    if s != [] && IsSpace(s[0]) {
      LStripFacts(s[1..]);
      assert s == [s[0]] + s[1..];
    }
  }

  lemma {:induction false} RStripFacts(s: string)
    ensures RStrip(s) <= s
    ensures RStrip(s) != [] ==> !IsSpace(RStrip(s)[|RStrip(s)| - 1])
  {
    if s != [] && IsSpace(s[|s| - 1]) {
      RStripFacts(s[..|s| - 1]);
    }
  }

  lemma StripFacts(s: string)
    ensures forall c | c in Strip(s) :: c in s
    ensures Strip(s) != [] ==> !IsSpace(Strip(s)[0]) && !IsSpace(Strip(s)[|Strip(s)| - 1])
    ensures s != [] && !IsSpace(s[0]) && Strip(s) != [] ==> Strip(s)[0] == s[0]
  {
    LStripFacts(s);
    RStripFacts(LStrip(s));
    if Strip(s) != [] {
      assert Strip(s)[0] == LStrip(s)[0];
    }
  }

  lemma {:induction false} FirstWordIs(w: string, s: string)
    requires w < s && IsSpace(s[|w|]) && forall c | c in w :: !IsSpace(c)
    ensures FirstWord(s) == w
  {
    if w == [] {
    } else {
      assert w == [w[0]] + w[1..];
      FirstWordIs(w[1..], s[1..]);
    }
  }

  /** Splitting a keyword off a stripped line leaves what follows it, and something does. */
  lemma SplitKeyword(w: string, s: string, maxsplit: nat)
    requires w != [] && w + " " <= s && (forall c | c in w :: !IsSpace(c)) && !IsSpace(s[|s| - 1])
    ensures
      var t := LStrip(s[|w|..]);
      && t != [] && LStrip(t) == t && !IsSpace(t[|t| - 1])
      && SplitWords(s, maxsplit + 1) == [w] + SplitWords(t, maxsplit)
  {
    assert (w + " ")[|w|] == ' ';
    FirstWordIs(w, s);
    assert LStrip(s) == s;
    var rest := s[|w|..];
    LStripFacts(rest);
    assert rest[|rest| - 1] == s[|s| - 1];
    assert rest[|rest| - 1] in rest;
  }

  // ---- one line of the body ---------------------------------------------

  predicate Indented(line: string) {
    StartsWith(line, " ")
  }

  predicate Opens(line: string) {
    StartsWith(Strip(line), "interface ") && !Indented(line)
  }

  predicate HasAddress(line: string) {
    StartsWith(Strip(line), "ip address ")
  }

  predicate Closes(line: string) {
    !Indented(line) && Strip(line) != [] && !StartsWith(Strip(line), "!")
  }

  /** The name index exists, and the name is what follows the keyword, never empty. */
  lemma OpensHasName(line: string)
    requires Opens(line)
    ensures
      var words := SplitWords(Strip(line), 1);
      |words| == 2 && words[1] == LStrip(Strip(line)[9..]) != []
  {
    var s := Strip(line);
    StripFacts(line);
    assert "interface" + " " == "interface ";
    SplitKeyword("interface", s, 0);
  }

  /** The address index exists, and the address is never empty. */
  lemma AddressIsThere(line: string)
    requires HasAddress(line)
    ensures
      var words := SplitWords(Strip(line), 2);
      |words| == 3 && words[2] == LStrip(Strip(line)[10..]) != []
  {
    hide LStrip, RStrip, Strip, SplitWords, IsSpace;
    var s := Strip(line);
    StripFacts(line);
    SpaceOnly("ip");
    SpaceOnly("address");
    assert "ip" + " " <= "ip address ";
    SplitKeyword("ip", s, 1);
    SecondKeyword(s);
    var t := s[3..];
    SplitKeyword("address", t, 0);
    assert t[7..] == s[10..];
    SplitNone(LStrip(s[10..]));
  }

  lemma SpaceOnly(w: string)
    requires forall c | c in w :: 'a' <= c <= 'z'
    ensures forall c | c in w :: !IsSpace(c)
  {
  }

  lemma SplitNone(t: string)
    requires t != [] && LStrip(t) == t
    ensures SplitWords(t, 0) == [t]
  {
  }

  lemma SecondKeyword(s: string)
    requires "ip address " <= s && !IsSpace(s[|s| - 1])
    ensures LStrip(s[2..]) == s[3..] && "address" + " " <= s[3..] && s[3..][|s| - 4] == s[|s| - 1]
  {
    assert s[2] == ' ' && s[3] == 'a';
    assert s[2..][1..] == s[3..];
    assert "ip address "[3..] == "address" + " ";
    assert s[3..][..8] == "address" + " ";
  }

  function NameOn(line: string): string
    requires Opens(line)
  {
    OpensHasName(line);
    Strip(SplitWords(Strip(line), 1)[1])
  }

  function AddressOn(line: string): string
    requires HasAddress(line)
  {
    AddressIsThere(line);
    Strip(SplitWords(Strip(line), 2)[2])
  }

  // ---- the scan ---------------------------------------------------------

  /** The interface whose block is open after these lines. */
  function Current(lines: seq<string>): Option<string> {
    if lines == [] then None
    else
      var line, before := lines[|lines| - 1], Current(lines[..|lines| - 1]);
      if Opens(line) then Some(NameOn(line))
      else if before.Some? && HasAddress(line) then before
      else if Closes(line) then None
      else before
  }

  /** The interfaces named, in the order of their first blocks. */
  function Names(lines: seq<string>): seq<string> {
    if lines == [] then []
    else
      var line, before := lines[|lines| - 1], Names(lines[..|lines| - 1]);
      if Opens(line) && NameOn(line) !in before then before + [NameOn(line)] else before
  }

  /** The addresses in the blocks of one interface, in file order. */
  function Addresses(lines: seq<string>, name: string): seq<string> {
    if lines == [] then []
    else
      var line, rest := lines[|lines| - 1], lines[..|lines| - 1];
      Addresses(rest, name)
      + (if !Opens(line) && HasAddress(line) && Current(rest) == Some(name) then [AddressOn(line)] else [])
  }

  function Interfaces(lines: seq<string>): map<string, seq<string>> {
    map name | name in Names(lines) :: Addresses(lines, name)
  }

  lemma NamesAreOpened(lines: seq<string>)
    ensures forall i, j | 0 <= i < j < |Names(lines)| :: Names(lines)[i] != Names(lines)[j]
    ensures Current(lines).Some? ==> Current(lines).value in Names(lines)
    ensures forall name | name !in Names(lines) :: Addresses(lines, name) == []
  {
    if lines != [] {
      NamesAreOpened(lines[..|lines| - 1]);
    }
  }

  /** A line that leaves an open block open. */
  predicate Inside(line: string) {
    !Opens(line) && (HasAddress(line) || !Closes(line))
  }

  predicate OpenedAt(lines: seq<string>, i: nat, name: string)
    requires i < |lines|
  {
    Opens(lines[i]) && NameOn(lines[i]) == name && forall k | i < k < |lines| :: Inside(lines[k])
  }

  lemma OpenedBefore(lines: seq<string>, i: nat, name: string)
    requires i < |lines| - 1
    ensures OpenedAt(lines, i, name)
       <==> OpenedAt(lines[..|lines| - 1], i, name) && Inside(lines[|lines| - 1])
  {
    hide Opens, Inside, NameOn;
    var init := lines[..|lines| - 1];
    assert init[i] == lines[i] && forall k | i < k < |init| :: init[k] == lines[k];
  }

  /** The open block is that of the last line that opened one, if no line since has closed it. */
  lemma {:induction false} CurrentIsLastOpened(lines: seq<string>, name: string)
    ensures Current(lines) == Some(name) <==> exists i | 0 <= i < |lines| :: OpenedAt(lines, i, name)
  {
    if lines == [] {
    } else {
      var n := |lines| - 1;
      CurrentIsLastOpened(lines[..n], name);
      forall i | 0 <= i < n ensures OpenedAt(lines, i, name) <==> OpenedAt(lines[..n], i, name) && Inside(lines[n]) {
        OpenedBefore(lines, i, name);
      }
      hide NameOn, HasAddress, Closes;
      assert Opens(lines[n]) ==> !Inside(lines[n]);
      assert OpenedAt(lines, n, name) <==> Opens(lines[n]) && NameOn(lines[n]) == name;
      CurrentStep(lines[..n], lines[n]);
      assert lines == lines[..n] + [lines[n]];
    }
  }

  lemma CurrentStep(lines: seq<string>, line: string)
    ensures Current(lines + [line])
         == if Opens(line) then Some(NameOn(line)) else if Inside(line) then Current(lines)
            else None
  {
    assert (lines + [line])[..|lines|] == lines;
  }

  /** The scan itself; its two index accesses are in range, and no address it finds is empty. */
  method Scan(body: string) returns (names: seq<string>, ips: map<string, seq<string>>)
    ensures names == Names(SplitLines(body)) && ips == Interfaces(SplitLines(body))
  {
    var lines := SplitLines(body);
    var current: Option<string> := None;
    names, ips := [], map[];
    for i := 0 to |lines|
      invariant current == Current(lines[..i])
      invariant names == Names(lines[..i]) && ips == Interfaces(lines[..i])
    {
      var line := lines[i];
      var stripped := Strip(line);
      assert lines[..i + 1] == lines[..i] + [line];
      OneLine(lines[..i], line, "");
      CurrentStep(lines[..i], line);
      if StartsWith(stripped, "interface ") && !Indented(line) {
        OpensHasName(line);
        OpeningLine(lines[..i], line);
        current := Some(Strip(SplitWords(stripped, 1)[1]));
        if current.value !in ips {
          names, ips := names + [current.value], ips[current.value := []];
        }
      } else if current.Some? && StartsWith(stripped, "ip address ") {
        AddressIsThere(line);
        AddressIsNotEmpty(line);
        AddressLine(lines[..i], line);
        var address := Strip(SplitWords(stripped, 2)[2]);
        if address != [] {
          ips := ips[current.value := ips[current.value] + [address]];
        }
      } else {
        OtherLine(lines[..i], line);
        if !Indented(line) && stripped != [] && !StartsWith(stripped, "!") {
          current := None;
        }
      }
    }
    assert lines[..|lines|] == lines;
  }

  lemma OneLine(lines: seq<string>, line: string, name: string)
    ensures Names(lines + [line])
         == if Opens(line) && NameOn(line) !in Names(lines) then Names(lines) + [NameOn(line)] else Names(lines)
    ensures Addresses(lines + [line], name) == Addresses(lines, name)
      + (if !Opens(line) && HasAddress(line) && Current(lines) == Some(name) then [AddressOn(line)] else [])
  {
    hide Opens, HasAddress, Closes, NameOn, AddressOn;
    assert (lines + [line])[..|lines|] == lines;
  }

  lemma OpeningLine(lines: seq<string>, line: string)
    requires Opens(line)
    ensures NameOn(line) in Interfaces(lines) <==> NameOn(line) in Names(lines)
    ensures NameOn(line) in Interfaces(lines) ==> Interfaces(lines + [line]) == Interfaces(lines)
    ensures NameOn(line) !in Interfaces(lines) ==> Interfaces(lines + [line]) == Interfaces(lines)[NameOn(line) := []]
  {
    hide Opens, HasAddress, Closes, NameOn, AddressOn, Names, Addresses, Current;
    NamesAreOpened(lines);
    forall name ensures Addresses(lines + [line], name) == Addresses(lines, name) {
      OneLine(lines, line, name);
    }
    OneLine(lines, line, "");
    var now := Interfaces(lines + [line]);
    assert forall name :: name in now <==> name in Names(lines) || name == NameOn(line);
  }

  lemma AddressLine(lines: seq<string>, line: string)
    requires !Opens(line) && HasAddress(line) && Current(lines).Some?
    ensures var ips, name := Interfaces(lines), Current(lines).value;
            name in ips && Interfaces(lines + [line]) == ips[name := ips[name] + [AddressOn(line)]]
  {
    hide Opens, HasAddress, Closes, NameOn, AddressOn, Names, Addresses, Current;
    NamesAreOpened(lines);
    forall name
      ensures Addresses(lines + [line], name)
           == if Current(lines) == Some(name) then Addresses(lines, name) + [AddressOn(line)]
              else Addresses(lines, name)
    {
      OneLine(lines, line, name);
    }
    OneLine(lines, line, "");
  }

  lemma OtherLine(lines: seq<string>, line: string)
    requires !Opens(line) && (!HasAddress(line) || Current(lines).None?)
    ensures Interfaces(lines + [line]) == Interfaces(lines) && Names(lines + [line]) == Names(lines)
  {
    hide Opens, HasAddress, Closes, NameOn, AddressOn, Names, Addresses, Current;
    forall name ensures Addresses(lines + [line], name) == Addresses(lines, name) {
      OneLine(lines, line, name);
    }
    OneLine(lines, line, "");
  }

  lemma AddressIsNotEmpty(line: string)
    requires HasAddress(line)
    ensures AddressOn(line) != []
  {
    AddressIsThere(line);
    LStripFacts(Strip(line)[10..]);
    StripKeepsSome(SplitWords(Strip(line), 2)[2]);
  }

  lemma StripKeepsSome(s: string)
    requires s != [] && !IsSpace(s[0])
    ensures Strip(s) != []
  {
    RStripKeepsSome(s);
  }

  lemma {:induction false} RStripKeepsSome(s: string)
    requires s != [] && !IsSpace(s[0])
    ensures RStrip(s) != []
  {
    if IsSpace(s[|s| - 1]) {
      RStripKeepsSome(s[..|s| - 1]);
    }
  }
}
