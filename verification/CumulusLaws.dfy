/** What the Cumulus envelope keeps of the body it wraps (harness/tools/batfish.py). */
module CumulusLaws {
  import opened Ordering
  import opened Text
  import opened Cumulus
  import opened CumulusEnvelope

  // ---- no printed item breaks its line ----------------------------------

  predicate Unbroken(s: string) {
    forall c | c in s :: !IsBreak(c)
  }

  lemma {:induction false} WordHoldsNothingNew(s: string, maxsplit: nat, i: nat, c: char)
    requires i < |SplitWords(s, maxsplit)| && c in SplitWords(s, maxsplit)[i]
    ensures c in s
    decreases maxsplit
  {
    hide IsSpace;
    var t := LStrip(s);
    LStripFacts(s);
    if maxsplit > 0 && i > 0 {
      WordHoldsNothingNew(t[|FirstWord(t)|..], maxsplit - 1, i - 1, c);
    }
  }

  lemma WordUnbroken(s: string, maxsplit: nat, i: nat)
    requires Unbroken(s) && i < |SplitWords(s, maxsplit)|
    ensures Unbroken(SplitWords(s, maxsplit)[i])
  {
    hide SplitWords;
    forall c | c in SplitWords(s, maxsplit)[i] ensures c in s {
      WordHoldsNothingNew(s, maxsplit, i, c);
    }
  }

  lemma PrintedItemsUnbroken(line: string)
    requires Unbroken(line)
    ensures Opens(line) ==> Unbroken(NameOn(line))
    ensures HasAddress(line) ==> Unbroken(AddressOn(line))
  {
    hide IsBreak, SplitWords, Strip, LStrip, RStrip;
    StripFacts(line);
    if Opens(line) {
      OpensHasName(line);
      WordUnbroken(Strip(line), 1, 1);
      StripFacts(SplitWords(Strip(line), 1)[1]);
    }
    if HasAddress(line) {
      AddressIsThere(line);
      WordUnbroken(Strip(line), 2, 2);
      StripFacts(SplitWords(Strip(line), 2)[2]);
    }
  }

  lemma {:induction false} ScanUnbroken(lines: seq<string>, name: string)
    requires forall line | line in lines :: Unbroken(line)
    ensures name in Names(lines) ==> Unbroken(name)
    ensures forall a | a in Addresses(lines, name) :: Unbroken(a)
  {
    hide Unbroken, Opens, HasAddress, NameOn, AddressOn;
    if lines == [] {
    } else {
      ScanUnbroken(lines[..|lines| - 1], name);
      PrintedItemsUnbroken(lines[|lines| - 1]);
    }
  }

  // ---- the round trip ---------------------------------------------------

  /** Read back, distinct names give their own addresses; the one name that prints like `lo` is lost. */
  lemma {:induction false} CollectedIs(order: seq<string>, ips: map<string, seq<string>>, acc: map<string, seq<string>>)
    requires forall name | name in order :: name in ips
    requires forall i, j | 0 <= i < j < |order| :: order[i] != order[j]
    requires LOOPBACK !in acc
    ensures LOOPBACK !in Collected(order, ips, acc)
    ensures LOOPBACK !in order ==>
            forall name :: name in Collected(order, ips, acc) <==> name in order || name in acc
    ensures LOOPBACK !in order ==>
            forall name | name in Collected(order, ips, acc) ::
              Collected(order, ips, acc)[name] == if name in order then ips[name] else acc[name]
    decreases |order|
  {
    if order == [] {
    } else {
      var rest := order[1..];
      assert Reread(order[0]) != LOOPBACK;
      CollectedIs(rest, ips, acc[Reread(order[0]) := ips[order[0]]]);
      assert order == [order[0]] + rest;
      assert order[0] !in rest;
    }
  }

  lemma OrderIsDistinct(body: string)
    ensures forall i, j | 0 <= i < j < |Order(body)| :: Order(body)[i] != Order(body)[j]
    ensures forall name :: name in Order(body) <==> name in Names(SplitLines(body))
  {
    hide Names, SplitLines;
    var names := Names(SplitLines(body));
    NamesAreOpened(SplitLines(body));
    OrderIsPermutation(names);
    OrderOfNames(body);
    DistinctPermuted(names, Order(body));
  }

  /** Reading the envelope gives back the body below its delimiter, always, and the interfaces with
      their addresses exactly when no interface has the name that prints like the loopback's. */
  lemma RoundTrip(body: string, hostname: string)
    ensures ReadEnvelope(Envelope(body, hostname), hostname).Some?
    ensures ReadEnvelope(Envelope(body, hostname), hostname).value.frr == Tail(body)
    ensures ReadEnvelope(Envelope(body, hostname), hostname).value.ips == Interfaces(SplitLines(body))
       <==> LOOPBACK !in Interfaces(SplitLines(body))
  {
    hide Names, Addresses, Tail, Stanzas, StableSort, ReadStanzas, NextLine, SplitLines;
    var lines := SplitLines(body);
    var ips, order := Interfaces(lines), Order(body);
    var end := Line(PORTS) + (Line("") + Line(Tail(body)));
    BodyIsUnbroken(body);
    OrderIsDistinct(body);
    HeadThen(hostname, Stanzas(order, ips) + end);
    ReadsStanzas(order, ips, end, map[]);
    ReadsPorts(Tail(body), Collected(order, ips, map[]));
    CollectedIs(order, ips, map[]);
  }

  lemma {:induction false} OneUnbrokenLine(line: string)
    requires Unbroken(line) && line != []
    ensures SplitLines(line) == [line]
  {
    if |line| == 1 {
    } else {
      OneUnbrokenLine(line[1..]);
      assert line == [line[0]] + line[1..];
    }
  }

  lemma StripsToItself(s: string)
    requires s != [] && 'a' <= s[0] <= 'z' && 'a' <= s[|s| - 1] <= 'z'
    ensures Strip(s) == s && LStrip(" " + s) == s
  {
    assert (" " + s)[1..] == s;
  }

  lemma LoopbackIsOpened(line: string)
    requires line == "interface " + LOOPBACK
    ensures Unbroken(line) && Opens(line) && NameOn(line) == LOOPBACK
  {
    hide IsBreak, Unbroken, LStrip, RStrip, Strip, IsSpace, SplitWords;
    PlainUnbroken(line);
    StripsToItself(line);
    StripsToItself(LOOPBACK);
    assert line[9..] == " " + LOOPBACK;
    OpensHasName(line);
  }

  /** A body that names such an interface: its map is not read back. */
  lemma LoopbackNameIsLost(hostname: string)
    ensures
      var body := "interface " + LOOPBACK;
      && LOOPBACK in Interfaces(SplitLines(body))
      && ReadEnvelope(Envelope(body, hostname), hostname).Some?
      && ReadEnvelope(Envelope(body, hostname), hostname).value.ips != Interfaces(SplitLines(body))
  {
    hide Envelope, ReadEnvelope, Opens, NameOn, SplitLines, Unbroken, LOOPBACK;
    var body := "interface " + LOOPBACK;
    LoopbackIsOpened(body);
    OneUnbrokenLine(body);
    assert [body][..0] == [];
    RoundTrip(body, hostname);
  }

  lemma BodyIsUnbroken(body: string)
    ensures forall name | name in Interfaces(SplitLines(body)) :: '\n' !in name
    ensures forall name, a | name in Interfaces(SplitLines(body)) && a in Interfaces(SplitLines(body))[name] ::
              '\n' !in a
  {
    hide Names, Addresses, SplitLines;
    var lines := SplitLines(body);
    LinesUnbroken(body);
    forall name
      ensures name in Names(lines) ==> '\n' !in name
      ensures forall a | a in Addresses(lines, name) :: '\n' !in a
    {
      ScanUnbroken(lines, name);
    }
  }

  lemma HeadThen(hostname: string, rest: string)
    ensures
      var head := Line(hostname) + (Line(MARKER) + Line(""));
      var text := Line(hostname) + (Line(MARKER) + (Line("") + rest));
      head <= text && text[|head|..] == rest
  {
    hide Line;
    Regroup(Line(MARKER), Line(""), rest);
    Regroup(Line(hostname), Line(MARKER) + Line(""), rest);
  }

  lemma ReadsPorts(tail: string, ips: map<string, seq<string>>)
    ensures ReadStanzas(Line(PORTS) + (Line("") + Line(tail)), ips, None) == Some((ips, Line("") + Line(tail)))
    ensures var r := Line("") + Line(tail); |r| >= 2 && r[0] == '\n' == r[|r| - 1] && r[1..|r| - 1] == tail
  {
    assert '\n' !in PORTS;
    NextLineOf(PORTS, Line("") + Line(tail));
  }

  // ---- which bodies share an envelope -----------------------------------

  lemma SplitAtBreak(s: string)
    requires s != [] && IsBreak(s[0])
    ensures SplitLines(s) == [""] + SplitLines(AfterBreak(s))
  {
  }

  lemma SplitAtChar(s: string)
    requires |s| > 1 && !IsBreak(s[0])
    ensures SplitLines(s) == [[s[0]] + SplitLines(s[1..])[0]] + SplitLines(s[1..])[1..]
  {
  }

  lemma SplitShort()
    ensures SplitLines("") == [] && SplitLines("\n") == [""] && SplitLines("\r") == [""] && SplitLines("\r\n") == [""]
    ensures forall c | !IsBreak(c) :: SplitLines([c]) == [[c]]
  {
    SplitAtBreak("\n");
    SplitAtBreak("\r");
    SplitAtBreak("\r\n");
  }

  /** Where a newline after `t` is not taken into the break that `t` starts with. */
  lemma AfterBreakNewline(t: string)
    requires t != [] && t != "\r"
    ensures AfterBreak(t + "\n") == AfterBreak(t) + "\n" && |AfterBreak(t)| < |t|
  {
  }

  lemma {:induction false} SplitLinesNewline(t: string)
    ensures SplitLines(t + "\n") == SplitLines(t) || SplitLines(t + "\n") == SplitLines(t) + [""]
    decreases |t|
  {
    hide SplitLines, AfterBreak;
    var u := t + "\n";
    SplitShort();
    if t == [] {
      assert u == "\n";
    } else if t == "\r" {
      assert u == "\r\n";
    } else if IsBreak(t[0]) {
      AfterBreakNewline(t);
      SplitLinesNewline(AfterBreak(t));
      SplitAtBreak(t);
      SplitAtBreak(u);
    } else {
      SplitAtChar(u);
      assert u[1..] == t[1..] + "\n";
      if |t| == 1 {
        assert t == [t[0]] && u[1..] == "\n" && [t[0]] + "" == t;
      } else {
        var rest := SplitLines(t[1..]);
        SplitAtChar(t);
        SplitLinesNewline(t[1..]);
        assert (rest + [""])[1..] == rest[1..] + [""];
      }
    }
  }

  lemma {:induction false} SplitLinesFirst(line: string, rest: string)
    requires Unbroken(line)
    ensures SplitLines(Line(line) + rest) == [line] + SplitLines(rest)
  {
    hide SplitLines;
    var u := Line(line) + rest;
    if line == [] {
      SplitAtBreak(u);
      assert u[1..] == rest;
    } else {
      SplitAtChar(u);
      SplitLinesFirst(line[1..], rest);
      assert u[1..] == Line(line[1..]) + rest;
      assert line == [line[0]] + line[1..];
    }
  }

  /** What the scan of these lines finds. */
  function Found(lines: seq<string>): (Option<string>, seq<string>, map<string, seq<string>>) {
    (Current(lines), Names(lines), Interfaces(lines))
  }

  lemma BlankLineFindsNothing(lines: seq<string>)
    ensures Found(lines + [""]) == Found(lines)
  {
    OtherLine(lines, "");
    CurrentStep(lines, "");
  }

  lemma {:induction false} NewlinesFindNothing(body: string)
    ensures Found(SplitLines(RStripNewlines(body))) == Found(SplitLines(body))
  {
    hide SplitLines, Found;
    if body != [] && body[|body| - 1] == '\n' {
      var t := body[..|body| - 1];
      NewlinesFindNothing(t);
      SplitLinesNewline(t);
      assert body == t + "\n";
      BlankLineFindsNothing(SplitLines(t));
    }
  }

  lemma PlainUnbroken(s: string)
    requires forall c | c in s :: ' ' <= c <= 'z'
    ensures Unbroken(s)
  {
  }

  lemma VersionLine()
    ensures Unbroken(VERSION) && !Opens(VERSION)
  {
    hide IsBreak, Unbroken, LStrip, RStrip, Strip, IsSpace;
    PlainUnbroken(VERSION);
    NotSpace('f');
    StripFacts(VERSION);
  }

  lemma NotSpace(c: char)
    requires 'a' <= c <= 'z'
    ensures !IsSpace(c)
  {
  }

  /** A line before the first block is not found either. */
  lemma {:induction false} VersionFindsNothing(lines: seq<string>)
    ensures Found([VERSION] + lines) == Found(lines)
  {
    var all := [VERSION] + lines;
    VersionLine();
    if lines == [] {
      assert all == [] + [VERSION];
      OtherLine([], VERSION);
      CurrentStep([], VERSION);
    } else {
      var init, line := lines[..|lines| - 1], lines[|lines| - 1];
      VersionFindsNothing(init);
      assert all == ([VERSION] + init) + [line] && lines == init + [line];
      SameStep([VERSION] + init, init, line);
    }
  }

  lemma SameStep(a: seq<string>, b: seq<string>, line: string)
    requires Found(a) == Found(b)
    ensures Found(a + [line]) == Found(b + [line])
  {
    hide Opens, HasAddress, Closes, NameOn, AddressOn, Names, Current, Interfaces;
    CurrentStep(a, line);
    CurrentStep(b, line);
    OneLine(a, line, "");
    OneLine(b, line, "");
    if Opens(line) {
      OpeningLine(a, line);
      OpeningLine(b, line);
    } else if HasAddress(line) && Current(a).Some? {
      AddressLine(a, line);
      AddressLine(b, line);
    } else {
      OtherLine(a, line);
      OtherLine(b, line);
    }
  }

  /** The printed tail holds all that the scan found in the body. */
  lemma TailFindsTheSame(body: string)
    ensures Found(SplitLines(Tail(body))) == Found(SplitLines(body))
  {
    hide Found, SplitLines, RStripNewlines;
    NewlinesFindNothing(body);
    if NeedsVersion(body) {
      VersionLine();
      SplitLinesFirst(VERSION, RStripNewlines(body));
      VersionFindsNothing(SplitLines(RStripNewlines(body)));
    } else {
      assert "" + RStripNewlines(body) == RStripNewlines(body);
    }
  }

  /** Two bodies get one envelope exactly when their tails are the same text. */
  lemma SameEnvelope(a: string, b: string, hostname: string)
    ensures Envelope(a, hostname) == Envelope(b, hostname) <==> Tail(a) == Tail(b)
  {
    hide SplitLines, Tail, Stanzas, Names, ReadEnvelope, Interfaces, Envelope;
    RoundTrip(a, hostname);
    RoundTrip(b, hostname);
    if Tail(a) == Tail(b) {
      TailFindsTheSame(a);
      TailFindsTheSame(b);
      EnvelopeOfFound(a, b, hostname);
    }
  }

  lemma EnvelopeOfFound(a: string, b: string, hostname: string)
    requires Tail(a) == Tail(b) && Found(SplitLines(a)) == Found(SplitLines(b))
    ensures Envelope(a, hostname) == Envelope(b, hostname)
  {
  }

  /** So bodies that both have a version line near the top, or both do not, share an envelope exactly
      when they differ in trailing newlines alone. */
  lemma SameKindOfBody(a: string, b: string, hostname: string)
    requires NeedsVersion(a) == NeedsVersion(b)
    ensures Envelope(a, hostname) == Envelope(b, hostname) <==> RStripNewlines(a) == RStripNewlines(b)
  {
    hide Envelope, NeedsVersion, RStripNewlines;
    SameEnvelope(a, b, hostname);
    var va := if NeedsVersion(a) then Line(VERSION) else "";
    assert Tail(a) == va + RStripNewlines(a) && Tail(b) == va + RStripNewlines(b);
    assert (va + RStripNewlines(a))[|va|..] == RStripNewlines(a);
    assert (va + RStripNewlines(b))[|va|..] == RStripNewlines(b);
  }

  /** But a body without a version line and the same body below the default one share an envelope. */
  lemma DefaultVersionIsNotSeen(body: string, hostname: string)
    requires NeedsVersion(body) && RStripNewlines(body) != []
    ensures Envelope(Line(VERSION) + body, hostname) == Envelope(body, hostname)
  {
    hide Envelope;
    var above := Line(VERSION) + body;
    VersionLine();
    SplitLinesFirst(VERSION, body);
    assert SplitLines(above)[0] == VERSION;
    assert StartsWith(VERSION, "frr version");
    assert !NeedsVersion(above);
    StripBelow(Line(VERSION), body);
    SameEnvelope(above, body, hostname);
    assert Tail(above) == RStripNewlines(above);
  }

  lemma {:induction false} StripBelow(head: string, body: string)
    requires RStripNewlines(body) != []
    ensures RStripNewlines(head + body) == head + RStripNewlines(body)
  {
    if body[|body| - 1] == '\n' {
      assert (head + body)[..|head + body| - 1] == head + body[..|body| - 1];
      StripBelow(head, body[..|body| - 1]);
    }
  }

  // ---- order ------------------------------------------------------------

  /** The stanzas are printed each once, `lo` first and the others by name. */
  lemma StanzaOrder(body: string)
    ensures forall i, j | 0 <= i < j < |Order(body)| :: Order(body)[i] != Order(body)[j]
    ensures forall name :: name in Order(body) <==> name in Interfaces(SplitLines(body))
    ensures "lo" in Order(body) ==> Order(body)[0] == "lo"
    ensures forall i, j | 0 <= i < j < |Order(body)| && Order(body)[i] != "lo" ::
              StringLeq(Order(body)[i], Order(body)[j])
  {
    hide Names, SplitLines, StableSort;
    OrderIsDistinct(body);
    OrderOfNames(body);
    OrderIsPermutation(Names(SplitLines(body)));
    var order := Order(body);
    forall i, j | 0 <= i < j < |order|
      ensures order[j] != "lo" && (order[i] != "lo" ==> StringLeq(order[i], order[j]))
    {
      assert IfaceLeq(order[i], order[j]);
      IfaceKeys(order[i], order[j]);
    }
  }

  lemma IfaceKeys(a: string, b: string)
    requires IfaceLeq(a, b) && a != b
    ensures b != "lo" && (a != "lo" ==> StringLeq(a, b))
  {
    var ka, kb := [if a == "lo" then "0" else "1", a], [if b == "lo" then "0" else "1", b];
    assert ka[1..] == [a] && kb[1..] == [b] && [a][1..] == [] && [b][1..] == [];
    if ka[0] == kb[0] {
      assert KeyLeq([a], [b]);
      assert StringLeq(a, b);
    }
  }
}
