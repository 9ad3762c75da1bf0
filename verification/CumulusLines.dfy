/** The lines of an `frr.conf` body character by character (harness/tools/batfish.py): where they end,
    which of them matter to the scan and what it takes from them. */
module CumulusLines {
  import opened Ordering
  import opened Text
  import opened TextLaws
  import opened Cumulus
  import opened CumulusEnvelope
  import opened CumulusLaws

  // ---- where lines end --------------------------------------------------

  /** One line break, followed by `rest`: a carriage return and a newline are one break together. */
  predicate Breaks(mark: string, rest: string) {
    || mark == "\r\n"
    || (|mark| == 1 && IsBreak(mark[0]) && !(mark == "\r" && rest != [] && rest[0] == '\n'))
  }

  /** A body is its first line, then those after the break. */
  lemma {:induction false} FirstLineThen(line: string, mark: string, rest: string)
    requires Unbroken(line) && Breaks(mark, rest)
    ensures SplitLines(line + mark + rest) == [line] + SplitLines(rest)
  {
    hide SplitLines;
    var s := line + mark + rest;
    if line == [] {
      assert s == mark + rest;
      SplitAtBreak(s);
      if |mark| == 1 {
        assert s[1..] == rest;
      } else {
        assert s[2..] == rest;
      }
    } else {
      assert Unbroken(line[1..]) && !IsBreak(line[0]) by { assert line[0] in line; }
      FirstLineThen(line[1..], mark, rest);
      assert s[1..] == line[1..] + mark + rest && s[0] == line[0];
      SplitAtChar(s);
      assert line == [line[0]] + line[1..];
    }
  }

  /** The blanks are the characters that end a line and those that do not. */
  lemma SpacesMean(c: char)
    ensures IsSpace(c) <==>
            || IsBreak(c) || c in {'\t', ' '} || 0x2000 <= c as int <= 0x200A
            || c as int in {0x1F, 0xA0, 0x1680, 0x202F, 0x205F, 0x3000}
  {
  }

  // ---- which lines matter -----------------------------------------------

  /** Between blanks the line has the keyword, more blanks and what it says, which is bare and not empty. */
  ghost predicate Says(line: string, pre: string, keyword: string, gap: string, said: string, post: string) {
    && line == pre + (keyword + gap + said) + post && Blank(pre) && Blank(gap) && Blank(post)
    && said != [] && Bare(said)
  }

  lemma SaysStripped(line: string, pre: string, keyword: string, gap: string, said: string, post: string)
    requires Says(line, pre, keyword, gap, said, post) && keyword != [] && !IsSpace(keyword[0])
    ensures Strip(line) == keyword + gap + said
  {
    hide IsSpace, Strip;
    var t := keyword + gap + said;
    assert t[0] == keyword[0] && t[|t| - 1] == said[|said| - 1];
    StripIs(pre, t, post);
  }

  lemma AfterGap(gap: string, said: string)
    requires Blank(gap) && said != [] && Bare(said)
    ensures LStrip(gap + said) == said && Strip(said) == said && Strip(LStrip(gap + said)) == said
  {
    hide IsSpace;
    LStripBlank(gap, said);
    StripIs("", said, "");
    assert "" + said + "" == said;
  }

  lemma StrippedSays(line: string, keyword: string)
    returns (pre: string, gap: string, said: string, post: string)
    requires keyword <= Strip(line) && keyword != [] && !IsSpace(keyword[0]) && IsSpace(keyword[|keyword| - 1])
    ensures Says(line, pre, keyword, gap, said, post)
    ensures said == LStrip(Strip(line)[|keyword|..])
  {
    hide IsSpace, Strip, LStrip;
    pre, post := StripParts(line);
    var s := Strip(line);
    var rest := s[|keyword|..];
    assert s == keyword + rest;
    gap := LStripParts(rest);
    said := LStrip(rest);
    assert rest == gap + said;
    assert keyword + rest == keyword + gap + said;
    SaidIsBare(s, keyword, gap, said);
  }

  lemma SaidIsBare(s: string, keyword: string, gap: string, said: string)
    requires s == keyword + gap + said && Blank(gap) && Bare(s) && (said != [] ==> !IsSpace(said[0]))
    requires keyword != [] && IsSpace(keyword[|keyword| - 1])
    ensures said != [] && Bare(said)
  {
    hide IsSpace;
    BlankEnd(keyword, gap);
    assert said == [] ==> s == keyword + gap;
    assert said != [] ==> s[|s| - 1] == said[|said| - 1];
  }

  lemma BlankEnd(keyword: string, gap: string)
    requires Blank(gap) && keyword != [] && IsSpace(keyword[|keyword| - 1])
    ensures IsSpace((keyword + gap)[|keyword + gap| - 1])
  {
    hide IsSpace;
    if gap != [] {
      assert gap[|gap| - 1] in gap;
    }
  }

  /** A line opens the block of `name` exactly when it does not start with a space and says `interface`,
      a space and the name, which is not empty and has no blanks at its ends. */
  lemma OpensMeans(line: string, name: string)
    ensures Opens(line) && NameOn(line) == name <==>
            && (line != [] ==> line[0] != ' ')
            && exists pre, gap, post :: Says(line, pre, "interface ", gap, name, post)
  {
    hide IsSpace, Strip, LStrip, SplitWords, Says;
    KeywordSpaces();
    if Opens(line) {
      var pre, gap, said, post := StrippedSays(line, "interface ");
      OpensHasName(line);
      TakenAfter(line, "interface", pre, gap, said, post);
    }
    forall pre, gap, post | Says(line, pre, "interface ", gap, name, post) && (line != [] ==> line[0] != ' ')
      ensures Opens(line) && NameOn(line) == name
    {
      SaysStripped(line, pre, "interface ", gap, name, post);
      SaidAfter("interface ", gap, name);
      OpensHasName(line);
      TakenAfter(line, "interface", pre, gap, name, post);
    }
  }

  /** A line gives the address `a` exactly when it says `ip address`, a space and the address. */
  lemma AddressMeans(line: string, a: string)
    ensures HasAddress(line) && AddressOn(line) == a <==>
            exists pre, gap, post :: Says(line, pre, "ip address ", gap, a, post)
  {
    hide IsSpace, Strip, LStrip, SplitWords, Says;
    KeywordSpaces();
    if HasAddress(line) {
      var pre, gap, said, post := StrippedSays(line, "ip address ");
      AddressIsThere(line);
      TakenAfter(line, "ip address", pre, gap, said, post);
    }
    forall pre, gap, post | Says(line, pre, "ip address ", gap, a, post)
      ensures HasAddress(line) && AddressOn(line) == a
    {
      SaysStripped(line, pre, "ip address ", gap, a, post);
      SaidAfter("ip address ", gap, a);
      AddressIsThere(line);
      TakenAfter(line, "ip address", pre, gap, a, post);
    }
  }

  lemma KeywordSpaces()
    ensures !IsSpace('i') && IsSpace(' ')
    ensures "interface" + " " == "interface " && "ip address" + " " == "ip address "
  {
  }

  lemma SaidAfter(keyword: string, gap: string, said: string)
    ensures keyword <= keyword + gap + said
  {
  }

  /** What is said after a keyword and a space is what stripping the rest of the line leaves. */
  lemma TakenAfter(line: string, word: string, pre: string, gap: string, said: string, post: string)
    requires Says(line, pre, word + " ", gap, said, post) && word != [] && !IsSpace(word[0])
    ensures |word| <= |Strip(line)| && Strip(LStrip(Strip(line)[|word|..])) == said
  {
    hide IsSpace, Strip, LStrip;
    SaysStripped(line, pre, word + " ", gap, said, post);
    assert Strip(line)[|word|..] == (" " + gap) + said;
    assert Blank(" " + gap) by { BlankSpace(gap); }
    AfterGap(" " + gap, said);
  }

  lemma BlankSpace(gap: string)
    requires Blank(gap)
    ensures Blank(" " + gap)
  {
  }

  /** Any other line closes the open block exactly when it does not start with a space, and its first
      character that is not a blank, if it has one, is not `!`. */
  lemma ClosesMeans(line: string)
    ensures Closes(line) <==>
            && (line != [] ==> line[0] != ' ')
            && exists pre, c, rest :: line == pre + [c] + rest && Blank(pre) && !IsSpace(c) && c != '!'
  {
    hide IsSpace, Strip;
    var pre, post := StripParts(line);
    var s := Strip(line);
    if s != [] {
      assert line == pre + [s[0]] + (s[1..] + post) by {
        assert s == [s[0]] + s[1..];
      }
      FirstNonBlank(line, pre, s[0], s[1..] + post);
    } else {
      AllBlank(pre, post);
    }
  }

  lemma AllBlank(pre: string, post: string)
    requires Blank(pre) && Blank(post)
    ensures forall p, c, rest | pre + [] + post == p + [c] + rest :: IsSpace(c)
  {
    forall p, c, rest | pre + [] + post == p + [c] + rest ensures IsSpace(c) {
      var line := pre + [] + post;
      assert line[|p|] == c && c in line;
    }
  }

  /** A line has one first character that is not a blank. */
  lemma FirstNonBlank(line: string, pre: string, c: char, rest: string)
    requires line == pre + [c] + rest && Blank(pre) && !IsSpace(c)
    ensures forall p, d, q | line == p + [d] + q && Blank(p) && !IsSpace(d) :: d == c
  {
    hide IsSpace;
    BlanksThen(pre, c, rest);
    forall p, d, q | line == p + [d] + q && Blank(p) && !IsSpace(d) ensures d == c {
      BlanksThen(p, d, q);
    }
  }

  lemma BlanksThen(p: string, d: char, q: string)
    requires Blank(p)
    ensures (p + [d] + q)[|p|] == d && forall i | 0 <= i < |p| :: IsSpace((p + [d] + q)[i])
  {
    hide IsSpace;
    forall i | 0 <= i < |p| ensures IsSpace((p + [d] + q)[i]) {
      assert p[i] in p;
    }
  }

  // ---- what the scan finds ----------------------------------------------

  /** The names found are those some line opens, and those found early come first. */
  lemma {:induction false} NamesMean(lines: seq<string>, name: string, n: nat)
    requires n <= |lines|
    ensures name in Names(lines) <==> exists i | 0 <= i < |lines| :: Opens(lines[i]) && NameOn(lines[i]) == name
    ensures Names(lines[..n]) <= Names(lines)
  {
    hide Opens, NameOn;
    if lines == [] {
    } else {
      var init, line := lines[..|lines| - 1], lines[|lines| - 1];
      assert lines == init + [line];
      assert forall i | 0 <= i < |init| :: init[i] == lines[i];
      NamesMean(init, name, if n < |lines| then n else |init|);
      assert n < |lines| ==> lines[..n] == init[..n];
      assert n == |lines| ==> lines[..n] == lines;
    }
  }

  /** Line `i` gives an address to the interface whose block the lines before it leave open. */
  ghost predicate Gives(lines: seq<string>, i: nat, name: string)
    requires i < |lines|
  {
    !Opens(lines[i]) && HasAddress(lines[i]) && exists j | 0 <= j < i :: OpenedAt(lines[..i], j, name)
  }

  /** The addresses found so far grow by one at exactly the lines that give one, and stay as they are. */
  lemma AddressesMean(lines: seq<string>, i: nat, name: string)
    requires i < |lines|
    ensures
      var before := Addresses(lines[..i], name);
      Addresses(lines[..i + 1], name) == if Gives(lines, i, name) then before + [AddressOn(lines[i])] else before
    ensures Addresses(lines[..i + 1], name) <= Addresses(lines, name)
  {
    hide Opens, HasAddress, AddressOn, Names, Current, OpenedAt, Addresses;
    assert lines[..i + 1] == lines[..i] + [lines[i]];
    CurrentIsLastOpened(lines[..i], name);
    OneLine(lines[..i], lines[i], name);
    AddressesGrow(lines, i + 1, name);
  }

  lemma {:induction false} AddressesGrow(lines: seq<string>, n: nat, name: string)
    requires n <= |lines|
    ensures Addresses(lines[..n], name) <= Addresses(lines, name)
    decreases |lines|
  {
    hide Opens, HasAddress, AddressOn, Names, Current, Addresses;
    if n == |lines| {
      assert lines[..n] == lines;
    } else {
      var init, line := lines[..|lines| - 1], lines[|lines| - 1];
      assert lines == init + [line] && lines[..n] == init[..n];
      AddressesGrow(init, n, name);
      OneLine(init, line, name);
    }
  }

  // ---- the version line and the order -----------------------------------

  /** All newlines at the end are dropped, and nothing else. */
  lemma {:induction false} NewlinesStripped(t: string, newlines: string)
    requires (t != [] ==> t[|t| - 1] != '\n') && forall c | c in newlines :: c == '\n'
    ensures RStripNewlines(t + newlines) == t
  {
    if newlines == [] {
      assert t + newlines == t;
    } else {
      var s, fewer := t + newlines, newlines[..|newlines| - 1];
      assert s[|s| - 1] == newlines[|newlines| - 1] && newlines[|newlines| - 1] in newlines;
      assert forall c | c in fewer :: c in newlines;
      NewlinesStripped(t, fewer);
      assert s[..|s| - 1] == t + fewer;
    }
  }

  /** A body of at least three lines needs a version line exactly when none of the first three is one. */
  lemma NeedsVersionMeans(a: string, b: string, c: string, rest: string)
    requires Unbroken(a) && Unbroken(b) && Unbroken(c)
    ensures NeedsVersion(a + "\n" + (b + "\n" + (c + "\n" + rest))) <==>
            !("frr version" <= a) && !("frr version" <= b) && !("frr version" <= c)
  {
    hide SplitLines;
    FirstLineThen(c, "\n", rest);
    FirstLineThen(b, "\n", c + "\n" + rest);
    FirstLineThen(a, "\n", b + "\n" + (c + "\n" + rest));
    var lines := SplitLines(a + "\n" + (b + "\n" + (c + "\n" + rest)));
    assert lines[0] == a && lines[1] == b && lines[2] == c;
  }

  /** Stanzas come in the order of the names, but for `lo`, which is first. */
  lemma IfaceOrderMeans(a: string, b: string)
    ensures IfaceLeq(a, b) <==> a == "lo" || (b != "lo" && Before(a, b))
  {
    hide StringLeq;
    PairLeq(if a == "lo" then "0" else "1", a, if b == "lo" then "0" else "1", b);
    ZeroFirst();
    StringLeqMeans(a, b);
  }

  lemma ZeroFirst()
    ensures StringLeq("0", "1") && !StringLeq("1", "0")
  {
  }

  // ---- one interface, printed -------------------------------------------

  lemma TwoLines(l: string, m: string)
    requires Unbroken(l) && Unbroken(m) && m != []
    ensures SplitLines(l + "\n" + (m + "\n")) == [l, m]
  {
    hide SplitLines;
    SplitShort();
    FirstLineThen(m, "\n", "");
    assert m + "\n" + "" == m + "\n";
    FirstLineThen(l, "\n", m + "\n");
  }

  lemma OneBlock(name: string, address: string)
    requires name != [] && Bare(name) && address != [] && Bare(address)
    ensures
      var l, m := "interface " + name, " ip address " + address;
      && Names([l, m]) == [name] && Addresses([l, m], name) == [address]
  {
    hide Opens, HasAddress, Closes, NameOn, AddressOn, Bare, Names, Addresses, Current;
    var l, m := "interface " + name, " ip address " + address;
    BlockLines(name, address);
    assert [] + [l] == [l] && [l] + [m] == [l, m];
    OneLine([], l, name);
    CurrentStep([], l);
    OneLine([l], m, name);
    NothingScanned(name);
  }

  lemma NothingScanned(name: string)
    ensures Names([]) == [] && Addresses([], name) == []
  {
  }

  lemma BlockLines(name: string, address: string)
    requires name != [] && Bare(name) && address != [] && Bare(address)
    ensures
      var l, m := "interface " + name, " ip address " + address;
      && Opens(l) && NameOn(l) == name && !HasAddress(l)
      && HasAddress(m) && AddressOn(m) == address && !Opens(m)
  {
    hide IsSpace, NameOn, AddressOn, Strip;
    var l, m := "interface " + name, " ip address " + address;
    BlankSpace("");
    assert l == "" + ("interface " + "" + name) + "";
    assert Says(l, "", "interface ", "", name, "");
    OpensMeans(l, name);
    assert " " + "" == " ";
    assert m == " " + ("ip address " + "" + address) + "";
    assert Says(m, " ", "ip address ", "", address, "");
    AddressMeans(m, address);
    assert "interface "[1] != "ip address "[1];
  }

  /** The whole envelope of a body with one interface and one address. */
  lemma EnvelopeOfOne(name: string, address: string, hostname: string)
    requires name != [] && Bare(name) && Unbroken(name)
    requires address != [] && Bare(address) && Unbroken(address)
    ensures
      var body := "interface " + name + "\n" + (" ip address " + address + "\n");
      var stanza := if name == "lo" then "iface lo inet loopback" else "iface " + name;
      Envelope(body, hostname) ==
      hostname + "\n" + ("# This file describes the network interfaces\n" + ("\n"
      + ((stanza + "\n" + (" address " + address + "\n" + "\n"))
      + ("# ports.conf --\n" + ("\n"
      + ("frr version 8.4.1\n" + ("interface " + name + "\n" + (" ip address " + address)) + "\n"))))))
  {
    hide *;
    var l, m := "interface " + name, " ip address " + address;
    var body := l + "\n" + (m + "\n");
    ScannedOne(name, address);
    OneStanza(name, address);
    PrefixUnbroken("interface ", name);
    PrefixUnbroken(" ip address ", address);
    OneTail(l, m);
    EnvelopeParts(body, hostname, [name], map[name := [address]]);
    Delimiters();
    LineIs(hostname);
    LineIs(Tail(body));
  }

  lemma ScannedOne(name: string, address: string)
    requires name != [] && Bare(name) && Unbroken(name)
    requires address != [] && Bare(address) && Unbroken(address)
    ensures
      var body := "interface " + name + "\n" + (" ip address " + address + "\n");
      Order(body) == [name] && Interfaces(SplitLines(body)) == map[name := [address]]
  {
    hide SplitLines, Names, Addresses, StableSort, Bare, Unbroken;
    PrefixUnbroken("interface ", name);
    PrefixUnbroken(" ip address ", address);
    TwoLines("interface " + name, " ip address " + address);
    OneBlock(name, address);
    OneOrder(name);
  }

  lemma EnvelopeParts(body: string, hostname: string, order: seq<string>, ips: map<string, seq<string>>)
    requires Order(body) == order && Interfaces(SplitLines(body)) == ips
    requires forall name | name in order :: name in ips
    ensures Envelope(body, hostname)
         == Line(hostname) + (Line(MARKER) + (Line("")
         + (Stanzas(order, ips) + (Line(PORTS) + (Line("") + Line(Tail(body)))))))
  {
    hide Line, Stanzas, Tail, Order, Interfaces, SplitLines;
  }

  lemma Delimiters()
    ensures Line(MARKER) == "# This file describes the network interfaces\n" && Line("") == "\n"
    ensures Line(PORTS) == "# ports.conf --\n"
  {
  }

  lemma LineIs(s: string)
    ensures Line(s) == s + "\n"
  {
  }

  lemma PrefixUnbroken(p: string, s: string)
    requires (forall c | c in p :: ' ' <= c <= 'z') && Unbroken(s)
    ensures Unbroken(p + s)
  {
  }

  lemma OneOrder(name: string)
    ensures StableSort(IfaceLeq, [name]) == [name]
  {
    assert [name][1..] == [];
  }

  lemma OneStanza(name: string, address: string)
    ensures
      var stanza := if name == "lo" then "iface lo inet loopback" else "iface " + name;
      Stanzas([name], map[name := [address]]) == stanza + "\n" + (" address " + address + "\n" + "\n")
  {
    var ips, line := map[name := [address]], Line(" address " + address);
    assert Stanzas([name], ips) == Stanza(name, [address]) by {
      assert [name][1..] == [];
      assert Stanza(name, [address]) + "" == Stanza(name, [address]);
    }
    assert AddressLines([address]) == line by {
      assert [address][1..] == [];
      assert line + "" == line;
    }
    assert "iface " + LOOPBACK == "iface lo inet loopback";
    LineIs(IfaceLine(name));
    LineIs(" address " + address);
    assert Line("") == "\n";
  }

  lemma TailWithVersion(body: string, t: string)
    requires NeedsVersion(body) && RStripNewlines(body) == t
    ensures Tail(body) == "frr version 8.4.1\n" + t
  {
    hide NeedsVersion, RStripNewlines;
    var version := Line(VERSION);
    assert version == "frr version 8.4.1\n";
    assert Tail(body) == version + t;
  }

  lemma OneTail(l: string, m: string)
    requires Unbroken(l) && Unbroken(m) && m != [] && l != [] && l[0] != 'f' && m[0] != 'f'
    ensures Tail(l + "\n" + (m + "\n")) == "frr version 8.4.1\n" + (l + "\n" + m)
  {
    hide SplitLines, Tail, RStripNewlines;
    TwoLines(l, m);
    var body, t := l + "\n" + (m + "\n"), l + "\n" + m;
    assert body == t + "\n";
    assert NeedsVersion(body) by {
      assert "frr version"[0] == 'f';
    }
    assert m[|m| - 1] in m && t[|t| - 1] == m[|m| - 1];
    NewlinesStripped(t, "\n");
    TailWithVersion(body, t);
  }
}
