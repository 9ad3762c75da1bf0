/** The printer of the Cumulus envelope (harness/tools/batfish.py), and a reader that inverts it. */
module CumulusEnvelope {
  import opened Ordering
  import opened Text
  import opened Cumulus

  const MARKER := "# This file describes the network interfaces"
  const PORTS := "# ports.conf --"
  const VERSION := "frr version 8.4.1"

  // ---- the text of the envelope -----------------------------------------

  function Line(line: string): string {
    line + "\n"
  }

  /** What follows `iface` for the loopback interface. */
  const LOOPBACK := "lo inet loopback"

  function Printed(name: string): string {
    if name == "lo" then LOOPBACK else name
  }

  function IfaceLine(name: string): string {
    "iface " + Printed(name)
  }

  function AddressLines(addresses: seq<string>): string {
    if addresses == [] then "" else Line(" address " + addresses[0]) + AddressLines(addresses[1..])
  }

  function Stanza(name: string, addresses: seq<string>): string {
    Line(IfaceLine(name)) + (AddressLines(addresses) + Line(""))
  }

  function Stanzas(order: seq<string>, ips: map<string, seq<string>>): string
    requires forall name | name in order :: name in ips
  {
    if order == [] then "" else Stanza(order[0], ips[order[0]]) + Stanzas(order[1..], ips)
  }

  /** `lo` first, then by name. */
  predicate IfaceLeq(a: string, b: string) {
    KeyLeq([if a == "lo" then "0" else "1", a], [if b == "lo" then "0" else "1", b])
  }

  predicate NeedsVersion(body: string) {
    var lines := SplitLines(body);
    forall i | 0 <= i < |lines| && i < 3 :: !StartsWith(lines[i], "frr version")
  }

  /** What follows the delimiters: the body up to trailing newlines, below a version line if it has none. */
  function Tail(body: string): string {
    (if NeedsVersion(body) then Line(VERSION) else "") + RStripNewlines(body)
  }

  function Order(body: string): (order: seq<string>)
    ensures forall name | name in order :: name in Interfaces(SplitLines(body))
  {
    var names := Names(SplitLines(body));
    OrderIsPermutation(names);
    StableSort(IfaceLeq, names)
  }

  lemma OrderIsPermutation(names: seq<string>)
    ensures forall name :: name in StableSort(IfaceLeq, names) <==> name in names
    ensures Sorted(IfaceLeq, StableSort(IfaceLeq, names))
    ensures multiset(StableSort(IfaceLeq, names)) == multiset(names)
  {
    IfaceOrder();
    StableSortSorted(IfaceLeq, names);
    assert forall name :: name in multiset(names) <==> name in names;
    assert forall name :: name in multiset(StableSort(IfaceLeq, names)) <==> name in StableSort(IfaceLeq, names);
  }

  lemma IfaceOrder()
    ensures TotalPreorder(IfaceLeq)
  {
    KeyOrder();
  }

  function Envelope(body: string, hostname: string): string {
    Line(hostname) + (Line(MARKER) + (Line("")
    + (Stanzas(Order(body), Interfaces(SplitLines(body)))
    + (Line(PORTS) + (Line("") + Line(Tail(body)))))))
  }

  // ---- the printer ------------------------------------------------------

  function Unlines(lines: seq<string>): string {
    if lines == [] then "" else Unlines(lines[..|lines| - 1]) + Line(lines[|lines| - 1])
  }

  lemma {:induction false} JoinIsUnlines(lines: seq<string>)
    requires lines != []
    ensures Join(lines) + "\n" == Unlines(lines)
  {
    if |lines| == 1 {
    } else {
      JoinIsUnlines(lines[..|lines| - 1]);
    }
  }

  lemma UnlinesAppend(lines: seq<string>, line: string)
    ensures Unlines(lines + [line]) == Unlines(lines) + Line(line)
  {
    assert (lines + [line])[..|lines|] == lines;
  }

  lemma {:induction false} AddressLinesAppend(addresses: seq<string>, address: string)
    ensures AddressLines(addresses + [address]) == AddressLines(addresses) + Line(" address " + address)
  {
    if addresses == [] {
    } else {
      assert (addresses + [address])[1..] == addresses[1..] + [address];
      AddressLinesAppend(addresses[1..], address);
    }
  }

  lemma {:induction false} StanzasAppend(order: seq<string>, name: string, ips: map<string, seq<string>>)
    requires forall n | n in order :: n in ips
    requires name in ips
    ensures Stanzas(order + [name], ips) == Stanzas(order, ips) + Stanza(name, ips[name])
  {
    if order == [] {
    } else {
      assert (order + [name])[1..] == order[1..] + [name];
      StanzasAppend(order[1..], name, ips);
    }
  }

  lemma Regroup(a: string, b: string, c: string)
    ensures a + b + c == a + (b + c)
  {
  }

  /** Prints one stanza after the lines given. */
  method PrintStanza(lines: seq<string>, name: string, addresses: seq<string>) returns (more: seq<string>)
    ensures Unlines(more) == Unlines(lines) + Stanza(name, addresses) && more != []
  {
    hide AddressLines, Unlines;
    UnlinesAppend(lines, IfaceLine(name));
    if name == "lo" {
      assert "iface " + name + " inet loopback" == "iface " + LOOPBACK;
      more := lines + ["iface " + name + " inet loopback"];
    } else {
      more := lines + ["iface " + name];
    }
    ghost var start := Unlines(lines) + Line(IfaceLine(name));
    NoAddressLines();
    assert start + "" == start;
    for j := 0 to |addresses|
      invariant Unlines(more) == start + AddressLines(addresses[..j]) && more != []
    {
      UnlinesAppend(more, " address " + addresses[j]);
      AddressLinesAppend(addresses[..j], addresses[j]);
      assert addresses[..j + 1] == addresses[..j] + [addresses[j]];
      Regroup(start, AddressLines(addresses[..j]), Line(" address " + addresses[j]));
      more := more + [" address " + addresses[j]];
    }
    assert addresses[..|addresses|] == addresses;
    UnlinesAppend(more, "");
    more := more + [""];
    Regroup(start, AddressLines(addresses), Line(""));
    Regroup(Unlines(lines), Line(IfaceLine(name)), AddressLines(addresses) + Line(""));
  }

  lemma NoAddressLines()
    ensures AddressLines([]) == ""
  {
  }

  lemma UnlinesThree(a: string, b: string, c: string)
    ensures Unlines([a, b, c]) == Line(a) + (Line(b) + Line(c))
  {
    assert [a, b, c] == [] + [a] + [b] + [c];
    UnlinesAppend([], a);
    UnlinesAppend([] + [a], b);
    UnlinesAppend([] + [a] + [b], c);
  }

  method WrapFrr(body: string, hostname: string) returns (text: string)
    ensures text == Envelope(body, hostname)
  {
    hide Unlines, Stanza, Join, Order, Interfaces, Names, SplitLines, StableSort, Tail, Line, NeedsVersion;
    var names, ips := Scan(body);
    var ordered := StableSort(IfaceLeq, names);
    OrderOfNames(body);
    var lines := [hostname, MARKER, ""];
    UnlinesThree(hostname, MARKER, "");
    ghost var head := Unlines(lines);
    for i := 0 to |ordered|
      invariant lines != [] && Unlines(lines) == head + Stanzas(ordered[..i], ips)
    {
      var iface := ordered[i];
      lines := PrintStanza(lines, iface, ips[iface]);
      StanzasAppend(ordered[..i], iface, ips);
      assert ordered[..i + 1] == ordered[..i] + [iface];
      Regroup(head, Stanzas(ordered[..i], ips), Stanza(iface, ips[iface]));
    }
    assert ordered[..|ordered|] == ordered;
    ghost var middle := Stanzas(ordered, ips);
    UnlinesAppend(lines, PORTS);
    lines := lines + [PORTS];
    UnlinesAppend(lines, "");
    lines := lines + [""];
    ghost var ports := Unlines(lines);
    if NeedsVersion(body) {
      UnlinesAppend(lines, VERSION);
      lines := lines + [VERSION];
    }
    UnlinesAppend(lines, RStripNewlines(body));
    lines := lines + [RStripNewlines(body)];
    JoinIsUnlines(lines);
    text := Join(lines) + "\n";
    TailLine(body, ports);
    RegroupEnvelope(Line(hostname), Line(MARKER), Line(""), middle, Line(PORTS), Line(""), Line(Tail(body)));
  }

  lemma OrderOfNames(body: string)
    ensures Order(body) == StableSort(IfaceLeq, Names(SplitLines(body)))
    ensures forall name | name in Order(body) :: name in Interfaces(SplitLines(body))
  {
  }

  lemma TailLine(body: string, before: string)
    ensures before + Line(Tail(body))
         == (if NeedsVersion(body) then before + Line(VERSION) else before) + Line(RStripNewlines(body))
  {
    hide NeedsVersion, RStripNewlines;
    Regroup(Line(VERSION), RStripNewlines(body), "\n");
    Regroup(before, Line(VERSION), Line(RStripNewlines(body)));
    assert "" + RStripNewlines(body) == RStripNewlines(body);
  }

  lemma RegroupEnvelope(a: string, b: string, c: string, d: string, e: string, f: string, g: string)
    ensures a + (b + c) + d + e + f + g == a + (b + (c + (d + (e + (f + g)))))
  {
    Regroup(a + (b + c) + d + e, f, g);
    Regroup(a + (b + c) + d, e, f + g);
    Regroup(a + (b + c), d, e + (f + g));
    Regroup(a, b + c, d + (e + (f + g)));
    Regroup(b, c, d + (e + (f + g)));
  }

  // ---- a reader ---------------------------------------------------------

  datatype Read = Read(ips: map<string, seq<string>>, frr: string)

  /** The text before the first newline, and the text after it. */
  function NextLine(text: string): (r: Option<(string, string)>)
    ensures r.Some? ==> |r.value.1| < |text|
  {
    if text == [] then None
    else if text[0] == '\n' then Some(([], text[1..]))
    else match NextLine(text[1..])
      case None => None
      case Some(lr) => Some(([text[0]] + lr.0, lr.1))
  }

  /** Reads stanzas up to the ports delimiter; `current` is the interface whose stanza is open. */
  function ReadStanzas(text: string, ips: map<string, seq<string>>, current: Option<string>):
      Option<(map<string, seq<string>>, string)>
    requires current.Some? ==> current.value in ips
    decreases |text|
  {
    match NextLine(text)
    case None => None
    case Some(lr) =>
      var line, rest := lr.0, lr.1;
      if line == PORTS then Some((ips, rest))
      else if line == "" then ReadStanzas(rest, ips, None)
      else if "iface " <= line then
        var name := ReadName(line);
        ReadStanzas(rest, ips[name := []], Some(name))
      else if " address " <= line && current.Some? then
        ReadStanzas(rest, ips[current.value := ips[current.value] + [line[9..]]], current)
      else None
  }

  function ReadName(line: string): string
    requires "iface " <= line
  {
    Reread(line[6..])
  }

  function Reread(printed: string): string {
    if printed == LOOPBACK then "lo" else printed
  }

  function ReadEnvelope(text: string, hostname: string): Option<Read> {
    var head := Line(hostname) + (Line(MARKER) + Line(""));
    if !(head <= text) then None
    else match ReadStanzas(text[|head|..], map[], None)
      case None => None
      case Some(r) =>
        if r.1 == [] || r.1[0] != '\n' || r.1[|r.1| - 1] != '\n' || |r.1| < 2 then None
        else Some(Read(r.0, r.1[1..|r.1| - 1]))
  }

  lemma {:induction false} NextLineOf(line: string, rest: string)
    requires '\n' !in line
    ensures NextLine(Line(line) + rest) == Some((line, rest))
  {
    var text := Line(line) + rest;
    if line == [] {
      assert text[1..] == rest;
    } else {
      NextLineOf(line[1..], rest);
      assert text[1..] == Line(line[1..]) + rest;
      assert line == [line[0]] + line[1..];
    }
  }

  /** What the reader makes of stanzas for these names. */
  function Collected(order: seq<string>, ips: map<string, seq<string>>, acc: map<string, seq<string>>):
      map<string, seq<string>>
    requires forall name | name in order :: name in ips
  {
    if order == [] then acc
    else
      Collected(order[1..], ips, acc[Reread(order[0]) := ips[order[0]]])
  }

  lemma {:induction false} ReadsAddresses(addresses: seq<string>, rest: string,
                                          acc: map<string, seq<string>>, name: string)
    requires name in acc && forall a | a in addresses :: '\n' !in a
    ensures ReadStanzas(AddressLines(addresses) + (Line("") + rest), acc, Some(name))
         == ReadStanzas(rest, acc[name := acc[name] + addresses], None)
    decreases |addresses|
  {
    if addresses == [] {
      assert AddressLines(addresses) + (Line("") + rest) == Line("") + rest;
      NextLineOf("", rest);
      assert acc[name] + [] == acc[name];
      assert acc[name := acc[name]] == acc;
    } else {
      var line := " address " + addresses[0];
      var more := AddressLines(addresses[1..]) + (Line("") + rest);
      var acc' := acc[name := acc[name] + [addresses[0]]];
      Regroup(Line(line), AddressLines(addresses[1..]), Line("") + rest);
      NextLineOf(line, more);
      assert line[9..] == addresses[0];
      assert line[0] == ' ';
      ReadsAddresses(addresses[1..], rest, acc', name);
      assert acc[name] + addresses == acc[name] + [addresses[0]] + addresses[1..];
      assert acc'[name := acc'[name] + addresses[1..]] == acc[name := acc[name] + addresses];
    }
  }

  lemma {:induction false} ReadsStanzas(order: seq<string>, ips: map<string, seq<string>>, rest: string,
                                        acc: map<string, seq<string>>)
    requires forall name | name in order :: name in ips && '\n' !in name
    requires forall name, a | name in order && a in ips[name] :: '\n' !in a
    ensures ReadStanzas(Stanzas(order, ips) + rest, acc, None) == ReadStanzas(rest, Collected(order, ips, acc), None)
    decreases |order|
  {
    if order == [] {
      assert Stanzas(order, ips) + rest == rest;
    } else {
      hide ReadStanzas, NextLine, Stanza, AddressLines, IfaceLine, Line;
      var name, addresses := order[0], ips[order[0]];
      var key := Reread(name);
      var more := Stanzas(order[1..], ips) + rest;
      StanzaThen(name, addresses, Stanzas(order[1..], ips), rest);
      ReadsIface(name, AddressLines(addresses) + (Line("") + more), acc);
      ReadsAddresses(addresses, more, acc[key := []], key);
      assert [] + addresses == addresses;
      assert acc[key := []][key := addresses] == acc[key := addresses];
      ReadsStanzas(order[1..], ips, rest, acc[key := addresses]);
    }
  }

  lemma StanzaThen(name: string, addresses: seq<string>, others: string, rest: string)
    ensures Stanza(name, addresses) + others + rest
         == Line(IfaceLine(name)) + (AddressLines(addresses) + (Line("") + (others + rest)))
  {
    hide AddressLines, IfaceLine, Line;
    Regroup(Stanza(name, addresses), others, rest);
    Regroup(Line(IfaceLine(name)), AddressLines(addresses) + Line(""), others + rest);
    Regroup(AddressLines(addresses), Line(""), others + rest);
  }

  lemma ReadsIface(name: string, rest: string, acc: map<string, seq<string>>)
    requires '\n' !in name
    ensures ReadStanzas(Line(IfaceLine(name)) + rest, acc, None)
         == ReadStanzas(rest, acc[Reread(name) := []], Some(Reread(name)))
  {
    var line := IfaceLine(name);
    assert line[6..] == Printed(name) && line[0] == 'i';
    assert Reread(Printed(name)) == Reread(name);
    NextLineOf(line, rest);
  }
}
