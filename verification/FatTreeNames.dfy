/** The switch names of the generated fabric (topologies/_shared/fat_tree.py), each of which names
    the file that its configuration is written to. */
module FatTreeNames {
  import opened FatTree
  import opened FatTreeLaws

  function Digit(d: nat): char
    requires d < 10
  {
    ('0' as int + d) as char
  }

  predicate IsDigits(s: string) {
    forall c | c in s :: '0' <= c <= '9'
  }

  function Decimal(n: nat): string {
    if n < 10 then [Digit(n)] else Decimal(n / 10) + [Digit(n % 10)]
  }

  /** Zero-padded to a width; a longer number is not cut. */
  function Padded(n: nat, width: nat): string {
    var s := Decimal(n);
    (if |s| < width then seq(width - |s|, _ => '0') else "") + s
  }

  function Hostname(h: nat, s: Switch): string
    requires h > 0
  {
    match s
    case Core(i) => "core-" + Padded(i + 1, 4)
    case Agg(i) => "agg-pod" + (Padded(Group(h, i) + 1, 2) + ("-" + Padded(Slot(h, i) + 1, 2)))
    case Edge(i) => "edge-pod" + (Padded(Group(h, i) + 1, 2) + ("-" + Padded(Slot(h, i) + 1, 2)))
  }

  /** The number that digits denote. */
  function Value(s: string): int {
    if s == [] then 0 else 10 * Value(s[..|s| - 1]) + (s[|s| - 1] as int - '0' as int)
  }

  lemma {:induction false} ValueOfDecimal(n: nat)
    ensures Value(Decimal(n)) == n && IsDigits(Decimal(n))
  {
    var s := Decimal(n);
    if n < 10 {
      assert s[..0] == [];
    } else {
      ValueOfDecimal(n / 10);
      assert s[..|s| - 1] == Decimal(n / 10);
    }
  }

  lemma {:induction false} ValueBelowZeros(zeros: string, s: string)
    requires forall c | c in zeros :: c == '0'
    ensures Value(zeros + s) == Value(s)
    decreases |s|, |zeros|
  {
    if s != [] {
      assert (zeros + s)[..|zeros + s| - 1] == zeros + s[..|s| - 1];
      ValueBelowZeros(zeros, s[..|s| - 1]);
    } else if zeros != [] {
      var init := zeros[..|zeros| - 1];
      assert zeros + s == zeros && init + s == init;
      assert forall c | c in init :: c in zeros;
      assert zeros[|zeros| - 1] in zeros;
      ValueBelowZeros(init, s);
    }
  }

  /** Padding loses nothing, at any width. */
  lemma PaddedInjective(a: nat, b: nat, width: nat)
    ensures IsDigits(Padded(a, width))
    ensures Padded(a, width) == Padded(b, width) ==> a == b
  {
    ValueOfPadded(a, width);
    ValueOfPadded(b, width);
  }

  lemma ValueOfPadded(n: nat, width: nat)
    ensures Value(Padded(n, width)) == n && IsDigits(Padded(n, width))
  {
    var s := Decimal(n);
    ValueOfDecimal(n);
    ValueBelowZeros(if |s| < width then seq(width - |s|, _ => '0') else "", s);
  }

  lemma DashNotInside(a: string, b: string, c: string, d: string)
    requires IsDigits(c) && a + ("-" + b) == c + ("-" + d)
    ensures |a| >= |c|
  {
    var s := a + ("-" + b);
    assert s[|a|] == '-';
    assert s[..|c|] == c;
    assert forall i | 0 <= i < |c| :: s[i] in c;
  }

  /** Digits end at the first dash. */
  lemma SplitAtDash(a: string, b: string, c: string, d: string)
    requires IsDigits(a) && IsDigits(c) && a + ("-" + b) == c + ("-" + d)
    ensures a == c && b == d
  {
    var s := a + ("-" + b);
    DashNotInside(a, b, c, d);
    DashNotInside(c, d, a, b);
    assert s[..|a|] == a && s[..|c|] == c;
    assert s[|a| + 1..] == b && s[|c| + 1..] == d;
  }

  lemma PodNames(h: nat, i: nat, j: nat)
    requires h > 0
    requires Padded(Group(h, i) + 1, 2) + ("-" + Padded(Slot(h, i) + 1, 2))
          == Padded(Group(h, j) + 1, 2) + ("-" + Padded(Slot(h, j) + 1, 2))
    ensures i == j
  {
    hide Padded, Group, Slot;
    PaddedInjective(Group(h, i) + 1, Group(h, j) + 1, 2);
    PaddedInjective(Group(h, j) + 1, Group(h, i) + 1, 2);
    PaddedInjective(Slot(h, i) + 1, Slot(h, j) + 1, 2);
    SplitAtDash(Padded(Group(h, i) + 1, 2), Padded(Slot(h, i) + 1, 2),
                Padded(Group(h, j) + 1, 2), Padded(Slot(h, j) + 1, 2));
    GroupAndSlot(h, i, j);
  }

  lemma GroupAndSlot(h: nat, i: nat, j: nat)
    requires h > 0 && Group(h, i) == Group(h, j) && Slot(h, i) == Slot(h, j)
    ensures i == j
  {
  }

  /** No two switches of a fabric, of any size, share a name, so no configuration overwrites another. */
  lemma HostnamesDistinct(h: nat, s: Switch, t: Switch)
    requires h > 0
    ensures Hostname(h, s) == Hostname(h, t) <==> s == t
  {
    hide Padded, Group, Slot;
    if Hostname(h, s) == Hostname(h, t) {
      assert Hostname(h, s)[0] == Hostname(h, t)[0];
      match (s, t) {
        case (Core(i), Core(j)) =>
          assert Hostname(h, s)[5..] == Padded(i + 1, 4) && Hostname(h, t)[5..] == Padded(j + 1, 4);
          PaddedInjective(i + 1, j + 1, 4);
        case (Agg(i), Agg(j)) =>
          assert Hostname(h, s)[7..] == Padded(Group(h, i) + 1, 2) + ("-" + Padded(Slot(h, i) + 1, 2));
          assert Hostname(h, t)[7..] == Padded(Group(h, j) + 1, 2) + ("-" + Padded(Slot(h, j) + 1, 2));
          PodNames(h, i, j);
        case (Edge(i), Edge(j)) =>
          assert Hostname(h, s)[8..] == Padded(Group(h, i) + 1, 2) + ("-" + Padded(Slot(h, i) + 1, 2));
          assert Hostname(h, t)[8..] == Padded(Group(h, j) + 1, 2) + ("-" + Padded(Slot(h, j) + 1, 2));
          PodNames(h, i, j);
        case _ =>
      }
    }
  }
}
