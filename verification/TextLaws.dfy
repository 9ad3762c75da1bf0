/** What stripping, lower-casing and comparing text mean, character by character. */
module TextLaws {
  import opened Ordering
  import opened Text

  predicate Blank(s: string) {
    forall c | c in s :: IsSpace(c)
  }

  /** Text without blanks at its ends. */
  predicate Bare(s: string) {
    s != [] ==> !IsSpace(s[0]) && !IsSpace(s[|s| - 1])
  }

  lemma {:induction false} LStripBlank(pre: string, t: string)
    requires Blank(pre) && (t != [] ==> !IsSpace(t[0]))
    ensures LStrip(pre + t) == t
  {
    hide IsSpace;
    if pre == [] {
      assert pre + t == t;
    } else {
      assert (pre + t)[1..] == pre[1..] + t;
      LStripBlank(pre[1..], t);
    }
  }

  lemma {:induction false} RStripBlank(t: string, post: string)
    requires Blank(post) && (t != [] ==> !IsSpace(t[|t| - 1]))
    ensures RStrip(t + post) == t
  {
    hide IsSpace;
    if post == [] {
      assert t + post == t;
    } else {
      assert (t + post)[..|t + post| - 1] == t + post[..|post| - 1];
      RStripBlank(t, post[..|post| - 1]);
    }
  }

  /** Stripping takes the blanks off both ends, and nothing else. */
  lemma StripIs(pre: string, t: string, post: string)
    requires Blank(pre) && Blank(post) && Bare(t)
    ensures Strip(pre + t + post) == t
  {
    hide IsSpace;
    if t == [] {
      assert pre + t + post == (pre + post) + [];
      LStripBlank(pre + post, []);
    } else {
      assert pre + t + post == pre + (t + post);
      LStripBlank(pre, t + post);
      RStripBlank(t, post);
    }
  }

  lemma {:induction false} LStripParts(s: string) returns (pre: string)
    ensures Blank(pre) && s == pre + LStrip(s) && (LStrip(s) != [] ==> !IsSpace(LStrip(s)[0]))
  {
    hide IsSpace;
    if s != [] && IsSpace(s[0]) {
      var rest := LStripParts(s[1..]);
      pre := [s[0]] + rest;
      assert s == [s[0]] + s[1..];
    } else {
      pre := [];
    }
  }

  lemma {:induction false} RStripParts(s: string) returns (post: string)
    ensures Blank(post) && s == RStrip(s) + post && (RStrip(s) != [] ==> !IsSpace(RStrip(s)[|RStrip(s)| - 1]))
  {
    hide IsSpace;
    if s != [] && IsSpace(s[|s| - 1]) {
      var rest := RStripParts(s[..|s| - 1]);
      post := rest + [s[|s| - 1]];
      assert s == s[..|s| - 1] + [s[|s| - 1]];
    } else {
      post := [];
    }
  }

  lemma StripParts(s: string) returns (pre: string, post: string)
    ensures Blank(pre) && Blank(post) && Bare(Strip(s)) && s == pre + Strip(s) + post
  {
    hide IsSpace, LStrip, RStrip;
    pre := LStripParts(s);
    var l := LStrip(s);
    post := RStripParts(l);
    assert l == RStrip(l) + post;
    assert s == pre + (RStrip(l) + post) == pre + RStrip(l) + post;
    if RStrip(l) != [] {
      assert RStrip(l)[0] == l[0];
    }
  }

  // ---- lower case -------------------------------------------------------

  /** `s` spells `word`, letters in either case; `word` is in lower case. */
  predicate Spells(s: string, word: string) {
    |s| == |word| && forall i | 0 <= i < |s| ::
      s[i] == word[i] || ('a' <= word[i] <= 'z' && s[i] as int + 32 == word[i] as int)
  }

  predicate InLowerCase(word: string) {
    forall c | c in word :: !('A' <= c <= 'Z')
  }

  lemma LowerSpells(s: string, word: string)
    requires InLowerCase(word)
    ensures Lower(s) == word <==> Spells(s, word)
  {
    if Spells(s, word) {
      forall i | 0 <= i < |s| ensures Lower(s)[i] == word[i] {
        assert word[i] in word;
      }
      assert Lower(s) == word;
    }
  }

  lemma LowerKeepsBlanks(s: string)
    ensures Blank(s) ==> Blank(Lower(s))
    ensures Bare(s) ==> Bare(Lower(s))
  {
    assert forall i | 0 <= i < |s| :: IsSpace(Lower(s)[i]) <==> IsSpace(s[i]);
    if Blank(s) {
      assert forall i | 0 <= i < |s| :: s[i] in s;
    }
  }

  lemma StripLower(s: string)
    ensures Strip(Lower(s)) == Lower(Strip(s))
  {
    hide IsSpace, Strip;
    var pre, post := StripParts(s);
    var t := Strip(s);
    LowerKeepsBlanks(pre);
    LowerKeepsBlanks(post);
    LowerKeepsBlanks(t);
    assert Lower(s) == Lower(pre) + Lower(t) + Lower(post);
    StripIs(Lower(pre), Lower(t), Lower(post));
  }

  // ---- order ------------------------------------------------------------

  /** Where two strings first differ the smaller character decides; a proper prefix comes first. */
  ghost predicate Before(a: string, b: string) {
    a <= b || exists i | 0 <= i < |a| && i < |b| :: a[..i] == b[..i] && a[i] < b[i]
  }

  lemma {:induction false} StringLeqMeans(a: string, b: string)
    ensures StringLeq(a, b) <==> Before(a, b)
  {
    if a == [] {
    } else if b == [] {
    } else if a[0] != b[0] {
      if Before(a, b) {
        assert !(a <= b);
        var i :| 0 <= i < |a| && i < |b| && a[..i] == b[..i] && a[i] < b[i];
        assert i > 0 ==> a[..i][0] == b[..i][0];
      } else {
        assert a[..0] == b[..0];
      }
    } else {
      StringLeqMeans(a[1..], b[1..]);
      BeforeTail(a, b);
    }
  }

  lemma BeforeTail(a: string, b: string)
    requires a != [] && b != [] && a[0] == b[0]
    ensures Before(a, b) <==> Before(a[1..], b[1..])
  {
    assert a == [a[0]] + a[1..] && b == [b[0]] + b[1..];
    if a <= b {
      assert a[1..] <= b[1..];
    } else if Before(a, b) {
      var i :| 0 <= i < |a| && i < |b| && a[..i] == b[..i] && a[i] < b[i];
      assert a[1..][..i - 1] == a[..i][1..] && b[1..][..i - 1] == b[..i][1..];
    }
    if a[1..] <= b[1..] {
    } else if Before(a[1..], b[1..]) {
      var j :| 0 <= j < |a| - 1 && j < |b| - 1 && a[1..][..j] == b[1..][..j] && a[1..][j] < b[1..][j];
      assert a[..j + 1] == [a[0]] + a[1..][..j] && b[..j + 1] == [b[0]] + b[1..][..j];
    }
  }

  lemma LastLeq(b: string, d: string)
    ensures KeyLeq([b], [d]) <==> b == d || StringLeq(b, d)
  {
    hide StringLeq;
    assert [b][1..] == [] && [d][1..] == [];
    assert LexLeq(StringLeq, [], []);
  }

  lemma PairLeq(a: string, b: string, c: string, d: string)
    ensures KeyLeq([a, b], [c, d]) <==> if a == c then b == d || StringLeq(b, d) else StringLeq(a, c)
  {
    hide StringLeq;
    assert [a, b][1..] == [b] && [c, d][1..] == [d];
    LastLeq(b, d);
  }
}
