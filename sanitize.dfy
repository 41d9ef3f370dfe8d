/** Neutralising the mass-mention tokens `@everyone` and `@here` in message
    content (app.py:136): a zero-width space goes in after the `@`, so the
    token no longer notifies anyone when the text is posted again. */
module Sanitize {
  import opened PyStr

  const ZeroWidthSpace: char := '\U{200B}'

  /** The words that follow `@` in the two tokens the handler defuses. */
  const Everyone: string := "everyone"
  const Here: string := "here"

  /** A word `w` whose mention `@w` can be defused: it is non-empty and holds
      neither `@` nor the zero-width space. */
  predicate MentionWord(w: string) {
    w != [] && '@' !in w && ZeroWidthSpace !in w
  }

  function Mention(w: string): string {
    "@" + w
  }

  /** `s.replace('@' + w, '@​' + w)`. */
  function Defuse(s: string, w: string): string
    requires MentionWord(w)
  {
    Replace(s, Mention(w), ['@', ZeroWidthSpace] + w)
  }

  /** The content sanitiser of app.py:136: `@everyone` first, then `@here`.
      Neither token survives. */
  function SanitizeContent(c: string): (r: string)
    ensures !Contains(r, Mention(Everyone)) && !Contains(r, Mention(Here))
  {
    var once := Defuse(c, Everyone);
    NoMentionAfterDefuse(c, Everyone, Everyone);
    NoMentionAfterDefuse(once, Here, Everyone);
    NoMentionAfterDefuse(once, Here, Here);
    Defuse(once, Here)
  }

  // ---------------------------------------------------------------------
  // Occurrences in concatenations

  lemma OccursInLeft(a: string, b: string, p: string, i: nat)
    requires i + |p| <= |a|
    ensures OccursAt(a + b, p, i) <==> OccursAt(a, p, i)
  {
    assert (a + b)[i..i + |p|] == a[i..i + |p|];
  }

  lemma OccursInRight(a: string, b: string, p: string, i: nat)
    requires |a| <= i
    ensures OccursAt(a + b, p, i) <==> OccursAt(b, p, i - |a|)
  {
    if i + |p| <= |a| + |b| {
      assert (a + b)[i..i + |p|] == b[i - |a|..i - |a| + |p|];
    }
  }

  /** A suffix of a string free of `p` is free of `p`. */
  lemma NoOccurrenceInSuffix(s: string, k: nat, p: string)
    requires k <= |s| && !Contains(s, p)
    ensures !Contains(s[k..], p)
  {
    forall i: nat | i <= |s[k..]| ensures !OccursAt(s[k..], p, i) {
      assert s == s[..k] + s[k..];
      OccursInRight(s[..k], s[k..], p, k + i);
    }
  }

  /** Putting a character other than `@` in front cannot create a mention. */
  lemma NoMentionCons(x: char, b: string, w: string)
    requires MentionWord(w) && x != '@' && !Contains(b, Mention(w))
    ensures !Contains([x] + b, Mention(w))
  {
    var p := Mention(w);
    forall i: nat | i <= |[x] + b| ensures !OccursAt([x] + b, p, i) {
      if i == 0 {
        if |p| <= |[x] + b| {
          assert ([x] + b)[..|p|][0] == x != p[0];
        }
      } else {
        OccursInRight([x], b, p, i);
      }
    }
  }

  /** Two mention-free strings stay mention-free when joined, provided the
      second does not start with a letter of the word. */
  lemma NoMentionConcat(a: string, b: string, w: string)
    requires MentionWord(w) && !Contains(a, Mention(w)) && !Contains(b, Mention(w))
    requires b == [] || b[0] !in w
    ensures !Contains(a + b, Mention(w))
  {
    var p := Mention(w);
    forall i: nat | i <= |a + b| ensures !OccursAt(a + b, p, i) {
      if i + |p| <= |a| {
        OccursInLeft(a, b, p, i);
      } else if |a| <= i {
        OccursInRight(a, b, p, i);
      } else if i + |p| <= |a + b| {
        // the occurrence would straddle the seam, matching b[0] against w
        assert (a + b)[i..i + |p|][|a| - i] == b[0];
        assert p[|a| - i] == w[|a| - i - 1];
      }
    }
  }

  // ---------------------------------------------------------------------
  // What Defuse does

  /** Output text free of `@` that starts the defused string also starts the
      original: Defuse only ever emits `@` where it rewrote a token. */
  lemma {:induction false} PrefixSurvivesDefuse(t: string, w: string, v: string)
    requires MentionWord(w) && '@' !in v
    ensures |v| <= |Defuse(t, w)| && Defuse(t, w)[..|v|] == v ==> |v| <= |t| && t[..|v|] == v
    decreases |t|
  {
    var p := Mention(w);
    var d := Defuse(t, w);
    if v != [] && |t| >= |p| && |v| <= |d| && d[..|v|] == v {
      var first := d[0];
      assert t[..|p|] == p ==> first == '@';
      assert first == v[0] != '@';
      var rest := Defuse(t[1..], w);
      assert d == [t[0]] + rest;
      assert rest[..|v| - 1] == v[1..];
      PrefixSurvivesDefuse(t[1..], w, v[1..]);
      assert t[..|v|] == [t[0]] + t[1..][..|v| - 1];
    }
  }

  /** Where the input does not start with `@w`, a mention `@u` at the front of
      the defused text was already at the front of the input. */
  lemma MentionAtFrontComesFromInput(s: string, w: string, u: string)
    requires MentionWord(w) && MentionWord(u)
    requires !OccursAt(s, Mention(w), 0)
    ensures OccursAt(Defuse(s, w), Mention(u), 0) ==> OccursAt(s, Mention(u), 0)
  {
    var p, q := Mention(w), Mention(u);
    var r := Defuse(s, w);
    if |s| >= |p| && OccursAt(r, q, 0) {
      var tail := s[1..];
      var rest := Defuse(tail, w);
      assert r == [s[0]] + rest;
      assert s[0] == r[0] == q[0];
      assert rest[..|u|] == r[1..|q|] == u;
      PrefixSurvivesDefuse(tail, w, u);
      assert s[..|q|] == [s[0]] + tail[..|u|];
    }
  }

  /** After defusing `@w`, the result holds no `@u` if either `u` is `w` or the
      input held no `@u` to begin with. */
  lemma {:induction false} NoMentionAfterDefuse(s: string, w: string, u: string)
    requires MentionWord(w) && MentionWord(u)
    requires u == w || !Contains(s, Mention(u))
    ensures !Contains(Defuse(s, w), Mention(u))
    decreases |s|
  {
    var p, q := Mention(w), Mention(u);
    var r := Defuse(s, w);
    if |s| < |p| {
      assert r == s;
    } else if s[..|p|] == p {
      var rep := ['@', ZeroWidthSpace] + w;
      var tail := s[|p|..];
      if u != w {
        NoOccurrenceInSuffix(s, |p|, q);
      }
      NoMentionAfterDefuse(tail, w, u);
      var rest := Defuse(tail, w);
      assert r == rep + rest;
      forall i: nat | i <= |r| ensures !OccursAt(r, q, i) {
        if |rep| <= i {
          OccursInRight(rep, rest, q, i);
        } else if i + |q| <= |r| {
          if i == 0 {
            // the zero-width space sits where the word should start
            assert r[i..i + |q|][1] == ZeroWidthSpace;
            assert q[1] == u[0] && u[0] in u;
          } else {
            // past its first character the replacement holds no `@`
            assert i == 1 || (rep[i] == w[i - 2] && w[i - 2] in w);
            assert r[i..i + |q|][0] == rep[i] != '@' == q[0];
          }
        }
      }
    } else {
      var tail := s[1..];
      if u != w {
        NoOccurrenceInSuffix(s, 1, q);
      }
      NoMentionAfterDefuse(tail, w, u);
      var rest := Defuse(tail, w);
      assert r == [s[0]] + rest;
      forall i: nat | i <= |r| ensures !OccursAt(r, q, i) {
        if 1 <= i {
          OccursInRight([s[0]], rest, q, i);
        } else {
          MentionAtFrontComesFromInput(s, w, u);
        }
      }
    }
  }

  /** Defusing a string that holds no `@w` changes nothing. */
  lemma {:induction false} DefuseWithoutMentionIsIdentity(s: string, w: string)
    requires MentionWord(w) && !Contains(s, Mention(w))
    ensures Defuse(s, w) == s
    decreases |s|
  {
    var p := Mention(w);
    if |s| >= |p| {
      assert !OccursAt(s, p, 0);
      NoOccurrenceInSuffix(s, 1, p);
      DefuseWithoutMentionIsIdentity(s[1..], w);
      assert s == [s[0]] + s[1..];
    }
  }

  /** Defusing keeps the last character: the replacement ends with the same
      word as the token it replaces. */
  lemma {:induction false} DefuseKeepsLast(s: string, w: string)
    requires MentionWord(w) && s != []
    ensures Defuse(s, w) != [] && Defuse(s, w)[|Defuse(s, w)| - 1] == s[|s| - 1]
    decreases |s|
  {
    var p := Mention(w);
    if |s| < |p| {
    } else if s[..|p|] == p {
      var rep := ['@', ZeroWidthSpace] + w;
      var tail := s[|p|..];
      if tail == [] {
        assert Defuse(tail, w) == [];
        assert s[|s| - 1] == p[|p| - 1] == w[|w| - 1];
      } else {
        DefuseKeepsLast(tail, w);
      }
    } else if |s| > 1 {
      DefuseKeepsLast(s[1..], w);
    }
  }

  /** Each defused token adds exactly one character and consumes `|@w|`
      characters of input, so the growth is at most `|s| / |@w|`. */
  lemma {:induction false} DefuseGrowth(s: string, w: string)
    requires MentionWord(w)
    ensures |s| <= |Defuse(s, w)|
    ensures (|Defuse(s, w)| - |s|) * |Mention(w)| <= |s|
    decreases |s|
  {
    var p := Mention(w);
    if |s| < |p| {
    } else if s[..|p|] == p {
      var tail := s[|p|..];
      DefuseGrowth(tail, w);
      var g := |Defuse(tail, w)| - |tail|;
      assert |Defuse(s, w)| - |s| == g + 1;
      assert (g + 1) * |p| == g * |p| + |p|;
    } else {
      DefuseGrowth(s[1..], w);
    }
  }

  // ---------------------------------------------------------------------
  // What SanitizeContent does

  /** Content without either token passes through unchanged. */
  lemma SanitizeWithoutMentionIsIdentity(c: string)
    requires !Contains(c, Mention(Everyone)) && !Contains(c, Mention(Here))
    ensures SanitizeContent(c) == c
  {
    DefuseWithoutMentionIsIdentity(c, Everyone);
    DefuseWithoutMentionIsIdentity(c, Here);
  }

  /** Sanitising twice is sanitising once. */
  lemma SanitizeIdempotent(c: string)
    ensures SanitizeContent(SanitizeContent(c)) == SanitizeContent(c)
  {
    SanitizeWithoutMentionIsIdentity(SanitizeContent(c));
  }

  /** Sanitising never shortens the content and keeps its last character, so
      a stripped, non-empty content still ends in a non-whitespace character.
      It may lengthen the content by one character per defused token. */
  lemma SanitizeShape(c: string)
    ensures |c| <= |SanitizeContent(c)|
    ensures 9 * (|Defuse(c, Everyone)| - |c|) <= |c|
    ensures 5 * (|SanitizeContent(c)| - |Defuse(c, Everyone)|) <= |Defuse(c, Everyone)|
    ensures c != [] ==> SanitizeContent(c) != [] && SanitizeContent(c)[|SanitizeContent(c)| - 1] == c[|c| - 1]
  {
    DefuseGrowth(c, Everyone);
    DefuseGrowth(Defuse(c, Everyone), Here);
    if c != [] {
      DefuseKeepsLast(c, Everyone);
      DefuseKeepsLast(Defuse(c, Everyone), Here);
    }
  }

  // ---------------------------------------------------------------------
  // A content that sanitising lengthens

  /** `k` copies of the letter `a`. */
  function Padding(k: nat): (r: string)
    ensures |r| == k
    ensures forall i | 0 <= i < k :: r[i] == 'a'
  {
    if k == 0 then [] else ['a'] + Padding(k - 1)
  }

  /** Letters in front of `@here` hold no `@everyone`. */
  lemma {:induction false} DefuseEveryoneKeepsPaddedHere(k: nat)
    ensures Defuse(Padding(k) + Mention(Here), Everyone) == Padding(k) + Mention(Here)
  {
    var s := Padding(k) + Mention(Here);
    if k > 0 {
      assert s[0] == 'a';
      assert s[1..] == Padding(k - 1) + Mention(Here);
      DefuseEveryoneKeepsPaddedHere(k - 1);
      if |s| >= |Mention(Everyone)| {
        assert s[..|Mention(Everyone)|][0] != Mention(Everyone)[0];
      }
    }
  }

  /** The one `@here` behind the letters gets its zero-width space. */
  lemma {:induction false} DefuseHereInPaddedHere(k: nat)
    ensures Defuse(Padding(k) + Mention(Here), Here) == Padding(k) + (['@', ZeroWidthSpace] + Here)
  {
    var s := Padding(k) + Mention(Here);
    if k > 0 {
      assert s[0] == 'a';
      assert s[1..] == Padding(k - 1) + Mention(Here);
      DefuseHereInPaddedHere(k - 1);
      assert s[..|Mention(Here)|][0] != Mention(Here)[0];
    } else {
      var rep := ['@', ZeroWidthSpace] + Here;
      assert s == Mention(Here);
      assert s[|Mention(Here)|..] == [];
      assert Replace([], Mention(Here), rep) == [];
      assert Defuse(s, Here) == rep + [];
    }
  }

  /** Sanitising `k` letters followed by `@here` adds exactly one character. */
  lemma SanitizePaddedHere(k: nat)
    ensures SanitizeContent(Padding(k) + Mention(Here)) == Padding(k) + (['@', ZeroWidthSpace] + Here)
    ensures |SanitizeContent(Padding(k) + Mention(Here))| == k + 6
  {
    DefuseEveryoneKeepsPaddedHere(k);
    DefuseHereInPaddedHere(k);
  }
}
