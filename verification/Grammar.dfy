// The pieces the two version patterns of the repository share, and what the matcher
// does on the texts they are meant for.
module Grammar {
  import opened Matching

  function Lit(c: char): Regex {
    Class(AnyOf([c]))
  }

  function Text(t: string): Regex {
    if t == "" then Empty else Seq(Lit(t[0]), Text(t[1..]))
  }

  // \d*
  function AnyDigits(): Regex {
    Star(Class(Digit), true)
  }

  // \d+
  function Digits(): Regex {
    Seq(Class(Digit), AnyDigits())
  }

  // (\.\d+)*
  function Minors(): Regex {
    Star(Seq(Lit('.'), Digits()), true)
  }

  // (pre|p|beta|alpha|rc)
  function SuffixName(): Regex {
    OneOf(NAMES)
  }

  const NAMES: seq<string> := ["pre", "p", "beta", "alpha", "rc"]

  function OneOf(ts: seq<string>): Regex
    requires |ts| >= 1
  {
    if |ts| == 1 then Text(ts[0]) else Alt(Text(ts[0]), OneOf(ts[1..]))
  }

  predicate AllDigits(t: string) {
    forall c <- t :: IsDigit(c)
  }

  // The text t stands in s from i to j.
  predicate Reads(s: string, i: nat, t: string, j: nat) {
    i <= j <= |s| && s[i..j] == t
  }

  lemma ReadsTwo(s: string, i: nat, a: string, b: string, j: nat)
    requires Reads(s, i, a + b, j)
    ensures Reads(s, i, a, i + |a|) && Reads(s, i + |a|, b, j)
  {
    assert s[i..j][..|a|] == a;
    assert s[i..j][|a|..] == b;
  }

  lemma ReadsChar(s: string, i: nat, t: string, j: nat, k: nat)
    requires k < |t|
    ensures Reads(s, i, t, j) ==> i + k < |s| && s[i + k] == t[k]
  {
    if Reads(s, i, t, j) {
      assert s[i..j][k] == s[i + k];
    }
  }

  // The character at p, if there is one, is none of those in the class.
  predicate NextIsNot(s: string, p: nat, cls: CharClass) {
    p <= |s| && (p < |s| ==> !In(s[p], cls))
  }

  function At(st: State, p: nat): State {
    st.(pos := p)
  }

  lemma ClassFails(cls: CharClass, s: string, st: State)
    requires NextIsNot(s, st.pos, cls)
    ensures Fails(Class(cls), s, st)
  {
  }

  lemma ClassTakes(cls: CharClass, s: string, st: State)
    requires st.pos < |s| && In(s[st.pos], cls)
    ensures Takes(Class(cls), s, st, At(st, st.pos + 1))
    ensures MatchAll(Class(cls), s, st) == [At(st, st.pos + 1)]
  {
  }

  lemma LitTakes(c: char, s: string, st: State)
    requires st.pos < |s| && s[st.pos] == c
    ensures Takes(Lit(c), s, st, At(st, st.pos + 1))
    ensures MatchAll(Lit(c), s, st) == [At(st, st.pos + 1)]
  {
  }

  lemma LitFails(c: char, s: string, st: State)
    requires st.pos <= |s| && (st.pos < |s| ==> s[st.pos] != c)
    ensures Fails(Lit(c), s, st)
  {
  }

  lemma SeqFailsAtOnce(a: Regex, b: Regex, s: string, st: State)
    requires Fails(a, s, st)
    ensures Fails(Seq(a, b), s, st)
  {
    hide MatchAll;
    SeqFails(a, b, s, st);
  }

  // The first part has one result only, so the second part alone decides.
  lemma SeqOfOne(a: Regex, b: Regex, s: string, st: State, m: State)
    requires st.pos <= |s| && m.pos <= |s|
    requires MatchAll(a, s, st) == [m]
    ensures MatchAll(Seq(a, b), s, st) == MatchAll(b, s, m)
  {
    EachOne(b, s, m);
  }

  lemma {:induction false} TextMatches(t: string, s: string, st: State)
    requires st.pos <= |s|
    ensures MatchAll(Text(t), s, st) ==
            if Reads(s, st.pos, t, st.pos + |t|) then [At(st, st.pos + |t|)] else []
  {
    hide MatchAll;
    if t == "" {
      EmptyMatches(s, st);
    } else if st.pos < |s| && s[st.pos] == t[0] {
      LitTakes(t[0], s, st);
      SeqOfOne(Lit(t[0]), Text(t[1..]), s, st, At(st, st.pos + 1));
      TextMatches(t[1..], s, At(st, st.pos + 1));
      if st.pos + |t| <= |s| {
        assert s[st.pos..st.pos + |t|] == [s[st.pos]] + s[st.pos + 1..st.pos + |t|];
        assert t == [t[0]] + t[1..];
      }
    } else {
      LitFails(t[0], s, st);
      SeqFailsAtOnce(Lit(t[0]), Text(t[1..]), s, st);
      if st.pos + |t| <= |s| {
        assert s[st.pos..st.pos + |t|][0] == s[st.pos];
      }
    }
  }

  lemma EmptyMatches(s: string, st: State)
    requires st.pos <= |s|
    ensures MatchAll(Empty, s, st) == [st]
  {
  }

  lemma {:induction false} AnyDigitsTake(s: string, st: State, j: nat)
    requires st.pos <= j <= |s| && AllDigits(s[st.pos..j])
    requires NextIsNot(s, j, Digit)
    ensures Takes(AnyDigits(), s, st, At(st, j))
    decreases j - st.pos
  {
    hide MatchAll, Takes;
    if st.pos == j {
      ClassFails(Digit, s, st);
      StarStops(Class(Digit), s, st);
    } else {
      assert s[st.pos] == s[st.pos..j][0];
      assert forall c <- s[st.pos + 1..j] :: c in s[st.pos..j];
      var next := At(st, st.pos + 1);
      ClassTakes(Digit, s, st);
      AnyDigitsTake(s, next, j);
      StarIterates(Class(Digit), s, st, next, At(st, j));
    }
  }

  lemma DigitsTake(s: string, st: State, t: string, j: nat)
    requires Reads(s, st.pos, t, j) && t != "" && AllDigits(t)
    requires NextIsNot(s, j, Digit)
    ensures Takes(Digits(), s, st, At(st, j))
  {
    hide MatchAll, Takes;
    assert s[st.pos] == t[0];
    assert forall c <- s[st.pos + 1..j] :: c in t;
    var next := At(st, st.pos + 1);
    ClassTakes(Digit, s, st);
    AnyDigitsTake(s, next, j);
    SeqTakes(Class(Digit), AnyDigits(), s, st, next, At(st, j));
  }

  lemma DigitsFail(s: string, st: State)
    requires NextIsNot(s, st.pos, Digit)
    ensures Fails(Digits(), s, st)
  {
    hide MatchAll;
    ClassFails(Digit, s, st);
    SeqFailsAtOnce(Class(Digit), AnyDigits(), s, st);
  }

  // ---------- Dotted numbers ----------

  function PrintMinors(ms: seq<string>): string {
    if ms == [] then "" else "." + ms[0] + PrintMinors(ms[1..])
  }

  predicate IsNumber(t: string) {
    t != "" && AllDigits(t)
  }

  predicate AreNumbers(ms: seq<string>) {
    forall m <- ms :: IsNumber(m)
  }

  lemma {:induction false} MinorsTake(ms: seq<string>, s: string, st: State, j: nat)
    requires AreNumbers(ms) && Reads(s, st.pos, PrintMinors(ms), j)
    requires NextIsNot(s, j, Digit)
    requires j < |s| && s[j] == '.' ==> NextIsNot(s, j + 1, Digit)
    ensures Takes(Minors(), s, st, At(st, j))
    ensures NextIsNot(s, st.pos, Digit)
  {
    hide MatchAll, Takes;
    var body := Seq(Lit('.'), Digits());
    if ms == [] {
      if j < |s| && s[j] == '.' {
        LitTakes('.', s, st);
        SeqOfOne(Lit('.'), Digits(), s, st, At(st, j + 1));
        DigitsFail(s, At(st, j + 1));
      } else {
        LitFails('.', s, st);
        SeqFailsAtOnce(Lit('.'), Digits(), s, st);
      }
      StarStops(body, s, st);
    } else {
      assert IsNumber(ms[0]);
      assert "." + ms[0] + PrintMinors(ms[1..]) == "." + (ms[0] + PrintMinors(ms[1..]));
      ReadsTwo(s, st.pos, ".", ms[0] + PrintMinors(ms[1..]), j);
      ReadsChar(s, st.pos, ".", st.pos + 1, 0);
      ReadsTwo(s, st.pos + 1, ms[0], PrintMinors(ms[1..]), j);
      var mid := At(st, st.pos + 1 + |ms[0]|);
      MinorsTake(ms[1..], s, mid, j);
      LitTakes('.', s, st);
      DigitsTake(s, At(st, st.pos + 1), ms[0], mid.pos);
      SeqTakes(Lit('.'), Digits(), s, st, At(st, st.pos + 1), mid);
      StarIterates(body, s, st, mid, At(st, j));
    }
  }

  lemma {:induction false} OneOfTakes(ts: seq<string>, k: nat, s: string, st: State)
    requires k < |ts| && Reads(s, st.pos, ts[k], st.pos + |ts[k]|)
    requires forall j :: 0 <= j < k ==> !Reads(s, st.pos, ts[j], st.pos + |ts[j]|)
    ensures Takes(OneOf(ts), s, st, At(st, st.pos + |ts[k]|))
  {
    hide MatchAll, Reads;
    ReadsWithin(s, st.pos, ts[k], st.pos + |ts[k]|);
    TextMatches(ts[0], s, st);
    if k == 0 {
      if |ts| > 1 {
        AltTakesFirst(Text(ts[0]), OneOf(ts[1..]), s, st, At(st, st.pos + |ts[0]|));
      }
    } else {
      OneOfTakes(ts[1..], k - 1, s, st);
      AltTakesSecond(Text(ts[0]), OneOf(ts[1..]), s, st, At(st, st.pos + |ts[k]|));
    }
  }

  // Only "pre" and "p" compete, and "pre" is tried first.
  lemma SuffixNameTakes(k: nat, s: string, st: State)
    requires k < |NAMES| && Reads(s, st.pos, NAMES[k], st.pos + |NAMES[k]|)
    requires NAMES[k] == "p" ==> NextIsNot(s, st.pos + 1, AnyOf("r"))
    ensures Takes(SuffixName(), s, st, At(st, st.pos + |NAMES[k]|))
  {
    hide MatchAll, Reads, OneOf, Text;
    ReadsChar(s, st.pos, NAMES[k], st.pos + |NAMES[k]|, 0);
    forall j | 0 <= j < k
      ensures !Reads(s, st.pos, NAMES[j], st.pos + |NAMES[j]|)
    {
      ReadsChar(s, st.pos, NAMES[j], st.pos + |NAMES[j]|, 0);
      if j == 0 {
        ReadsChar(s, st.pos, NAMES[j], st.pos + |NAMES[j]|, 1);
      }
    }
    OneOfTakes(NAMES, k, s, st);
  }

  lemma ReadsWithin(s: string, i: nat, t: string, j: nat)
    requires Reads(s, i, t, j)
    ensures i <= j <= |s| && j == i + |t|
  {
  }

  lemma {:induction false} TextMentionsNothing(t: string, group: string)
    ensures !Mentions(Text(t), group)
  {
    if t != "" {
      TextMentionsNothing(t[1..], group);
    }
  }

  lemma {:induction false} OneOfMentionsNothing(ts: seq<string>, group: string)
    requires |ts| >= 1
    ensures !Mentions(OneOf(ts), group)
  {
    TextMentionsNothing(ts[0], group);
    if |ts| > 1 {
      OneOfMentionsNothing(ts[1..], group);
    }
  }

  lemma SelfInOpt(a: Regex, s: string, st: State)
    requires st.pos <= |s|
    ensures st in MatchAll(Opt(a), s, st)
  {
    hide MatchAll;
    AltUnfolds(a, Empty, s, st);
    EmptyMatches(s, st);
  }
}
