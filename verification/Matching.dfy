// Regular expressions with the meaning a backtracking engine gives them: a match
// attempt yields its results in the order in which the engine would try them, so
// the first result is the one the engine reports.
module Matching {
  import opened Wrappers

  // Letters and digits beyond ASCII that \w accepts in Unicode mode; which ones they
  // are does not matter here.
  const OTHER_WORD_CHARS: set<char>

  predicate IsDigit(c: char) {
    '0' <= c <= '9'
  }

  predicate IsLower(c: char) {
    'a' <= c <= 'z'
  }

  predicate IsAsciiWord(c: char) {
    IsDigit(c) || IsLower(c) || 'A' <= c <= 'Z' || c == '_'
  }

  predicate IsWord(c: char) {
    IsAsciiWord(c) || (c >= '\U{80}' && c in OTHER_WORD_CHARS)
  }

  datatype CharClass =
    | Digit                 // \d
    | Lower                 // [a-z]
    | Word                  // \w
    | NameChar              // [\w+-]
    | FileChar              // [\w+.-], ASCII only
    | AnyOf(chars: string)

  predicate In(c: char, cls: CharClass) {
    match cls
    case Digit => IsDigit(c)
    case Lower => IsLower(c)
    case Word => IsWord(c)
    case NameChar => IsWord(c) || c == '+' || c == '-'
    case FileChar => IsAsciiWord(c) || c == '+' || c == '.' || c == '-'
    case AnyOf(chars) => c in chars
  }

  lemma Alphabets(c: char)
    ensures IsDigit(c) <==> c in "0123456789"
    ensures IsLower(c) <==> c in "abcdefghijklmnopqrstuvwxyz"
    ensures IsAsciiWord(c) <==> c in "0123456789" || c in "abcdefghijklmnopqrstuvwxyz"
                                || c in "ABCDEFGHIJKLMNOPQRSTUVWXYZ" || c == '_'
    ensures c < '\U{80}' ==> (IsWord(c) <==> IsAsciiWord(c)) && (In(c, NameChar) <==> IsAsciiWord(c) || c in "+-")
    ensures In(c, FileChar) <==> IsAsciiWord(c) || c in "+.-"
    ensures IsAsciiWord(c) ==> IsWord(c)
  {
  }

  // A named group is written as the pair Open, Close around its content, so that an
  // expression reads in the order of the pattern text.
  datatype Regex =
    | Empty
    | Class(cls: CharClass)
    | Seq(first: Regex, second: Regex)
    | Alt(first: Regex, second: Regex)
    | Star(body: Regex, greedy: bool)
    | Open(name: string)
    | Close(name: string)

  datatype Span = Span(start: nat, end: nat)

  datatype State = State(pos: nat, starts: map<string, nat>, caps: map<string, Span>)

  function Start(i: nat): State {
    State(i, map[], map[])
  }

  // ---------- Matching ----------

  predicate InText(sts: seq<State>, s: string) {
    forall x <- sts :: x.pos <= |s|
  }

  // The room left for the state that has most of it; -1 when there is no state.
  function Room(s: string, sts: seq<State>): (r: int)
    requires InText(sts, s)
    ensures -1 <= r
  {
    if sts == [] then -1
    else Larger(|s| - sts[0].pos, Room(s, sts[1..]))
  }

  function Larger(a: int, b: int): int {
    if a < b then b else a
  }

  // An iteration of a loop counts only when it consumes something.
  function Advancing(sts: seq<State>, from: nat): seq<State> {
    if sts == [] then []
    else if from < sts[0].pos then [sts[0]] + Advancing(sts[1..], from)
    else Advancing(sts[1..], from)
  }

  lemma {:induction false} RoomOf(s: string, sts: seq<State>, x: State)
    requires InText(sts, s) && x in sts
    ensures |s| - x.pos <= Room(s, sts)
  {
    if x != sts[0] {
      RoomOf(s, sts[1..], x);
    }
  }

  lemma {:induction false} RoomAppend(s: string, xs: seq<State>, ys: seq<State>)
    requires InText(xs, s) && InText(ys, s)
    ensures InText(xs + ys, s)
    ensures Room(s, xs + ys) == Larger(Room(s, xs), Room(s, ys))
  {
    if xs == [] {
      assert xs + ys == ys;
    } else {
      assert (xs + ys)[1..] == xs[1..] + ys;
      RoomAppend(s, xs[1..], ys);
    }
  }

  lemma {:induction false} RoomAdvancing(s: string, sts: seq<State>, from: nat)
    requires InText(sts, s) && from <= |s|
    ensures InText(Advancing(sts, from), s)
    ensures Room(s, Advancing(sts, from)) < |s| - from
  {
    if sts != [] {
      RoomAdvancing(s, sts[1..], from);
      if from < sts[0].pos {
        RoomAppend(s, [sts[0]], Advancing(sts[1..], from));
      }
    }
  }

  lemma RoomOne(s: string, st: State)
    requires st.pos <= |s|
    ensures InText([st], s) && Room(s, [st]) == |s| - st.pos
  {
    assert [st][1..] == [];
  }

  function MatchAll(r: Regex, s: string, st: State): (res: seq<State>)
    requires st.pos <= |s|
    ensures InText(res, s) && Room(s, res) <= |s| - st.pos
    decreases |s| - st.pos, r, 0
  {
    match r
    case Empty => RoomOne(s, st); [st]
    case Class(cls) =>
      if st.pos < |s| && In(s[st.pos], cls) then
        RoomOne(s, st.(pos := st.pos + 1));
        [st.(pos := st.pos + 1)]
      else []
    case Seq(a, b) => MatchEach(b, s, MatchAll(a, s, st))
    case Alt(a, b) =>
      RoomAppend(s, MatchAll(a, s, st), MatchAll(b, s, st));
      MatchAll(a, s, st) + MatchAll(b, s, st)
    case Star(a, greedy) =>
      RoomAdvancing(s, MatchAll(a, s, st), st.pos);
      var more := MatchEach(r, s, Advancing(MatchAll(a, s, st), st.pos));
      RoomOne(s, st);
      RoomAppend(s, more, [st]);
      RoomAppend(s, [st], more);
      if greedy then more + [st] else [st] + more
    case Open(n) =>
      var begun := st.(starts := st.starts[n := st.pos]);
      RoomOne(s, begun);
      [begun]
    case Close(n) =>
      var ended :=
        if n in st.starts then st.(caps := st.caps[n := Span(st.starts[n], st.pos)]) else st;
      RoomOne(s, ended);
      [ended]
  }

  function MatchEach(r: Regex, s: string, sts: seq<State>): (res: seq<State>)
    requires InText(sts, s)
    ensures InText(res, s) && Room(s, res) <= Room(s, sts)
    decreases Room(s, sts), r, |sts| + 1
  {
    if sts == [] then []
    else
      RoomAppend(s, MatchAll(r, s, sts[0]), MatchEach(r, s, sts[1..]));
      MatchAll(r, s, sts[0]) + MatchEach(r, s, sts[1..])
  }

  // A result never lies before the state it started from.
  lemma ResultAfterStart(r: Regex, s: string, st: State, e: State)
    requires st.pos <= |s| && e in MatchAll(r, s, st)
    ensures st.pos <= e.pos <= |s|
  {
    hide MatchAll;
    RoomOf(s, MatchAll(r, s, st), e);
  }

  // ---------- Searching ----------

  datatype Match = Match(start: nat, last: State)

  // The leftmost place at or after a position where the expression matches.
  function FindFrom(r: Regex, s: string, from: nat): (m: Option<Match>)
    ensures m.Some? ==> from <= m.value.start <= m.value.last.pos <= |s|
    decreases |s| - from
  {
    if from > |s| then None
    else
      var all := MatchAll(r, s, Start(from));
      if all != [] then
        ResultAfterStart(r, s, Start(from), all[0]);
        Some(Match(from, all[0]))
      else FindFrom(r, s, from + 1)
  }

  // Where a search goes on after a match.
  function After(m: Match): nat {
    if m.last.pos > m.start then m.last.pos else m.start + 1
  }

  // All matches of a repeated search.
  function FindAll(r: Regex, s: string, from: nat): seq<Match>
    decreases |s| - from
  {
    match FindFrom(r, s, from)
    case None => []
    case Some(m) => [m] + FindAll(r, s, After(m))
  }

  function FirstAt(sts: seq<State>, end: nat): Option<State> {
    if sts == [] then None
    else if sts[0].pos == end then Some(sts[0])
    else FirstAt(sts[1..], end)
  }

  // The preferred result that consumes the whole text.
  function FullMatch(r: Regex, s: string): Option<State> {
    FirstAt(MatchAll(r, s, Start(0)), |s|)
  }

  // The text of a named group in the last match in which it took part.
  function LastCapture(ms: seq<Match>, name: string, s: string): string {
    if ms == [] then ""
    else
      var m := ms[|ms| - 1];
      if name in m.last.caps then Slice(s, m.last.caps[name]) else LastCapture(ms[..|ms| - 1], name, s)
  }

  function Slice(s: string, span: Span): string {
    if span.start <= span.end <= |s| then s[span.start..span.end] else ""
  }

  // ---------- Laws of ordered results ----------

  lemma EachStep(r: Regex, s: string, xs: seq<State>)
    requires InText(xs, s)
    ensures xs == [] ==> MatchEach(r, s, xs) == []
    ensures xs != [] ==> InText(xs[1..], s)
                         && MatchEach(r, s, xs) == MatchAll(r, s, xs[0]) + MatchEach(r, s, xs[1..])
  {
    hide MatchAll;
  }

  lemma {:induction false} EachAppend(r: Regex, s: string, xs: seq<State>, ys: seq<State>)
    requires InText(xs, s) && InText(ys, s)
    ensures InText(xs + ys, s)
    ensures MatchEach(r, s, xs + ys) == MatchEach(r, s, xs) + MatchEach(r, s, ys)
  {
    hide MatchAll, MatchEach;
    EachStep(r, s, xs);
    if xs == [] {
      assert xs + ys == ys;
    } else {
      assert InText(xs + ys, s);
      EachStep(r, s, xs + ys);
      assert (xs + ys)[1..] == xs[1..] + ys;
      EachAppend(r, s, xs[1..], ys);
    }
  }

  lemma EachOne(r: Regex, s: string, st: State)
    requires st.pos <= |s|
    ensures MatchEach(r, s, [st]) == MatchAll(r, s, st)
  {
    hide MatchAll, MatchEach;
    EachStep(r, s, [st]);
    assert [st][1..] == [];
    EachStep(r, s, []);
  }

  lemma {:induction false} EachEmpty(r: Regex, s: string, xs: seq<State>)
    requires InText(xs, s)
    requires forall x <- xs :: MatchAll(r, s, x) == []
    ensures MatchEach(r, s, xs) == []
  {
    hide MatchAll, MatchEach;
    EachStep(r, s, xs);
    if xs != [] {
      EachEmpty(r, s, xs[1..]);
    }
  }

  lemma {:induction false} EachOrigin(r: Regex, s: string, xs: seq<State>, e: State) returns (x: State)
    requires InText(xs, s)
    requires e in MatchEach(r, s, xs)
    ensures x in xs && x.pos <= |s| && e in MatchAll(r, s, x)
  {
    hide MatchAll, MatchEach;
    EachStep(r, s, xs);
    if e in MatchAll(r, s, xs[0]) {
      x := xs[0];
    } else {
      x := EachOrigin(r, s, xs[1..], e);
    }
  }

  lemma {:induction false} EachReaches(r: Regex, s: string, xs: seq<State>, x: State, e: State)
    requires InText(xs, s)
    requires x in xs && e in MatchAll(r, s, x)
    ensures e in MatchEach(r, s, xs)
  {
    hide MatchAll, MatchEach;
    EachStep(r, s, xs);
    if x != xs[0] {
      EachReaches(r, s, xs[1..], x, e);
    }
  }

  // ---------- The preferred result ----------

  // From st the engine's first choice leads to e.
  predicate Takes(r: Regex, s: string, st: State, e: State) {
    st.pos <= |s| && MatchAll(r, s, st) != [] && MatchAll(r, s, st)[0] == e
  }

  predicate Fails(r: Regex, s: string, st: State) {
    st.pos <= |s| && MatchAll(r, s, st) == []
  }

  lemma EachTakesFirst(r: Regex, s: string, xs: seq<State>, e: State)
    requires InText(xs, s)
    requires xs != [] && Takes(r, s, xs[0], e)
    ensures MatchEach(r, s, xs) != [] && MatchEach(r, s, xs)[0] == e
  {
    hide MatchAll;
  }

  lemma SeqUnfolds(a: Regex, b: Regex, s: string, st: State)
    requires st.pos <= |s|
    ensures MatchAll(Seq(a, b), s, st) == MatchEach(b, s, MatchAll(a, s, st))
  {
    hide MatchEach, Advancing, Room, In, InText;
  }

  lemma AltUnfolds(a: Regex, b: Regex, s: string, st: State)
    requires st.pos <= |s|
    ensures MatchAll(Alt(a, b), s, st) == MatchAll(a, s, st) + MatchAll(b, s, st)
  {
    hide MatchEach, Advancing, Room, In, InText;
  }

  lemma SeqTakes(a: Regex, b: Regex, s: string, st: State, m: State, e: State)
    requires Takes(a, s, st, m) && Takes(b, s, m, e)
    ensures Takes(Seq(a, b), s, st, e)
  {
    hide MatchAll;
    SeqUnfolds(a, b, s, st);
    EachTakesFirst(b, s, MatchAll(a, s, st), e);
  }

  lemma SeqFails(a: Regex, b: Regex, s: string, st: State)
    requires st.pos <= |s|
    requires forall x <- MatchAll(a, s, st) :: MatchAll(b, s, x) == []
    ensures Fails(Seq(a, b), s, st)
  {
    hide MatchAll;
    SeqUnfolds(a, b, s, st);
    EachEmpty(b, s, MatchAll(a, s, st));
  }

  lemma AltTakesFirst(a: Regex, b: Regex, s: string, st: State, e: State)
    requires Takes(a, s, st, e)
    ensures Takes(Alt(a, b), s, st, e)
  {
    hide MatchAll;
    AltUnfolds(a, b, s, st);
  }

  lemma AltTakesSecond(a: Regex, b: Regex, s: string, st: State, e: State)
    requires Fails(a, s, st) && Takes(b, s, st, e)
    ensures Takes(Alt(a, b), s, st, e)
  {
    hide MatchAll;
    AltUnfolds(a, b, s, st);
  }

  lemma AdvancingKeepsFirst(sts: seq<State>, from: nat)
    requires sts != [] && from < sts[0].pos
    ensures Advancing(sts, from) != [] && Advancing(sts, from)[0] == sts[0]
  {
  }

  lemma StarUnfolds(a: Regex, greedy: bool, s: string, st: State)
    requires st.pos <= |s|
    ensures InText(Advancing(MatchAll(a, s, st), st.pos), s)
    ensures var more := MatchEach(Star(a, greedy), s, Advancing(MatchAll(a, s, st), st.pos));
            MatchAll(Star(a, greedy), s, st) == if greedy then more + [st] else [st] + more
  {
    hide MatchEach, Advancing, Room, Larger, In, InText;
    RoomAdvancing(s, MatchAll(a, s, st), st.pos);
    var r := Star(a, greedy);
    assert r.body == a && r.greedy == greedy;
  }

  lemma StarIterates(a: Regex, s: string, st: State, m: State, e: State)
    requires Takes(a, s, st, m) && st.pos < m.pos
    requires Takes(Star(a, true), s, m, e)
    ensures Takes(Star(a, true), s, st, e)
  {
    var xs := MatchAll(a, s, st);
    AdvancingKeepsFirst(xs, st.pos);
    RoomAdvancing(s, xs, st.pos);
    EachTakesFirst(Star(a, true), s, Advancing(xs, st.pos), e);
  }

  lemma StarStops(a: Regex, s: string, st: State)
    requires Fails(a, s, st)
    ensures Takes(Star(a, true), s, st, st)
    ensures MatchAll(Star(a, true), s, st) == [st]
  {
    assert Advancing([], st.pos) == [];
  }

  function Opt(a: Regex): Regex {
    Alt(a, Empty)
  }

  lemma OptSkips(a: Regex, s: string, st: State)
    requires Fails(a, s, st)
    ensures Takes(Opt(a), s, st, st)
    ensures MatchAll(Opt(a), s, st) == [st]
  {
  }

  // A lazy loop over single characters tries its continuation first and takes one
  // more character only after that.
  lemma LazyLoopStep(cls: CharClass, s: string, st: State)
    requires st.pos <= |s|
    ensures MatchAll(Star(Class(cls), false), s, st) ==
            [st] + if st.pos < |s| && In(s[st.pos], cls)
                   then MatchAll(Star(Class(cls), false), s, st.(pos := st.pos + 1))
                   else []
  {
    hide In, MatchEach;
    var lazy := Star(Class(cls), false);
    if st.pos < |s| && In(s[st.pos], cls) {
      var next := st.(pos := st.pos + 1);
      var one := MatchAll(Class(cls), s, st);
      assert one == [next];
      assert Advancing(one, st.pos) == [next] by {
        assert Advancing(one[1..], st.pos) == [];
      }
      EachOne(lazy, s, next);
    } else {
      assert Advancing([], st.pos) == [];
    }
  }

  lemma LazyStep(cls: CharClass, k: Regex, s: string, st: State)
    requires st.pos <= |s|
    ensures MatchAll(Seq(Star(Class(cls), false), k), s, st) ==
            MatchAll(k, s, st)
            + if st.pos < |s| && In(s[st.pos], cls)
              then MatchAll(Seq(Star(Class(cls), false), k), s, st.(pos := st.pos + 1))
              else []
  {
    hide In, MatchAll;
    var lazy := Star(Class(cls), false);
    LazyLoopStep(cls, s, st);
    SeqUnfolds(lazy, k, s, st);
    EachOne(k, s, st);
    if st.pos < |s| && In(s[st.pos], cls) {
      var next := st.(pos := st.pos + 1);
      EachAppend(k, s, [st], MatchAll(lazy, s, next));
      SeqUnfolds(lazy, k, s, next);
    }
  }

  // Nothing at or after a position lets the expression match.
  ghost predicate FailsFrom(r: Regex, s: string, from: nat) {
    forall st: State :: from <= st.pos <= |s| ==> Fails(r, s, st)
  }

  lemma SeqFailsFrom(a: Regex, b: Regex, s: string, from: nat)
    requires FailsFrom(b, s, from)
    ensures FailsFrom(Seq(a, b), s, from)
  {
    hide MatchAll;
    forall st: State | from <= st.pos <= |s|
      ensures Fails(Seq(a, b), s, st)
    {
      forall x <- MatchAll(a, s, st)
        ensures MatchAll(b, s, x) == []
      {
        ResultAfterStart(a, s, st, x);
        assert Fails(b, s, x);
      }
      SeqFails(a, b, s, st);
    }
  }

  lemma {:induction false} NoMatchFrom(r: Regex, s: string, from: nat)
    requires FailsFrom(r, s, from)
    ensures FindFrom(r, s, from) == None
    ensures FindAll(r, s, from) == []
    decreases |s| - from
  {
    hide MatchAll;
    if from <= |s| {
      assert Fails(r, s, Start(from));
      NoMatchFrom(r, s, from + 1);
    }
  }

  // A search finds something as soon as there is a match anywhere ahead.
  lemma {:induction false} FindFromFinds(r: Regex, s: string, from: nat, i: nat)
    requires from <= i <= |s| && MatchAll(r, s, Start(i)) != []
    ensures FindFrom(r, s, from).Some?
    decreases |s| - from
  {
    hide MatchAll;
    if from < i {
      FindFromFinds(r, s, from + 1, i);
    }
  }

  lemma {:induction false} FirstMatchIsLater(r: Regex, s: string, from: nat, p: nat)
    requires from <= p <= |s|
    requires forall i :: from <= i < p ==> Fails(r, s, Start(i))
    ensures FindFrom(r, s, from) == FindFrom(r, s, p)
    decreases p - from
  {
    hide MatchAll;
    if from < p {
      FirstMatchIsLater(r, s, from + 1, p);
    }
  }

  lemma SelfInStar(a: Regex, s: string, st: State)
    requires st.pos <= |s|
    ensures st in MatchAll(Star(a, true), s, st)
  {
    hide MatchAll;
    StarUnfolds(a, true, s, st);
  }

  lemma {:induction false} FoundIsResult(r: Regex, s: string, from: nat)
    requires FindFrom(r, s, from).Some?
    ensures var m := FindFrom(r, s, from).value;
            m.start <= |s| && m.last in MatchAll(r, s, Start(m.start))
    decreases |s| - from
  {
    hide MatchAll;
    if MatchAll(r, s, Start(from)) == [] {
      FoundIsResult(r, s, from + 1);
    }
  }

  lemma SeqHead(a: Regex, b: Regex, s: string, st: State, e: State) returns (x: State)
    requires Takes(Seq(a, b), s, st, e)
    ensures st.pos <= x.pos <= |s| && x in MatchAll(a, s, st) && Takes(b, s, x, e)
  {
    hide MatchAll;
    SeqUnfolds(a, b, s, st);
    x := EachHead(b, s, MatchAll(a, s, st), e);
    ResultAfterStart(a, s, st, x);
  }

  lemma {:induction false} EachHead(r: Regex, s: string, xs: seq<State>, e: State) returns (x: State)
    requires InText(xs, s)
    requires MatchEach(r, s, xs) != [] && MatchEach(r, s, xs)[0] == e
    ensures x in xs && Takes(r, s, x, e)
  {
    hide MatchAll, MatchEach;
    EachStep(r, s, xs);
    if MatchAll(r, s, xs[0]) != [] {
      x := xs[0];
    } else {
      x := EachHead(r, s, xs[1..], e);
    }
  }

  // When the second part never fails, the first part's preferred result is kept.
  lemma SeqHeadOfTotal(a: Regex, b: Regex, s: string, st: State, e: State) returns (x: State)
    requires Takes(Seq(a, b), s, st, e)
    requires forall y <- MatchAll(a, s, st) :: y.pos <= |s| ==> MatchAll(b, s, y) != []
    ensures st.pos <= x.pos <= |s| && Takes(a, s, st, x) && Takes(b, s, x, e)
  {
    hide MatchAll;
    SeqUnfolds(a, b, s, st);
    EachStep(b, s, MatchAll(a, s, st));
    x := MatchAll(a, s, st)[0];
    ResultAfterStart(a, s, st, x);
  }

  // ---------- The engine finds exactly the words of the language ----------

  ghost predicate Lang(r: Regex, t: string)
    decreases |t|, r
  {
    match r
    case Empty => t == ""
    case Class(cls) => |t| == 1 && In(t[0], cls)
    case Seq(a, b) => exists k :: 0 <= k <= |t| && Lang(a, t[..k]) && Lang(b, t[k..])
    case Alt(a, b) => Lang(a, t) || Lang(b, t)
    case Star(a, _) => t == "" || exists k :: 0 < k <= |t| && Lang(a, t[..k]) && Lang(r, t[k..])
    case Open(_) => t == ""
    case Close(_) => t == ""
  }

  lemma Cut(s: string, i: nat, k: nat, j: nat)
    requires i <= k <= j <= |s|
    ensures s[i..j][..k - i] == s[i..k] && s[i..j][k - i..] == s[k..j]
  {
  }

  lemma {:induction false} InAdvancing(sts: seq<State>, from: nat, x: State)
    ensures x in Advancing(sts, from) <==> x in sts && from < x.pos
  {
    if sts != [] {
      InAdvancing(sts[1..], from, x);
    }
  }

  lemma SeqOrigin(a: Regex, b: Regex, s: string, st: State, e: State) returns (x: State)
    requires st.pos <= |s| && e in MatchAll(Seq(a, b), s, st)
    ensures st.pos <= x.pos <= |s| && x in MatchAll(a, s, st) && e in MatchAll(b, s, x)
  {
    hide MatchAll;
    SeqUnfolds(a, b, s, st);
    x := EachOrigin(b, s, MatchAll(a, s, st), e);
    ResultAfterStart(a, s, st, x);
  }

  lemma StarOrigin(a: Regex, greedy: bool, s: string, st: State, e: State) returns (x: State)
    requires st.pos <= |s| && e in MatchAll(Star(a, greedy), s, st) && e != st
    ensures st.pos < x.pos <= |s| && x in MatchAll(a, s, st) && e in MatchAll(Star(a, greedy), s, x)
  {
    hide MatchAll, MatchEach, Advancing;
    StarUnfolds(a, greedy, s, st);
    x := EachOrigin(Star(a, greedy), s, Advancing(MatchAll(a, s, st), st.pos), e);
    InAdvancing(MatchAll(a, s, st), st.pos, x);
  }

  lemma {:induction false} MatchIsInLanguage(r: Regex, s: string, st: State, e: State)
    requires st.pos <= |s| && e in MatchAll(r, s, st)
    ensures st.pos <= e.pos <= |s| && Lang(r, s[st.pos..e.pos])
    decreases |s| - st.pos, r
  {
    hide In, MatchEach, Advancing;
    match r {
      case Empty =>
      case Class(cls) =>
      case Open(_) =>
      case Close(_) =>
      case Alt(a, b) =>
        if e in MatchAll(a, s, st) {
          MatchIsInLanguage(a, s, st, e);
        } else {
          MatchIsInLanguage(b, s, st, e);
        }
      case Seq(a, b) =>
        var x := SeqOrigin(a, b, s, st, e);
        MatchIsInLanguage(a, s, st, x);
        MatchIsInLanguage(b, s, x, e);
        Cut(s, st.pos, x.pos, e.pos);
      case Star(a, greedy) =>
        if e != st {
          var x := StarOrigin(a, greedy, s, st, e);
          MatchIsInLanguage(a, s, st, x);
          MatchIsInLanguage(r, s, x, e);
          Cut(s, st.pos, x.pos, e.pos);
        }
    }
  }

  lemma SeqReaches(a: Regex, b: Regex, s: string, st: State, x: State, e: State)
    requires st.pos <= |s| && x.pos <= |s| && x in MatchAll(a, s, st) && e in MatchAll(b, s, x)
    ensures e in MatchAll(Seq(a, b), s, st)
  {
    hide MatchAll;
    SeqUnfolds(a, b, s, st);
    EachReaches(b, s, MatchAll(a, s, st), x, e);
  }

  lemma AltReaches(a: Regex, b: Regex, s: string, st: State, e: State)
    requires st.pos <= |s| && (e in MatchAll(a, s, st) || e in MatchAll(b, s, st))
    ensures e in MatchAll(Alt(a, b), s, st)
  {
    hide MatchAll;
    AltUnfolds(a, b, s, st);
  }

  lemma SimpleReaches(r: Regex, s: string, st: State) returns (e: State)
    requires st.pos <= |s|
    requires r.Empty? || r.Open? || r.Close? || (r.Class? && st.pos < |s| && In(s[st.pos], r.cls))
    ensures e in MatchAll(r, s, st) && e.pos == st.pos + if r.Class? then 1 else 0
  {
    e := MatchAll(r, s, st)[0];
  }

  lemma StarReaches(a: Regex, greedy: bool, s: string, st: State, x: State, e: State)
    requires st.pos < x.pos <= |s| && x in MatchAll(a, s, st)
    requires e in MatchAll(Star(a, greedy), s, x)
    ensures e in MatchAll(Star(a, greedy), s, st)
  {
    hide MatchAll, MatchEach, Advancing;
    StarUnfolds(a, greedy, s, st);
    InAdvancing(MatchAll(a, s, st), st.pos, x);
    EachReaches(Star(a, greedy), s, Advancing(MatchAll(a, s, st), st.pos), x, e);
  }

  lemma LangOfSimple(r: Regex, t: string)
    ensures r.Empty? || r.Open? || r.Close? ==> (Lang(r, t) <==> t == "")
    ensures r.Class? ==> (Lang(r, t) <==> |t| == 1 && In(t[0], r.cls))
    ensures r.Alt? ==> (Lang(r, t) <==> Lang(r.first, t) || Lang(r.second, t))
  {
  }

  lemma LangOfSeq(a: Regex, b: Regex, t: string) returns (k: nat)
    requires Lang(Seq(a, b), t)
    ensures k <= |t| && Lang(a, t[..k]) && Lang(b, t[k..])
  {
    k :| 0 <= k <= |t| && Lang(a, t[..k]) && Lang(b, t[k..]);
  }

  lemma LangOfStar(a: Regex, greedy: bool, t: string) returns (k: nat)
    requires Lang(Star(a, greedy), t) && t != ""
    ensures 0 < k <= |t| && Lang(a, t[..k]) && Lang(Star(a, greedy), t[k..])
  {
    k :| 0 < k <= |t| && Lang(a, t[..k]) && Lang(Star(a, greedy), t[k..]);
  }

  lemma {:induction false} LanguageIsMatched(r: Regex, s: string, st: State, end: nat) returns (e: State)
    requires st.pos <= end <= |s| && Lang(r, s[st.pos..end])
    ensures e in MatchAll(r, s, st) && e.pos == end
    decreases |s| - st.pos, r
  {
    hide In, MatchAll, MatchEach, Lang;
    LangOfSimple(r, s[st.pos..end]);
    match r {
      case Alt(a, b) =>
        if Lang(a, s[st.pos..end]) {
          e := LanguageIsMatched(a, s, st, end);
        } else {
          e := LanguageIsMatched(b, s, st, end);
        }
        AltReaches(a, b, s, st, e);
      case Seq(a, b) =>
        var k := LangOfSeq(a, b, s[st.pos..end]);
        Cut(s, st.pos, st.pos + k, end);
        var x := LanguageIsMatched(a, s, st, st.pos + k);
        e := LanguageIsMatched(b, s, x, end);
        SeqReaches(a, b, s, st, x, e);
      case Star(a, greedy) =>
        if st.pos == end {
          e := st;
          StarUnfolds(a, greedy, s, st);
        } else {
          var k := LangOfStar(a, greedy, s[st.pos..end]);
          Cut(s, st.pos, st.pos + k, end);
          var x := LanguageIsMatched(a, s, st, st.pos + k);
          e := LanguageIsMatched(r, s, x, end);
          StarReaches(a, greedy, s, st, x, e);
        }
      case _ =>
        e := SimpleReaches(r, s, st);
    }
  }

  lemma MatcherIsExact(r: Regex, s: string, st: State, end: nat)
    requires st.pos <= end <= |s|
    ensures (exists e <- MatchAll(r, s, st) :: e.pos == end) <==> Lang(r, s[st.pos..end])
  {
    if Lang(r, s[st.pos..end]) {
      var e := LanguageIsMatched(r, s, st, end);
    }
    if exists e <- MatchAll(r, s, st) :: e.pos == end {
      var e :| e in MatchAll(r, s, st) && e.pos == end;
      MatchIsInLanguage(r, s, st, e);
    }
  }

  // ---------- Groups an expression does not mention ----------

  predicate Mentions(r: Regex, name: string) {
    match r
    case Seq(a, b) => Mentions(a, name) || Mentions(b, name)
    case Alt(a, b) => Mentions(a, name) || Mentions(b, name)
    case Star(a, _) => Mentions(a, name)
    case Open(n) => n == name
    case Close(n) => n == name
    case _ => false
  }

  predicate SameGroup(x: State, y: State, name: string) {
    && (name in x.starts <==> name in y.starts)
    && (name in x.starts ==> x.starts[name] == y.starts[name])
    && (name in x.caps <==> name in y.caps)
    && (name in x.caps ==> x.caps[name] == y.caps[name])
  }

  lemma {:induction false} UnmentionedGroupStays(r: Regex, s: string, st: State, e: State, name: string)
    requires st.pos <= |s| && e in MatchAll(r, s, st) && !Mentions(r, name)
    ensures SameGroup(st, e, name)
    decreases |s| - st.pos, r
  {
    hide In, MatchEach, Advancing, Room, InText;
    match r {
      case Empty =>
      case Class(cls) =>
      case Open(_) =>
      case Close(_) =>
      case Alt(a, b) =>
        if e in MatchAll(a, s, st) {
          UnmentionedGroupStays(a, s, st, e, name);
        } else {
          UnmentionedGroupStays(b, s, st, e, name);
        }
      case Seq(a, b) =>
        var x := SeqOrigin(a, b, s, st, e);
        UnmentionedGroupStays(a, s, st, x, name);
        UnmentionedGroupStays(b, s, x, e, name);
      case Star(a, greedy) =>
        if e != st {
          var x := StarOrigin(a, greedy, s, st, e);
          UnmentionedGroupStays(a, s, st, x, name);
          UnmentionedGroupStays(r, s, x, e, name);
        }
    }
  }

  // ---------- Swapping digits for digits does not change a match ----------

  // Equal length, and the texts differ at most in which digit stands at a place.
  predicate SameShape(s: string, t: string) {
    |s| == |t| && forall i :: 0 <= i < |s| ==> s[i] == t[i] || (IsDigit(s[i]) && IsDigit(t[i]))
  }

  lemma SameShapeLength(s: string, t: string)
    requires SameShape(s, t)
    ensures |s| == |t|
  {
  }

  // No class of the expression tells one digit from another.
  predicate DigitBlind(r: Regex) {
    match r
    case Class(AnyOf(chars)) => forall c <- chars :: !IsDigit(c)
    case Seq(a, b) => DigitBlind(a) && DigitBlind(b)
    case Alt(a, b) => DigitBlind(a) && DigitBlind(b)
    case Star(a, _) => DigitBlind(a)
    case _ => true
  }

  lemma {:induction false} MatchDependsOnShape(r: Regex, s: string, t: string, st: State)
    requires SameShape(s, t) && DigitBlind(r) && st.pos <= |s|
    ensures MatchAll(r, s, st) == MatchAll(r, t, st)
    decreases |s| - st.pos, r, 0
  {
    match r {
      case Empty =>
      case Class(cls) =>
      case Open(_) =>
      case Close(_) =>
      case Alt(a, b) =>
        MatchDependsOnShape(a, s, t, st);
        MatchDependsOnShape(b, s, t, st);
      case Seq(a, b) =>
        MatchDependsOnShape(a, s, t, st);
        EachDependsOnShape(b, s, t, MatchAll(a, s, st));
      case Star(a, greedy) =>
        MatchDependsOnShape(a, s, t, st);
        RoomAdvancing(s, MatchAll(a, s, st), st.pos);
        EachDependsOnShape(r, s, t, Advancing(MatchAll(a, s, st), st.pos));
    }
  }

  lemma {:induction false} EachDependsOnShape(r: Regex, s: string, t: string, xs: seq<State>)
    requires SameShape(s, t) && DigitBlind(r)
    requires InText(xs, s)
    ensures MatchEach(r, s, xs) == MatchEach(r, t, xs)
    decreases Room(s, xs), r, |xs| + 1
  {
    if xs != [] {
      MatchDependsOnShape(r, s, t, xs[0]);
      EachDependsOnShape(r, s, t, xs[1..]);
    }
  }

  lemma {:induction false} FindAllDependsOnShape(r: Regex, s: string, t: string, from: nat)
    requires SameShape(s, t) && DigitBlind(r)
    ensures FindFrom(r, s, from) == FindFrom(r, t, from)
    ensures FindAll(r, s, from) == FindAll(r, t, from)
    decreases |s| - from
  {
    hide MatchAll, SameShape, DigitBlind;
    assert |s| == |t| by { SameShapeLength(s, t); }
    if from <= |s| {
      MatchDependsOnShape(r, s, t, Start(from));
      FindAllDependsOnShape(r, s, t, from + 1);
      if FindFrom(r, s, from).Some? {
        FindAllDependsOnShape(r, s, t, After(FindFrom(r, s, from).value));
      }
    }
  }
}
