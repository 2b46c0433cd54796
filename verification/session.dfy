/** The game as the user drives it: each button the screens offer is an
    event, `Step` applies one, and `Inv` is what every reachable state keeps.
    The lemmas here tie the transitions together: the reveal order, the
    two ways a round ends, and the anti-repetition across rounds. */
module Session {
  import opened Wrappers
  import opened Text
  import opened Seqs
  import opened Selection
  import opened Round
  import opened Lists

  /** The user's intents, one per button. `SignIn` is a successful login
      or registration with the account it loads; draws are values of
      `Math.random()`, swaps describe a shuffle, `confirmed` is the answer
      to a confirmation dialog. */
  datatype Event =
    | SignIn(account: Account)
    | StartRound(wordDraw: real, impostorDraw: real, swaps: seq<(nat, nat)>)
    | RevealNext
    | Vote(index: int)
    | NewRound
    | SignOut
    | AddName(input: string)
    | RemoveName(index: int)
    | ShuffleRoster(swaps: seq<(nat, nat)>)
    | ClearPlayers(confirmed: bool)
    | AddPoolWord(input: string)
    | RemovePoolWord(index: int)
    | ClearWords(confirmed: bool)

  /** Whether the screen on show offers the event. Nobody signed in: only
      the login screen, which offers sign-in. Otherwise the screen of
      `g.phase`: setup offers the list edits, start and logout (shuffle and
      clear-all only beside a non-empty list); the reveal
      screen offers "next"; the playing screen an "eliminate" button beside
      each active player; the end screen "new round" and logout. */
  function Enabled(g: State, e: Event): (b: bool)
    ensures b ==> (g.user.Some? <==> !e.SignIn?)
    ensures b && e.Vote? ==> 0 <= e.index < |g.players| && e.index !in g.eliminated
    ensures b && (e.ShuffleRoster? || e.ClearPlayers?) ==> g.players != []
    ensures b && e.ClearWords? ==> Pool(g) != []
  {
    if e.SignIn? then g.user.None?
    else
      g.user.Some? &&
      match e
      case StartRound(wd, id, swaps) =>
        g.phase == Setup && 0.0 <= wd < 1.0 && 0.0 <= id < 1.0 && SwapsFit(swaps, |g.players|)
      case RevealNext => g.phase == Revealing
      case Vote(i) => g.phase == Playing && 0 <= i < |g.players| && i !in g.eliminated
      case NewRound => g.phase == Ended
      case SignOut => g.phase == Setup || g.phase == Ended
      case ShuffleRoster(swaps) => g.phase == Setup && g.players != [] && SwapsFit(swaps, |g.players|)
      case ClearPlayers(_) => g.phase == Setup && g.players != []
      case ClearWords(_) => g.phase == Setup && Pool(g) != []
      case _ => g.phase == Setup
  }

  /** The state after an offered event; a refused start or edit leaves the
      state as it was. Signing in sets the user and nothing else; after that
      the same user stays signed in until logout, and only a start, a logout
      or a "clear all" touches a history. */
  function Step(g: State, e: Event): (r: State)
    requires Enabled(g, e)
    ensures e.SignIn? ==> r == g.(user := Some(e.account))
    ensures !e.SignIn? && !e.SignOut? ==> r.user.Some? && r.user.value.username == g.user.value.username
    ensures KeepsHistory(e) ==> r.recentWords == g.recentWords && r.recentImpostors == g.recentImpostors
  {
    match e
    case SignIn(a) => g.(user := Some(a))
    case StartRound(wd, id, swaps) =>
      (match StartGame(g, wd, id, swaps) case Success(s) => s case Failure(_) => g)
    case RevealNext => HandleNext(g)
    case Vote(i) => Eliminate(g, i)
    case NewRound => ResetGame(g)
    case SignOut => Logout(g)
    case AddName(input) =>
      (match AddPlayer(g, input) case Success(s) => s case Failure(_) => g)
    case RemoveName(i) => RemovePlayer(g, i)
    case ShuffleRoster(swaps) => ShufflePlayers(g, swaps)
    case ClearPlayers(c) => ClearAllPlayers(g, c)
    case AddPoolWord(input) =>
      (match AddWord(g, input) case Success(s) => s case Failure(_) => g)
    case RemovePoolWord(i) => RemoveWord(g, i)
    case ClearWords(c) => ClearAllWords(g, c)
  }

  /** The positions 0, 1, ..., n - 1 in order. */
  function Upto(n: nat): (r: seq<int>)
    ensures |r| == n && forall i :: 0 <= i < n ==> r[i] == i
  {
    seq(n, i requires 0 <= i < n => i)
  }

  /** Eliminated positions are real positions, each eliminated once. */
  predicate ValidEliminations(n: nat, e: seq<int>) {
    && (forall k :: 0 <= k < |e| ==> 0 <= e[k] < n)
    && NoRepeats(e)
  }

  /** What holds in every state the game can reach: histories of at most
      two, the impostor history without a repeated name; a roster of
      distinct (ignoring case), trimmed, non-blank names; no round data in
      setup; during a round a signed-in user, at least three players, a
      valid impostor and reveal position, the round's word and impostor at
      the head of the histories, each position eliminated at most once; the
      reveal visits positions in order; play continues only while the
      impostor is in and three or more players are active; and a round ends
      either with the impostor caught or with exactly two players left. */
  predicate Inv(g: State) {
    && |g.recentWords| <= 2 && |g.recentImpostors| <= 2
    && NoRepeats(g.recentImpostors)
    && DistinctIgnoringCase(g.players) && NamesTrimmed(g.players)
    && (g.phase == Setup ==>
          g.word == "" && g.impostorIndex == -1 && g.revealedOrder == [] && g.eliminated == [])
    && (g.phase != Setup ==>
          && g.user.Some?
          && |g.players| >= 3
          && 0 <= g.impostorIndex < |g.players|
          && 0 <= g.revealIndex < |g.players|
          && g.recentWords != [] && g.recentWords[0] == g.word
          && g.recentImpostors != [] && g.recentImpostors[0] == g.players[g.impostorIndex].name
          && ValidEliminations(|g.players|, g.eliminated))
    && (g.phase == Revealing ==> g.eliminated == [] && g.revealedOrder == Upto(g.revealIndex))
    && (g.phase == Playing || g.phase == Ended ==>
          g.revealedOrder == Upto(|g.players|) && g.revealIndex == |g.players| - 1)
    && (g.phase == Playing ==>
          g.impostorIndex !in g.eliminated && ActiveCount(|g.players|, g.eliminated) >= 3)
    && (g.phase == Ended ==>
          g.impostorIndex in g.eliminated || ActiveCount(|g.players|, g.eliminated) == 2)
  }

  lemma InitialSatisfiesInv()
    ensures Inv(Initial())
  {
  }

  /** A round is reachable: signing in, adding three players with different
      one-letter names and starting leads from the initial state to the
      reveal screen. */
  lemma RoundIsReachable(a: Account, draw: real, x: char, y: char, z: char)
    requires a.wordPool != [] && 0.0 <= draw < 1.0
    requires 'A' <= x <= 'Z' && 'A' <= y <= 'Z' && 'A' <= z <= 'Z' && x != y && x != z && y != z
    ensures var es := [SignIn(a), AddName([x]), AddName([y]), AddName([z]), StartRound(draw, draw, [])];
      Run(Initial(), es).phase == Revealing
  {
    var setup := [SignIn(a), AddName([x]), AddName([y]), AddName([z])];
    var start := [StartRound(draw, draw, [])];
    var g3 := SetupReached(a, x, y, z, setup);
    StartReached(g3, draw, start);
    RunAppend(Initial(), setup, start);
    assert setup + start == [SignIn(a), AddName([x]), AddName([y]), AddName([z]), StartRound(draw, draw, [])];
  }

  /** Signing in and adding three players with different one-letter names. */
  lemma SetupReached(a: Account, x: char, y: char, z: char, es: seq<Event>) returns (g3: State)
    requires 'A' <= x <= 'Z' && 'A' <= y <= 'Z' && 'A' <= z <= 'Z' && x != y && x != z && y != z
    requires es == [SignIn(a), AddName([x]), AddName([y]), AddName([z])]
    ensures g3.user == Some(a) && g3.phase == Setup && |g3.players| == 3
    ensures Run(Initial(), es) == g3
  {
    var g0, g1, g2;
    g0, g1, g2, g3 := SetupSteps(a, x, y, z);
    assert es[0] == SignIn(a) && es[1] == AddName([x]) && es[2] == AddName([y]) && es[3] == AddName([z]);
    RunFourSteps(Initial(), g0, g1, g2, g3, es);
  }

  /** The states the four setup events pass through. */
  lemma SetupSteps(a: Account, x: char, y: char, z: char) returns (g0: State, g1: State, g2: State, g3: State)
    requires 'A' <= x <= 'Z' && 'A' <= y <= 'Z' && 'A' <= z <= 'Z' && x != y && x != z && y != z
    ensures Enabled(Initial(), SignIn(a)) && Step(Initial(), SignIn(a)) == g0
    ensures Enabled(g0, AddName([x])) && Step(g0, AddName([x])) == g1
    ensures Enabled(g1, AddName([y])) && Step(g1, AddName([y])) == g2
    ensures Enabled(g2, AddName([z])) && Step(g2, AddName([z])) == g3
    ensures g3.user == Some(a) && g3.phase == Setup && |g3.players| == 3
  {
    g0 := Initial().(user := Some(a));
    g1 := AddLetter(g0, x);
    g2 := AddLetter(g1, y);
    assert g2.players == [Player([x], false), Player([y], false)];
    g3 := AddLetter(g2, z);
  }

  /** Starting from a setup screen with three players and a non-empty pool
      opens the reveal screen. */
  lemma StartReached(g: State, draw: real, es: seq<Event>)
    requires g.user.Some? && g.user.value.wordPool != [] && g.phase == Setup && |g.players| == 3
    requires 0.0 <= draw < 1.0 && es == [StartRound(draw, draw, [])]
    ensures Run(g, es).phase == Revealing
  {
    assert Enabled(g, es[0]) && StartGame(g, draw, draw, []).Success?;
    assert es[1..] == [];
  }

  /** Running two sequences one after the other is running their
      concatenation. */
  lemma {:induction false} RunAppend(g: State, xs: seq<Event>, ys: seq<Event>)
    ensures Run(g, xs + ys) == Run(Run(g, xs), ys)
    decreases |xs|
  {
    if xs == [] {
      assert xs + ys == ys;
    } else {
      assert (xs + ys)[0] == xs[0] && (xs + ys)[1..] == xs[1..] + ys;
      RunAppend(if Enabled(g, xs[0]) then Step(g, xs[0]) else g, xs[1..], ys);
    }
  }

  /** Running four events that are each offered in turn passes through the
      states the steps produce. */
  lemma RunFourSteps(g0: State, g1: State, g2: State, g3: State, g4: State, es: seq<Event>)
    requires |es| == 4
    requires Enabled(g0, es[0]) && Step(g0, es[0]) == g1
    requires Enabled(g1, es[1]) && Step(g1, es[1]) == g2
    requires Enabled(g2, es[2]) && Step(g2, es[2]) == g3
    requires Enabled(g3, es[3]) && Step(g3, es[3]) == g4
    ensures Run(g0, es) == g4
  {
    assert es[1..][0] == es[1] && es[2..][0] == es[2] && es[3..][0] == es[3];
    assert es[1..][1..] == es[2..] && es[2..][1..] == es[3..] && es[3..][1..] == [];
    assert Run(g3, es[3..]) == g4;
    assert Run(g2, es[2..]) == Run(g3, es[3..]);
    assert Run(g1, es[1..]) == Run(g2, es[2..]);
    assert Run(g0, es) == Run(g1, es[1..]);
  }

  /** Adding a one-letter name that no player has yet is accepted. */
  lemma AddLetter(g: State, c: char) returns (g': State)
    requires g.user.Some? && g.phase == Setup && 'A' <= c <= 'Z'
    requires forall i :: 0 <= i < |g.players| ==>
      |g.players[i].name| == 1 && 'A' <= g.players[i].name[0] <= 'Z' && g.players[i].name[0] != c
    ensures g' == g.(players := g.players + [Player([c], false)])
    ensures Enabled(g, AddName([c])) && Step(g, AddName([c])) == g'
  {
    g' := g.(players := g.players + [Player([c], false)]);
    SingleLetterTrims(c);
    forall i | 0 <= i < |g.players|
      ensures !SameIgnoringCase(g.players[i].name, [c])
    {
      var d := g.players[i].name[0];
      assert g.players[i].name == [d];
      assert Lower([d])[0] != Lower([c])[0];
    }
  }

  lemma StartPreservesInv(g: State, wd: real, id: real, swaps: seq<(nat, nat)>)
    requires Inv(g) && Enabled(g, StartRound(wd, id, swaps))
    ensures Inv(Step(g, StartRound(wd, id, swaps)))
  {
    var r := StartGame(g, wd, id, swaps);
    if r.Success? {
      var s := r.value;
      assert Step(g, StartRound(wd, id, swaps)) == s;
      assert s.players == Shuffle(g.players, swaps);
      ShuffleKeepsRosterClean(g.players, swaps);
      assert s.revealedOrder == Upto(0);
      StartKeepsImpostorsDistinct(g, s);
      FreshRoundSatisfiesInv(s);
    }
  }

  /** A round that has just started, with nothing revealed or eliminated,
      satisfies the invariant. */
  lemma FreshRoundSatisfiesInv(s: State)
    requires s.phase == Revealing && s.user.Some?
    requires |s.players| >= 3 && DistinctIgnoringCase(s.players) && NamesTrimmed(s.players)
    requires 0 <= s.impostorIndex < |s.players|
    requires s.revealIndex == 0 && s.revealedOrder == [] && s.eliminated == []
    requires |s.recentWords| <= 2 && |s.recentImpostors| <= 2 && NoRepeats(s.recentImpostors)
    requires s.recentWords != [] && s.recentWords[0] == s.word
    requires s.recentImpostors != [] && s.recentImpostors[0] == s.players[s.impostorIndex].name
    ensures Inv(s)
  {
    assert s.revealedOrder == Upto(0);
    assert ValidEliminations(|s.players|, []);
  }

  /** A start pushes an impostor that is not in the history: the roster has
      three names distinct ignoring case, so the cascade's first step always
      leaves someone. */
  lemma StartKeepsImpostorsDistinct(g: State, s: State)
    requires DistinctIgnoringCase(g.players) && |g.players| >= 3 && |g.recentImpostors| <= 2
    requires 0 <= s.impostorIndex < |s.players|
    requires Allowed(Names(g.players), g.recentImpostors, s.players[s.impostorIndex].name)
    requires s.recentImpostors == Remember(g.recentImpostors, s.players[s.impostorIndex].name)
    ensures NoRepeats(s.recentImpostors)
  {
    CleanRosterHasThreeNames(g.players);
    ThreeNamesLeaveOneOut(Names(g.players), g.recentImpostors);
    PushFreshNoRepeats(g.recentImpostors, s.players[s.impostorIndex].name);
  }

  lemma RevealNextPreservesInv(g: State)
    requires Inv(g) && Enabled(g, RevealNext)
    ensures Inv(Step(g, RevealNext))
  {
    var r := HandleNext(g);
    assert Upto(g.revealIndex) + [g.revealIndex] == Upto(g.revealIndex + 1);
    if r.phase == Playing {
      ActiveCountNoneEliminated(|g.players|);
    }
  }

  lemma VotePreservesInv(g: State, i: int)
    requires Inv(g) && Enabled(g, Vote(i))
    ensures Inv(Step(g, Vote(i)))
  {
    ActiveCountAfterElimination(|g.players|, g.eliminated, i);
  }

  /** Every offered event keeps the invariant. */
  lemma StepPreservesInv(g: State, e: Event)
    requires Inv(g) && Enabled(g, e)
    ensures Inv(Step(g, e))
  {
    match e
    case StartRound(wd, id, swaps) => StartPreservesInv(g, wd, id, swaps);
    case RevealNext => RevealNextPreservesInv(g);
    case Vote(i) => VotePreservesInv(g, i);
    case NewRound => SameNamesKeepRosterClean(g.players, ResetGame(g).players);
    case AddName(input) =>
      if AddPlayer(g, input).Success? {
        AddPlayerKeepsRosterClean(g, input);
      }
    case RemoveName(i) => RemovePlayerKeepsRosterClean(g, i);
    case ShuffleRoster(swaps) => ShuffleKeepsRosterClean(g.players, swaps);
    case _ =>
  }

  /** Position of a phase on the way from setup to the end of a round. */
  function Rank(p: Phase): nat {
    match p
    case Setup => 0
    case Revealing => 1
    case Playing => 2
    case Ended => 3
  }

  /** Only "new round" and logout go back; every other event keeps the
      phase or moves it exactly one step forward. */
  lemma PhasesMoveForward(g: State, e: Event)
    requires Enabled(g, e) && !e.NewRound? && !e.SignOut?
    ensures Rank(g.phase) <= Rank(Step(g, e).phase) <= Rank(g.phase) + 1
  {
  }

  /** `n` presses of "next" on the reveal screen. */
  function Advance(g: State, n: nat): State
  {
    if n == 0 then g else HandleNext(Advance(g, n - 1))
  }

  /** The reveal visits positions 0, 1, ..., in order, one per press; it
      stays on the reveal screen until the last player has pressed "next",
      and that press opens the discussion. */
  lemma {:induction false} RevealVisitsInOrder(g: State, k: nat)
    requires g.phase == Revealing && g.revealIndex == 0 && g.revealedOrder == []
    requires 1 <= |g.players| && k <= |g.players|
    ensures k < |g.players| ==>
      Advance(g, k).phase == Revealing && Advance(g, k).revealIndex == k
    ensures k == |g.players| ==>
      Advance(g, k).phase == Playing && Advance(g, k).revealIndex == |g.players| - 1
    ensures Advance(g, k).revealedOrder == Upto(k)
    ensures Advance(g, k).players == g.players && Advance(g, k).eliminated == g.eliminated
  {
    if k > 0 {
      RevealVisitsInOrder(g, k - 1);
      assert Upto(k - 1) + [k - 1] == Upto(k);
    }
  }

  /** Eliminating the impostor ends the round, and the innocents win. */
  lemma CatchingImpostorEndsRound(g: State)
    requires Inv(g) && g.phase == Playing
    ensures Enabled(g, Vote(g.impostorIndex))
    ensures Step(g, Vote(g.impostorIndex)).phase == Ended
    ensures !ImpostorWon(Step(g, Vote(g.impostorIndex)))
  {
  }

  /** Eliminating an innocent ends the round exactly when it leaves two
      players active; the impostor, never eliminated, is one of them and
      wins. Otherwise play goes on with three or more active players. */
  lemma AttritionEndsRound(g: State, i: int)
    requires Inv(g) && Enabled(g, Vote(i)) && i != g.impostorIndex
    ensures var r := Step(g, Vote(i));
      r.phase == Ended <==> ActiveCount(|r.players|, r.eliminated) == 2
    ensures var r := Step(g, Vote(i));
      r.phase == Ended ==> ImpostorWon(r)
    ensures var r := Step(g, Vote(i));
      r.phase == Playing <==> ActiveCount(|r.players|, r.eliminated) >= 3
  {
    ActiveCountAfterElimination(|g.players|, g.eliminated, i);
  }

  /** At the end of a round an impostor win always means two players were
      left. */
  lemma EndedOutcome(g: State)
    requires Inv(g) && g.phase == Ended
    ensures ImpostorWon(g) ==> ActiveCount(|g.players|, g.eliminated) == 2
  {
  }

  /** The events a user can fire, in order; events the current screen does
      not offer are skipped. Without a logout among them, whoever was signed
      in stays signed in. */
  function Run(g: State, es: seq<Event>): (r: State)
    ensures g.user.Some? && (forall k :: 0 <= k < |es| ==> !es[k].SignOut?) ==>
      r.user.Some? && r.user.value.username == g.user.value.username
    decreases |es|
  {
    if es == [] then g
    else Run(if Enabled(g, es[0]) then Step(g, es[0]) else g, es[1..])
  }

  lemma {:induction false} RunPreservesInv(g: State, es: seq<Event>)
    requires Inv(g)
    ensures Inv(Run(g, es))
    decreases |es|
  {
    if es != [] {
      var g' := if Enabled(g, es[0]) then Step(g, es[0]) else g;
      if Enabled(g, es[0]) {
        StepPreservesInv(g, es[0]);
      }
      RunPreservesInv(g', es[1..]);
    }
  }

  /** Events that neither start a round nor clear a history. */
  predicate KeepsHistory(e: Event) {
    !e.StartRound? && !e.SignOut? && !e.ClearPlayers? && !e.ClearWords?
  }

  /** Between two starts, unless a history is cleared, both histories stay
      exactly as the earlier start left them: playing, ending, resetting
      and the other list edits do not touch them. */
  lemma {:induction false} RunKeepsHistories(g: State, es: seq<Event>)
    requires forall k :: 0 <= k < |es| ==> KeepsHistory(es[k])
    ensures Run(g, es).recentWords == g.recentWords
    ensures Run(g, es).recentImpostors == g.recentImpostors
    decreases |es|
  {
    if es != [] {
      var g' := if Enabled(g, es[0]) then Step(g, es[0]) else g;
      assert KeepsHistory(es[0]);
      RunKeepsHistories(g', es[1..]);
    }
  }

  /** The anti-repetition promise across rounds: after a round starts, and
      whatever is played, reset or edited afterwards without clearing a
      history, the next round's impostor is neither this round's impostor
      nor the one before (the roster's names are distinct and there are at
      least three of them); and its word is neither of the last two words
      whenever the pool still has another one. */
  lemma NextRoundAvoidsLastTwo(g: State, es: seq<Event>, wd: real, id: real, swaps: seq<(nat, nat)>)
    requires Inv(g) && g.phase != Setup
    requires forall k :: 0 <= k < |es| ==> KeepsHistory(es[k])
    ensures var t := Run(g, es);
      Enabled(t, StartRound(wd, id, swaps)) && StartGame(t, wd, id, swaps).Success? ==>
        var s := StartGame(t, wd, id, swaps).value;
        && s.players[s.impostorIndex].name != g.players[g.impostorIndex].name
        && s.players[s.impostorIndex].name !in g.recentImpostors
        && ((exists v :: v in Pool(t) && v !in g.recentWords) ==>
              s.word != g.word && s.word !in g.recentWords)
  {
    var t := Run(g, es);
    RunKeepsHistories(g, es);
    RunPreservesInv(g, es);
    if Enabled(t, StartRound(wd, id, swaps)) && StartGame(t, wd, id, swaps).Success? {
      CleanRosterHasThreeNames(t.players);
      ImpostorAvoidsLastTwo(t.players, t.recentImpostors, id);
      assert g.recentImpostors[0] in g.recentImpostors;
      if exists v :: v in Pool(t) && v !in g.recentWords {
        assert g.recentWords[0] in g.recentWords;
      }
    }
  }

  /** After logout nothing is remembered: the next round may choose any word
      and any player, as in the first round ever played. */
  lemma LogoutForgetsEverything(g: State, keys: seq<string>, k: string)
    ensures Inv(Logout(g))
    ensures Allowed(keys, Logout(g).recentWords, k) && Allowed(keys, Logout(g).recentImpostors, k)
  {
  }
}
