/** The game's state and the transitions of one round: start (selection,
    history commit, shuffle), reveal advance, elimination, outcome, reset for
    a new round, and logout. */
module Round {
  import opened Wrappers
  import opened Seqs
  import opened Selection

  datatype Phase = Setup | Revealing | Playing | Ended

  /** The signed-in user and the word pool stored for them. */
  datatype Account = Account(username: string, wordPool: seq<string>)

  /** Everything the game component keeps: the signed-in user, the phase, the
      roster (shuffled while a round runs), the reveal position and the
      positions already revealed, the secret word, the impostor's position
      (-1 outside a round), the eliminated positions in elimination order,
      and the two histories, most recent first. */
  datatype State = State(
    user: Option<Account>,
    phase: Phase,
    players: seq<Player>,
    revealIndex: int,
    word: string,
    impostorIndex: int,
    revealedOrder: seq<int>,
    eliminated: seq<int>,
    recentWords: seq<string>,
    recentImpostors: seq<string>)

  /** The state before anyone signs in: the login screen, an empty roster,
      no round and no history. */
  function Initial(): (g: State)
    ensures g.user.None? && g.phase == Setup && g.players == []
    ensures g.revealIndex == 0 && g.word == "" && g.impostorIndex == -1
    ensures g.revealedOrder == [] && g.eliminated == []
    ensures g.recentWords == [] && g.recentImpostors == []
  {
    State(None, Setup, [], 0, "", -1, [], [], [], [])
  }

  /** Why starting a round is refused (the game shows an alert and changes
      nothing). */
  datatype StartError = TooFewPlayers | NoWords

  /** The words the signed-in user can play with; none without a user. */
  function Pool(g: State): seq<string> {
    if g.user.Some? then g.user.value.wordPool else []
  }

  /** Starting a round. `wordDraw` and `impostorDraw` are the two values of
      `Math.random()`; `swaps` describes the order the shuffle produces. The
      word and the impostor's name are chosen by the cascade and pushed onto
      their histories; the roster is shuffled and the impostor found in the
      new order by name. */
  function StartGame(g: State, wordDraw: real, impostorDraw: real, swaps: seq<(nat, nat)>)
    : (r: Result<State, StartError>)
    requires 0.0 <= wordDraw < 1.0 && 0.0 <= impostorDraw < 1.0
    requires SwapsFit(swaps, |g.players|)
    ensures |g.players| < 3 ==> r == Failure(TooFewPlayers)
    ensures |g.players| >= 3 && Pool(g) == [] ==> r == Failure(NoWords)
    ensures r.Success? <==> |g.players| >= 3 && Pool(g) != []
    ensures r.Success? ==>
      var s := r.value;
      && s.phase == Revealing
      && s.revealIndex == 0 && s.revealedOrder == [] && s.eliminated == []
      && s.user == g.user
      && s.word in Pool(g)
      && |s.players| == |g.players| && multiset(s.players) == multiset(g.players)
      && 0 <= s.impostorIndex < |s.players|
      && s.recentWords == Remember(g.recentWords, s.word)
      && s.recentImpostors == Remember(g.recentImpostors, s.players[s.impostorIndex].name)
    ensures r.Success? ==>
      var s := r.value;
      && Allowed(Pool(g), g.recentWords, s.word)
      && s.players[s.impostorIndex].name in Names(g.players)
      && Allowed(Names(g.players), g.recentImpostors, s.players[s.impostorIndex].name)
  {
    if |g.players| < 3 then Failure(TooFewPlayers)
    else if g.user.None? || g.user.value.wordPool == [] then Failure(NoWords)
    else
      var word := PickWord(g.user.value.wordPool, g.recentWords, wordDraw);
      var name := PickImpostor(g.players, g.recentImpostors, impostorDraw);
      var recentWords := Remember(g.recentWords, word);
      var recentImpostors := Remember(g.recentImpostors, name);
      var shuffled := Shuffle(g.players, swaps);
      var i := PlayerWithName(g.players, shuffled, name);
      Success(g.(word := word, impostorIndex := i, players := shuffled, phase := Revealing,
                 revealIndex := 0, revealedOrder := [], eliminated := [],
                 recentWords := recentWords, recentImpostors := recentImpostors))
  }

  /** The impostor's position after the shuffle: a name taken from the old
      roster is present in any reordering of it, so the lookup never fails. */
  function PlayerWithName(roster: seq<Player>, shuffled: seq<Player>, name: string): (i: nat)
    requires multiset(shuffled) == multiset(roster)
    requires name in Names(roster)
    ensures i < |shuffled| && shuffled[i].name == name
  {
    var j :| 0 <= j < |roster| && Names(roster)[j] == name;
    assert roster[j] in multiset(shuffled);
    var k := FindName(shuffled, name);
    k
  }

  /** The "next" button of the reveal screen: records the current position
      as revealed, then moves to the next player, or after the last player
      opens the discussion. */
  function HandleNext(g: State): (r: State)
    ensures r.revealedOrder == g.revealedOrder + [g.revealIndex]
    ensures g.revealIndex < |g.players| - 1 ==> r.phase == g.phase && r.revealIndex == g.revealIndex + 1
    ensures g.revealIndex >= |g.players| - 1 ==> r.phase == Playing && r.revealIndex == g.revealIndex
    ensures r == g.(revealedOrder := r.revealedOrder, revealIndex := r.revealIndex, phase := r.phase)
  {
    var g' := g.(revealedOrder := g.revealedOrder + [g.revealIndex]);
    if g.revealIndex < |g.players| - 1 then g'.(revealIndex := g.revealIndex + 1)
    else g'.(phase := Playing)
  }

  /** The positions below `n` that are not eliminated. */
  ghost function ActivePositions(n: nat, eliminated: seq<int>): set<int> {
    set i | 0 <= i < n && i !in eliminated
  }

  /** The number of the first `n` positions that are not eliminated: the
      length of `players.filter((_, i) => !eliminated.includes(i))`. */
  function ActiveCount(n: nat, eliminated: seq<int>): (c: nat)
    ensures c == |ActivePositions(n, eliminated)|
    ensures c <= n
  {
    if n == 0 then
      assert ActivePositions(n, eliminated) == {};
      0
    else
      var own := if n - 1 in eliminated then {} else {n - 1};
      assert ActivePositions(n, eliminated) == ActivePositions(n - 1, eliminated) + own;
      assert n - 1 !in ActivePositions(n - 1, eliminated);
      ActiveCount(n - 1, eliminated) + (if n - 1 in eliminated then 0 else 1)
  }

  /** With nobody eliminated every player is active. */
  lemma {:induction false} ActiveCountNoneEliminated(n: nat)
    ensures ActiveCount(n, []) == n
  {
    if n > 0 {
      ActiveCountNoneEliminated(n - 1);
    }
  }

  /** Eliminating one more active player lowers the count by one; repeating
      an already eliminated or out-of-range position leaves it alone. */
  lemma {:induction false} ActiveCountAfterElimination(n: nat, eliminated: seq<int>, k: int)
    ensures 0 <= k < n && k !in eliminated ==> ActiveCount(n, eliminated + [k]) == ActiveCount(n, eliminated) - 1
    ensures !(0 <= k < n && k !in eliminated) ==> ActiveCount(n, eliminated + [k]) == ActiveCount(n, eliminated)
  {
    if n > 0 {
      ActiveCountAfterElimination(n - 1, eliminated, k);
    }
  }

  /** The "eliminate" button next to the player at `index`: the position is
      appended to the eliminated list; catching the impostor ends the round,
      and otherwise so does leaving two or fewer players active. */
  function Eliminate(g: State, index: int): (r: State)
    ensures r.eliminated == g.eliminated + [index]
    ensures index == g.impostorIndex ==> r.phase == Ended
    ensures index != g.impostorIndex ==>
      (r.phase == Ended <==> ActiveCount(|g.players|, g.eliminated) - 1 <= 2 || g.phase == Ended)
    ensures r.phase != Ended ==> r.phase == g.phase
    ensures r == g.(eliminated := g.eliminated + [index], phase := r.phase)
  {
    var g' := g.(eliminated := g.eliminated + [index]);
    if index == g.impostorIndex then g'.(phase := Ended)
    else if ActiveCount(|g.players|, g.eliminated) - 1 <= 2 then g'.(phase := Ended)
    else g'
  }

  /** The outcome shown on the end screen: the impostor wins when no
      elimination hit their position. */
  function ImpostorWon(g: State): (won: bool)
    ensures won <==> forall k :: 0 <= k < |g.eliminated| ==> g.eliminated[k] != g.impostorIndex
  {
    g.impostorIndex !in g.eliminated
  }

  /** "New round": back to setup with every per-round field cleared and
      every player's `revealed` flag reset; the roster order and both
      histories carry over so the next round still avoids the last two. */
  function ResetGame(g: State): (r: State)
    ensures r.phase == Setup && r.word == "" && r.impostorIndex == -1 && r.revealIndex == 0
    ensures r.revealedOrder == [] && r.eliminated == []
    ensures Names(r.players) == Names(g.players)
    ensures forall i :: 0 <= i < |r.players| ==> !r.players[i].revealed
    ensures r.recentWords == g.recentWords && r.recentImpostors == g.recentImpostors
    ensures r.user == g.user
  {
    var unrevealed := seq(|g.players|, i requires 0 <= i < |g.players| => g.players[i].(revealed := false));
    g.(players := unrevealed, phase := Setup, word := "", impostorIndex := -1, revealIndex := 0,
       revealedOrder := [], eliminated := [])
  }

  /** Logging out: the user, the roster, the round and both histories are
      dropped. handleLogout does not reset the reveal position; the next
      start does. */
  function Logout(g: State): (r: State)
    ensures r.user.None? && r.phase == Setup && r.players == []
    ensures r.word == "" && r.impostorIndex == -1 && r.revealedOrder == [] && r.eliminated == []
    ensures r.recentWords == [] && r.recentImpostors == []
    ensures r.revealIndex == g.revealIndex
  {
    g.(user := None, phase := Setup, players := [], word := "", impostorIndex := -1,
       revealedOrder := [], eliminated := [], recentWords := [], recentImpostors := [])
  }
}
