/** The setup screen's edits of the roster and of the signed-in user's word
    pool, including the two "clear all" actions that also forget the matching
    history. A `confirmed` argument stands for the answer to the browser's
    confirmation dialog. */
module Lists {
  import opened Wrappers
  import opened Text
  import opened Seqs
  import opened Selection
  import opened Round

  /** Why an edit is refused: a blank entry and a missing user are ignored
      silently, a duplicate raises an alert; nothing changes in either case. */
  datatype EditError = Blank | NoUser | Duplicate

  /** No two roster names are equal ignoring case (for the modelled case
      mapping of `Text.Lower`). */
  predicate DistinctIgnoringCase(ps: seq<Player>) {
    forall i, j :: 0 <= i < |ps| && 0 <= j < |ps| && i != j ==> !SameIgnoringCase(ps[i].name, ps[j].name)
  }

  /** Every roster name is non-blank and has no surrounding whitespace. */
  predicate NamesTrimmed(ps: seq<Player>) {
    forall i :: 0 <= i < |ps| ==> ps[i].name != [] && Trimmed(ps[i].name)
  }

  /** Adding a player: the typed name is trimmed; a blank name is ignored and
      a name equal to a listed one ignoring case is refused; otherwise the
      trimmed name joins the end of the roster, not yet revealed. */
  function AddPlayer(g: State, input: string): (r: Result<State, EditError>)
    ensures Trim(input) == [] ==> r == Failure(Blank)
    ensures r.Success? <==>
      Trim(input) != [] && forall i :: 0 <= i < |g.players| ==> !SameIgnoringCase(g.players[i].name, Trim(input))
    ensures r.Failure? ==> r.error == Blank || r.error == Duplicate
    ensures r.Success? ==>
      && r.value.players == g.players + [Player(Trim(input), false)]
      && r.value == g.(players := r.value.players)
  {
    var name := Trim(input);
    if name == [] then Failure(Blank)
    else if exists i :: 0 <= i < |g.players| && SameIgnoringCase(g.players[i].name, name) then Failure(Duplicate)
    else Success(g.(players := g.players + [Player(name, false)]))
  }

  /** An accepted name keeps the roster free of case-insensitive duplicates
      and of untrimmed or blank names. */
  lemma AddPlayerKeepsRosterClean(g: State, input: string)
    requires DistinctIgnoringCase(g.players) && NamesTrimmed(g.players)
    requires AddPlayer(g, input).Success?
    ensures DistinctIgnoringCase(AddPlayer(g, input).value.players)
    ensures NamesTrimmed(AddPlayer(g, input).value.players)
  {
    AppendKeepsRosterClean(g.players, Player(Trim(input), false));
  }

  lemma AppendKeepsRosterClean(ps: seq<Player>, p: Player)
    requires DistinctIgnoringCase(ps) && NamesTrimmed(ps)
    requires p.name != [] && Trimmed(p.name)
    requires forall i :: 0 <= i < |ps| ==> !SameIgnoringCase(ps[i].name, p.name)
    ensures DistinctIgnoringCase(ps + [p]) && NamesTrimmed(ps + [p])
  {
    var qs := ps + [p];
    forall i, j | 0 <= i < |qs| && 0 <= j < |qs| && i != j
      ensures !SameIgnoringCase(qs[i].name, qs[j].name)
    {
      if j == |ps| {
        assert qs[i] == ps[i];
      } else if i == |ps| {
        assert qs[j] == ps[j];
      } else {
        assert qs[i] == ps[i] && qs[j] == ps[j];
      }
    }
  }

  /** Removing the player at `index`: exactly that position goes, the others
      keep their order; nothing else changes (the impostor history included). */
  function RemovePlayer(g: State, index: int): (r: State)
    ensures 0 <= index < |g.players| ==>
      multiset(r.players) + multiset{g.players[index]} == multiset(g.players)
    ensures 0 <= index < |g.players| ==>
      && |r.players| == |g.players| - 1
      && (forall j :: 0 <= j < index ==> r.players[j] == g.players[j])
      && (forall j :: index <= j < |r.players| ==> r.players[j] == g.players[j + 1])
    ensures !(0 <= index < |g.players|) ==> r == g
    ensures r == g.(players := r.players)
  {
    if 0 <= index < |g.players| then
      DropIndexMultiset(g.players, index);
      g.(players := DropIndex(g.players, index))
    else
      g
  }

  /** Removing a player keeps the roster clean. */
  lemma RemovePlayerKeepsRosterClean(g: State, index: int)
    requires DistinctIgnoringCase(g.players) && NamesTrimmed(g.players)
    ensures DistinctIgnoringCase(RemovePlayer(g, index).players)
    ensures NamesTrimmed(RemovePlayer(g, index).players)
  {
    var ps := RemovePlayer(g, index).players;
    if 0 <= index < |g.players| {
      forall i, j | 0 <= i < |ps| && 0 <= j < |ps| && i != j
        ensures !SameIgnoringCase(ps[i].name, ps[j].name)
      {
        var i' := if i < index then i else i + 1;
        var j' := if j < index then j else j + 1;
        assert ps[i] == g.players[i'] && ps[j] == g.players[j'];
      }
      forall i | 0 <= i < |ps|
        ensures ps[i].name != [] && Trimmed(ps[i].name)
      {
        var i' := if i < index then i else i + 1;
        assert ps[i] == g.players[i'];
      }
    }
  }

  /** The "shuffle" button: the roster is reordered (see `Seqs.Shuffle`) and
      holds the same players. */
  function ShufflePlayers(g: State, swaps: seq<(nat, nat)>): (r: State)
    requires SwapsFit(swaps, |g.players|)
    ensures |r.players| == |g.players| && multiset(r.players) == multiset(g.players)
    ensures r == g.(players := r.players)
  {
    g.(players := Shuffle(g.players, swaps))
  }

  /** A reordering keeps the roster clean. */
  lemma {:induction false} ShuffleKeepsRosterClean(ps: seq<Player>, swaps: seq<(nat, nat)>)
    requires SwapsFit(swaps, |ps|)
    requires DistinctIgnoringCase(ps) && NamesTrimmed(ps)
    ensures DistinctIgnoringCase(Shuffle(ps, swaps)) && NamesTrimmed(Shuffle(ps, swaps))
    decreases |swaps|
  {
    if swaps != [] {
      var a, b := swaps[0].0, swaps[0].1;
      var qs := Swap(ps, a, b);
      forall i, j | 0 <= i < |qs| && 0 <= j < |qs| && i != j
        ensures !SameIgnoringCase(qs[i].name, qs[j].name)
      {
        var i' := if i == a then b else if i == b then a else i;
        var j' := if j == a then b else if j == b then a else j;
        assert qs[i] == ps[i'] && qs[j] == ps[j'];
      }
      forall i | 0 <= i < |qs|
        ensures qs[i].name != [] && Trimmed(qs[i].name)
      {
        var i' := if i == a then b else if i == b then a else i;
        assert qs[i] == ps[i'];
      }
      assert SwapsFit(swaps[1..], |qs|);
      ShuffleKeepsRosterClean(qs, swaps[1..]);
    }
  }

  /** Cleanliness depends on the names alone, so changing only the
      `revealed` flags (as "new round" does) keeps the roster clean. */
  lemma SameNamesKeepRosterClean(ps: seq<Player>, qs: seq<Player>)
    requires DistinctIgnoringCase(ps) && NamesTrimmed(ps)
    requires Names(qs) == Names(ps)
    ensures DistinctIgnoringCase(qs) && NamesTrimmed(qs)
  {
    assert forall i :: 0 <= i < |qs| ==> qs[i].name == Names(qs)[i] == Names(ps)[i] == ps[i].name;
  }

  /** A clean roster of three or more players offers three different names
      to the impostor draw. */
  lemma CleanRosterHasThreeNames(ps: seq<Player>)
    requires DistinctIgnoringCase(ps) && |ps| >= 3
    ensures HasThreeNames(Names(ps))
  {
    var ns := Names(ps);
    assert ns[0] != ns[1] by { assert !SameIgnoringCase(ps[0].name, ps[1].name); }
    assert ns[0] != ns[2] by { assert !SameIgnoringCase(ps[0].name, ps[2].name); }
    assert ns[1] != ns[2] by { assert !SameIgnoringCase(ps[1].name, ps[2].name); }
  }

  /** "Clear all players": only offered for a non-empty roster and only after
      confirmation; it empties the roster and forgets the impostor history,
      leaving the word history alone. */
  function ClearAllPlayers(g: State, confirmed: bool): (r: State)
    ensures g.players != [] && confirmed ==> r == g.(players := [], recentImpostors := [])
    ensures g.players == [] || !confirmed ==> r == g
  {
    if g.players == [] then g
    else if !confirmed then g
    else g.(players := [], recentImpostors := [])
  }

  /** Replaces the signed-in user's word pool. */
  function WithPool(g: State, pool: seq<string>): (r: State)
    requires g.user.Some?
    ensures r.user == Some(g.user.value.(wordPool := pool))
    ensures r == g.(user := r.user)
  {
    g.(user := Some(g.user.value.(wordPool := pool)))
  }

  /** Adding a word: the typed word is trimmed; a blank word or a missing user
      is ignored, a word already in the pool (compared exactly, case
      included) is refused; otherwise it joins the end of the pool. */
  function AddWord(g: State, input: string): (r: Result<State, EditError>)
    ensures Trim(input) == [] ==> r == Failure(Blank)
    ensures Trim(input) != [] && g.user.None? ==> r == Failure(NoUser)
    ensures r.Success? <==> Trim(input) != [] && g.user.Some? && Trim(input) !in Pool(g)
    ensures r.Success? ==> r.value == WithPool(g, Pool(g) + [Trim(input)])
  {
    var w := Trim(input);
    if w == [] then Failure(Blank)
    else if g.user.None? then Failure(NoUser)
    else if w in g.user.value.wordPool then Failure(Duplicate)
    else Success(WithPool(g, g.user.value.wordPool + [w]))
  }

  /** A pool with no repeated, blank or untrimmed words. */
  predicate PoolClean(pool: seq<string>) {
    NoRepeats(pool) && forall i :: 0 <= i < |pool| ==> pool[i] != [] && Trimmed(pool[i])
  }

  /** Words accepted by `AddWord` keep the pool clean, so the word pool is
      free of repeats even though the word history need not be. */
  lemma AddWordKeepsPoolClean(g: State, input: string)
    requires PoolClean(Pool(g)) && AddWord(g, input).Success?
    ensures PoolClean(Pool(AddWord(g, input).value))
  {
    AppendKeepsPoolClean(Pool(g), Trim(input));
  }

  lemma AppendKeepsPoolClean(p: seq<string>, w: string)
    requires PoolClean(p) && w !in p && w != [] && Trimmed(w)
    ensures PoolClean(p + [w])
  {
    var q := p + [w];
    forall i, j | 0 <= i < j < |q|
      ensures q[i] != q[j]
    {
      if j == |p| {
        assert q[i] == p[i];
      }
    }
  }

  /** Removing the word at `index` (with a user signed in): exactly that
      position goes, the others keep their order; histories are kept. */
  function RemoveWord(g: State, index: int): (r: State)
    ensures g.user.None? ==> r == g
    ensures g.user.Some? && 0 <= index < |Pool(g)| ==>
      && |Pool(r)| == |Pool(g)| - 1
      && multiset(Pool(r)) + multiset{Pool(g)[index]} == multiset(Pool(g))
      && (forall j :: 0 <= j < index ==> Pool(r)[j] == Pool(g)[j])
      && (forall j :: index <= j < |Pool(r)| ==> Pool(r)[j] == Pool(g)[j + 1])
    ensures !(0 <= index < |Pool(g)|) ==> r == g
    ensures r.user.Some? <==> g.user.Some?
    ensures g.user.Some? ==> r.user.value.username == g.user.value.username
    ensures r == g.(user := r.user)
  {
    if g.user.None? then g
    else
      var pool := g.user.value.wordPool;
      if 0 <= index < |pool| then
        DropIndexMultiset(pool, index);
        WithPool(g, DropIndex(pool, index))
      else
        g
  }

  /** Removing a word keeps the pool clean. */
  lemma RemoveWordKeepsPoolClean(g: State, index: int)
    requires PoolClean(Pool(g))
    ensures PoolClean(Pool(RemoveWord(g, index)))
  {
    var p, q := Pool(g), Pool(RemoveWord(g, index));
    if g.user.Some? && 0 <= index < |p| {
      forall i, j | 0 <= i < j < |q|
        ensures q[i] != q[j]
      {
        var i' := if i < index then i else i + 1;
        var j' := if j < index then j else j + 1;
        assert q[i] == p[i'] && q[j] == p[j'];
      }
      forall i | 0 <= i < |q|
        ensures q[i] != [] && Trimmed(q[i])
      {
        var i' := if i < index then i else i + 1;
        assert q[i] == p[i'];
      }
    }
  }

  /** "Clear all words" (with a user signed in, after confirmation): empties
      the pool and forgets the word history, leaving the impostor history
      alone. */
  function ClearAllWords(g: State, confirmed: bool): (r: State)
    ensures g.user.Some? && confirmed ==>
      && Pool(r) == [] && r.user.Some?
      && r.user.value.username == g.user.value.username
      && r == g.(user := r.user, recentWords := [])
    ensures g.user.None? || !confirmed ==> r == g
  {
    if g.user.None? then g
    else if !confirmed then g
    else WithPool(g, []).(recentWords := [])
  }
}
