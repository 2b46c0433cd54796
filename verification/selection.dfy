/** The round selector: the anti-repetition choice of the secret word and of
    the impostor, the bounded histories that feed it, and the lookup of the
    impostor after the roster is shuffled. */
module Selection {
  import opened Seqs

  /** A roster entry; `revealed` is carried along and reset, never read by
      the round logic. */
  datatype Player = Player(name: string, revealed: bool)

  function Id(s: string): string { s }

  function NameOf(p: Player): string { p.name }

  /** The keys a cascade compares against the history, one per element. */
  function Keys<T>(xs: seq<T>, key: T -> string): (ks: seq<string>)
    ensures |ks| == |xs|
    ensures forall i :: 0 <= i < |xs| ==> ks[i] == key(xs[i])
  {
    seq(|xs|, i requires 0 <= i < |xs| => key(xs[i]))
  }

  function Names(ps: seq<Player>): seq<string> { Keys(ps, NameOf) }

  /** `Math.floor(Math.random() * n)`, with the value of `Math.random()`
      passed in as `u`, which lies in [0, 1). */
  function Draw(n: nat, u: real): (i: nat)
    requires 0 < n && 0.0 <= u < 1.0
    ensures i < n
    ensures i as real <= u * n as real < i as real + 1.0
  {
    ScaleBelow(u, n as real);
    FloorBelow(u * n as real, n)
  }

  /** `Math.floor(x)` of a value in [0, n). */
  function FloorBelow(x: real, n: nat): (i: nat)
    requires 0.0 <= x < n as real
    ensures i < n && i as real <= x < i as real + 1.0
  {
    x.Floor
  }

  /** Scaling a positive bound by a fraction in [0, 1) stays below it. */
  lemma ScaleBelow(u: real, m: real)
    requires 0.0 <= u < 1.0 && 0.0 < m
    ensures 0.0 <= u * m < m
  {
    assert m - u * m == (1.0 - u) * m;
  }

  /** No index is out of reach of the draw: index `i` of `n` comes out when
      `Math.random()` returns `i / n`. */
  lemma DrawReachesEveryIndex(n: nat, i: nat)
    requires i < n
    ensures 0.0 <= i as real / n as real < 1.0
    ensures Draw(n, i as real / n as real) == i
  {
    var u := i as real / n as real;
    assert u * n as real == i as real;
  }

  /** `x !== recent[0]`; with an empty history `recent[0]` is `undefined`
      and every key passes. */
  predicate NotLast(recent: seq<string>, k: string) {
    recent == [] || k != recent[0]
  }

  /** Some key is not in the history at all. */
  predicate HasFresh(keys: seq<string>, recent: seq<string>) {
    exists j :: 0 <= j < |keys| && keys[j] !in recent
  }

  /** Some key differs from the most recent choice. */
  predicate HasNotLast(keys: seq<string>, recent: seq<string>) {
    exists j :: 0 <= j < |keys| && NotLast(recent, keys[j])
  }

  /** The anti-repetition policy for one key, given every key on offer:
      exclude the last two choices; if that leaves nothing, exclude only the
      last one; if that still leaves nothing, exclude nothing. */
  predicate Allowed(keys: seq<string>, recent: seq<string>, k: string) {
    if HasFresh(keys, recent) then k !in recent
    else if HasNotLast(keys, recent) then NotLast(recent, k)
    else true
  }

  /** The three-step relaxation cascade: the elements of `xs` whose key the
      policy allows; never empty when `xs` is not. */
  function Candidates<T(!new)>(xs: seq<T>, key: T -> string, recent: seq<string>): (r: seq<T>)
    ensures xs != [] ==> r != []
    ensures forall i :: 0 <= i < |r| ==> r[i] in xs && Allowed(Keys(xs, key), recent, key(r[i]))
    ensures forall i :: 0 <= i < |xs| && Allowed(Keys(xs, key), recent, key(xs[i])) ==> xs[i] in r
  {
    var ks := Keys(xs, key);
    var outside := Filter(xs, (x: T) => key(x) !in recent);
    if outside != [] then
      assert outside[0] in xs;
      outside
    else
      assert !HasFresh(ks, recent);
      var notLast := Filter(xs, (x: T) => NotLast(recent, key(x)));
      if notLast != [] then
        assert notLast[0] in xs;
        notLast
      else
        assert !HasNotLast(ks, recent);
        xs
  }

  /** One random pick among the candidates, as `available[floor(u * length)]`. */
  function Pick<T(!new)>(xs: seq<T>, key: T -> string, recent: seq<string>, u: real): (x: T)
    requires xs != [] && 0.0 <= u < 1.0
    ensures x in xs && Allowed(Keys(xs, key), recent, key(x))
  {
    var c := Candidates(xs, key, recent);
    c[Draw(|c|, u)]
  }

  /** Whatever the policy allows can come out of the pick. */
  lemma PickReachesEveryAllowed<T(!new)>(xs: seq<T>, key: T -> string, recent: seq<string>, i: nat)
    requires i < |xs| && Allowed(Keys(xs, key), recent, key(xs[i]))
    ensures exists u :: 0.0 <= u < 1.0 && Pick(xs, key, recent, u) == xs[i]
  {
    var c := Candidates(xs, key, recent);
    assert xs[i] in c;
    var k :| 0 <= k < |c| && c[k] == xs[i];
    DrawReachesEveryIndex(|c|, k);
    var u := k as real / |c| as real;
    assert Pick(xs, key, recent, u) == xs[i];
  }

  /** The secret word of a new round (the word pool must not be empty). */
  function PickWord(pool: seq<string>, recent: seq<string>, u: real): (w: string)
    requires pool != [] && 0.0 <= u < 1.0
    ensures w in pool && Allowed(pool, recent, w)
    ensures (exists v :: v in pool && v !in recent) ==> w !in recent
    ensures (forall v :: v in pool ==> v in recent) && (exists v :: v in pool && NotLast(recent, v))
            ==> NotLast(recent, w)
  {
    var w := Pick(pool, Id, recent, u);
    assert Keys(pool, Id) == pool;
    w
  }

  /** Every word the policy allows can be the secret word. */
  lemma PickWordReachesEveryAllowed(pool: seq<string>, recent: seq<string>, w: string)
    requires w in pool && Allowed(pool, recent, w)
    ensures exists u :: 0.0 <= u < 1.0 && PickWord(pool, recent, u) == w
  {
    assert Keys(pool, Id) == pool;
    var i :| 0 <= i < |pool| && pool[i] == w;
    PickReachesEveryAllowed(pool, Id, recent, i);
    var u :| 0.0 <= u < 1.0 && Pick(pool, Id, recent, u) == w;
    assert PickWord(pool, recent, u) == w;
  }

  /** The name of the impostor of a new round (the roster must not be empty). */
  function PickImpostor(players: seq<Player>, recent: seq<string>, u: real): (name: string)
    requires players != [] && 0.0 <= u < 1.0
    ensures name in Names(players)
    ensures Allowed(Names(players), recent, name)
  {
    var p := Pick(players, NameOf, recent, u);
    var i :| 0 <= i < |players| && players[i] == p;
    assert Names(players)[i] == p.name;
    p.name
  }

  /** Three different names among the players. */
  predicate HasThreeNames(keys: seq<string>) {
    exists i, j, k :: 0 <= i < |keys| && 0 <= j < |keys| && 0 <= k < |keys|
                      && keys[i] != keys[j] && keys[i] != keys[k] && keys[j] != keys[k]
  }

  /** With at least three different names and a history of at most two, the
      first step of the cascade always leaves someone, so neither of the last
      two impostors is chosen again. */
  lemma ImpostorAvoidsLastTwo(players: seq<Player>, recent: seq<string>, u: real)
    requires 0.0 <= u < 1.0 && |recent| <= 2
    requires HasThreeNames(Names(players))
    ensures PickImpostor(players, recent, u) !in recent
  {
    ThreeNamesLeaveOneOut(Names(players), recent);
  }

  /** Three different names cannot all be among at most two recent ones. */
  lemma ThreeNamesLeaveOneOut(ns: seq<string>, recent: seq<string>)
    requires HasThreeNames(ns) && |recent| <= 2
    ensures HasFresh(ns, recent)
  {
    var i, j, k :| 0 <= i < |ns| && 0 <= j < |ns| && 0 <= k < |ns|
                   && ns[i] != ns[j] && ns[i] != ns[k] && ns[j] != ns[k];
    if ns[i] in recent && ns[j] in recent && ns[k] in recent {
      assert false;
    }
  }

  /** Pushing a choice that is not in the history gives a history without
      repeats. */
  lemma PushFreshNoRepeats(recent: seq<string>, x: string)
    requires x !in recent
    ensures NoRepeats(Remember(recent, x))
  {
    if recent != [] {
      assert recent[0] in recent;
    }
  }

  /** With exactly three players and the other two as the last two
      impostors, the choice is forced: the third player, whatever the draw. */
  lemma ThreePlayersRotate(players: seq<Player>, recent: seq<string>, u: real, m: nat)
    requires 0.0 <= u < 1.0 && |players| == 3 && m < 3
    requires players[m].name !in recent
    requires |recent| == 2
    requires forall i :: 0 <= i < 3 && i != m ==> players[i].name in recent
    ensures PickImpostor(players, recent, u) == players[m].name
  {
    var ns := Names(players);
    assert ns[m] !in recent;
    assert HasFresh(ns, recent);
  }

  /** The history after a round: the new choice in front, the previous
      latest choice behind it, anything older dropped — `[x, ...recent]`
      cut to two entries. */
  function Remember(recent: seq<string>, x: string): (r: seq<string>)
    ensures |r| == if recent == [] then 1 else 2
    ensures r[0] == x
    ensures recent != [] ==> r[1] == recent[0]
  {
    var pushed := [x] + recent;
    if |pushed| <= 2 then pushed else pushed[..2]
  }

  /** The history left by rounds that chose `choices`, oldest first, starting
      from an empty history. */
  function History(choices: seq<string>): seq<string>
  {
    if choices == [] then []
    else Remember(History(choices[..|choices| - 1]), choices[|choices| - 1])
  }

  /** The last two choices, newest first. */
  function LastTwo(choices: seq<string>): seq<string>
  {
    var n := |choices|;
    if n == 0 then [] else if n == 1 then [choices[0]] else [choices[n - 1], choices[n - 2]]
  }

  /** After any number of rounds the history holds exactly the last two
      choices (fewer before the second round), most recent first. */
  lemma {:induction false} HistoryIsLastTwo(choices: seq<string>)
    ensures History(choices) == LastTwo(choices)
  {
    if choices != [] {
      HistoryIsLastTwo(choices[..|choices| - 1]);
    }
  }

  /** Whenever some key differs from the latest choice, an allowed key does. */
  lemma AllowedAvoidsLast(keys: seq<string>, recent: seq<string>, k: string)
    requires Allowed(keys, recent, k) && HasNotLast(keys, recent)
    ensures NotLast(recent, k)
  {
    if recent != [] && HasFresh(keys, recent) {
      assert recent[0] in recent;
    }
  }

  /** The new history repeats an entry exactly when every key on offer is
      the most recent choice (a one-word pool, say): then the cascade falls
      through to the full list and the same key is pushed again. */
  lemma RepeatIffNoAlternative<T(!new)>(xs: seq<T>, key: T -> string, recent: seq<string>, u: real)
    requires xs != [] && 0.0 <= u < 1.0
    ensures NoRepeats(Remember(recent, key(Pick(xs, key, recent, u))))
            <==> HasNotLast(Keys(xs, key), recent)
  {
    var x := Pick(xs, key, recent, u);
    var ks := Keys(xs, key);
    var i :| 0 <= i < |xs| && xs[i] == x;
    assert ks[i] == key(x);
    RepeatIffNoAlternativeFor(ks, recent, key(x));
  }

  /** The same for any allowed key on offer. */
  lemma RepeatIffNoAlternativeFor(ks: seq<string>, recent: seq<string>, k: string)
    requires k in ks && Allowed(ks, recent, k)
    ensures NoRepeats(Remember(recent, k)) <==> HasNotLast(ks, recent)
  {
    assert NoRepeats(Remember(recent, k)) <==> NotLast(recent, k);
    if HasNotLast(ks, recent) {
      AllowedAvoidsLast(ks, recent, k);
    }
  }

  /** With a one-word pool the word history becomes that word twice. */
  lemma OneWordPoolRepeats(w: string, u: real)
    requires 0.0 <= u < 1.0
    ensures PickWord([w], [w], u) == w
    ensures Remember([w], PickWord([w], [w], u)) == [w, w]
  {
  }

  /** `players.findIndex(p => p.name === name)`: the first position holding
      the name, or -1 when there is none. */
  function FindName(ps: seq<Player>, name: string): (i: int)
    ensures -1 <= i < |ps|
    ensures i >= 0 ==> ps[i].name == name
    ensures i >= 0 ==> forall j :: 0 <= j < i ==> ps[j].name != name
    ensures i == -1 <==> forall j :: 0 <= j < |ps| ==> ps[j].name != name
  {
    if ps == [] then -1
    else if ps[0].name == name then 0
    else
      var k := FindName(ps[1..], name);
      if k == -1 then -1 else k + 1
  }
}
