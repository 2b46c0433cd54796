# Impostor game round engine, in Dafny

A model of the round engine of "El Impostor", a pass-the-phone word game
written as one React component (`ImpostorGame` in `src/App.tsx`). One
player per round is secretly the impostor and does not get the secret word.
The engine has three parts:

- **Round selection** (module `Selection`). Each round picks a secret word
  from the signed-in user's pool and an impostor from the roster. Each pick
  goes through the same three-step relaxation cascade:
  1. exclude the last two choices;
  2. if that leaves nothing, exclude only the most recent choice;
  3. if that still leaves nothing, exclude nothing.

  Both picks are then pushed onto histories that hold at most two entries,
  most recent first. The roster is shuffled, and the impostor is found in
  the new order by name.
- **The game state machine** (module `Round`). The phases are setup,
  revealing, playing and ended. The transitions are:
  - the reveal screen's "next";
  - elimination, which ends the round when the impostor is caught or when
    two or fewer players are left active;
  - the outcome "the impostor won" (they were never eliminated);
  - "new round", which keeps both histories;
  - logout, which drops everything.
- **Setup edits** (module `Lists`). Adding players, with a case-insensitive
  duplicate check. Adding words, with an exact duplicate check. Removal by
  position and shuffling. The two "clear all" actions, each of which also
  forgets the matching history.

Supporting modules:
- `Text` models JavaScript's `trim` and `toLowerCase`.
- `Seqs` models the array `filter` calls and the shuffle.
- `Wrappers` holds `Option`/`Result`.
- `Session` turns a successful login and every button that changes the
  game state into an `Event`. `Enabled` says which screen offers which event: with
  nobody signed in only the login screen is shown. `Step` applies one
  event. It proves an invariant `Inv` that every reachable state keeps,
  that a round is reachable from the initial state, and the cross-round
  anti-repetition promise.

Randomness and the browser dialogs are parameters of the model:
- Each `Math.random()` value is a real `u` in [0, 1). An index is
  `Floor(u * n)`, exactly the source's expression.
- The shuffle is an arbitrary list of position swaps.
- A browser confirmation dialog is a `confirmed: bool` argument.
- A refused start or add (an `alert`, or a silent `return`) is a
  `Failure`, and `Session.Step` leaves the state as it was. The other
  refusals return the unchanged state directly: removing a word or
  clearing all words with nobody signed in, clearing an empty roster, and
  either "clear all" when the dialog is not confirmed.

Behaviours of the code worth knowing:
- **Word history can repeat an entry.** With a one-word pool the cascade
  falls through to the full pool, so the word history becomes `[w, w]`
  (`Selection.OneWordPoolRepeats`, `Selection.RepeatIffNoAlternative`).
- **The impostor history never holds a repeated name.** A round starts
  only with three or more names distinct ignoring case, so the first step
  of the cascade always leaves a name outside the last two impostors
  (`Session.StartKeepsImpostorsDistinct`, part of `Session.Inv`).
- **The reveal ends at the last position, not one past it.** "Next" at
  position n-1 opens the discussion, and the reveal index stays at n-1.
- **`eliminatePlayer` does not reject a repeated or out-of-range target.**
  The screen only shows the button beside active players. `Round.Eliminate`
  is therefore total, and `Session.Enabled` expresses what the screen
  offers.
- **Logout does not reset the reveal position.** The next start sets it
  to 0.

## Model

| member | source | states |
|---|---|---|
| Text.Trim | src/App.tsx:352 | The trimmed name is the slice of the input left after removing whitespace from both ends. It has no whitespace at either end, and everything removed is whitespace. |
| Text.BlankIffAllWhitespace | src/App.tsx:236 | `!newWord.trim()` holds exactly when the input consists only of whitespace. |
| Text.TrimIsIdempotent | src/App.tsx:357 | A stored (trimmed) name or word is its own trimmed form. |
| Text.LowerChar | src/App.tsx:353 | Lower-casing maps each upper-case Basic Latin or Latin-1 letter 0x20 code points up and keeps every other character of those two blocks. No upper-case letter of those blocks remains. |
| Text.Lower | src/App.tsx:353 | Lower-casing a name keeps its length and lower-cases each character in place. |
| Text.LowerIsIdempotent | src/App.tsx:353 | Lower-casing an already lower-cased name changes nothing. |
| Seqs.Filter | src/App.tsx:84-86 | A filtered list holds only elements of the original that pass the test, and holds each passing element exactly as often as the original does. |
| Seqs.FilterKeepsOrder | src/App.tsx:84-86 | Filtering a concatenation gives the filtered first part followed by the filtered second part, so kept elements stay in their original order. |
| Seqs.DropIndex | src/App.tsx:362 | Filtering by position deletes exactly position i and keeps the others in order. An index outside the list changes nothing. |
| Seqs.DropIndexMultiset | src/App.tsx:253 | Deleting one position removes exactly one occurrence of that element. |
| Seqs.Shuffle | src/App.tsx:124 | The shuffled roster has the same length and the same players, each as often as before. |
| Selection.Draw | src/App.tsx:98 | `Math.floor(Math.random() * n)` is an index in [0, n), and it is the floor of u·n. |
| Selection.DrawReachesEveryIndex | src/App.tsx:115 | Every index of a non-empty list can be drawn. |
| Selection.Candidates | src/App.tsx:84-96 | The cascade's list is never empty when the input is not. It holds exactly the elements the policy allows: not in the history if any such element exists; otherwise not the latest choice if any such exists; otherwise everything. |
| Selection.Pick | src/App.tsx:98 | The random pick is an element of the input whose key the policy allows. |
| Selection.PickReachesEveryAllowed | src/App.tsx:115-116 | Every element the policy allows can be the pick, for some value of the random draw. |
| Selection.PickWord | src/App.tsx:84-98 | The secret word comes from the pool. It is outside both recent words when the pool has such a word. Otherwise it differs from the latest word when the pool has such a word. |
| Selection.PickWordReachesEveryAllowed | src/App.tsx:89-98 | Every pool word the policy allows can become the secret word. |
| Selection.PickImpostor | src/App.tsx:101-116 | The impostor is a roster name that the anti-repetition policy allows. |
| Selection.ImpostorAvoidsLastTwo | src/App.tsx:101-103 | With three distinct names and at most two recent impostors, neither recent impostor is chosen again. |
| Selection.ThreeNamesLeaveOneOut | src/App.tsx:101-103 | Three different names always leave one outside a history of at most two, so the first filter never comes back empty. |
| Selection.PushFreshNoRepeats | src/App.tsx:121 | Pushing a name that is not in the history onto it keeps the two-entry history free of repeats. |
| Selection.ThreePlayersRotate | src/App.tsx:101-116 | With exactly three players and the other two as the last two impostors, the third player is the impostor whatever the draw. |
| Selection.Remember | src/App.tsx:120-121 | The new history has length two (one after a first round). The new choice is at its head, and the previous latest choice is second. |
| Selection.HistoryIsLastTwo | src/App.tsx:35-38 | After any sequence of rounds, the history is exactly the last two choices, newest first. |
| Selection.RepeatIffNoAlternative | src/App.tsx:94-96 | The updated history holds a repeated entry exactly when every key on offer equals the latest choice. |
| Selection.OneWordPoolRepeats | src/App.tsx:94-120 | With the one-word pool `[w]` and history `[w]`, the word is `w` again and the history becomes `[w, w]`. |
| Selection.FindName | src/App.tsx:125 | `findIndex` by name returns the first position holding the name, or -1 exactly when no position holds it. |
| Round.Initial | src/App.tsx:22-38 | Before anyone signs in there is no user, the phase is setup, and the roster, the round data and both histories are empty. |
| Round.PlayerWithName | src/App.tsx:123-125 | Looking up in the shuffled roster a name taken from the old roster always finds a position holding that name. |
| Round.StartGame | src/App.tsx:73-134 | Fewer than three players is refused first; then no user or an empty pool is refused. Otherwise the round is revealing at position 0 with nothing revealed or eliminated. The word comes from the pool, the roster is a reordering of the old one, and the impostor position is valid. The word and the impostor's name are allowed by the policy and pushed onto their histories. |
| Round.HandleNext | src/App.tsx:486-496 | The current position is recorded as revealed. Below the last position the index advances and the phase stays. At the last position the phase becomes playing. Nothing else changes. |
| Round.ActiveCount | src/App.tsx:561 | The active count is the number of positions below the roster size that are not in the eliminated list. |
| Round.ActiveCountNoneEliminated | src/App.tsx:561 | With nobody eliminated, every player is active. |
| Round.ActiveCountAfterElimination | src/App.tsx:561-572 | Eliminating an active player lowers the active count by exactly one. A repeated or out-of-range position leaves it unchanged. |
| Round.Eliminate | src/App.tsx:563-575 | The position is appended to the eliminated list. Eliminating the impostor ends the round. Otherwise the round ends exactly when the active count before the elimination, minus one, is at most two. Nothing else changes. |
| Round.ImpostorWon | src/App.tsx:638 | The impostor won exactly when no entry of the eliminated list is the impostor's position. |
| Round.ResetGame | src/App.tsx:640-650 | "New round" returns to setup and clears the word, the impostor, the reveal position and the eliminated list. It keeps the roster's names and order with every `revealed` flag reset. Both histories and the user are unchanged. |
| Round.Logout | src/App.tsx:59-71 | Logout drops the user, the roster, the round and both histories. It keeps the reveal position. |
| Lists.AddPlayer | src/App.tsx:351-359 | A blank trimmed name is ignored. A name equal to a listed one ignoring Basic Latin and Latin-1 case is refused. Otherwise the trimmed name is appended, not yet revealed, and nothing else changes. |
| Lists.AddPlayerKeepsRosterClean | src/App.tsx:351-357 | Adding a player keeps roster names distinct ignoring Basic Latin and Latin-1 case, non-blank and trimmed. |
| Lists.RemovePlayer | src/App.tsx:361-363 | Exactly the player at the index is removed, the others keep their order, and the histories are untouched. |
| Lists.RemovePlayerKeepsRosterClean | src/App.tsx:361-363 | Removing a player keeps the roster clean. |
| Lists.ShufflePlayers | src/App.tsx:365-368 | The "shuffle" button keeps the same players and changes nothing else. |
| Lists.ShuffleKeepsRosterClean | src/App.tsx:365-368 | Reordering keeps the roster clean. |
| Lists.SameNamesKeepRosterClean | src/App.tsx:640-641 | Resetting only the `revealed` flags, as "new round" does, keeps the roster clean. |
| Lists.CleanRosterHasThreeNames | src/App.tsx:351-357 | A roster built by adding players, with three or more of them, has three different names. |
| Lists.ClearAllPlayers | src/App.tsx:370-376 | On a non-empty roster after confirmation, this empties the roster and forgets the impostor history only. Otherwise nothing changes. |
| Lists.AddWord | src/App.tsx:235-249 | A blank word or a missing user is ignored. A word already in the pool (exact comparison) is refused. Otherwise the trimmed word is appended to the user's pool. |
| Lists.AddWordKeepsPoolClean | src/App.tsx:235-241 | Adding a word keeps the pool free of repeated, blank and untrimmed words. |
| Lists.RemoveWord | src/App.tsx:251-260 | With a user signed in, exactly the word at the index is removed and the others keep their order. Without a user, or for an index outside the pool, nothing changes. |
| Lists.RemoveWordKeepsPoolClean | src/App.tsx:251-260 | Removing a word keeps the pool clean. |
| Lists.ClearAllWords | src/App.tsx:262-273 | With a user and after confirmation, this empties the pool and forgets the word history only. Otherwise nothing changes. |
| Session.Enabled | src/App.tsx:288-780 | With nobody signed in only sign-in is offered, and every other event needs a signed-in user. An offered elimination targets an active position of the roster. "Clear all words" is offered only with a non-empty pool (lines 288-296), and "shuffle" and "clear all players" only with a non-empty roster (lines 388-404). |
| Session.Step | src/App.tsx:147-162 | Signing in sets the user and nothing else. Every other event except logout keeps the same user signed in. Only a start, a logout or a "clear all" can change a history. |
| Session.Run | src/App.tsx:720-780 | Without a logout among the events, whoever was signed in stays signed in. |
| Session.RoundIsReachable | src/App.tsx:720-759 | From the initial state, signing in with a non-empty pool, adding three players with different one-letter capital names and starting reaches the reveal screen. |
| Session.InitialSatisfiesInv | src/App.tsx:22-38 | The state before anyone signs in satisfies the game invariant. |
| Session.StartPreservesInv | src/App.tsx:73-134 | Starting a round from setup, or being refused, keeps the invariant. |
| Session.FreshRoundSatisfiesInv | src/App.tsx:126-132 | A round just opened on the reveal screen, with nothing revealed or eliminated, a clean roster of three or more and the round's word and impostor at the head of the histories, satisfies the invariant. |
| Session.StartKeepsImpostorsDistinct | src/App.tsx:100-121 | A start from a clean roster of three or more pushes an impostor who is not in the history, so the impostor history never repeats a name. |
| Session.RevealNextPreservesInv | src/App.tsx:486-496 | "Next" keeps the invariant. The revealed positions stay 0..k-1 in order, and play starts with everyone active. |
| Session.VotePreservesInv | src/App.tsx:563-575 | Eliminating an active player keeps the invariant. Each position is eliminated at most once, and play continues only with the impostor in and three or more active players. |
| Session.StepPreservesInv | src/App.tsx:720-780 | Every event the current screen offers, sign-in included, keeps the invariant, which also requires a clean roster and a signed-in user during a round. |
| Session.PhasesMoveForward | src/App.tsx:25 | Apart from "new round" and logout, an event keeps the phase or moves it exactly one step along setup → revealing → playing → ended. |
| Session.RevealVisitsInOrder | src/App.tsx:486-496 | From a fresh round, k presses of "next" with k below n stay in revealing at position k. The n-th press opens the discussion. The revealed positions are 0..k-1 in order. |
| Session.CatchingImpostorEndsRound | src/App.tsx:567-570 | Eliminating the impostor is offered during play, ends the round, and means the impostor did not win. |
| Session.AttritionEndsRound | src/App.tsx:572-574 | Eliminating an innocent ends the round exactly when two players stay active, and then the impostor wins. Otherwise play goes on with three or more active players. |
| Session.EndedOutcome | src/App.tsx:638 | At the end of a round, an impostor win means exactly two players were left active. |
| Session.RunPreservesInv | src/App.tsx:777-780 | Any sequence of user events keeps the invariant. |
| Session.RunKeepsHistories | src/App.tsx:649 | Events that neither start a round nor clear a history leave both histories exactly as they were. |
| Session.NextRoundAvoidsLastTwo | src/App.tsx:83-121 | After a round starts, and whatever follows without clearing a history, the next round's impostor is neither of the last two impostors. Its word is neither of the last two words when the pool has another word. |
| Session.LogoutForgetsEverything | src/App.tsx:68-70 | After logout the invariant holds and the policy allows every word and every player, as in a first round. |

## Left out

- Credential checks, registration and the `users` record (src/App.tsx:137-163): credential handling. A successful login or registration is the event `SignIn(account)`, carrying the account the record would supply (for a registration, the default pool).
- `localStorage` persistence and `saveUsers` (src/App.tsx:40-45, 54-57, and the `users` updates in the word edits): I/O. Word edits change only the signed-in account's pool.
- The notification timer (src/App.tsx:47-52): a UI timer.
- `alert` and `window.confirm`: an alert is modelled as a refusal (a `Failure`, or the unchanged state), and the dialog as a `confirmed` argument.
- The distribution of `Math.random()` and floating-point rounding of `Math.random() * n`: draws are exact reals in [0, 1), and uniformity is not modelled.
- Seqs.Shuffle: states only that the result is a reordering with the same players. It does not state which orders the comparator-based `sort(() => Math.random() - 0.5)` can actually produce or how likely each is. Any list of swaps is admitted.
- Text.LowerChar: lowers only the Basic Latin and Latin-1 capitals. `toLowerCase` also lowers Greek, Cyrillic and other scripts' capitals ('Σ' becomes 'σ'); those characters are kept unchanged here.
- Lists.AddPlayer: the duplicate check uses the Basic Latin and Latin-1 case mapping of `Text.Lower`, so a case variant that differs only in other capitals ("łukasz" after "Łukasz", the Kelvin sign U+212A after "k") is accepted where `toLowerCase` makes the program refuse it. For the same reason `Lists.DistinctIgnoringCase` in `Session.Inv` is weaker than the program's guarantee; names the program keeps distinct are also distinct under the model's mapping, so the proofs that rely on it are unaffected.
- Text.Lower: covers the Basic Latin and Latin-1 letters only. The full Unicode case mapping of `toLowerCase` (Greek, Cyrillic, characters whose lower-case form has a different length) is not modelled.
- The reveal screen's local `revealed` toggle (`handleReveal`), all JSX rendering and styling: view state with no effect on the round.
- React's batching and timing of state updates: every handler is modelled as one atomic update of the state it reads.
