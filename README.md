# Pairing bot: the daily matching engine

The pairing bot pairs recursers for daily programming practice. Each
recurser has a configuration: their experience level and the difficulty
levels they are willing to pair at. Once a day the bot loads everyone
who signed up for pairing. It then searches every ordering of those
recursers for the one with the most compatible adjacent pairs, at
positions (0,1), (2,3), and so on. If the count is odd, the last recurser
of the winning ordering is the odd-one-out. The rest are cut into
consecutive pairs, and each pair gets one message, whether or not the
pair is compatible.

Two recursers are compatible when each one's easiest preferred level is
no harder than the other's experience. The levels are ordinals: easy = 0,
medium = 1, hard = 2.

The project has four modules, one file each:

- `Config` (`config.dfy`): the `Recurser` and `UserConfig` records, the
  default configuration, construction of a new recurser, and the
  "configured" check.
- `Matching` (`matching.dfy`): the difficulty table, the minimum over a
  preference list, the compatibility check on the last two recursers of a
  path, and `Score`. `Score` is the number of compatible pairs at
  positions (2i, 2i+1) of an ordering.
- `BestPath` (`search.dfy`): the search.
  - `Search` is a class. Its `best` field is the one slot all branches
    share.
  - `GetNext` and `ExpandChildren` form a mutually recursive depth-first
    search.
  - `DetermineBestPath` seeds one single-recurser path per recurser.
  - Optimality is stated with `Covered(rs, prefix, bound)`: no complete
    ordering that starts with `prefix` scores above `bound`. Every call
    of `GetNext` establishes `Covered` for its own path.
- `Pairing` (`pairing.dfy`): cutting the winning ordering into the
  odd-one-out and the pairs, and joining that to the search.

One consequence of the code needs spelling out. The best slot starts as
an empty path with score 0, and `getNext` replaces it only with a
complete ordering whose score is strictly greater (cron.go:277). A search
also stops at once when the best score equals `len(recursers) / 2`, and
that is 0 for fewer than two recursers (cron.go:249, 264). So the engine
returns the empty path when no ordering has a compatible pair, and always
for zero or one recursers. The daily run then stops early (cron.go:175-177)
with the log line "No one was signed up to pair today". Nobody is
messaged, not even when recursers did sign up. The model keeps this
behaviour: `DetermineBestPath` and `MatchPairs` state it, and
`SignedUpButUnmatched` gives two recursers for whom it happens.

## Model

| member | source | states |
|---|---|---|
| Config.DefaultUserConfig | src/bot/config.go:56-68 | The default configuration has no topics, experience "medium" and pairing levels [easy, medium]. |
| Config.DefaultLacksOnlyTopics | src/bot/config.go:35-42 | On the default configuration with any topic list, a recurser is configured exactly when that list is non-empty: topics are the only required setting the defaults leave empty. |
| Config.NewRecurser | src/bot/config.go:24-33 | A new recurser keeps the given id, name and email. It is neither skipping nor pairing tomorrow. It has the default configuration and is therefore not configured. |
| Config.IsConfiguredIgnoresOtherFields | src/bot/config.go:35-42 | Two recursers that agree on the six required settings are both configured or both not. Comments, solo days, the manual-question flag and the top-level fields play no part. |
| Matching.Difficulty | src/bot/cron.go:311-317 | The table maps "medium" to 1 and "hard" to 2. Every other string maps to 0, the map's zero value, so all results are at most 2. |
| Matching.MinDifficulty | src/bot/cron.go:317-318 | The result is the difficulty of some level in the non-empty list, and no level in the list is below it. |
| Matching.IsValidSoFar | src/bot/cron.go:307-319 | The last two recursers of a path are compatible if and only if each accepts the other. "a accepts b" means some level a prefers is no harder than b's experience. |
| Matching.IsValidSoFarLastTwo | src/bot/cron.go:307-309 | Only the last two recursers of a path matter: putting anything in front of the path changes neither them nor the verdict. |
| Matching.CompatibleSymmetric | src/bot/cron.go:317-318 | Compatibility does not depend on the order of the two recursers. |
| Matching.BothDirectionsChecked | src/bot/cron.go:317-318 | For two easy recursers, one preferring only hard and the other only easy, one accepts the other but not the reverse, so they are not compatible. |
| Matching.DefaultsCompatible | src/bot/config.go:60-65 | Two recursers still on the default configuration have preferences and are compatible. |
| Matching.Score | src/bot/cron.go:249 | An ordering's score is at most half its length, rounded down. |
| Matching.ScoreExtend | src/bot/cron.go:268-271 | Appending one recurser raises the score by one exactly when the new length is even and the new last pair is compatible; otherwise the score is unchanged. This is the running count the search keeps. |
| BestPath.Search.constructor | src/bot/cron.go:242-249 | The search starts with the empty best path, a best possible score of half the input size, and its invariant: the best slot is the empty path or a complete, duplicate-free ordering with its true, positive score. |
| BestPath.Search.GetNext | src/bot/cron.go:263-305 | Keeps the invariant. The best slot is either unchanged or replaced by a path with a strictly higher score, so the best score never drops. The slot is left alone once it holds the best possible score. On return, no complete ordering that extends the given path scores more than the best. |
| BestPath.Search.ExpandChildren | src/bot/cron.go:282-304 | Keeps the invariant. The best slot is either unchanged or replaced by a path with a strictly higher score. On return, for every recurser not yet on the path, no complete ordering that extends the path by that recurser scores more than the best. |
| BestPath.DetermineBestPath | src/bot/cron.go:241-261 | The returned score is at least the score of every ordering. A non-empty result is a permutation of the input carrying its own score. The result is empty exactly when every ordering scores 0, and then it is the initial empty path, as it always is for fewer than two recursers. |
| BestPath.ChildReady | src/bot/cron.go:282-296 | A child path is its parent with one unseen recurser appended. It stays duplicate-free and drawn from the input, and its seen set is the parent's plus exactly that id. |
| BestPath.OrderingIsPermutation | src/bot/cron.go:277-279 | A duplicate-free ordering as long as an input with distinct ids holds every input recurser exactly once. |
| BestPath.ScoreStep | src/bot/cron.go:268-271 | A path's score is the score without its last recurser, plus one when the length is even and the last two recursers are compatible. |
| BestPath.CoveredAtMaximum | src/bot/cron.go:264-266 | Pruning loses nothing: no ordering scores above half the input size. |
| BestPath.CoveredWhenComplete | src/bot/cron.go:277-280 | The only complete ordering that extends a complete path is the path itself. |
| BestPath.CoveredByChildren | src/bot/cron.go:282-304 | A bound that covers every child of an incomplete path covers the path. |
| BestPath.SeedsCover | src/bot/cron.go:243-258 | A bound that covers every single-recurser seed path covers every ordering of the input. |
| BestPath.CoveredMonotone | src/bot/cron.go:277 | A higher best score still covers what a lower one covered. |
| BestPath.ChildrenCoveredStep | src/bot/cron.go:282-304 | Raising the best score while a later child is explored keeps the earlier children covered. |
| BestPath.IsOrderingOfItself | src/bot/cron.go:241-246 | An input with distinct ids is one of its own orderings. |
| Pairing.Partition | src/bot/cron.go:189-217 | The odd-one-out exists exactly when the length is odd, and it is the last recurser. The pairs are (order[2k], order[2k+1]), half the length, rounded down. The pairs and then the odd-one-out give back the ordering. The number of compatible pairs is the ordering's score. |
| Pairing.CountMatchesScore | src/bot/cron.go:214-217 | The number of compatible pairs among the consecutive pairs of an even-length ordering is its score. |
| Pairing.DeliveredScore | src/bot/cron.go:191-217 | When at most the last recurser is left out, the pairs cut from an ordering hold as many compatible pairs as its score. |
| Pairing.PairScore | src/bot/cron.go:268-271 | Adding the pair at positions 2m and 2m+1 raises the score by one exactly when that pair is compatible. |
| Pairing.FlattenStep | src/bot/cron.go:214-217 | Appending the next pair extends the flattened pairs by exactly those two recursers. |
| Pairing.MatchPairs | src/bot/cron.go:171-217 | If every ordering scores 0, nobody is paired and there is no odd-one-out. Otherwise every recurser is delivered exactly once, and there is an odd-one-out exactly when the count is odd. The pairs followed by the odd-one-out form an ordering of the input, and that ordering's score is the number of compatible pairs. No ordering scores more. |
| Pairing.SignedUpButUnmatched | src/bot/cron.go:171-177 | Two well-formed recursers, one easy and preferring only hard, the other easy and preferring easy: every ordering of them scores 0, so the run messages neither. |

## Left out

- The HTTP handler `Cron`, the profile-store queries and writes, solo messaging (`messageSolo`) and sending chat messages are input/output against external services. `MatchPairs` returns the pairs and the odd-one-out instead of sending them.
- The configuration form handler and its store writes are input/output.
- The goroutines and the wait group are left out; the search is a sequential depth-first search. The unsynchronised write to the shared best path is a data race in the code, and the model gives it its sequential meaning. Which of several optimal orderings comes back depends on scheduling, so only the score and the permutation property are specified.
- The copies of the path and of the seen set before each child is explored are value semantics in this model. The copy loops themselves are not modelled.
- The weekday from the clock is not modelled. Neither is dead code: the commented-out shuffle and the commented-out `isWorthExploring` pruning.
- The `min` helper called in the compatibility check is not part of this model. It is modelled as the lowest difficulty over a non-empty preference list.
- BestPath.DetermineBestPath: requires distinct ids and a non-empty pairing-difficulty list for every recurser. The code checks neither, so what it does with duplicates or empty preference lists is not modelled.
- Pairing.MatchPairs: requires the same well-formed input as the search.
- Matching.Difficulty: level strings outside the three known ones read as 0, as a missing key does in the code's table. Nothing beyond that lookup is claimed about them.
- BestPath.Search.ExpandChildren: this is the branching loop inside `getNext`, written as its own method so that each recursive step stays small. It is not a separate function in the code.
