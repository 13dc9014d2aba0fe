# TournamentResults core, modelled in Dafny

TournamentResults is a command-line tool. It reads the final standings of a
start.gg tournament event through the start.gg GraphQL service and prints the
top placements with the characters each entrant played. This project models
the tool's core:

- **Backoff** (`execute`): retries a query after any exception, with delays
  1, 2, 4, … and no upper bound.
- **Pagination** (`getAllEventStandings`):
  - Each cycle asks for the page count and total, then reads pages
    1..totalPages.
  - A cycle is accepted only when the number of nodes read equals the total.
  - At most 5 cycles run. An exception while reading pages halves the page
    size for the next cycle.
- **Selections** (the part of `getPlayerCharacterData` after its query):
  - Builds an id → name dictionary and flattens the sets into games.
  - Scans each game's selections for the entrant's `CHARACTER` picks.
  - Returns the distinct names. A game without selections makes the result
    empty, and an unknown id is a `KeyError`.
- **Standings** (the start of `generateEventResults`): keeps the standings
  within the top cut, then sorts them stably by placement.
- **Links** (`parseLink`):
  - Searches for an event slug, a full tournament slug and a `start.gg/`
    shorthand, in that order.
  - A link that matches none of them is returned as a bare shorthand slug.
  - The three regular expressions are written out by hand as scanners, each
    with an independent definition of the strings it matches.

The remote service is a parameter:

- Backoff: a finite script of attempts, each of which raises or returns.
- Pagination: two functions, giving the page-count reply of each cycle and the
  reply for each page. Each reply stands for what `execute` eventually returns.
  A reply whose fields cannot be read raises when read.
- Selections: the reply to its one query.

Sleeping is a log of the delays, returned beside the result.

A count mismatch keeps the page size for the next cycle; only an exception
that ends the page loop halves it (`TournamentResults.py:127-134`).
`Pagination.ShortfallGivesUpWithSamePageSize` and
`Pagination.ThirtySixOfThirtySeven` state this behaviour.

## Model

| member | source | states |
|---|---|---|
| Backoff.Execute | TournamentResults.py:19-26 | Succeeds exactly when some attempt returns. It then returns that first response unchanged, every earlier attempt having raised. Otherwise it is still pending after the whole script. The sleeps are one per failure and equal `Delays` (1, 2, 4, …). |
| Backoff.DelaysAt | TournamentResults.py:20-26 | The k-th delay slept is 2^k. |
| Backoff.DelaysDouble | TournamentResults.py:20-26 | The first delay is 1, and each delay is twice the one before. |
| Backoff.TotalDelay | TournamentResults.py:20-26 | After n failures the caller has slept 2^n − 1 time units in total. |
| Pagination.GetAllEventStandings | TournamentResults.py:85-136 | The imperative collector's outcome (standings, give up, or escaping exception) and its sequence of cycles are exactly those of the recursive `Collect`. |
| Pagination.ReadPages | TournamentResults.py:106-125 | The page loop of one cycle yields exactly the sweep `SweepFrom` describes from page 1 with an empty list. |
| Pagination.SweepFromUnraised | TournamentResults.py:107-125 | A sweep from page p with no exception reads pages p..n. It ends after page n, and its nodes are those of pages 1..n in page order. |
| Pagination.SweepFromRaised | TournamentResults.py:107-129 | A sweep that an exception interrupts stops at the page that raised. The pages before it were readable, and their nodes are kept in page order. |
| Pagination.SweepReadsPagesInOrder | TournamentResults.py:105-129 | A cycle's sweep reads pages 1, 2, … in order. With no exception it reads exactly pages 1..totalPages (none when totalPages <= 0) and keeps their nodes in page order. Otherwise it stops at the first page that raises and keeps the nodes read before it. |
| Pagination.CollectFromCycles | TournamentResults.py:89-134 | At most the remaining number of cycles run. Each cycle is what the service gives at its index and page size. Every cycle but the last failed the count check and passed `NextPerPage` to the next. |
| Pagination.CollectFromOutcome | TournamentResults.py:92-136 | Standings are returned exactly when the last cycle's count matched, and they are that cycle's nodes. It gives up exactly when every remaining cycle ran and failed the check. Otherwise the page-count reply of the next cycle raised. |
| Pagination.CollectShape | TournamentResults.py:89-136 | The whole collection runs at most 5 cycles, starting with the caller's page size. It returns standings exactly when the last cycle's node count equals its total, and then it returns exactly `total` nodes. It gives up exactly when 5 cycles all failed the check. An escaping exception comes from the page-count reply. |
| Pagination.CollectedStandingsAreThePages | TournamentResults.py:106-132 | Returned standings number exactly `total`. They are the last cycle's pages 1..totalPages concatenated in page order, or, after an exception, the pages before the one that raised. |
| Pagination.PageSizeHalvedPerException | TournamentResults.py:89-134 | Cycle j's page size is the caller's page size divided by 2^h, where h is the number of earlier cycles that an exception interrupted. A count mismatch alone never changes it, and a positive page size stays positive. |
| Pagination.ShortfallGivesUpWithSamePageSize | TournamentResults.py:92-136 | When every page is readable but the pages never add up to the reported total, the collector runs all 5 cycles with the caller's page size and gives up. |
| Pagination.ThirtySixOfThirtySeven | TournamentResults.py:131-136 | A service that reports 37 standings on one page but delivers 36 makes the collector give up after 5 cycles, all with page size 100. |
| Selections.GetPlayerCharacterData | TournamentResults.py:227-249 | An absent or empty character list gives an empty result. Otherwise the imperative resolver's result equals `Resolve` on the reply. |
| Selections.BuildCharacterDict | TournamentResults.py:231-233 | The dictionary loop builds `CharacterNames` of the character list. |
| Selections.CollectGames | TournamentResults.py:235-239 | The flattening loop yields the games of every set whose games are present, in set order. |
| Selections.CharacterNamesKeys | TournamentResults.py:231-233 | The dictionary's keys are exactly the ids of the character list. |
| Selections.CharacterNamesLastWins | TournamentResults.py:231-233 | An id listed more than once maps to the name of its last occurrence. |
| Selections.Distinct | TournamentResults.py:249 | The result has no duplicates and holds exactly the elements of the input. |
| Selections.ScanGamesUntracked | TournamentResults.py:241-247 | When game k is the first game without selections and every value picked before it is a known id, the scan ends with "no selections", however many names earlier games gave and whatever later games hold. |
| Selections.ResolvedNames | TournamentResults.py:228-249 | With characters present: if game k is the first game without selections and every value picked before it is a known id, the result is empty; picks in later games are never looked up. If every game has selections and every pick is a known id, the result has no duplicates, and a name is in it iff it is the name of some value the entrant picked as a `CHARACTER` selection. |
| Selections.MissingKeyIsUnknownPick | TournamentResults.py:245-247 | A `KeyError` needs characters to be present. Its value is one of the entrant's `CHARACTER` picks, and that value is not a character id. |
| Selections.UnknownPickIsMissingKey | TournamentResults.py:241-247 | With characters present, an unknown value among the entrant's picks in the first k games, all of which have selections, raises the `KeyError`. |
| Selections.UntrackedBeforeUnknownPick | TournamentResults.py:241-247 | A game without selections before a game holding an unknown pick gives an empty result, not a `KeyError`. |
| Selections.OtherEntrantIgnored | TournamentResults.py:245-247 | When two entrants pick the same character in a game, only the queried entrant's pick is resolved, giving `["Fox"]`. |
| Standings.TopCut | TournamentResults.py:163-169 | The kept standings are sorted by placement. For each placement within the cut they are exactly the input's standings with that placement, in input order (stable, a permutation). None beyond the cut is kept. A standing is kept iff it is in the input with placement <= the cut. |
| Standings.SortIsStable | TournamentResults.py:169 | Sorting yields a sequence ordered by placement. For every placement, its standings are those of the input, in input order. |
| Standings.WithinCutByPlacement | TournamentResults.py:163-166 | The filter keeps all standings of every placement within the cut, in order, and none beyond it. |
| Standings.SortKeepsSorted | TournamentResults.py:169 | An input already ordered by placement is left unchanged by the sort. |
| Standings.TopSixteen | TournamentResults.py:163-169 | Placements 1, 2, 3, 5, 16, 17 with a cut of 16 keep 1, 2, 3, 5, 16 in that order. |
| Links.RunLength | TournamentResults.py:260 | The greedy run of `[a-zA-Z0-9\-]` from i is all slug characters and cannot be extended. |
| Links.SearchFrom | TournamentResults.py:260-272 | The search returns the first start at or after i with a match, and no start before it matches. When it returns nothing, no start matches. |
| Links.MatchAtIsLongest | TournamentResults.py:260-272 | The match at a position matches the pattern and is the longest whole match there. When it fails, nothing matches there. |
| Links.SearchIsLeftmostLongest | TournamentResults.py:260-272 | `re.search`'s span is leftmost-longest: it matches the pattern, no substring further left matches, and no longer substring from the same start does. It finds nothing exactly when no substring matches. |
| Links.EventHoldsTournament | TournamentResults.py:258-266 | Any link holding an event slug also holds a full tournament slug, so the event pattern must be tried first. |
| Links.ShorthandSplit | TournamentResults.py:275 | Splitting `start.gg/` + slug on `/` gives `["start.gg", slug]`. |
| Links.ParseLinkPriority | TournamentResults.py:252-278 | An event slug anywhere gives kind EventSlug and, as slug, the link's leftmost-longest event match. Otherwise a full tournament slug gives TournamentFullSlug and the link's leftmost-longest tournament match. Otherwise a `start.gg/` shorthand gives ShorthandSlug and the part after `start.gg/` of the link's leftmost-longest shorthand match. Otherwise the link itself is returned unchanged as a shorthand slug. |

## Left out

- `gen_headers`, the auth file, `main`, argument parsing and the GraphQL client and transport are not modelled. They are I/O and set-up.
- `get_event_id`, `getEvents` and `getEventResults` are not modelled. They only build queries and read replies.
- Building the GraphQL queries is left out. The service is a parameter that returns replies.
- `time.sleep` is left out. Sleeping is modelled as a returned log of the delays.
- Backoff.Execute: the source retries forever. The model runs a finite script of attempts and reports `Pending` when every attempt failed.
- The inner `while True` around page queries (TournamentResults.py:116-122) is left out. `execute` never raises, so its `TransportServerError` handler cannot run, and the loop body runs once.
- The `print` calls in `getAllEventStandings` (TournamentResults.py:128, 134, 136) are output only and are left out.
- Pagination.GetAllEventStandings: the page size is a `real`, where the source uses an `int` that becomes a float after the first halving. Float rounding is not modelled, and at most 5 halvings of 100 are all exact.
- Which malformed replies raise (missing keys, `None` fields, a `TypeError` from `range`) is abstracted. The model has a single "raises when read" reply for the page count and for each page.
- Selections: a reply whose `event`, `videogame` or `sets` is itself absent is not modelled. The set list is always present, and each set's games, each game's selections and the character list may be absent.
- Selections.Distinct: Python leaves the order of `list(set(...))` unspecified. The model keeps first occurrences, and its contract states only the element set and the absence of duplicates.
- The redundant `getPlayerCharacterData` call in the filter loop (TournamentResults.py:167) is left out. Its result is discarded.
- The printing loop of `generateEventResults` is left out (TournamentResults.py:171-201). This covers its retry around `getPlayerCharacterData`, its sleeps and the line formatting.
- Links: only the three patterns of `parseLink` are modelled, not regular expressions in general.
