# pokedexcli in Dafny

A model of the logic inside the pokedexcli command-line client, a REPL that
browses the PokeAPI location areas, explores them and catches Pokemon. The
model covers two parts:

- **The TTL cache** (`internal/pokecache.go`). A map from URL to
  `Entry(createdAt, val)`, with a reaper that is either `Running` or `Stopped`.
  `NewCache` starts empty and running. `Add` inserts or overwrites an entry
  with a fresh timestamp. `Get` is a plain lookup: nothing expires on read, and since it is a
  function of the cache value that returns no new cache, it cannot change it.
  `Stop` moves the reaper to `Stopped`. `Tick(c, now)` is one firing of the
  reaper's ticker: while running, it deletes exactly the entries with
  `interval < now - createdAt`; once stopped, it does nothing. The goroutine,
  mutex, ticker and channel become explicit transitions, and the clock
  becomes an integer `now` parameter. `Sweep` is the deletion loop as a
  method, proved equal to the reference definition `Reap`.
- **The pure helpers of `main.go`**:
  - `cleanInput`, built from Go's `strings.ToLower` and `strings.Fields`
    (module `Text`).
  - The command table and the split of a line into a command and its argument.
  - The page cursor of `map`/`mapb`.
  - The cache-first fetch that every API command performs.
  - The catch rule `catchRate = 90 - BaseExp/10` (Go's truncating division)
    and the update of the caught-Pokemon map.

Modules:
- `PokeCache` (pokecache.dfy): the cache.
- `Text` (text.dfy): lower-casing and field splitting.
- `Repl` (repl.dfy): `cleanInput`, the command table, the command/argument split.
- `Commands` (commands.dfy): the cursor, the fetch, and catching.

The catch rate is never clamped in the code: a rate below 0 or above 99 is
used as it is, and the model does the same. `CatchOdds` shows what this means:
out of the 100 rolls, `catchRate + 1` catch, cut to the range [0, 100].

Time is an integer reading of one fixed clock, of which only differences
matter, so `time.Since(t)` is `now - t` and the interval is in the same unit;
the scenarios count milliseconds. Payloads are `seq<bv8>`. A miss returns the empty sequence, which
stands for Go's nil slice.

## Model

| member | source | states |
|---|---|---|
| PokeCache.NewCache | internal/pokecache.go:19-28 | a new cache has a running reaper and the given interval, and every key is a miss |
| PokeCache.Add | internal/pokecache.go:30-38 | after `Add(now, k, v)`, `Get(k)` returns `(v, true)`; the entry for `k` carries the timestamp `now`; no other key's entry changes; the key set grows by `k` only |
| PokeCache.Get | internal/pokecache.go:40-45 | a lookup finds exactly the keys present in the map, returning the stored payload; otherwise it returns `(empty, false)` |
| PokeCache.ExpiryIsStrict | internal/pokecache.go:62 | the deletion test is strict: an entry exactly one interval old is kept, one a unit older is not, and an expired entry stays expired later |
| PokeCache.Reap | internal/pokecache.go:59-66 | the reference sweep keeps exactly the entries not older than the interval, each unchanged, and adds no key |
| PokeCache.AddOverwrites | internal/pokecache.go:34-37 | adding an existing key replaces both value and timestamp, does not grow the map, and leaves every other key's lookup as it was |
| PokeCache.ExpiredButUnsweptIsHit | internal/pokecache.go:40-45 | there is no expiry on read: an entry older than the interval that no sweep has deleted is still a hit |
| PokeCache.NeverAddedIsMiss | internal/pokecache.go:40-45 | a key that is absent and never added stays a miss `(empty, false)` through any mix of adds of other keys and ticks |
| PokeCache.ReapedIsMiss | internal/pokecache.go:59-66 | a key whose entry a running sweep deleted reads as a miss |
| PokeCache.Sweep | internal/pokecache.go:59-66 | the range-and-delete loop keeps exactly the entries for which `interval < now - createdAt` fails, each unchanged; it adds nothing and equals the reference sweep `Reap` |
| PokeCache.Tick | internal/pokecache.go:51-66 | while running: the survivors are exactly the unexpired entries, unchanged; every survivor's age is at most the interval; no key is added. While stopped: the cache is unchanged |
| PokeCache.TickIdempotent | internal/pokecache.go:59-66 | sweeping twice at the same instant is the same as sweeping once |
| PokeCache.Stop | internal/pokecache.go:47-49 | stopping needs a running reaper (a second send on the unbuffered channel blocks forever); the reaper becomes stopped and no entry is swept |
| PokeCache.StoppedTicksAreIdentity | internal/pokecache.go:55-58 | once the reaper has returned, any number of ticker firings leaves the cache unchanged |
| PokeCache.StoppedIsTerminal | internal/pokecache.go:47-58 | no sequence of adds and ticks takes a stopped cache back to running, and no present key is deleted again |
| PokeCache.AddedAfterStopSurvives | internal/cache_test.go:84-97 | an entry added after `Stop` is still a hit after any number of ticks |
| PokeCache.GoneStaysGone | internal/pokecache.go:59-66 | ticks never bring a deleted key back |
| PokeCache.EvictedByLateTick | internal/pokecache.go:59-66 | under ticks alone, an entry is gone after any tick later than its creation time plus the interval |
| PokeCache.FirstReapingFiring | internal/pokecache.go:52-62 | the first ticker firing that deletes an entry created at `t` comes after `t + interval` and at most `2 * interval` after `t`; the firing before it does not delete the entry |
| PokeCache.EvictedWithinTwoIntervals | internal/pokecache.go:51-66 | an entry added while the reaper runs is gone at that firing, at most two intervals after it was added |
| PokeCache.ScenarioAddGet | internal/cache_test.go:9-40 | in a fresh cache, a value that was just added is read back |
| PokeCache.ScenarioReapLoop | internal/cache_test.go:42-61 | interval 5: an entry added at 0 survives the firing at 5 and is gone after the firing at 10 |
| PokeCache.ScenarioCacheStop | internal/cache_test.go:63-98 | interval 100: "test" is gone after the firings at 100 and 200; after `Stop`, "test2" survives the firings at 300 and 400 |
| Text.IsSpaceLatin1 | main.go:34 | among the Latin-1 characters, `strings.Fields` splits exactly at tab, line feed, vertical tab, form feed, carriage return, space, NEL and no-break space |
| Text.ToLower | main.go:34 | lower-casing keeps the length and lower-cases each character in place |
| Text.LowerChar | main.go:34 | lower-casing leaves no ASCII capital, moves each capital by 32 to its small letter, keeps every other character, and never turns white space into non-white space or back |
| Text.Fields | main.go:34 | every field is non-empty and contains no white space |
| Text.FieldsEmptyIff | main.go:34 | a string has no fields exactly when it is all white space |
| Text.FieldsSplit | main.go:34 | a non-empty run of white space splits a string: its fields are those of the left part followed by those of the right part |
| Text.FieldsDropLeading | main.go:34 | leading white space does not change the fields |
| Text.FieldsDropTrailing | main.go:34 | trailing white space does not change the fields |
| Text.FieldsOfWord | main.go:34 | a word without white space is its own only field |
| Text.FieldsUnwords | main.go:34 | splitting words that were joined by single spaces gives the words back |
| Text.FieldsNoUpper | main.go:34 | splitting a string without capitals gives fields without capitals |
| Repl.CleanInput | main.go:29-37 | the empty line gives no words; a line gives no words exactly when it is all white space; every word is non-empty, free of white space and free of ASCII capitals |
| Repl.CleanInputIgnoresCase | main.go:34 | lower-casing the line first does not change its words |
| Repl.CleanInputSplit | main.go:34 | a run of white space of any length separates the words of its two sides and keeps their order |
| Repl.CleanInputTrim | main.go:34 | leading and trailing white space is discarded |
| Repl.CleanInputUnwords | main.go:29-37 | lower-case words joined by single spaces clean back to the same words |
| Repl.CleanInputLowersWords | main.go:34 | words joined by single spaces clean to the same words lower-cased |
| Repl.CleanInputSpaced | repl_test.go:10-13 | two lower-case words with spaces around and doubled between them clean to those two words |
| Repl.CleanInputLeadingSpaces | repl_test.go:18-21 | three lower-case words with leading and tripled spaces clean to those three words |
| Repl.CleanInputExampleSpaced | repl_test.go:10-13 | `"  hello  world  "` cleans to `["hello", "world"]` |
| Repl.CleanInputExampleCapitals | repl_test.go:14-17 | `"Charmander Bulbasaur PIKACHU"` cleans to `["charmander", "bulbasaur", "pikachu"]` |
| Repl.CleanInputExampleDigits | repl_test.go:18-21 | `"  12   333   456"` cleans to `["12", "333", "456"]` |
| Repl.LookupCommand | main.go:289-343 | a found command is the one with that name, and every name in the table is found; any other name is unknown |
| Repl.SplitCommand | main.go:338-347 | the command is the first word; the argument is the second word if there is one, otherwise `""`; later words are ignored; a line without words is outside what the code handles |
| Repl.ArgMissingIffOneWord | main.go:344-347 | for a cleaned line, the argument is `""` exactly when the line had a single word |
| Repl.ParseLine | main.go:338-347 | a line of lower-case words parses to its first word as command and its second as argument |
| Commands.FetchCached | main.go:40-66 | the fetch succeeds exactly when a hit decodes, or a miss is fetched and decodes; a hit is decoded and writes nothing; a failure of the request or of decoding leaves the cache unchanged; a success leaves the URL cached, and the result is the decoding of the cached payload; a miss that succeeds stores the fetched payload at `now`; other keys are untouched |
| Commands.FetchCachedMemoises | main.go:40-66 | after a successful fetch, fetching the same URL again with no sweep in between returns the same value without writing, whatever the network now answers |
| Commands.UpdateCursor | main.go:68-73 | `next` and `previous` take the page's links, except that a link equal to the literal `"null"` keeps the old value |
| Commands.UpdateCursorIdempotent | main.go:68-73 | applying the same page twice moves the cursor as once |
| Commands.UpdateCursorNeverNull | main.go:68-73 | a cursor with no `"null"` link never gets one |
| Commands.UpdateCursorFieldsIndependent | main.go:68-73 | the two fields update independently of each other |
| Commands.Browse | main.go:39-80 | the page is shown exactly when the fetch succeeds; on error the cursor and the cache are unchanged; on success the cursor is moved by the page decoded from the cached payload; a hit leaves the whole cache as it was; a successful miss only adds the fetched payload under the URL at `now` |
| Commands.CommandMap | main.go:39-80 | `map` requests the `next` link and succeeds exactly when that fetch succeeds, with the error and success outcomes of `Browse` |
| Commands.CommandMapBack | main.go:82-128 | `mapb` with an empty `previous` leaves the cursor and the cache unchanged; otherwise it requests the `previous` link and succeeds exactly when that fetch succeeds, with the outcomes of `Browse` |
| Commands.BrowsingNeverStoresNull | main.go:68-121 | browsing in either direction keeps a cursor without `"null"` links free of them |
| Commands.CatchRate | main.go:214 | `catchRate` is 90 minus the base experience divided by 10 with truncation: `10 * (90 - rate)` is the multiple of 10 at or just below a non-negative base experience, and at or just above a negative one |
| Commands.CatchesIsThreshold | main.go:215-217 | the catching rolls form a prefix: if a roll catches, every smaller roll catches |
| Commands.TruncDiv | main.go:214 | Go's division by a positive divisor rounds toward zero: the quotient times the divisor lies within one divisor of the dividend, on the side nearer zero |
| Commands.CatchRateAtMost90 | main.go:214 | a non-negative base experience gives a rate of at most 90, and exactly 90 below 10 |
| Commands.CatchRateMonotone | main.go:214 | more base experience never raises the rate |
| Commands.NoCatchFrom910 | main.go:214-217 | with a base experience of 910 or more, no roll in [0, 100) catches |
| Commands.CatchRateTruncates | main.go:214 | the division truncates: base experience -5 gives rate 90, and -15 gives 91 |
| Commands.CatchingRollsBelow | main.go:214-217 | among the rolls below `n`, exactly `catchRate + 1` catch, cut to [0, n] |
| Commands.CatchOdds | main.go:214-217 | among the 100 possible rolls, exactly `catchRate + 1` catch, cut to [0, 100] |
| Commands.TryCatch | main.go:208-222 | an already caught name gives "already caught" and no change; otherwise the throw succeeds exactly when `roll <= catchRate`; on success exactly that name is added with that record; existing records never change |
| Commands.CaughtStaysCaught | main.go:208-212 | after a catch, every later throw at the same Pokemon reports it as already caught |
| Commands.TryCatchGrowsByAtMostOne | main.go:208-222 | only a successful throw changes the map, and then by one entry |
| Commands.CommandCatch | main.go:173-225 | an empty name changes nothing; a non-empty name reaches a throw exactly when the fetch of its URL succeeds; a failed fetch changes neither the map nor the cache; a throw is made at the record decoded from the cached payload of the Pokemon's URL; a hit leaves the whole cache as it was; a throw after a miss only adds the fetched payload under the URL at `now` |
| Commands.CatchTwiceIsAlreadyCaught | main.go:173-225 | after a catch, catching the same name again with no sweep in between, at any later time, with any network answer and any roll, is answered from the cache as already caught and changes nothing |

## Left out

- Concurrency: the goroutine, the `sync.RWMutex`, the `time.Ticker` and the
  `done` channel are replaced by explicit `Tick` and `Stop` transitions. The
  mutex only makes each operation atomic, and sequential steps already are.
  Go's ticker drops ticks for a slow receiver; the model does not drop ticks.
- The clock: `time.Now()` and `time.Since` become the `now` parameter. The
  model does not require `now` to grow from one call to the next.
- PokeCache.Sweep and PokeCache.Tick: one sweep reads the clock once, as
  `now`, while the Go loop calls `time.Since` once per entry, so two entries
  of the same age tested a moment apart could be treated differently there.
  `Expired` is monotone in time (`ExpiryIsStrict`), so the eviction bounds
  still hold.
- PokeCache.NewCache: the precondition `0 < interval` stands for the panic
  of `time.NewTicker` on a non-positive period.
- I/O: HTTP (`http.Get`, `io.ReadAll`) and JSON decoding become the function
  parameters `http` and `decode`. Printing, `log.Fatal`, `os.Exit` and the
  `bufio.Scanner` loop are not modelled.
- JSON decoding of the cursor: in Go, a JSON `null` for a string field leaves
  the field at its zero value `""`. So the `"null"` guard only fires for the
  literal string `"null"`, and a page without a link stores `""` in the
  cursor. The model takes the decoded strings as given.
- `rand.Intn(100)` becomes the `roll` parameter, constrained to [0, 100).
- Text.LowerChar: lower-cases ASCII letters only. Go's `strings.ToLower`
  applies full Unicode case mapping, which is not modelled; non-ASCII
  characters are kept unchanged.
- Go strings are UTF-8 byte strings. The model uses sequences of Unicode
  scalar values, so invalid UTF-8 is not modelled.
- 64-bit integers: `90 - BaseExp/10` cannot overflow for any 64-bit `BaseExp`,
  so the model uses unbounded integers.
- `explore`, `inspect`, `pokedex`, `help` and `exit`: apart from the
  cache-first fetch (`FetchCached`), their only effects are printing and
  exiting.
- `pokemon.go`: only the `Name` and `BaseExp` fields are used by the logic.
  The other fields are only printed.
