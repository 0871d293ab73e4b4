# roompulse core, modelled in Dafny

Roompulse collects anonymous feedback in a room. Guests vote on a few categories (MUSIC, TEMP and READING). A host watches an aggregate of the votes and identifies with a host secret. Guests reach a room through a short join code. This project models the three small pieces of logic at the core of that system and proves what they promise:

- **Aggregation** (`roompulse/src/lib/aggregate.ts`), in module `Aggregate`:
  - `computeHeat` measures how concentrated the votes are. It is `(top - second) / total`, clamped to [0, 1]. The model computes it over `real` on a descending insertion sort of the counts.
  - `mostly` is a first-maximum scan. It is the method `Mostly`, with its loop, proved equal to the specification function `MostlyOf`.
  - `getAggregate` loops over MUSIC, TEMP and READING. For each category it takes `mostly` of the 5-minute counts, falls back to the 30-minute counts, and computes the heat of the 5-minute counts. It is the method `GetAggregate`, proved against `Summarize`.
  - A count map is a sequence of `(value, n)` entries in the iteration order of the object. That order is an input of the model.
- **Host-secret extraction** (`roompulse/src/lib/auth.ts`), in module `Auth`:
  - `getHostSecret` is the function `GetHostSecret`, over a map from lower-cased header names to a string or a list of strings.
  - The configured header name is a parameter. When it is absent the name is `X-Host-Secret`.
- **Join codes** (`roompulse/src/lib/codes.ts`), in module `Codes`:
  - `makeJoinCode` is the method `MakeJoinCode`, with its append loop over the 32-character alphabet.
  - The values of `Math.random()` are an input sequence of reals in [0, 1).
  - The configured length is an optional parameter, 5 when absent.
- The JavaScript string primitives these pieces rely on are in module `JsString`:
  - `trim`, whose whitespace set is the ECMAScript WhiteSpace and LineTerminator code points;
  - `toLowerCase` and `toUpperCase`, on ASCII letters.

  `Options` holds the `Option` type that stands for `T | null`.

## Model

| member | source | states |
|---|---|---|
| Aggregate.Values | roompulse/src/lib/aggregate.ts:6 | `Object.values(counts)`: one value per entry, in iteration order, the i-th being the i-th count |
| Aggregate.Insert | roompulse/src/lib/aggregate.ts:6 | inserting into a descending sequence keeps it descending and adds exactly that element |
| Aggregate.SortDesc | roompulse/src/lib/aggregate.ts:6 | `sort((a, b) => b - a)`: the result is descending and a permutation of the input |
| Aggregate.SortedUnique | roompulse/src/lib/aggregate.ts:6 | two descending sequences with the same elements are equal, so the sorted values do not depend on the order of the counts |
| Aggregate.Sum | roompulse/src/lib/aggregate.ts:9 | `reduce((a, b) => a + b, 0)`: the total is never negative when no count is |
| Aggregate.SumPermutation | roompulse/src/lib/aggregate.ts:9 | the total is the same for any arrangement of the same counts |
| Aggregate.Top | roompulse/src/lib/aggregate.ts:7 | `vals[0] ?? 0`: 0 when there are no counts, otherwise one of them and, on descending counts, the largest |
| Aggregate.Second | roompulse/src/lib/aggregate.ts:8 | `vals[1] ?? 0`: 0 with fewer than two counts, otherwise a count after the first and, on descending counts, the largest of those |
| Aggregate.Clamp01 | roompulse/src/lib/aggregate.ts:11 | `Math.max(0, Math.min(1, x))` lies in [0, 1]: it is 0 below 0, 1 above 1, and `x` when `x` already lies in [0, 1] |
| Aggregate.HeatOfSorted | roompulse/src/lib/aggregate.ts:7-11 | the heat of the sorted counts lies in [0, 1] and is 0 when the total is 0 |
| Aggregate.ComputeHeat | roompulse/src/lib/aggregate.ts:5-12 | the heat always lies in [0, 1] |
| Aggregate.HeatOfNoVotes | roompulse/src/lib/aggregate.ts:5-10 | empty counts, or counts that add up to 0, give heat 0 |
| Aggregate.TopAndSecond | roompulse/src/lib/aggregate.ts:6-8 | `top` is a count and the largest one; `second` is the largest of the counts left after removing one copy of `top` |
| Aggregate.GapWithinTotal | roompulse/src/lib/aggregate.ts:7-9 | on non-negative descending counts, `0 <= top - second <= total` |
| Aggregate.HeatOfSortedUnclamped | roompulse/src/lib/aggregate.ts:7-11 | on non-negative descending counts with a positive total, the clamp leaves `(top - second) / total` unchanged |
| Aggregate.HeatUnclamped | roompulse/src/lib/aggregate.ts:6-11 | for non-negative counts with a positive total, the heat of their descending arrangement (`ComputeHeat` uses `SortDesc`) is exactly `(top - second) / total` |
| Aggregate.HeatOfSingleValue | roompulse/src/lib/aggregate.ts:6-11 | when exactly one value has votes and every other count is 0, the heat is 1 |
| Aggregate.HeatOfTie | roompulse/src/lib/aggregate.ts:6-11 | when two different entries share the largest count, the heat is 0 |
| Aggregate.HeatDependsOnlyOnCounts | roompulse/src/lib/aggregate.ts:6-11 | two count maps whose counts form the same multiset have the same heat, whatever the keys and their order |
| Aggregate.FirstMaxIndex | roompulse/src/lib/aggregate.ts:15-22 | the position it returns holds the largest count, and every earlier position holds a strictly smaller one |
| Aggregate.FirstMaxUnique | roompulse/src/lib/aggregate.ts:18 | only one position is the first maximum, so the strict comparison fixes the answer |
| Aggregate.MostlyOf | roompulse/src/lib/aggregate.ts:14-24 | `null` exactly when no count is positive (including the empty map); otherwise the key of the first entry with the largest count, and that count is positive |
| Aggregate.Mostly | roompulse/src/lib/aggregate.ts:14-24 | the scan from `bestN = -1` with the strict `v > bestN` returns exactly `MostlyOf(counts)` |
| Aggregate.MostlyIsFirstLargest | roompulse/src/lib/aggregate.ts:15-23 | with distinct keys, the answer is a key of the map, its count is positive and at least every other count, and no earlier key has as large a count |
| Aggregate.Summarize | roompulse/src/lib/aggregate.ts:49-54 | a category's entry carries both windows unchanged and a heat in [0, 1]; its `mostly`, when not `null`, is the key of a positive count in the 5-minute or the 30-minute window |
| Aggregate.SummarizeCategory | roompulse/src/lib/aggregate.ts:47-54 | one turn of the loop builds the category's summary: the 5-minute `mostly`, else the 30-minute one, the two windows, and the heat of the 5-minute counts |
| Aggregate.GetAggregate | roompulse/src/lib/aggregate.ts:43-57 | the result keeps the room id, has an entry for every category (MUSIC, TEMP, READING), and each entry is the summary of that category's windows |
| Aggregate.SummaryAdded | roompulse/src/lib/aggregate.ts:49 | setting one category's summary keeps every other entry a correct summary |
| Aggregate.EveryCategoryPresent | roompulse/src/lib/aggregate.ts:44-46 | walking the whole category list fills every category |
| Aggregate.MostlyFallback | roompulse/src/lib/aggregate.ts:50 | `mostly` is the 5-minute answer when some 5-minute count is positive, otherwise the 30-minute answer; it is `null` exactly when neither window has a positive count |
| Aggregate.EmptyRoom | roompulse/src/lib/aggregate.ts:46-54 | a room with no events has, in every category, `mostly = null` and heat 0 |
| Aggregate.TwoWayTie | roompulse/src/lib/aggregate.ts:49-54 | with `{HIGHER: 1, LOWER: 1}` the heat is 0 and `mostly` is whichever key iteration meets first, in either order |
| Auth.HeaderKey | roompulse/src/lib/auth.ts:4-5 | a configured name is looked up lower-cased: same length, each character its `toLowerCase`, so `X-Custom` is looked up as `x-custom`; the key holds no upper-case letter |
| Auth.DefaultHeaderKey | roompulse/src/lib/auth.ts:4-5 | with no configured name the header is looked up as `x-host-secret` |
| Auth.GetHostSecret | roompulse/src/lib/auth.ts:3-11 | every secret it returns is trimmed |
| Auth.HeaderWins | roompulse/src/lib/auth.ts:5-6 | a configured header holding a non-blank string yields its trimmed value |
| Auth.AuthorizationIgnored | roompulse/src/lib/auth.ts:6-9 | while the configured header is usable, any value of the `authorization` header gives the same secret |
| Auth.AuthorizationNotNeeded | roompulse/src/lib/auth.ts:6-8 | while the configured header is usable, removing the `authorization` header gives the same secret |
| Auth.FallThrough | roompulse/src/lib/auth.ts:6-10 | an absent, list-valued or blank configured header falls through: a `Bearer ` authorization yields its trimmed remainder after 7 characters, anything else yields `null` |
| Auth.NoSecret | roompulse/src/lib/auth.ts:6-10 | the result is `null` exactly when the configured header is unusable and there is no `Bearer ` authorization |
| Auth.EmptySecretOnlyFromBearer | roompulse/src/lib/auth.ts:6-9 | an empty secret only comes from a `Bearer ` authorization followed by whitespace, never from the configured header |
| Auth.DefaultKeyIsNotAuthorization | roompulse/src/lib/auth.ts:4-8 | the default lookup key differs from `authorization` |
| Auth.LowerCaseBearerRejected | roompulse/src/lib/auth.ts:9 | the prefix match is case-sensitive: `bearer abc` gives `null` |
| Auth.BearerRoundTrip | roompulse/src/lib/auth.ts:9 | a trimmed secret sent as `Bearer <secret>` is read back unchanged when the configured header is unusable |
| Auth.HeaderRoundTrip | roompulse/src/lib/auth.ts:6 | a non-empty trimmed secret sent in the configured header is read back unchanged |
| JsString.IsWhitespace | roompulse/src/lib/auth.ts:6 | the set `trim` removes: it holds space, tab, line feed and carriage return, and no ASCII letter or digit |
| JsString.TrimStart | roompulse/src/lib/auth.ts:6 | drops exactly the leading whitespace |
| JsString.TrimEnd | roompulse/src/lib/auth.ts:6 | drops exactly the trailing whitespace |
| JsString.Trim | roompulse/src/lib/auth.ts:6 | `trim()` gives the slice of the input between a blank prefix and a blank suffix; that slice is trimmed, and empty exactly when the input is blank |
| JsString.TrimOfTrimmed | roompulse/src/lib/auth.ts:9 | `trim()` leaves a trimmed string unchanged |
| JsString.TrimIdempotent | roompulse/src/lib/auth.ts:6 | trimming twice is trimming once |
| JsString.ToLower | roompulse/src/lib/auth.ts:5 | `toLowerCase()` keeps the length, maps each character on its own and leaves no upper-case letter |
| JsString.ToUpper | src/pages/api/rooms/join.ts:13 | `toUpperCase()` keeps the length, maps each character on its own and leaves no lower-case letter |
| JsString.ToUpperIdentity | src/pages/api/rooms/join.ts:13 | `toUpperCase()` leaves a string with no lower-case letter unchanged |
| Codes.AlphabetShape | roompulse/src/lib/codes.ts:4 | the alphabet has 32 characters, all distinct |
| Codes.AlphabetDistinct | roompulse/src/lib/codes.ts:4 | no alphabet character occurs twice |
| Codes.AlphabetAvoidsConfusables | roompulse/src/lib/codes.ts:4 | none of `I`, `O`, `0` and `1` is in the alphabet |
| Codes.AlphabetIsUpperAlphanumeric | roompulse/src/lib/codes.ts:4 | every alphabet character is an upper-case letter or a digit |
| Codes.DrawIndex | roompulse/src/lib/codes.ts:6 | `Math.floor(r * 32)` for `r` in [0, 1) is a valid alphabet position, so the loop never reads out of bounds |
| Codes.CodeLength | roompulse/src/lib/codes.ts:3 | the length is the configured one, and 5 when none is configured |
| Codes.MakeJoinCode | roompulse/src/lib/codes.ts:3-8 | the code has `len` characters (none when `len <= 0`, 5 when no length is configured); character `i` is the alphabet entry chosen by draw `i`; every character is in the alphabet |
| Codes.CodeIsPlain | roompulse/src/lib/codes.ts:4-6 | a string over the alphabet has no lower-case letter and no whitespace |
| Codes.NormalizationKeepsCode | src/pages/api/rooms/join.ts:13 | a generated code survives the join endpoint's `toUpperCase().trim()` unchanged |

## Left out

- `countsFor` (roompulse/src/lib/aggregate.ts:26-41) is an SQL query over time windows. `GetAggregate` takes its results as the input `RoomWindows`. Nothing relates the 5-minute and 30-minute windows, because the two queries each read `now()`.
- `generatedAt` (roompulse/src/lib/aggregate.ts:56) is a wall-clock timestamp. `RoomAggregate` omits it.
- Heat is an exact `real`. The model does not capture the floating-point rounding of `(top - second) / total`.
- Counts are mathematical integers. NaN, infinities and fractional counts are not modelled: `COUNT(*)::int` cannot produce them.
- The iteration order of a count map is an input, not derived:
  - `Object.entries` puts integer-like keys first;
  - SQL rows come back without `ORDER BY`.
- The awaits and the database connection in `getAggregate` are not modelled.
- `Math.random()` is replaced by the input sequence `draws`.
- `process.env` reads are parameters:
  - `HOST_SECRET_HEADER` is `configured` in `GetHostSecret`;
  - `ROOM_JOIN_CODE_LENGTH` is `configured` in `MakeJoinCode`.
- MakeJoinCode: `Number(...)` parsing of the environment string is not modelled. The length is an integer. A NaN length is not modelled; the JavaScript loop then runs not at all. A fractional length is not modelled; the loop then runs `ceil(len)` times. `Infinity` is not modelled; the loop then runs until the string passes the engine's length limit and throws.
- JsString.ToLower, JsString.ToUpper: only ASCII letters change case. Unicode case mapping, which can change a string's length, is not modelled.
- Node's header parsing is not modelled. Headers arrive as a map from lower-cased names to a value of the declared type `string | string[]`. The model does not say which of the two forms Node produces for a given header or for repeated headers.
- `makeSecret` (roompulse/src/lib/codes.ts:10-12) is a call into `node:crypto` and is not part of this model.
- The five-attempt join-code retry in src/pages/api/rooms/index.ts:22-46 is not part of this model: it is driven by database conflicts.
- The HTTP handlers, `zod` validation, the socket server (roompulse/server.js), the pages and roompulse/src/lib/clientHash.ts are not part of this model. They are plumbing and UI.
- Feedback submission, cooldowns and room locks are not part of this model.
