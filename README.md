# Leaderboard API: search sanitiser, authentication ladders and map-top

This project models the parts of the leaderboard HTTP API that make their decisions in Rust rather than in SQL. Everything is modelled as pure functions over values, the way the source computes them.

- **Search** (`search.dfy`). The free-text query sanitiser of `/search_players` and `/search_maps` works on the query's bytes. It splits at the full-text operator bytes (and, for maps, `_`). It drops fragments shorter than two bytes, appends `*` to each survivor and joins the survivors with single spaces. An empty result is a 400 and no statement is built. Otherwise the sanitised string is a bound value of the statement.
- **User identity** (`auth_user.dfy`). The Steam login callback:
  - converts a verified SteamID64 into an account id, with an underflow guard;
  - issues claims with no permissions that expire two hours after `now`.

  The `X-User-Token` extractor runs four steps in order: missing (400), not text (400), rejected by the decoder (401), otherwise a user. Then comes the `ViewBans` guard of `/protected` (403).
- **Server identity** (`auth_server.dfy`). The `X-Server-Token` extractor has the same two header checks. They are followed by a lookup in the servers table: an error gives 500, no row gives 401, otherwise the server.
- **Map-top** (`runs.dfy`, `model.dfy`):
  - The `RunKind` table chooses the index hint and the teleport predicate. These two values are the only text spliced into the statement; map name, course and mode are bound.
  - `IsMapTop` states what the statement answers:
    - one row per player, at that player's best ticks over the selected runs, copied from some run at that time (which one is left open);
    - at most 250 players, fastest first;
    - players are left out only once 250 players at least as fast fill the ranking.
  - `MapTop` is a reference answer proved to satisfy it.
  - The lemmas `MapTopShape`, `MapTopRows`, `MapTopKeepsFastest` and `MapTopAllWhenFew` hold for every answer that satisfies `IsMapTop`, not just for the reference.
  - The 250 players are ranked before the join with `players`. A ranked player without a players row therefore loses their row without being replaced, so the answer can be shorter than 250 even when more players exist.

Shared pieces are in `http.dfy` and `sql.dfy`:
- bytes, `u32` and `u64`;
- `Option` and `Result`;
- the HTTP errors and their status codes;
- the header-to-text conversion, which accepts exactly tab and bytes 0x20 to 0x7E;
- a statement made of a fixed template, spliced text and bound values.

The JWT encoder and decoder, the Steam OpenID outcome and the search database are parameters. The clock is an integer parameter, `now`, in seconds. The servers and runs tables are values.

## Model

| member | source | states |
|---|---|---|
| Http.HeaderToStr | src/http/auth_user.rs:106-108 | a header value reads as text exactly when every byte is tab or visible ASCII, and then the text is the bytes unchanged |
| Search.Split | src/http/search.rs:24 | splitting yields at least one fragment and no fragment contains a delimiter |
| Search.SplitRoundTrip | src/http/search.rs:24 | the fragments interleaved with the delimiters found restore the query; k delimiters give k + 1 fragments |
| Search.SplitCleanPrefix | src/http/search.rs:24 | a delimiter-free prefix extends the first fragment and leaves the others unchanged |
| Search.SplitAtDelimiter | src/http/search.rs:24 | a delimiter-free word followed by a delimiter is a fragment of its own, ahead of the fragments of the rest |
| Search.Survivors | src/http/search.rs:25 | at most as many fragments as given, each of at least 2 bytes; SurvivorsMembers, SurvivorsEmpty and SurvivorsConcat give which ones and in what order |
| Search.SurvivorsMembers | src/http/search.rs:25 | the kept fragments are exactly the fragments of at least 2 bytes |
| Search.SurvivorsEmpty | src/http/search.rs:25 | nothing survives exactly when every fragment is shorter than 2 bytes |
| Search.SurvivorsConcat | src/http/search.rs:25 | filtering keeps input order: it distributes over concatenation |
| Search.StarredJoinLength | src/http/search.rs:26-28 | the joined output is empty exactly when there are no words, and is longer than the first word otherwise |
| Search.Starred | src/http/search.rs:26 | one output word per input word, the i-th being the i-th word followed by `*` |
| Search.JoinSpace | src/http/search.rs:27-28 | the join starts with the first word and, with two or more words, a space follows it; SplitJoinSpace and JoinedDelimiters characterise the rest |
| Search.Sanitise | src/http/search.rs:23-28 | the sanitised string is empty exactly when every fragment is shorter than 2 bytes |
| Search.SanitiseQuery | src/http/search.rs:23-31 | 400 "insufficient search query" exactly when no fragment survives; otherwise the sanitised string, at least 3 bytes long |
| Search.SearchPlayers | src/http/search.rs:19-45 | 400 with no statement when sanitising fails; otherwise one statement with the sanitised string as its only bound value, database failure is 500 with an empty body, rows are returned unchanged |
| Search.SearchMaps | src/http/search.rs:54-108 | as the player search with `_` also a delimiter; the sanitised string and the mode are the two bound values |
| Search.SplitJoinSpace | src/http/search.rs:28 | splitting space-joined words that hold no space gives the words back |
| Search.SanitisedTokens | src/http/search.rs:24-28 | the space-separated tokens of the output are the surviving fragments, in input order, each followed by exactly one `*`, each at least 3 bytes, and each fragment free of delimiters |
| Search.JoinedDelimiters | src/http/search.rs:26-28 | in a join of starred delimiter-free words, every delimiter byte is a `*` ending a token or a single space between tokens |
| Search.OutputDelimiters | src/http/search.rs:24-28 | in the sanitised output every delimiter byte is a token-ending `*` or a separating space |
| Search.ResplitWord | src/http/search.rs:24-26 | a clean word of at least 2 bytes, `*` and a space, before any text, survives re-splitting ahead of what survives of that text |
| Search.ResplitSurvivors | src/http/search.rs:24-28 | sanitising the output again finds the same words as survivors |
| Search.SanitiseIdempotent | src/http/search.rs:24-28 | sanitising a sanitised string returns it unchanged, for both delimiter sets |
| Search.SanitiseQueryIdempotent | src/http/search.rs:59-67 | a query accepted once is accepted again, with the same value, after sanitising |
| Search.ShortWordOperatorWord | src/http/search.rs:24-25 | a one-byte word, a space and an operator contribute no survivor before the next word |
| Search.ShortWordOperatorOneWord | src/http/search.rs:23-31 | a short word, space and operator before a clean word of at least 2 bytes sanitise to that word plus `*` |
| Search.ShortWordOperatorTwoWords | src/http/search.rs:23-31 | the same before two clean words around a delimiter sanitises to the two starred words joined by a space |
| Search.MapSearchExample | src/http/search.rs:59-67 | map search on `a +bb_cc` gives `bb* cc*` |
| Search.PlayerSearchExample | src/http/search.rs:23-31 | player search on `a +bb_cc` gives `bb_cc*`, since `_` is not a player delimiter |
| Search.LoneOperatorRejected | src/http/search.rs:65-67 | a query that is only `+` is a 400 in both searches |
| AuthUser.AccountId | src/http/auth_user.rs:31-36 | an account id exists exactly for SteamID64s above the base; it is at least 1 and adding the base back gives the SteamID64 |
| AuthUser.AccountIdRoundTrip | src/http/auth_user.rs:31-36 | every account id plus the base converts back to that account id |
| AuthUser.AccountIdExample | src/http/auth_user.rs:31-36 | SteamID64 76561198000000001 is account 39734273; the base itself has no account |
| AuthUser.IssuedClaims | src/http/auth_user.rs:69-75 | issued claims carry the account id, no permissions, and expire 7200 seconds after `now` |
| AuthUser.SteamAuthVerify | src/http/auth_user.rs:28-47 | failed verification is 401 "Verification failed"; a SteamID64 at or below the base is 500 "Steam oopsie, please send help"; an encoder failure is 500 "Failed to encode token"; a SteamID64 above the base with a working encoder succeeds with the account id and the token the encoder produced for the issued claims |
| AuthUser.Contains | src/http/auth_user.rs:93-95 | holds exactly when the permission is in the list |
| AuthUser.HasPermission | src/http/auth_user.rs:93-95 | holds exactly when some position of the user's list holds the permission |
| AuthUser.UserGuard | src/http/auth_user.rs:117-123 | passes exactly when the condition holds, otherwise 403 "forbidden" |
| AuthUser.GetProtected | src/http/auth_user.rs:50-53 | returns the user's permission list exactly when it contains ViewBans, otherwise 403 "forbidden" |
| AuthUser.UserFromRequest | src/http/auth_user.rs:102-114 | missing header is 400 "X-User-Token header missing"; non-text header is 400 "X-User-Token must be ASCII"; decoder rejection is 401 "X-User-Token is invalid"; an accepted text token succeeds, and success is the user with the decoded claims' id and permissions unchanged |
| AuthUser.HeaderChecksPrecedeDecode | src/http/auth_user.rs:103-108 | a 400 from the extractor is the same whatever the decoder does |
| AuthUser.ProtectedRequest | src/http/auth_user.rs:49-53 | `/protected` answers the permissions exactly when the extractor yields a user holding ViewBans; otherwise it answers the extractor's error, or 403 "forbidden" for a user without ViewBans |
| AuthUser.FreshLoginIsForbidden | src/http/auth_user.rs:36-52 | with a decoder that accepts what the encoder issued, a login token authenticates as the same account with no permissions, and `/protected` answers 403 |
| AuthServer.LookupStatement | src/http/auth_server.rs:35-41 | the lookup has no spliced text and the token as its bound value |
| AuthServer.FindServer | src/http/auth_server.rs:35-42 | no server exactly when no row carries the token; a found server is a row carrying exactly that token |
| AuthServer.Lookup | src/http/auth_server.rs:35-43 | running the lookup statement reports a table error, otherwise the row search for the statement's bound token |
| AuthServer.ServerFromRequest | src/http/auth_server.rs:25-47 | missing header is 400 "X-Server-Token header missing"; non-text header is 400 "X-Server-Token must be ASCII"; lookup error is 500 with the error text; no row is 401 "X-Server-Token is invalid"; success is a server whose row carries the header verbatim |
| AuthServer.HeaderChecksPrecedeLookup | src/http/auth_server.rs:26-34 | a 400 is the same whatever the table holds or whether it can be read |
| AuthServer.RegisteredServerAccepted | src/http/auth_server.rs:35-45 | a row's own text token is accepted, as that row's server when the token is unique |
| Runs.IndexAndPredicate | src/http/runs.rs:22-25 | NUB gets the NUB index and a predicate true of every run; PRO gets the PRO index and a predicate true exactly of runs with no teleports |
| Runs.KindsDiffer | src/http/runs.rs:22-25 | the two kinds splice different index hints and different predicates |
| Runs.MapTopStatement | src/http/runs.rs:26-50 | the statement splices only one of the two table pairs and binds map name, course and mode, in that order |
| Runs.SplicesIgnoreRequestText | src/http/runs.rs:26-50 | requests of the same kind splice the same text whatever their map, course and mode |
| Runs.ProWithinNub | src/http/runs.rs:22-25 | every PRO run is a NUB run; PRO runs are exactly those with no teleports |
| Runs.PredicateHolds | src/http/runs.rs:39-44 | only the two spliced fragments admit any run, and a run with teleports passes only the match-all `1` |
| Runs.Matching | src/http/runs.rs:39 | a run matches exactly when its map name, course and mode are the requested ones and, under PRO, it has no teleports |
| Runs.Selected | src/http/runs.rs:35-39 | the selected runs are exactly the runs on the requested map, course and mode that the kind admits |
| Runs.Execute | src/http/runs.rs:35-39 | the runs a statement selects are exactly those matching its bound map name, course and mode and its spliced teleport predicate |
| Runs.ExecuteMapTopStatement | src/http/runs.rs:22-50 | the statement built for a request selects exactly the runs the request names |
| Runs.MinTicks | src/http/runs.rs:32 | a player with no selected run has no minimum; otherwise the result is that player's smallest ticks |
| Runs.PlayerIds | src/http/runs.rs:40 | the grouped players are the players of the selected runs, each once |
| Runs.Bests | src/http/runs.rs:32-40 | one entry per grouped player, holding that player's best ticks |
| Runs.Insert | src/http/runs.rs:41 | the result is the input plus the new entry, as a multiset |
| Runs.InsertSorted | src/http/runs.rs:41 | insertion keeps the list sorted by ticks |
| Runs.InsertDistinct | src/http/runs.rs:41 | inserting a new player keeps one entry per player |
| Runs.SortByTicks | src/http/runs.rs:41 | the sorted list is a permutation of the input (same multiset), ascending by ticks |
| Runs.SortDistinct | src/http/runs.rs:41 | sorting keeps one entry per player |
| Runs.Representative | src/http/runs.rs:43-44 | a run of the player at the given ticks, from the selection, exactly when one exists |
| Runs.BestsFacts | src/http/runs.rs:32-40 | the grouped entries are distinct, each is a best time, and every selected player has one no slower than any of their runs |
| Runs.PrefixKeeps | src/http/runs.rs:41-42 | cutting at the limit keeps distinctness, order and best times |
| Runs.PrefixExcludes | src/http/runs.rs:41-42 | a player cut at the limit is no faster than every kept player, and the limit was reached |
| Runs.PrefixRanking | src/http/runs.rs:41-42 | the cut sorted best times meet the ranking specification |
| Runs.Ranking | src/http/runs.rs:31-43 | the reference ranking of every player's best time, sorted and cut at 250, meets the ranking specification `IsRanking` |
| Runs.JoinPlayers | src/http/runs.rs:26-46 | no more rows than ranked players, each for a player with a players row and that row's name; JoinRows, JoinOrder and JoinComplete characterise the rest |
| Runs.JoinRows | src/http/runs.rs:27-30 | every joined row is a ranked player with a players row and their name, at the ranked ticks, copied from a selected run at those ticks |
| Runs.JoinOrder | src/http/runs.rs:45-46 | the joined rows are ascending by ticks and one per player |
| Runs.JoinComplete | src/http/runs.rs:30-43 | every ranked player with a players row has a joined row |
| Runs.JoinCorrect | src/http/runs.rs:26-47 | the reference join meets the join specification |
| Runs.MapTop | src/http/runs.rs:26-47 | the reference answer satisfies `IsMapTop` |
| Runs.JoinLength | src/http/runs.rs:45 | a join has no more rows than the ranking has players |
| Runs.RankedWhenFew | src/http/runs.rs:42 | with at most 250 selected players every one of them is ranked |
| Runs.JoinHasRanked | src/http/runs.rs:30 | a ranked player with a players row appears in the rows |
| Runs.MapTopShape | src/http/runs.rs:40-46 | any answer has at most 250 rows, ascending by ticks, one per player |
| Runs.MapTopRows | src/http/runs.rs:27-46 | each row of any answer has a players row and its name, the player's minimum ticks over matching runs, and the teleports and time of one such run; under PRO the teleports are 0 |
| Runs.MapTopKeepsFastest | src/http/runs.rs:41-42 | a matching player with a players row who is missing from the answer is no faster than any returned row |
| Runs.MapTopAllWhenFew | src/http/runs.rs:41-42 | with at most 250 matching players, every one with a players row is in the answer |
| Runs.GetMapTopHandler | src/http/runs.rs:21-54 | a database error is 500 with its text; otherwise the rows, computed from the runs the built statement selects, satisfy `IsMapTop` for the requested runs |

## Left out

- JWT signing and validation, which is HS256 with an `exp` check. These are the `Encoder` and `Decoder` parameters. The crypto and the exact expiry boundary are not modelled.
- `AuthUser.FreshLoginIsForbidden` assumes the decoder still accepts the token when it is presented. An expired token is rejected with 401 by the decoder, and that case is covered by `UserFromRequest`.
- Steam OpenID verification is the `OpenIdOutcome` parameter. The `/steam_auth` redirect (a fixed redirect URL plus two headers) is not modelled.
- `AuthUser.IssuedClaims`: `exp` is an unbounded integer. The i64 timestamp overflow, which is unreachable for real clocks, is not modelled.
- Reading the key from the environment and its length assertion in `LocalData::new` are not modelled. They are process setup.
- The full-text ranking, relevance order and row limits of the two search queries are not modelled, nor the maps-search SQL. The search database is a parameter mapping a statement to rows or an error.
- `Search.SearchPlayers` and `Search.SearchMaps` return whatever rows that parameter gives.
- `AuthServer.FindServer` takes the first matching row. The contracts only promise some matching row, as `LIMIT 1` without an order does.
- Token comparison is verbatim byte equality. A database collation that compares case-insensitively or ignores trailing spaces is not modelled.
- Runs.Matching: the map name and mode short name are compared as exact strings. The columns' collation, which may ignore case or trailing spaces, is not modelled, so a request naming a map in a different case does not match its runs here.
- `Runs.Run` carries its map name, course number and mode short name directly. The model assumes these three name one filter. The statement depends on this, since its inner query groups by `player_id` alone without aggregating `filter_id`. The code treats a map name as naming one map: `get_map` looks a map up by name and takes at most one row (`src/http/maps.rs:44-49`).
- The index hint affects only performance and is not interpreted.
- Async execution, futures and the request-extractor plumbing are not modelled. No decision depends on them.
- `src/http/maps.rs`, `src/http/modes.rs`, `src/main.rs` and `src/http/mod.rs` are not part of this model. They hold SQL projections, JSON aggregation, process setup and route registration.
- JSON serialisation of responses is not modelled. `created_at` is a Unix timestamp in seconds.
