# Lottery game catalogue: a verified model of `GameService`

This project models the administration service of the lottery's game
catalogue (`me.zohar.lottery.game.service.GameService`). The catalogue has
three tables:

- **games**, unique by `gameCode`;
- **game plays**, the bet modes of a game. A play is tied to its game by the
  `gameCode` string and is unique by `(gameCode, gamePlayCode)`;
- **number-locate rules**, tied to a play by its `gamePlayId`.

The model covers the service's operations on these tables:

- the uniqueness checks of `addOrUpdateGame` and `addOrUpdateGamePlay`;
- the hand-written cascade deletes of `delGameById` and `delGamePlayById`;
- the wholesale replacement of a play's rules on update;
- `copyGamePlay`, which clones one game's plays and their rules onto another
  game;
- the list finders.

The model has three layers:

- `Domain` (domain.dfy) holds the records, the parameter objects, the errors
  and the two record conversions. `Repo` (repo.dfy) models the three Spring
  Data repositories as maps keyed by id. A list finder is `Select`: the rows
  under keys below a bound that pass a filter, in key order.
- `Catalog` (catalog.dfy) is the catalogue as a value, `Tables`. It also
  holds the invariant the service maintains, `Valid`: rows keyed by their
  ids, ids below the id counter, both uniqueness constraints, and no rule
  without its play. Every mutating service method is a function here, from
  the old tables to the new tables or to the error it throws.
  `CatalogProps` (catalog_props.dfy) proves what the service promises about
  these functions.
- `Service` (game_service.dfy) is the service itself: a class
  `GameService` with the three tables and the id counter as fields. Each
  service method is a method on it, with the source's loops. Each mutating
  method is proved to leave exactly the tables the `Catalog` function
  computes, or the old tables when it throws, since the transaction rolls
  back. So every property of `CatalogProps` holds of the class. Each finder
  is proved to return exactly the matching rows.

Updating a game's `gameCode` does not re-key that game's plays: the model
keeps them, unchanged, under the old code, as the service does.

## Model

All source paths are under `lottery-api/src/main/java/me/zohar/lottery/game/service/`; the table spells them out in full.

| member | source | states |
|---|---|---|
| Domain.ParamAttrs | lottery-api/src/main/java/me/zohar/lottery/game/service/GameService.java:192-195 | the rules saved for a play carry the payloads of `numLocates`, one per entry, in order |
| Repo.SelectMembers | lottery-api/src/main/java/me/zohar/lottery/game/service/GameService.java:60 | a list finder returns exactly the stored rows that pass its filter |
| Catalog.SaveRules | lottery-api/src/main/java/me/zohar/lottery/game/service/GameService.java:192-196 | saving rules touches neither games nor plays and uses one fresh id per rule |
| Catalog.SaveRulesAdds | lottery-api/src/main/java/me/zohar/lottery/game/service/GameService.java:214-218 | saving rules keeps every existing rule and adds exactly one rule under each id it hands out; each new rule is owned by the given play and carries the payload at its position |
| Catalog.SaveRulesValid | lottery-api/src/main/java/me/zohar/lottery/game/service/GameService.java:192-196 | rules saved for an existing play keep the invariant (no orphan rules, keys are ids, ids fresh) |
| Catalog.AddPlayValid | lottery-api/src/main/java/me/zohar/lottery/game/service/GameService.java:160-164 | a play saved under a fresh id with a (gameCode, gamePlayCode) pair no play holds keeps the invariant |
| Catalog.CopyPlay | lottery-api/src/main/java/me/zohar/lottery/game/service/GameService.java:160-173 | copying one play adds it under a fresh id with the target gameCode and every other column of the source; games are untouched |
| Catalog.CopyPlayKeeps | lottery-api/src/main/java/me/zohar/lottery/game/service/GameService.java:160-173 | one copied play keeps the invariant; it only adds rows; every new rule belongs to the new play |
| Catalog.CopyPlays | lottery-api/src/main/java/me/zohar/lottery/game/service/GameService.java:153-174 | the copy loop keeps the invariant; it never changes or removes a play or rule; every new play has a fresh id and the target gameCode; every new rule belongs to a new play |
| Catalog.CopyGamePlay | lottery-api/src/main/java/me/zohar/lottery/game/service/GameService.java:148-175 | with a blank copyGameCode nothing changes; otherwise games and all existing plays and rules are kept and new plays carry the target gameCode |
| Catalog.PutGame | lottery-api/src/main/java/me/zohar/lottery/game/service/GameService.java:130-142 | saving a game whose code no other game holds keeps the invariant and touches only that game |
| Catalog.AddOrUpdateGame | lottery-api/src/main/java/me/zohar/lottery/game/service/GameService.java:123-145 | fails with "game code exists" exactly when another game (any game, on create) holds the code; fails with NotFound exactly when the code is free but the id to update is absent; on success the game is saved, the invariant holds, and every existing play and rule is kept unchanged (no re-keying of plays); with a blank copyGameCode the plays and rules are exactly the old ones |
| Catalog.PutPlay | lottery-api/src/main/java/me/zohar/lottery/game/service/GameService.java:205-210 | saving a play keeps the invariant; on update it first removes exactly the rules the play owned |
| Catalog.AddOrUpdateGamePlay | lottery-api/src/main/java/me/zohar/lottery/game/service/GameService.java:179-220 | fails with "game play code exists" exactly when another play (any play, on create) holds the (gameCode, gamePlayCode) pair; fails with NotFound exactly when the pair is free but the id to update is absent; on success the play is saved, games are untouched and the invariant holds |
| Catalog.DelGameById | lottery-api/src/main/java/me/zohar/lottery/game/service/GameService.java:58-67 | fails exactly when the game is absent; otherwise removes the game, exactly the plays carrying its gameCode and exactly the rules of those plays, leaves every other row as it was, and keeps the invariant (no orphans) |
| Catalog.DelGamePlayById | lottery-api/src/main/java/me/zohar/lottery/game/service/GameService.java:114-119 | fails exactly when the play is absent; otherwise removes the play and exactly its rules, nothing else |
| Catalog.UpdateGamePlayState | lottery-api/src/main/java/me/zohar/lottery/game/service/GameService.java:107-111 | fails exactly when the play is absent; otherwise only that play's state changes |
| CatalogProps.PlaysOfGameMembers | lottery-api/src/main/java/me/zohar/lottery/game/service/GameService.java:78 | findByGameCodeOrderByOrderNo returns exactly the plays carrying the code |
| CatalogProps.RulesOfPlayMembers | lottery-api/src/main/java/me/zohar/lottery/game/service/GameService.java:62 | findByGamePlayId returns exactly the rules of the play |
| CatalogProps.GamesInStateMembers | lottery-api/src/main/java/me/zohar/lottery/game/service/GameService.java:53 | findByStateOrderByOrderNo returns exactly the games in that state |
| CatalogProps.AllGamesMembers | lottery-api/src/main/java/me/zohar/lottery/game/service/GameService.java:47 | findAll returns every game |
| CatalogProps.SaveRulesOwned | lottery-api/src/main/java/me/zohar/lottery/game/service/GameService.java:192-196 | after saving rules, the play's rule payloads are its old ones followed by the new ones, in order |
| CatalogProps.SaveRulesOthers | lottery-api/src/main/java/me/zohar/lottery/game/service/GameService.java:214-218 | saving rules for one play leaves the rules of every other play unchanged |
| CatalogProps.SaveRulesReplaces | lottery-api/src/main/java/me/zohar/lottery/game/service/GameService.java:205-218 | after the old rules are dropped and the new ones saved, the play owns exactly the new payloads under fresh ids, and other plays' rules are unchanged |
| CatalogProps.AddOrUpdateGamePlayReplacesRules | lottery-api/src/main/java/me/zohar/lottery/game/service/GameService.java:187-218 | after a successful create or update, the play owns exactly the rules converted from numLocates, in order (none if empty); its previous rules are gone; every other play's rules are unchanged |
| CatalogProps.AddOrUpdateGamePlayTwice | lottery-api/src/main/java/me/zohar/lottery/game/service/GameService.java:200-218 | repeating a successful update succeeds and leaves the same games, plays and rule payloads |
| CatalogProps.CopyPlaysCovers | lottery-api/src/main/java/me/zohar/lottery/game/service/GameService.java:153-164 | after the copy loop, the target game holds every source play's gamePlayCode |
| CatalogProps.CopyPlaysSkipsAll | lottery-api/src/main/java/me/zohar/lottery/game/service/GameService.java:153-158 | when the target already holds every source gamePlayCode, the copy loop changes nothing |
| CatalogProps.CopyGamePlayIdempotent | lottery-api/src/main/java/me/zohar/lottery/game/service/GameService.java:148-175 | running copyGamePlay a second time with the same arguments changes nothing |
| CatalogProps.CopyPlayClones | lottery-api/src/main/java/me/zohar/lottery/game/service/GameService.java:160-173 | a copied play equals its source except for a fresh id and the target gameCode, and owns rules with the source's payloads |
| CatalogProps.CopyPlaysClones | lottery-api/src/main/java/me/zohar/lottery/game/service/GameService.java:153-174 | every play the copy loop adds is a clone of a source whose gamePlayCode the target lacked |
| CatalogProps.CopyGamePlayClones | lottery-api/src/main/java/me/zohar/lottery/game/service/GameService.java:148-175 | every new play clones a play of the source game that the target lacked; every source gamePlayCode is present under the target afterwards; every new rule has a fresh id and belongs to a new play |
| CatalogProps.AddOrUpdateGameCopies | lottery-api/src/main/java/me/zohar/lottery/game/service/GameService.java:132-143 | after a successful save with a copyGameCode, every new play clones a play of the copyGameCode game that the saved game lacked, every such play's gamePlayCode is present under the saved game, and every new rule belongs to a new play |
| Service.GameService.NewId | lottery-api/src/main/java/me/zohar/lottery/game/service/GameService.java:162 | IdUtils.getId hands out an id that no row uses yet |
| Service.GameService.FindAllGame | lottery-api/src/main/java/me/zohar/lottery/game/service/GameService.java:46-49 | returns exactly the stored games |
| Service.GameService.FindAllOpenGame | lottery-api/src/main/java/me/zohar/lottery/game/service/GameService.java:52-55 | returns exactly the games whose state is the enabled state |
| Service.GameService.FindGameById | lottery-api/src/main/java/me/zohar/lottery/game/service/GameService.java:70-73 | returns the game stored under the id, or NotFound exactly when there is none |
| Service.GameService.FindGamePlayByGameCode | lottery-api/src/main/java/me/zohar/lottery/game/service/GameService.java:76-84 | the loop returns the finder's list, which holds exactly the plays carrying the code |
| Service.GameService.Details | lottery-api/src/main/java/me/zohar/lottery/game/service/GameService.java:91-92 | a play's view holds the play and exactly the rules it owns |
| Service.GameService.FindGamePlayAndNumLocateByGameCode | lottery-api/src/main/java/me/zohar/lottery/game/service/GameService.java:87-96 | the loop returns one view per play of the game, in the finder's order, each holding the play and exactly its rules; every play of the game appears |
| Service.GameService.FindGamePlayDetailsById | lottery-api/src/main/java/me/zohar/lottery/game/service/GameService.java:99-104 | returns the play with exactly its rules, or NotFound exactly when the play is absent |
| Service.GameService.UpdateGamePlayState | lottery-api/src/main/java/me/zohar/lottery/game/service/GameService.java:107-111 | leaves the tables Catalog.UpdateGamePlayState computes (the old ones on failure) and keeps the invariant |
| Service.GameService.DelGamePlayById | lottery-api/src/main/java/me/zohar/lottery/game/service/GameService.java:114-119 | leaves the tables Catalog.DelGamePlayById computes (the old ones on failure) and keeps the invariant |
| Service.GameService.DelGameById | lottery-api/src/main/java/me/zohar/lottery/game/service/GameService.java:58-67 | the per-play delete loop and the two deletes leave the tables Catalog.DelGameById computes (the old ones on failure) |
| Service.DelGameByIdDeletes | lottery-api/src/main/java/me/zohar/lottery/game/service/GameService.java:60-66 | deleting the plays the finder returns, and their rules, is the cascade Catalog.DelGameById states |
| Service.PlaysOfGameIds | lottery-api/src/main/java/me/zohar/lottery/game/service/GameService.java:60 | the ids of the finder's plays are exactly the keys of the plays carrying the code |
| Service.GameService.SaveNumLocates | lottery-api/src/main/java/me/zohar/lottery/game/service/GameService.java:214-218 | the rule-saving loop leaves the tables Catalog.SaveRules computes |
| Service.GameService.CopyOnePlay | lottery-api/src/main/java/me/zohar/lottery/game/service/GameService.java:160-173 | one copy step leaves the tables Catalog.CopyPlay computes |
| Service.GameService.CopyGamePlay | lottery-api/src/main/java/me/zohar/lottery/game/service/GameService.java:148-175 | the copy loop, with its skip, leaves the tables Catalog.CopyGamePlay computes and keeps the invariant |
| Service.GameService.AddOrUpdateGame | lottery-api/src/main/java/me/zohar/lottery/game/service/GameService.java:123-145 | reports the error Catalog.AddOrUpdateGame reports, and leaves the tables it computes (the old ones on failure) |
| Service.GameService.AddOrUpdateGamePlay | lottery-api/src/main/java/me/zohar/lottery/game/service/GameService.java:179-220 | reports the error Catalog.AddOrUpdateGamePlay reports, and leaves the tables it computes (the old ones on failure) |

## Left out

- Ordering by `orderNo`: the list finders return rows in key order. Only membership in the result is stated, not the sort.
- VO projections (`GameVO`, `GamePlayVO`, `NumLocateVO`): a finder returns the records themselves. A play's view with its rules is `GamePlayDetails`.
- Descriptive columns that the service never inspects (name, icon and the rule columns): each record carries them as one opaque `attrs` string, copied whole as `BeanUtils.copyProperties` does.
- Parameter validation (`@ParamValid`): parameters are taken as valid.
- Transactions and concurrent callers: each method is atomic. A method that throws leaves the tables as they were, because the transaction rolls back.
- Ids: the source generates string ids (`IdUtils.getId()` and inside `convertToPo()`). Here an id is a natural number taken from a counter, and the invariant keeps every stored id below the counter, so generated ids are fresh.
- `getOne` on a missing id: modelled as the error `NotFound`, with the tables unchanged. In `delGamePlayById` and in the update branch of `addOrUpdateGamePlay`, the source deletes the play's rules before it looks up the play. The model checks first. Because of the rollback the outcome is the same.
- Single-result finders (`findByGameCode`, `findByGameCodeAndGamePlayCode`): modelled as "does a row other than this id hold the code". This agrees with the source because the invariant keeps the codes unique.
- `IsBlank`: follows hutool 5's `CharUtil.isBlankChar` with Java 8 character data: `Character.isWhitespace` or `Character.isSpaceChar`, plus BOM, U+202A, NUL, U+3164 and U+2800. Under a later Java, U+180E is not a space separator; the model still treats it as blank. Older hutool releases do not count NUL, U+3164 or U+2800 as blank.
- `GameStateEnabled`: the enabled-state constant's value is not part of this model's sources. It is fixed to `"1"`, and no property depends on which value it is.
- CopyPlayClones: the source copies a play's rules by iterating a `Set`, whose order is unspecified. The model copies them in key order, so "same payloads in the same order" holds for the model. For the source it holds only as "the same payloads".
