/**
 * The game catalogue as a value: the three tables of GameService and the id
 * generator, the invariant the service maintains over them, and each
 * mutating service operation as a function from the old tables to the new
 * ones (or to the error it throws, in which case the transaction leaves the
 * tables as they were).
 */
module Catalog {
  import opened Domain
  import opened Repo

  /** gameRepo, gamePlayRepo, numLocateRepo, and the next id IdUtils.getId() hands out. */
  datatype Tables = Tables(
    games: map<Id, Game>, plays: map<Id, GamePlay>, rules: map<Id, NumLocate>, nextId: Id)

  /** Every row is stored under its own id, and every id was handed out already. */
  ghost predicate Keyed(t: Tables)
  {
    && (forall k :: k in t.games ==> t.games[k].id == k && k < t.nextId)
    && (forall k :: k in t.plays ==> t.plays[k].id == k && k < t.nextId)
    && (forall k :: k in t.rules ==> t.rules[k].id == k && k < t.nextId)
  }

  /** No two games share a gameCode. */
  ghost predicate GameCodesUnique(games: map<Id, Game>)
  {
    forall a, b :: a in games && b in games && games[a].gameCode == games[b].gameCode ==> a == b
  }

  /** No two plays share a (gameCode, gamePlayCode) pair. */
  ghost predicate PlayCodesUnique(plays: map<Id, GamePlay>)
  {
    forall a, b ::
      (a in plays && b in plays && plays[a].gameCode == plays[b].gameCode
       && plays[a].gamePlayCode == plays[b].gamePlayCode) ==> a == b
  }

  /** Every rule belongs to a play that exists. */
  ghost predicate NoOrphanRules(t: Tables)
  {
    forall k :: k in t.rules ==> t.rules[k].gamePlayId in t.plays
  }

  ghost predicate Valid(t: Tables)
  {
    Keyed(t) && GameCodesUnique(t.games) && PlayCodesUnique(t.plays) && NoOrphanRules(t)
  }

  /** `r` only adds to `t`: plays under new keys, and rules under new keys
      for plays that `t` did not have. */
  ghost predicate Extends(t: Tables, r: Tables)
  {
    && KeysBelow(t.rules, t.nextId) && t.nextId <= r.nextId
    && (forall j :: j in t.plays ==> j in r.plays && r.plays[j] == t.plays[j])
    && (forall j :: j in t.rules ==> j in r.rules && r.rules[j] == t.rules[j])
    && (forall j :: j in r.rules && j !in t.rules ==> t.nextId <= j && r.rules[j].gamePlayId !in t.plays)
  }

  /** The tables a call leaves behind: the new ones if it returned normally,
      the old ones if it threw (the transaction rolls back). */
  function Committed(r: Result<Tables>, before: Tables): Tables
  {
    if r.Ok? then r.value else before
  }

  /** The ids of a list of plays. */
  function IdsOf(ps: seq<GamePlay>): set<Id>
  {
    set p | p in ps :: p.id
  }

  /** The rules table without the rules of the given plays
      (numLocateRepo.deleteAll(numLocateRepo.findByGamePlayId(..)) per play). */
  function DropRules(rules: map<Id, NumLocate>, gamePlayIds: set<Id>): map<Id, NumLocate>
  {
    map k | k in rules && rules[k].gamePlayId !in gamePlayIds :: rules[k]
  }

  /** Saves one new rule per payload, in order, each under a fresh id and owned
      by `gamePlayId` (the NumLocate loops of copyGamePlay and addOrUpdateGamePlay). */
  function SaveRules(t: Tables, gamePlayId: Id, attrs: seq<string>): (r: Tables)
    requires KeysBelow(t.rules, t.nextId)
    ensures r.games == t.games && r.plays == t.plays && r.nextId == t.nextId + |attrs|
    decreases |attrs|
  {
    if attrs == [] then t
    else
      SaveRules(Tables(t.games, t.plays, t.rules[t.nextId := NumLocate(t.nextId, gamePlayId, attrs[0])], t.nextId + 1),
                gamePlayId, attrs[1..])
  }

  /** Saving rules keeps every old rule, and adds exactly one rule per payload,
      under the ids handed out meanwhile, in order. */
  lemma {:induction false} SaveRulesAdds(t: Tables, gamePlayId: Id, attrs: seq<string>)
    requires KeysBelow(t.rules, t.nextId)
    ensures var r := SaveRules(t, gamePlayId, attrs);
      && (forall k :: k in t.rules ==> k in r.rules && r.rules[k] == t.rules[k])
      && (forall k :: k in r.rules && k !in t.rules ==>
            t.nextId <= k < r.nextId && r.rules[k] == NumLocate(k, gamePlayId, attrs[k - t.nextId]))
      && (forall k :: t.nextId <= k < r.nextId ==> k in r.rules)
    decreases |attrs|
  {
    if attrs != [] {
      var t1 := Tables(t.games, t.plays, t.rules[t.nextId := NumLocate(t.nextId, gamePlayId, attrs[0])], t.nextId + 1);
      SaveRulesAdds(t1, gamePlayId, attrs[1..]);
      var r := SaveRules(t1, gamePlayId, attrs[1..]);
      assert r == SaveRules(t, gamePlayId, attrs);
      forall k | k in r.rules && k !in t1.rules
        ensures r.rules[k] == NumLocate(k, gamePlayId, attrs[k - t.nextId])
      {
        assert attrs[1..][k - t1.nextId] == attrs[k - t.nextId];
      }
    }
  }

  /** Rules saved for an existing play keep the tables valid. */
  lemma SaveRulesValid(t: Tables, gamePlayId: Id, attrs: seq<string>)
    requires Valid(t) && gamePlayId in t.plays
    ensures Valid(SaveRules(t, gamePlayId, attrs))
  {
    SaveRulesAdds(t, gamePlayId, attrs);
  }

  /** A play saved under the next id, with a (gameCode, gamePlayCode) pair no
      play has, keeps the tables valid. */
  lemma AddPlayValid(t: Tables, play: GamePlay)
    requires Valid(t) && play.id == t.nextId
    requires !PlayCodeHeldByOther(t.plays, play.gameCode, play.gamePlayCode, None)
    ensures Valid(Tables(t.games, t.plays[t.nextId := play], t.rules, t.nextId + 1))
  {
  }

  /** One iteration of copyGamePlay that does not skip: the source play is
      saved again under a fresh id and the target's gameCode, then each of its
      rules under a fresh id and the new play's id. */
  function CopyPlay(t: Tables, gameCode: string, source: GamePlay): (r: Tables)
    requires KeysBelow(t.rules, t.nextId)
    ensures r.games == t.games && r.nextId > t.nextId
    ensures r.plays == t.plays[t.nextId := source.(id := t.nextId, gameCode := gameCode)]
  {
    var copy := source.(id := t.nextId, gameCode := gameCode);
    SaveRules(Tables(t.games, t.plays[t.nextId := copy], t.rules, t.nextId + 1),
              t.nextId, OwnedAttrs(t.rules, source.id, t.nextId + 1))
  }

  /** A copied play keeps the tables valid: its gamePlayCode is new under the
      target game, and its rules are new and belong to it. */
  lemma CopyPlayKeeps(t: Tables, gameCode: string, source: GamePlay)
    requires Valid(t) && !PlayCodeHeldByOther(t.plays, gameCode, source.gamePlayCode, None)
    ensures var r := CopyPlay(t, gameCode, source);
      && Valid(r) && Extends(t, r)
      && forall k :: k in r.rules && k !in t.rules ==> r.rules[k].gamePlayId == t.nextId
  {
    var copy := source.(id := t.nextId, gameCode := gameCode);
    var t1 := Tables(t.games, t.plays[t.nextId := copy], t.rules, t.nextId + 1);
    var attrs := OwnedAttrs(t.rules, source.id, t.nextId + 1);
    var r := SaveRules(t1, t.nextId, attrs);
    assert r == CopyPlay(t, gameCode, source);
    AddPlayValid(t, copy);
    SaveRulesValid(t1, t.nextId, attrs);
    SaveRulesAdds(t1, t.nextId, attrs);
  }

  /** The loop of copyGamePlay over the source plays: a source whose
      gamePlayCode the target game already has is skipped. */
  function CopyPlays(t: Tables, gameCode: string, sources: seq<GamePlay>): (r: Tables)
    requires Valid(t)
    ensures Valid(r) && Extends(t, r) && r.games == t.games
    ensures forall k :: k in r.plays && k !in t.plays ==> t.nextId <= k && r.plays[k].gameCode == gameCode
    decreases |sources|
  {
    if sources == [] then t
    else if PlayCodeHeldByOther(t.plays, gameCode, sources[0].gamePlayCode, None) then
      CopyPlays(t, gameCode, sources[1..])
    else
      CopyPlayKeeps(t, gameCode, sources[0]);
      CopyPlays(CopyPlay(t, gameCode, sources[0]), gameCode, sources[1..])
  }

  /** copyGamePlay(game, copyGameCode): clones the plays of game `copyGameCode`
      (and their rules) onto the game whose code is `gameCode`. */
  function CopyGamePlay(t: Tables, gameCode: string, copyGameCode: string): (r: Tables)
    requires Valid(t)
    ensures Valid(r)
    ensures IsBlank(copyGameCode) ==> r == t
    ensures r.games == t.games && t.nextId <= r.nextId
    ensures forall k :: k in t.plays ==> k in r.plays && r.plays[k] == t.plays[k]
    ensures forall k :: k in t.rules ==> k in r.rules && r.rules[k] == t.rules[k]
    ensures forall k :: k in r.plays && k !in t.plays ==> t.nextId <= k && r.plays[k].gameCode == gameCode
  {
    if IsBlank(copyGameCode) then t
    else CopyPlays(t, gameCode, PlaysOfGame(t.plays, copyGameCode, t.nextId))
  }

  /** The key of the game addOrUpdateGame saves: a fresh one on create. */
  function SavedGameId(t: Tables, p: GameParam): Id
  {
    match p.id
    case None => t.nextId
    case Some(id) => id
  }

  /** The first half of addOrUpdateGame once its checks passed: the game is
      saved under its key (a fresh one on create). */
  function PutGame(t: Tables, p: GameParam): (r: Tables)
    requires Valid(t) && !GameCodeHeldByOther(t.games, p.gameCode, p.id)
    requires p.id.Some? ==> p.id.value in t.games
    ensures Valid(r)
    ensures r.games == t.games[SavedGameId(t, p) := ToGame(p, SavedGameId(t, p))]
    ensures r.plays == t.plays && r.rules == t.rules && t.nextId <= r.nextId
  {
    match p.id
    case None =>
      var game := ToGame(p, t.nextId);
      t.(games := t.games[game.id := game], nextId := t.nextId + 1)
    case Some(id) =>
      t.(games := t.games[id := ToGame(p, id)])
  }

  /** addOrUpdateGame: saves the game, then clones the plays of
      `copyGameCode` onto it. */
  function AddOrUpdateGame(t: Tables, p: GameParam): (r: Result<Tables>)
    requires Valid(t)
    ensures r == Err(GameCodeExists) <==> GameCodeHeldByOther(t.games, p.gameCode, p.id)
    ensures r == Err(NotFound) <==>
              !GameCodeHeldByOther(t.games, p.gameCode, p.id) && p.id.Some? && p.id.value !in t.games
    ensures r.Ok? ==> Valid(r.value)
    ensures r.Ok? ==> r.value.games == t.games[SavedGameId(t, p) := ToGame(p, SavedGameId(t, p))]
    ensures r.Ok? ==> forall k :: k in t.plays ==> k in r.value.plays && r.value.plays[k] == t.plays[k]
    ensures r.Ok? ==> forall k :: k in t.rules ==> k in r.value.rules && r.value.rules[k] == t.rules[k]
    ensures r.Ok? && IsBlank(p.copyGameCode) ==> r.value.plays == t.plays && r.value.rules == t.rules
  {
    if GameCodeHeldByOther(t.games, p.gameCode, p.id) then Err(GameCodeExists)
    else if p.id.Some? && p.id.value !in t.games then Err(NotFound)
    else Ok(CopyGamePlay(PutGame(t, p), p.gameCode, p.copyGameCode))
  }

  /** The key of the play addOrUpdateGamePlay saves: a fresh one on create. */
  function SavedPlayId(t: Tables, p: GamePlayParam): Id
  {
    match p.id
    case None => t.nextId
    case Some(id) => id
  }

  /** The first half of addOrUpdateGamePlay once its checks passed: the play
      is saved under its key (a fresh one on create), and on update the rules
      it owned are deleted first. */
  function PutPlay(t: Tables, p: GamePlayParam): (r: Tables)
    requires Valid(t) && !PlayCodeHeldByOther(t.plays, p.gameCode, p.gamePlayCode, p.id)
    requires p.id.Some? ==> p.id.value in t.plays
    ensures Valid(r) && SavedPlayId(t, p) in r.plays
    ensures r.games == t.games && r.plays == t.plays[SavedPlayId(t, p) := ToGamePlay(p, SavedPlayId(t, p))]
    ensures t.nextId <= r.nextId && KeysBelow(t.rules, t.nextId)
    ensures forall k :: k in r.rules ==> k in t.rules && r.rules[k] == t.rules[k]
    ensures forall k :: k in r.rules ==> r.rules[k].gamePlayId != SavedPlayId(t, p)
    ensures forall k :: k in t.rules && k !in r.rules ==> t.rules[k].gamePlayId == SavedPlayId(t, p)
  {
    match p.id
    case None =>
      var play := ToGamePlay(p, t.nextId);
      assert forall k :: k in t.rules ==> t.rules[k].gamePlayId in t.plays;
      AddPlayValid(t, play);
      Tables(t.games, t.plays[t.nextId := play], t.rules, t.nextId + 1)
    case Some(id) =>
      var play := ToGamePlay(p, id);
      t.(plays := t.plays[id := play], rules := DropRules(t.rules, {id}))
  }

  /** addOrUpdateGamePlay: saves the play, and replaces its rules by the ones
      converted from the parameter's numLocates. */
  function AddOrUpdateGamePlay(t: Tables, p: GamePlayParam): (r: Result<Tables>)
    requires Valid(t)
    ensures r == Err(GamePlayCodeExists) <==>
              PlayCodeHeldByOther(t.plays, p.gameCode, p.gamePlayCode, p.id)
    ensures r == Err(NotFound) <==>
              !PlayCodeHeldByOther(t.plays, p.gameCode, p.gamePlayCode, p.id)
              && p.id.Some? && p.id.value !in t.plays
    ensures r.Ok? ==> Valid(r.value)
    ensures r.Ok? ==> r.value.games == t.games
    ensures r.Ok? ==> r.value.plays == t.plays[SavedPlayId(t, p) := ToGamePlay(p, SavedPlayId(t, p))]
  {
    if PlayCodeHeldByOther(t.plays, p.gameCode, p.gamePlayCode, p.id) then Err(GamePlayCodeExists)
    else if p.id.Some? && p.id.value !in t.plays then Err(NotFound)
    else
      SaveRulesValid(PutPlay(t, p), SavedPlayId(t, p), ParamAttrs(p.numLocates));
      Ok(SaveRules(PutPlay(t, p), SavedPlayId(t, p), ParamAttrs(p.numLocates)))
  }

  /** delGameById: the game, every play carrying its gameCode, and every rule
      of those plays. */
  function DelGameById(t: Tables, id: Id): (r: Result<Tables>)
    requires Valid(t)
    ensures r.Err? <==> id !in t.games
    ensures r.Err? ==> r.error == NotFound
    ensures r.Ok? ==> Valid(r.value) && r.value.nextId == t.nextId
    ensures r.Ok? ==> r.value.games == t.games - {id}
    ensures r.Ok? ==> forall k :: k in r.value.plays <==> k in t.plays && t.plays[k].gameCode != t.games[id].gameCode
    ensures r.Ok? ==> forall k :: k in r.value.plays ==> r.value.plays[k] == t.plays[k]
    ensures r.Ok? ==> forall k :: k in r.value.rules <==>
              k in t.rules && t.plays[t.rules[k].gamePlayId].gameCode != t.games[id].gameCode
    ensures r.Ok? ==> forall k :: k in r.value.rules ==> r.value.rules[k] == t.rules[k]
  {
    if id !in t.games then Err(NotFound)
    else
      var gamePlayIds := set k | k in t.plays && t.plays[k].gameCode == t.games[id].gameCode;
      Ok(t.(games := t.games - {id}, plays := t.plays - gamePlayIds,
            rules := DropRules(t.rules, gamePlayIds)))
  }

  /** delGamePlayById: the play and every rule it owns. */
  function DelGamePlayById(t: Tables, id: Id): (r: Result<Tables>)
    requires Valid(t)
    ensures r.Err? <==> id !in t.plays
    ensures r.Err? ==> r.error == NotFound
    ensures r.Ok? ==> Valid(r.value) && r.value.games == t.games && r.value.nextId == t.nextId
    ensures r.Ok? ==> r.value.plays == t.plays - {id}
    ensures r.Ok? ==> forall k :: k in r.value.rules <==> k in t.rules && t.rules[k].gamePlayId != id
    ensures r.Ok? ==> forall k :: k in r.value.rules ==> r.value.rules[k] == t.rules[k]
  {
    if id !in t.plays then Err(NotFound)
    else Ok(t.(plays := t.plays - {id}, rules := DropRules(t.rules, {id})))
  }

  /** updateGamePlayState: overwrites the state of one play, nothing else. */
  function UpdateGamePlayState(t: Tables, id: Id, state: string): (r: Result<Tables>)
    requires Valid(t)
    ensures r.Err? <==> id !in t.plays
    ensures r.Err? ==> r.error == NotFound
    ensures r.Ok? ==> Valid(r.value)
    ensures r.Ok? ==> r.value.games == t.games && r.value.rules == t.rules && r.value.nextId == t.nextId
    ensures r.Ok? ==> r.value.plays.Keys == t.plays.Keys && r.value.plays[id].state == state
    ensures r.Ok? ==> r.value.plays[id] == t.plays[id].(state := state)
    ensures r.Ok? ==> forall k :: k in t.plays && k != id ==> r.value.plays[k] == t.plays[k]
  {
    if id !in t.plays then Err(NotFound)
    else Ok(t.(plays := t.plays[id := t.plays[id].(state := state)]))
  }
}
