/**
 * GameService itself: the three repositories and the id generator as the
 * mutable state of one object, and each service method as a method on it,
 * loops included. Every mutating method is proved to leave exactly the
 * tables the matching Catalog function computes (or the old tables, when it
 * throws), so the lemmas of CatalogProps carry over to it; every finder is
 * proved to return exactly the matching rows.
 */
module Service {
  import opened Domain
  import opened Repo
  import opened Catalog
  import CatalogProps

  class GameService {
    /** gameRepo, gamePlayRepo and numLocateRepo, keyed by id. */
    var games: map<Id, Game>
    var plays: map<Id, GamePlay>
    var rules: map<Id, NumLocate>
    /** The next id IdUtils.getId() hands out. */
    var nextId: Id

    function State(): Tables
      reads this
    {
      Tables(games, plays, rules, nextId)
    }

    ghost predicate Valid()
      reads this
    {
      Catalog.Valid(State())
    }

    constructor ()
      ensures Valid()
      ensures games == map[] && plays == map[] && rules == map[] && nextId == 0
    {
      games, plays, rules, nextId := map[], map[], map[], 0;
    }

    /** IdUtils.getId(): an id never handed out before. */
    method NewId() returns (id: Id)
      modifies this`nextId
      ensures id == old(nextId) && nextId == id + 1
    {
      id := nextId;
      nextId := nextId + 1;
    }

    /** findAllGame: every game. */
    method FindAllGame() returns (vos: seq<Game>)
      requires Valid()
      ensures forall g :: g in vos <==> g in games.Values
    {
      vos := AllGames(games, nextId);
      forall g
        ensures g in vos <==> g in games.Values
      {
        CatalogProps.AllGamesMembers(State(), g);
      }
    }

    /** findAllOpenGame: the games whose state is "enabled". */
    method FindAllOpenGame() returns (vos: seq<Game>)
      requires Valid()
      ensures forall g :: g in vos <==> g in games.Values && g.state == GameStateEnabled
    {
      vos := GamesInState(games, GameStateEnabled, nextId);
      forall g
        ensures g in vos <==> g in games.Values && g.state == GameStateEnabled
      {
        CatalogProps.GamesInStateMembers(State(), GameStateEnabled, g);
      }
    }

    /** findGameById: the game stored under `id`, or NotFound. */
    method FindGameById(id: Id) returns (r: Result<Game>)
      requires Valid()
      ensures r.Ok? <==> id in games
      ensures r.Ok? ==> r.value == games[id] && r.value.id == id
      ensures r.Err? ==> r.error == NotFound
    {
      if id !in games {
        return Err(NotFound);
      }
      r := Ok(games[id]);
    }

    /** findGamePlayByGameCode: the plays of a game, one view per play. */
    method FindGamePlayByGameCode(gameCode: string) returns (vos: seq<GamePlay>)
      requires Valid()
      ensures vos == PlaysOfGame(plays, gameCode, nextId)
      ensures forall p :: p in vos <==> p in plays.Values && p.gameCode == gameCode
    {
      var gamePlays := PlaysOfGame(plays, gameCode, nextId);
      vos := [];
      for i := 0 to |gamePlays|
        invariant vos == gamePlays[..i]
      {
        vos := vos + [gamePlays[i]];
      }
      assert gamePlays[..|gamePlays|] == gamePlays;
      forall p
        ensures p in vos <==> p in plays.Values && p.gameCode == gameCode
      {
        CatalogProps.PlaysOfGameMembers(State(), gameCode, p);
      }
    }

    /** The view of one play with its rules (GamePlayVO with numLocates). */
    function Details(gamePlay: GamePlay): (d: GamePlayDetails)
      reads this
      ensures d.gamePlay == gamePlay
      ensures Valid() ==> forall n :: n in d.numLocates <==> n in rules.Values && n.gamePlayId == gamePlay.id
    {
      var d := GamePlayDetails(gamePlay, RulesOfPlay(rules, gamePlay.id, nextId));
      assert Valid() ==> forall n :: n in d.numLocates <==> n in rules.Values && n.gamePlayId == gamePlay.id by {
        if Valid() {
          forall n
            ensures n in d.numLocates <==> n in rules.Values && n.gamePlayId == gamePlay.id
          {
            CatalogProps.RulesOfPlayMembers(State(), gamePlay.id, n);
          }
        }
      }
      d
    }

    /** findGamePlayAndNumLocateByGameCode: the plays of a game, each with its rules. */
    method FindGamePlayAndNumLocateByGameCode(gameCode: string) returns (vos: seq<GamePlayDetails>)
      requires Valid()
      ensures |vos| == |PlaysOfGame(plays, gameCode, nextId)|
      ensures forall i :: 0 <= i < |vos| ==> vos[i] == Details(PlaysOfGame(plays, gameCode, nextId)[i])
      ensures forall p :: p in plays.Values && p.gameCode == gameCode <==>
                exists i :: 0 <= i < |vos| && vos[i].gamePlay == p
    {
      var gamePlays := PlaysOfGame(plays, gameCode, nextId);
      vos := [];
      for i := 0 to |gamePlays|
        invariant |vos| == i
        invariant forall j :: 0 <= j < i ==> vos[j] == Details(gamePlays[j])
      {
        vos := vos + [Details(gamePlays[i])];
      }
      forall p
        ensures p in plays.Values && p.gameCode == gameCode <==>
                exists i :: 0 <= i < |vos| && vos[i].gamePlay == p
      {
        CatalogProps.PlaysOfGameMembers(State(), gameCode, p);
        if p in gamePlays {
          var i :| 0 <= i < |gamePlays| && gamePlays[i] == p;
          assert vos[i].gamePlay == p;
        }
      }
    }

    /** findGamePlayDetailsById: one play with its rules, or NotFound. */
    method FindGamePlayDetailsById(id: Id) returns (r: Result<GamePlayDetails>)
      requires Valid()
      ensures r.Ok? <==> id in plays
      ensures r.Ok? ==> r.value.gamePlay == plays[id]
      ensures r.Ok? ==> forall n :: n in r.value.numLocates <==> n in rules.Values && n.gamePlayId == id
      ensures r.Err? ==> r.error == NotFound
    {
      if id !in plays {
        return Err(NotFound);
      }
      r := Ok(Details(plays[id]));
    }

    /** updateGamePlayState. */
    method UpdateGamePlayState(id: Id, state: string) returns (outcome: Outcome)
      requires Valid()
      modifies this
      ensures Valid()
      ensures outcome == OutcomeOf(Catalog.UpdateGamePlayState(old(State()), id, state))
      ensures State() == Committed(Catalog.UpdateGamePlayState(old(State()), id, state), old(State()))
    {
      if id !in plays {
        return Fail(NotFound);
      }
      var gamePlay := plays[id];
      plays := plays[id := gamePlay.(state := state)];
      return Done;
    }

    /** delGamePlayById: the play's rules, then the play. A missing play rolls
        the whole call back. */
    method DelGamePlayById(id: Id) returns (outcome: Outcome)
      requires Valid()
      modifies this
      ensures Valid()
      ensures outcome == OutcomeOf(Catalog.DelGamePlayById(old(State()), id))
      ensures State() == Committed(Catalog.DelGamePlayById(old(State()), id), old(State()))
    {
      if id !in plays {
        return Fail(NotFound);
      }
      rules := DropRules(rules, {id});
      plays := plays - {id};
      return Done;
    }

    /** delGameById: for each play of the game its rules, then the plays, then the game. */
    method DelGameById(id: Id) returns (outcome: Outcome)
      requires Valid()
      modifies this
      ensures Valid()
      ensures outcome == OutcomeOf(Catalog.DelGameById(old(State()), id))
      ensures State() == Committed(Catalog.DelGameById(old(State()), id), old(State()))
    {
      if id !in games {
        return Fail(NotFound);
      }
      ghost var t := State();
      var game := games[id];
      var gamePlays := PlaysOfGame(plays, game.gameCode, nextId);
      for i := 0 to |gamePlays|
        invariant games == t.games && plays == t.plays && nextId == t.nextId
        invariant rules == DropRules(t.rules, IdsOf(gamePlays[..i]))
      {
        DropRulesStep(t.rules, gamePlays, i);
        rules := DropRules(rules, {gamePlays[i].id});
      }
      assert gamePlays[..|gamePlays|] == gamePlays;
      DelGameByIdDeletes(t, id);
      plays := plays - IdsOf(gamePlays);
      games := games - {id};
      return Done;
    }

    /** The NumLocate loop: one new rule per payload, owned by `gamePlayId`. */
    method SaveNumLocates(gamePlayId: Id, attrs: seq<string>)
      requires KeysBelow(rules, nextId)
      modifies this
      ensures State() == SaveRules(old(State()), gamePlayId, attrs)
    {
      ghost var target := SaveRules(State(), gamePlayId, attrs);
      for j := 0 to |attrs|
        invariant KeysBelow(rules, nextId)
        invariant SaveRules(State(), gamePlayId, attrs[j..]) == target
      {
        SaveRulesStep(State(), gamePlayId, attrs, j);
        var id := NewId();
        rules := rules[id := NumLocate(id, gamePlayId, attrs[j])];
      }
    }

    /** The body of the copy loop for a source the target game lacks: the play
        is saved again under a fresh id and the target's gameCode, then each of
        its rules under a fresh id and the new play's id. */
    method CopyOnePlay(gameCode: string, gamePlay: GamePlay)
      requires KeysBelow(rules, nextId)
      modifies this
      ensures State() == CopyPlay(old(State()), gameCode, gamePlay)
    {
      var newId := NewId();
      var newGamePlay := gamePlay.(id := newId, gameCode := gameCode);
      plays := plays[newId := newGamePlay];
      var numLocates := RulesOfPlay(rules, gamePlay.id, nextId);
      var attrs := RuleAttrs(numLocates);
      SaveNumLocates(newId, attrs);
    }

    /** copyGamePlay(game, copyGameCode). */
    method CopyGamePlay(gameCode: string, copyGameCode: string)
      requires Valid()
      modifies this
      ensures Valid()
      ensures State() == Catalog.CopyGamePlay(old(State()), gameCode, copyGameCode)
    {
      if IsBlank(copyGameCode) {
        return;
      }
      var gamePlays := PlaysOfGame(plays, copyGameCode, nextId);
      ghost var target := CopyPlays(State(), gameCode, gamePlays);
      for i := 0 to |gamePlays|
        invariant Valid()
        invariant CopyPlays(State(), gameCode, gamePlays[i..]) == target
      {
        var gamePlay := gamePlays[i];
        if PlayCodeHeldByOther(plays, gameCode, gamePlay.gamePlayCode, None) {
          CopyPlaysSkips(State(), gameCode, gamePlays, i);
          continue;
        }
        CopyPlaysCopies(State(), gameCode, gamePlays, i);
        CopyOnePlay(gameCode, gamePlay);
      }
      assert gamePlays[|gamePlays|..] == [];
    }

    /** addOrUpdateGame: create (blank id) or update a game, then clone the
        plays of `copyGameCode` onto it. */
    method AddOrUpdateGame(p: GameParam) returns (outcome: Outcome)
      requires Valid()
      modifies this
      ensures Valid()
      ensures outcome == OutcomeOf(Catalog.AddOrUpdateGame(old(State()), p))
      ensures State() == Committed(Catalog.AddOrUpdateGame(old(State()), p), old(State()))
    {
      ghost var t := State();
      var game: Game;
      match p.id {
        case None =>
          if GameCodeHeldByOther(games, p.gameCode, None) {
            return Fail(GameCodeExists);
          }
          var id := NewId();
          game := ToGame(p, id);
        case Some(id) =>
          if GameCodeHeldByOther(games, p.gameCode, Some(id)) {
            return Fail(GameCodeExists);
          }
          if id !in games {
            return Fail(NotFound);
          }
          game := ToGame(p, id);
      }
      games := games[game.id := game];
      assert State() == PutGame(t, p);
      CopyGamePlay(game.gameCode, p.copyGameCode);
      return Done;
    }

    /** addOrUpdateGamePlay: create (blank id) or update a play; on update its
        old rules are deleted first; then one rule per numLocates entry. */
    method AddOrUpdateGamePlay(p: GamePlayParam) returns (outcome: Outcome)
      requires Valid()
      modifies this
      ensures Valid()
      ensures outcome == OutcomeOf(Catalog.AddOrUpdateGamePlay(old(State()), p))
      ensures State() == Committed(Catalog.AddOrUpdateGamePlay(old(State()), p), old(State()))
    {
      ghost var t := State();
      var gamePlay: GamePlay;
      match p.id {
        case None =>
          if PlayCodeHeldByOther(plays, p.gameCode, p.gamePlayCode, None) {
            return Fail(GamePlayCodeExists);
          }
          var id := NewId();
          gamePlay := ToGamePlay(p, id);
          plays := plays[id := gamePlay];
        case Some(id) =>
          if PlayCodeHeldByOther(plays, p.gameCode, p.gamePlayCode, Some(id)) {
            return Fail(GamePlayCodeExists);
          }
          if id !in plays {
            return Fail(NotFound);
          }
          rules := DropRules(rules, {id});
          gamePlay := ToGamePlay(p, id);
          plays := plays[id := gamePlay];
      }
      ghost var spec := SaveRules(State(), gamePlay.id, ParamAttrs(p.numLocates));
      assert Catalog.AddOrUpdateGamePlay(t, p) == Ok(spec);
      if |p.numLocates| == 0 {
        assert State() == spec;
        return Done;
      }
      SaveNumLocates(gamePlay.id, ParamAttrs(p.numLocates));
      return Done;
    }
  }

  /** One turn of the NumLocate loop saves the next payload under the next id. */
  lemma SaveRulesStep(t: Tables, gamePlayId: Id, attrs: seq<string>, j: nat)
    requires KeysBelow(t.rules, t.nextId) && j < |attrs|
    ensures SaveRules(t, gamePlayId, attrs[j..])
         == SaveRules(Tables(t.games, t.plays, t.rules[t.nextId := NumLocate(t.nextId, gamePlayId, attrs[j])], t.nextId + 1),
                      gamePlayId, attrs[j + 1..])
  {
    assert attrs[j..][1..] == attrs[j + 1..];
  }

  /** Dropping the rules of one more play of a list extends the dropped prefix. */
  lemma DropRulesStep(rules: map<Id, NumLocate>, ps: seq<GamePlay>, i: nat)
    requires i < |ps|
    ensures DropRules(DropRules(rules, IdsOf(ps[..i])), {ps[i].id}) == DropRules(rules, IdsOf(ps[..i + 1]))
  {
    assert ps[..i + 1] == ps[..i] + [ps[i]];
    assert IdsOf(ps[..i + 1]) == IdsOf(ps[..i]) + {ps[i].id};
  }

  /** delGameById deletes the plays its finder returns and their rules. */
  lemma DelGameByIdDeletes(t: Tables, id: Id)
    requires Catalog.Valid(t) && id in t.games
    ensures var ps := PlaysOfGame(t.plays, t.games[id].gameCode, t.nextId);
      Catalog.DelGameById(t, id)
      == Ok(t.(games := t.games - {id}, plays := t.plays - IdsOf(ps), rules := DropRules(t.rules, IdsOf(ps))))
  {
    var ps := PlaysOfGame(t.plays, t.games[id].gameCode, t.nextId);
    var gamePlayIds := set k | k in t.plays && t.plays[k].gameCode == t.games[id].gameCode;
    PlaysOfGameIds(t, t.games[id].gameCode);
    assert IdsOf(ps) == gamePlayIds;
    assert DropRules(t.rules, IdsOf(ps)) == DropRules(t.rules, gamePlayIds);
  }

  /** A turn of the copy loop whose source the target game already has changes nothing. */
  lemma CopyPlaysSkips(t: Tables, gameCode: string, sources: seq<GamePlay>, i: nat)
    requires Catalog.Valid(t) && i < |sources|
    requires PlayCodeHeldByOther(t.plays, gameCode, sources[i].gamePlayCode, None)
    ensures CopyPlays(t, gameCode, sources[i..]) == CopyPlays(t, gameCode, sources[i + 1..])
  {
    assert sources[i..][1..] == sources[i + 1..];
  }

  /** Any other turn copies its source, and the rest of the loop goes on from there. */
  lemma CopyPlaysCopies(t: Tables, gameCode: string, sources: seq<GamePlay>, i: nat)
    requires Catalog.Valid(t) && i < |sources|
    requires !PlayCodeHeldByOther(t.plays, gameCode, sources[i].gamePlayCode, None)
    ensures Catalog.Valid(CopyPlay(t, gameCode, sources[i]))
    ensures CopyPlays(t, gameCode, sources[i..]) == CopyPlays(CopyPlay(t, gameCode, sources[i]), gameCode, sources[i + 1..])
  {
    CopyPlayKeeps(t, gameCode, sources[i]);
    assert sources[i..][1..] == sources[i + 1..];
  }

  /** The ids of a game's plays are exactly the keys of the plays carrying its code. */
  lemma PlaysOfGameIds(t: Tables, gameCode: string)
    requires Catalog.Valid(t)
    ensures IdsOf(PlaysOfGame(t.plays, gameCode, t.nextId))
         == set k | k in t.plays && t.plays[k].gameCode == gameCode
  {
    var ps := PlaysOfGame(t.plays, gameCode, t.nextId);
    forall k | k in t.plays && t.plays[k].gameCode == gameCode
      ensures k in IdsOf(ps)
    {
      CatalogProps.PlaysOfGameMembers(t, gameCode, t.plays[k]);
    }
    forall k | k in IdsOf(ps)
      ensures k in t.plays && t.plays[k].gameCode == gameCode
    {
      var p :| p in ps && p.id == k;
      CatalogProps.PlaysOfGameMembers(t, gameCode, p);
    }
  }
}
