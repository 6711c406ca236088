/**
 * The three Spring Data repositories (GameRepo, GamePlayRepo, NumLocateRepo)
 * as in-memory tables keyed by id. A finder that returns a list is `Select`:
 * the rows whose key is below a bound and that satisfy a filter, in
 * ascending key order (the orderNo sort of the source is not modelled).
 */
module Repo {
  import opened Domain

  /** The rows of `m` with key below `hi` that satisfy `keep`, by ascending key. */
  function Select<T>(m: map<Id, T>, keep: T -> bool, hi: nat): (r: seq<T>)
    ensures |r| <= hi
    ensures forall i :: 0 <= i < |r| ==> keep(r[i])
  {
    if hi == 0 then []
    else Select(m, keep, hi - 1) + (if hi - 1 in m && keep(m[hi - 1]) then [m[hi - 1]] else [])
  }

  /** The filters of the finders below. */
  function InGame(gameCode: string): GamePlay -> bool
  {
    (p: GamePlay) => p.gameCode == gameCode
  }

  function OwnedBy(gamePlayId: Id): NumLocate -> bool
  {
    (r: NumLocate) => r.gamePlayId == gamePlayId
  }

  function InState(state: string): Game -> bool
  {
    (g: Game) => g.state == state
  }

  /** findByGameCodeOrderByOrderNo. */
  function PlaysOfGame(plays: map<Id, GamePlay>, gameCode: string, hi: nat): seq<GamePlay>
  {
    Select(plays, InGame(gameCode), hi)
  }

  /** findByGamePlayId, and the lazily loaded GamePlay.getNumLocates(). */
  function RulesOfPlay(rules: map<Id, NumLocate>, gamePlayId: Id, hi: nat): seq<NumLocate>
  {
    Select(rules, OwnedBy(gamePlayId), hi)
  }

  /** findAll. */
  function AllGames(games: map<Id, Game>, hi: nat): seq<Game>
  {
    Select(games, (g: Game) => true, hi)
  }

  /** findByStateOrderByOrderNo. */
  function GamesInState(games: map<Id, Game>, state: string, hi: nat): seq<Game>
  {
    Select(games, InState(state), hi)
  }

  /** The payloads of the rules a play owns, in key order. */
  function OwnedAttrs(rules: map<Id, NumLocate>, gamePlayId: Id, hi: nat): seq<string>
  {
    RuleAttrs(RulesOfPlay(rules, gamePlayId, hi))
  }

  /** Does a game other than `self` hold `gameCode`? (findByGameCode and the id test
      of addOrUpdateGame; `self` is None on create.) */
  predicate GameCodeHeldByOther(games: map<Id, Game>, gameCode: string, self: Option<Id>)
  {
    exists k :: k in games && games[k].gameCode == gameCode && Some(k) != self
  }

  /** Does a play other than `self` hold (gameCode, gamePlayCode)?
      (findByGameCodeAndGamePlayCode and the id test of addOrUpdateGamePlay.) */
  predicate PlayCodeHeldByOther(
    plays: map<Id, GamePlay>, gameCode: string, gamePlayCode: string, self: Option<Id>)
  {
    exists k :: k in plays && plays[k].gameCode == gameCode && plays[k].gamePlayCode == gamePlayCode
                && Some(k) != self
  }

  predicate KeysBelow<T>(m: map<Id, T>, hi: nat)
  {
    forall k :: k in m ==> k < hi
  }

  /** A row is selected exactly when it is stored under a key below the bound
      and passes the filter. */
  lemma {:induction false} SelectMembers<T>(m: map<Id, T>, keep: T -> bool, hi: nat, x: T)
    ensures x in Select(m, keep, hi) <==> exists k :: k < hi && k in m && m[k] == x && keep(x)
  {
    if hi > 0 {
      SelectMembers(m, keep, hi - 1, x);
      var tail := if hi - 1 in m && keep(m[hi - 1]) then [m[hi - 1]] else [];
      assert Select(m, keep, hi) == Select(m, keep, hi - 1) + tail;
      if x in Select(m, keep, hi) && x !in Select(m, keep, hi - 1) {
        assert x in tail;
      }
    }
  }

  /** Selection only looks at keys below the bound: tables that agree there
      select the same rows. */
  lemma {:induction false} SelectAgrees<T>(m: map<Id, T>, m': map<Id, T>, keep: T -> bool, hi: nat)
    requires forall k :: k < hi ==> (k in m <==> k in m')
    requires forall k :: k < hi && k in m ==> m'[k] == m[k]
    ensures Select(m', keep, hi) == Select(m, keep, hi)
  {
    if hi > 0 {
      SelectAgrees(m, m', keep, hi - 1);
    }
  }

  /** A table that only gains rows at or above `hi`, none of them passing the
      filter, selects what it selected before. */
  lemma {:induction false} SelectStable<T>(m: map<Id, T>, m': map<Id, T>, keep: T -> bool, hi: nat, hi': nat)
    requires hi <= hi' && KeysBelow(m, hi)
    requires forall k :: k in m ==> k in m' && m'[k] == m[k]
    requires forall k :: k in m' && k !in m ==> hi <= k && !keep(m'[k])
    ensures Select(m', keep, hi') == Select(m, keep, hi)
  {
    if hi' == hi {
      SelectAgrees(m, m', keep, hi);
    } else {
      SelectStable(m, m', keep, hi, hi' - 1);
    }
  }

  /** Dropping rows that fail the filter does not change the selection. */
  lemma {:induction false} SelectIgnores<T>(m: map<Id, T>, m': map<Id, T>, keep: T -> bool, hi: nat)
    requires forall k :: k in m' ==> k in m && m'[k] == m[k]
    requires forall k :: k in m && k !in m' ==> !keep(m[k])
    ensures Select(m', keep, hi) == Select(m, keep, hi)
  {
    if hi > 0 {
      SelectIgnores(m, m', keep, hi - 1);
    }
  }

  /** Appending a row under the next key appends it to the selection when it passes. */
  lemma SelectExtend<T>(m: map<Id, T>, keep: T -> bool, hi: nat, v: T)
    requires KeysBelow(m, hi)
    ensures Select(m[hi := v], keep, hi + 1)
         == Select(m, keep, hi) + (if keep(v) then [v] else [])
  {
    SelectAgrees(m, m[hi := v], keep, hi);
  }
}
