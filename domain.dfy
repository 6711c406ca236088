/**
 * The records of the lottery game catalogue (game.domain and game.param):
 * games, game plays (bet modes) and number-locate rules, the parameter
 * objects the administration API hands to the service, and its errors.
 */
module Domain {

  /** Primary keys. The source uses generated strings; here they are the
      values of a counter (see GameService.nextId), so "fresh" is "not below". */
  type Id = nat

  datatype Option<T> = None | Some(value: T)

  /** A game. `attrs` stands for the descriptive columns the service never
      inspects (name, icon, ...), copied as a whole. */
  datatype Game = Game(id: Id, gameCode: string, state: string, orderNo: int, attrs: string)

  /** A game play, tied to its game by `gameCode` (not by the game's id). */
  datatype GamePlay = GamePlay(
    id: Id, gameCode: string, gamePlayCode: string, state: string, orderNo: int, attrs: string)

  /** A number-locate rule, tied to its play by the play's id. */
  datatype NumLocate = NumLocate(id: Id, gamePlayId: Id, attrs: string)

  /** GameParam: a blank id means "create". `copyGameCode` names the game
      whose plays are cloned onto this one (blank: no cloning). */
  datatype GameParam = GameParam(
    id: Option<Id>, gameCode: string, state: string, orderNo: int, attrs: string,
    copyGameCode: string)

  datatype NumLocateParam = NumLocateParam(attrs: string)

  datatype GamePlayParam = GamePlayParam(
    id: Option<Id>, gameCode: string, gamePlayCode: string, state: string, orderNo: int,
    attrs: string, numLocates: seq<NumLocateParam>)

  /** A play with its rules, as the detail finders return it (GamePlayVO with numLocates). */
  datatype GamePlayDetails = GamePlayDetails(gamePlay: GamePlay, numLocates: seq<NumLocate>)

  /** The business errors the service raises (BizError), and the failure of
      a lookup by id on a row that is not there. */
  datatype Error = GameCodeExists | GamePlayCodeExists | NotFound

  datatype Result<T> = Ok(value: T) | Err(error: Error)

  /** What a mutating service call reports: it returns normally or throws. */
  datatype Outcome = Done | Fail(error: Error)

  function OutcomeOf<T>(r: Result<T>): Outcome
  {
    match r
    case Ok(_) => Done
    case Err(e) => Fail(e)
  }

  /** The game state that findAllOpenGame selects ("enabled"). */
  const GameStateEnabled: string := "1"

  /** The characters StrUtil.isBlank treats as blank (hutool's CharUtil.isBlankChar):
      Java's Character.isWhitespace or isSpaceChar with Java 8 character data
      (controls U+0009-U+000D and U+001C-U+001F, the Zs space separators, U+2028,
      U+2029), plus BOM, U+202A, NUL, U+3164 and U+2800. */
  predicate IsBlankChar(c: char)
  {
    || ('\U{0009}' <= c <= '\U{000D}') || ('\U{001C}' <= c <= '\U{001F}') || c == ' '
    || c == '\U{00A0}' || c == '\U{1680}' || c == '\U{180E}' || ('\U{2000}' <= c <= '\U{200A}')
    || c == '\U{2028}' || c == '\U{2029}' || c == '\U{202F}' || c == '\U{205F}' || c == '\U{3000}'
    || c == '\U{FEFF}' || c == '\U{202A}' || c == '\U{0000}' || c == '\U{3164}' || c == '\U{2800}'
  }

  /** StrUtil.isBlank: empty (or null) or made only of blank characters. */
  predicate IsBlank(s: string)
  {
    forall i :: 0 <= i < |s| ==> IsBlankChar(s[i])
  }

  /** GameParam.convertToPo / BeanUtils.copyProperties onto a game with key `id`. */
  function ToGame(p: GameParam, id: Id): Game
  {
    Game(id, p.gameCode, p.state, p.orderNo, p.attrs)
  }

  /** GamePlayParam.convertToPo / BeanUtils.copyProperties onto a play with key `id`. */
  function ToGamePlay(p: GamePlayParam, id: Id): GamePlay
  {
    GamePlay(id, p.gameCode, p.gamePlayCode, p.state, p.orderNo, p.attrs)
  }

  /** The payloads of a list of rule parameters, in order. */
  function ParamAttrs(ps: seq<NumLocateParam>): (r: seq<string>)
    ensures |r| == |ps|
    ensures forall i :: 0 <= i < |ps| ==> r[i] == ps[i].attrs
  {
    if ps == [] then [] else [ps[0].attrs] + ParamAttrs(ps[1..])
  }

  /** The payloads of a list of rules, in order. */
  function RuleAttrs(rs: seq<NumLocate>): (r: seq<string>)
    ensures |r| == |rs|
    ensures forall i :: 0 <= i < |rs| ==> r[i] == rs[i].attrs
  {
    seq(|rs|, i requires 0 <= i < |rs| => rs[i].attrs)
  }
}
