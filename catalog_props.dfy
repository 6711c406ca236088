/**
 * What the service promises about its tables, proved of the functions in
 * Catalog: the finders return exactly the matching rows, addOrUpdateGamePlay
 * replaces a play's rules wholesale, and copyGamePlay is additive,
 * idempotent and clones faithfully.
 */
module CatalogProps {
  import opened Domain
  import opened Repo
  import opened Catalog

  // ---------------------------------------------------------------- finders

  /** findByGameCodeOrderByOrderNo returns exactly the plays carrying the code. */
  lemma PlaysOfGameMembers(t: Tables, gameCode: string, p: GamePlay)
    requires Valid(t)
    ensures p in PlaysOfGame(t.plays, gameCode, t.nextId) <==> p in t.plays.Values && p.gameCode == gameCode
  {
    SelectMembers(t.plays, InGame(gameCode), t.nextId, p);
  }

  /** findByGamePlayId (and getNumLocates) returns exactly the rules of the play. */
  lemma RulesOfPlayMembers(t: Tables, gamePlayId: Id, r: NumLocate)
    requires Valid(t)
    ensures r in RulesOfPlay(t.rules, gamePlayId, t.nextId) <==> r in t.rules.Values && r.gamePlayId == gamePlayId
  {
    SelectMembers(t.rules, OwnedBy(gamePlayId), t.nextId, r);
  }

  /** findByStateOrderByOrderNo returns exactly the games in that state. */
  lemma GamesInStateMembers(t: Tables, state: string, g: Game)
    requires Valid(t)
    ensures g in GamesInState(t.games, state, t.nextId) <==> g in t.games.Values && g.state == state
  {
    SelectMembers(t.games, InState(state), t.nextId, g);
  }

  /** findAll returns every game. */
  lemma AllGamesMembers(t: Tables, g: Game)
    requires Valid(t)
    ensures g in AllGames(t.games, t.nextId) <==> g in t.games.Values
  {
    SelectMembers(t.games, (x: Game) => true, t.nextId, g);
  }

  /** A play that no rule refers to owns no rules. */
  lemma {:induction false} NoRulesOwned(rules: map<Id, NumLocate>, gamePlayId: Id, hi: nat)
    requires forall k :: k in rules ==> rules[k].gamePlayId != gamePlayId
    ensures RulesOfPlay(rules, gamePlayId, hi) == []
  {
    var s := RulesOfPlay(rules, gamePlayId, hi);
    if s != [] {
      SelectMembers(rules, OwnedBy(gamePlayId), hi, s[0]);
      assert false;
    }
  }

  /** The rules of a play are not affected by rows added with fresh keys for
      other plays. */
  lemma RulesOfPlayStable(t: Tables, r: Tables, gamePlayId: Id)
    requires KeysBelow(t.rules, t.nextId) && t.nextId <= r.nextId
    requires forall k :: k in t.rules ==> k in r.rules && r.rules[k] == t.rules[k]
    requires forall k :: k in r.rules && k !in t.rules ==> t.nextId <= k && r.rules[k].gamePlayId != gamePlayId
    ensures RulesOfPlay(r.rules, gamePlayId, r.nextId) == RulesOfPlay(t.rules, gamePlayId, t.nextId)
  {
    SelectStable(t.rules, r.rules, OwnedBy(gamePlayId), t.nextId, r.nextId);
  }

  // ------------------------------------------------------------- rule saves

  lemma RuleAttrsSnoc(rs: seq<NumLocate>, x: NumLocate)
    ensures RuleAttrs(rs + [x]) == RuleAttrs(rs) + [x.attrs]
  {
  }

  lemma ConsAppend(x: seq<string>, y: seq<string>, z: seq<string>, attrs: seq<string>)
    requires attrs != [] && x == y + attrs[1..] && y == z + [attrs[0]]
    ensures x == z + attrs
  {
    assert [attrs[0]] + attrs[1..] == attrs;
  }

  /** A rule saved under the next key is the last rule of its play. */
  lemma AddRuleOwned(rules: map<Id, NumLocate>, hi: nat, gamePlayId: Id, a: string)
    requires KeysBelow(rules, hi)
    ensures OwnedAttrs(rules[hi := NumLocate(hi, gamePlayId, a)], gamePlayId, hi + 1)
         == OwnedAttrs(rules, gamePlayId, hi) + [a]
  {
    var rule := NumLocate(hi, gamePlayId, a);
    SelectExtend(rules, OwnedBy(gamePlayId), hi, rule);
    assert OwnedBy(gamePlayId)(rule);
    assert RulesOfPlay(rules[hi := rule], gamePlayId, hi + 1) == RulesOfPlay(rules, gamePlayId, hi) + [rule];
    RuleAttrsSnoc(RulesOfPlay(rules, gamePlayId, hi), rule);
  }

  /** Saving rules for a play appends their payloads, in order, to what the
      play owned. */
  lemma {:induction false} SaveRulesOwned(t: Tables, gamePlayId: Id, attrs: seq<string>)
    requires KeysBelow(t.rules, t.nextId)
    ensures var r := SaveRules(t, gamePlayId, attrs);
      OwnedAttrs(r.rules, gamePlayId, r.nextId) == OwnedAttrs(t.rules, gamePlayId, t.nextId) + attrs
    decreases |attrs|
  {
    if attrs != [] {
      var id := t.nextId;
      var t1 := t.(rules := t.rules[id := NumLocate(id, gamePlayId, attrs[0])], nextId := id + 1);
      var r := SaveRules(t1, gamePlayId, attrs[1..]);
      assert r == SaveRules(t, gamePlayId, attrs);
      SaveRulesOwned(t1, gamePlayId, attrs[1..]);
      AddRuleOwned(t.rules, id, gamePlayId, attrs[0]);
      ConsAppend(OwnedAttrs(r.rules, gamePlayId, r.nextId), OwnedAttrs(t1.rules, gamePlayId, t1.nextId),
                 OwnedAttrs(t.rules, gamePlayId, t.nextId), attrs);
    }
  }

  /** Saving rules for a play leaves the rules of every other play as they were. */
  lemma SaveRulesOthers(t: Tables, gamePlayId: Id, attrs: seq<string>, q: Id)
    requires KeysBelow(t.rules, t.nextId) && q != gamePlayId
    ensures var r := SaveRules(t, gamePlayId, attrs);
      RulesOfPlay(r.rules, q, r.nextId) == RulesOfPlay(t.rules, q, t.nextId)
  {
    SaveRulesAdds(t, gamePlayId, attrs);
    RulesOfPlayStable(t, SaveRules(t, gamePlayId, attrs), q);
  }

  // ------------------------------------------------------ addOrUpdateGamePlay

  /** Saving rules for a play none of whose rules are left (a fresh play, or
      one whose rules were just deleted) makes them exactly the play's rules,
      and leaves the rules of every other play as they were. */
  lemma SaveRulesReplaces(t: Tables, t1: Tables, id: Id, attrs: seq<string>)
    requires KeysBelow(t.rules, t.nextId) && KeysBelow(t1.rules, t1.nextId) && t.nextId <= t1.nextId
    requires forall k :: k in t1.rules ==> k in t.rules && t1.rules[k] == t.rules[k]
    requires forall k :: k in t1.rules ==> t1.rules[k].gamePlayId != id
    requires forall k :: k in t.rules && k !in t1.rules ==> t.rules[k].gamePlayId == id
    ensures var r := SaveRules(t1, id, attrs);
      && OwnedAttrs(r.rules, id, r.nextId) == attrs
      && (forall k :: k in r.rules && r.rules[k].gamePlayId == id ==> k !in t.rules && t.nextId <= k)
      && (forall q :: q != id ==> RulesOfPlay(r.rules, q, r.nextId) == RulesOfPlay(t.rules, q, t.nextId))
  {
    var r := SaveRules(t1, id, attrs);
    SaveRulesAdds(t1, id, attrs);
    assert OwnedAttrs(t1.rules, id, t1.nextId) == [] by {
      NoRulesOwned(t1.rules, id, t1.nextId);
    }
    SaveRulesOwned(t1, id, attrs);
    forall q | q != id
      ensures RulesOfPlay(r.rules, q, r.nextId) == RulesOfPlay(t.rules, q, t.nextId)
    {
      SaveRulesOthers(t1, id, attrs, q);
      SelectIgnores(t.rules, t1.rules, OwnedBy(q), t1.nextId);
      SelectStable(t.rules, t.rules, OwnedBy(q), t.nextId, t1.nextId);
    }
  }

  /** After a successful addOrUpdateGamePlay the play owns exactly the rules
      converted from the parameter's numLocates, in order; its previous rules
      are gone and the rules of every other play are unchanged. */
  lemma AddOrUpdateGamePlayReplacesRules(t: Tables, p: GamePlayParam)
    requires Valid(t) && AddOrUpdateGamePlay(t, p).Ok?
    ensures var r := AddOrUpdateGamePlay(t, p).value; var id := SavedPlayId(t, p);
      && OwnedAttrs(r.rules, id, r.nextId) == ParamAttrs(p.numLocates)
      && (forall k :: k in r.rules && r.rules[k].gamePlayId == id ==> k !in t.rules && t.nextId <= k)
      && (forall q :: q != id ==> RulesOfPlay(r.rules, q, r.nextId) == RulesOfPlay(t.rules, q, t.nextId))
  {
    SaveRulesReplaces(t, PutPlay(t, p), SavedPlayId(t, p), ParamAttrs(p.numLocates));
  }

  /** Submitting the same update twice succeeds again and leaves the same play
      and the same rule payloads. */
  lemma AddOrUpdateGamePlayTwice(t: Tables, p: GamePlayParam)
    requires Valid(t) && p.id.Some? && AddOrUpdateGamePlay(t, p).Ok?
    ensures var r1 := AddOrUpdateGamePlay(t, p).value;
      var r2 := AddOrUpdateGamePlay(r1, p);
      && r2.Ok?
      && r2.value.games == r1.games && r2.value.plays == r1.plays
      && OwnedAttrs(r2.value.rules, p.id.value, r2.value.nextId) == OwnedAttrs(r1.rules, p.id.value, r1.nextId)
  {
    var r1 := AddOrUpdateGamePlay(t, p).value;
    var id := p.id.value;
    assert r1.plays[id] == ToGamePlay(p, id);
    assert !PlayCodeHeldByOther(r1.plays, p.gameCode, p.gamePlayCode, p.id);
    AddOrUpdateGamePlayReplacesRules(t, p);
    AddOrUpdateGamePlayReplacesRules(r1, p);
  }

  // ------------------------------------------------------------ copyGamePlay

  /** After copying, the target game has a play with every source's gamePlayCode. */
  lemma {:induction false} CopyPlaysCovers(t: Tables, gameCode: string, sources: seq<GamePlay>)
    requires Valid(t)
    ensures forall s :: s in sources ==>
      PlayCodeHeldByOther(CopyPlays(t, gameCode, sources).plays, gameCode, s.gamePlayCode, None)
    decreases |sources|
  {
    if sources != [] {
      var s0 := sources[0];
      var skip := PlayCodeHeldByOther(t.plays, gameCode, s0.gamePlayCode, None);
      var t1 := if skip then t else CopyPlay(t, gameCode, s0);
      if !skip {
        CopyPlayKeeps(t, gameCode, s0);
        assert t1.plays[t.nextId].gamePlayCode == s0.gamePlayCode;
      }
      var r := CopyPlays(t1, gameCode, sources[1..]);
      assert r == CopyPlays(t, gameCode, sources);
      CopyPlaysCovers(t1, gameCode, sources[1..]);
      assert PlayCodeHeldByOther(t1.plays, gameCode, s0.gamePlayCode, None);
      var k :| k in t1.plays && t1.plays[k].gameCode == gameCode && t1.plays[k].gamePlayCode == s0.gamePlayCode;
      assert r.plays[k] == t1.plays[k];
      forall s | s in sources
        ensures PlayCodeHeldByOther(r.plays, gameCode, s.gamePlayCode, None)
      {
        if s != s0 {
          assert s in sources[1..];
        }
      }
    }
  }

  /** When the target already has every source's gamePlayCode, copying changes nothing. */
  lemma {:induction false} CopyPlaysSkipsAll(t: Tables, gameCode: string, sources: seq<GamePlay>)
    requires Valid(t)
    requires forall s :: s in sources ==> PlayCodeHeldByOther(t.plays, gameCode, s.gamePlayCode, None)
    ensures CopyPlays(t, gameCode, sources) == t
    decreases |sources|
  {
    if sources != [] {
      assert sources[0] in sources;
      forall s | s in sources[1..]
        ensures PlayCodeHeldByOther(t.plays, gameCode, s.gamePlayCode, None)
      {
        assert s in sources;
      }
      CopyPlaysSkipsAll(t, gameCode, sources[1..]);
    }
  }

  /** copyGamePlay run a second time with the same arguments adds nothing. */
  lemma CopyGamePlayIdempotent(t: Tables, gameCode: string, copyGameCode: string)
    requires Valid(t)
    ensures var r := CopyGamePlay(t, gameCode, copyGameCode);
      CopyGamePlay(r, gameCode, copyGameCode) == r
  {
    if !IsBlank(copyGameCode) {
      var sources := PlaysOfGame(t.plays, copyGameCode, t.nextId);
      var r := CopyPlays(t, gameCode, sources);
      CopyPlaysCovers(t, gameCode, sources);
      var again := PlaysOfGame(r.plays, copyGameCode, r.nextId);
      forall s | s in again
        ensures PlayCodeHeldByOther(r.plays, gameCode, s.gamePlayCode, None)
      {
        PlaysOfGameMembers(r, copyGameCode, s);
        var k :| k in r.plays && r.plays[k] == s;
        if k in t.plays {
          PlaysOfGameMembers(t, copyGameCode, s);
        } else {
          assert r.plays[k].gameCode == gameCode;
        }
      }
      CopyPlaysSkipsAll(r, gameCode, again);
    }
  }

  /** Play `k` of `r` is a clone of `source`, a play of `t` whose gamePlayCode
      the target game did not have in `t`: same columns except the id and the
      gameCode, and rules carrying the same payloads, in the same order. */
  ghost predicate ClonedFrom(t: Tables, r: Tables, k: Id, gameCode: string, source: GamePlay)
  {
    && source.id in t.plays && t.plays[source.id] == source
    && !PlayCodeHeldByOther(t.plays, gameCode, source.gamePlayCode, None)
    && k in r.plays && r.plays[k] == source.(id := k, gameCode := gameCode)
    && OwnedAttrs(r.rules, k, r.nextId) == OwnedAttrs(t.rules, source.id, t.nextId)
  }

  /** Saving the rules of a source play for a new play that owns nothing yet
      gives the new play the same rule payloads, in the same order. */
  lemma SaveCopiedRules(t: Tables, t1: Tables, sourceId: Id)
    requires KeysBelow(t.rules, t.nextId) && t1.rules == t.rules && t1.nextId == t.nextId + 1
    requires forall j :: j in t.rules ==> t.rules[j].gamePlayId != t.nextId
    ensures var r := SaveRules(t1, t.nextId, OwnedAttrs(t.rules, sourceId, t1.nextId));
      OwnedAttrs(r.rules, t.nextId, r.nextId) == OwnedAttrs(t.rules, sourceId, t.nextId)
  {
    NoRulesOwned(t1.rules, t.nextId, t1.nextId);
    SaveRulesOwned(t1, t.nextId, OwnedAttrs(t.rules, sourceId, t1.nextId));
    RulesOfPlayStable(t, t1, sourceId);
  }

  /** One non-skipped iteration makes a clone under the next id. */
  lemma CopyPlayClones(t: Tables, gameCode: string, source: GamePlay)
    requires Valid(t) && !PlayCodeHeldByOther(t.plays, gameCode, source.gamePlayCode, None)
    requires source.id in t.plays && t.plays[source.id] == source
    ensures ClonedFrom(t, CopyPlay(t, gameCode, source), t.nextId, gameCode, source)
  {
    var t1 := Tables(t.games, t.plays[t.nextId := source.(id := t.nextId, gameCode := gameCode)], t.rules, t.nextId + 1);
    assert forall j :: j in t.rules ==> t.rules[j].gamePlayId != t.nextId by {
      forall j | j in t.rules ensures t.rules[j].gamePlayId != t.nextId {
        assert t.rules[j].gamePlayId in t.plays;
      }
    }
    SaveCopiedRules(t, t1, source.id);
  }

  /** A clone stays a clone while later steps only extend the tables. */
  lemma ClonedFromLater(t: Tables, t1: Tables, r: Tables, k: Id, gameCode: string, source: GamePlay)
    requires ClonedFrom(t, t1, k, gameCode, source) && Extends(t1, r)
    ensures ClonedFrom(t, r, k, gameCode, source)
  {
    RulesOfPlayStable(t1, r, k);
  }

  /** A clone made from intermediate tables `t1` is a clone made from `t` when
      `t1` only extends `t` and the source is already a play of `t`. */
  lemma ClonedFromEarlier(t: Tables, t1: Tables, r: Tables, k: Id, gameCode: string, source: GamePlay)
    requires ClonedFrom(t1, r, k, gameCode, source) && Extends(t, t1)
    requires source.id in t.plays && t.plays[source.id] == source
    ensures ClonedFrom(t, r, k, gameCode, source)
  {
    RulesOfPlayStable(t, t1, source.id);
  }

  /** Every play `r` has and `t` lacks is a clone of one of `sources`. */
  ghost predicate AllCloned(t: Tables, r: Tables, gameCode: string, sources: seq<GamePlay>)
  {
    forall k :: k in r.plays && k !in t.plays ==> exists s :: s in sources && ClonedFrom(t, r, k, gameCode, s)
  }

  /** One turn of the copy loop keeps every added play a clone: the play it
      adds (if any) clones the first source, and the later ones clone the rest. */
  lemma AllClonedStep(t: Tables, t1: Tables, r: Tables, gameCode: string, sources: seq<GamePlay>)
    requires sources != [] && AllCloned(t1, r, gameCode, sources[1..])
    requires Extends(t, t1) && Extends(t1, r)
    requires forall s :: s in sources ==> s.id in t.plays && t.plays[s.id] == s
    requires t1 == t || (ClonedFrom(t, t1, t.nextId, gameCode, sources[0])
                        && forall k :: k in t1.plays ==> k in t.plays || k == t.nextId)
    ensures AllCloned(t, r, gameCode, sources)
  {
    forall k | k in r.plays && k !in t.plays
      ensures exists s :: s in sources && ClonedFrom(t, r, k, gameCode, s)
    {
      if k in t1.plays {
        assert sources[0] in sources;
        ClonedFromLater(t, t1, r, k, gameCode, sources[0]);
      } else {
        var s :| s in sources[1..] && ClonedFrom(t1, r, k, gameCode, s);
        assert s in sources;
        ClonedFromEarlier(t, t1, r, k, gameCode, s);
      }
    }
  }

  /** Every play the copy loop adds is a clone of one of its sources. */
  lemma {:induction false} CopyPlaysClones(t: Tables, gameCode: string, sources: seq<GamePlay>)
    requires Valid(t)
    requires forall s :: s in sources ==> s.id in t.plays && t.plays[s.id] == s
    ensures AllCloned(t, CopyPlays(t, gameCode, sources), gameCode, sources)
    decreases |sources|
  {
    if sources != [] {
      var s0 := sources[0];
      var skip := PlayCodeHeldByOther(t.plays, gameCode, s0.gamePlayCode, None);
      var t1 := if skip then t else CopyPlay(t, gameCode, s0);
      if !skip {
        CopyPlayKeeps(t, gameCode, s0);
      }
      var r := CopyPlays(t1, gameCode, sources[1..]);
      assert r == CopyPlays(t, gameCode, sources);
      forall s | s in sources[1..] ensures s.id in t1.plays && t1.plays[s.id] == s {
        assert s in sources;
      }
      CopyPlaysClones(t1, gameCode, sources[1..]);
      if !skip {
        assert s0 in sources;
        CopyPlayClones(t, gameCode, s0);
      }
      AllClonedStep(t, t1, r, gameCode, sources);
    }
  }

  /** copyGamePlay adds, under the target gameCode, a clone of each play of the
      source game whose gamePlayCode the target lacked, and nothing else: every
      new play is such a clone, every source gamePlayCode is present under the
      target afterwards, and every new rule belongs to a new play. */
  lemma CopyGamePlayClones(t: Tables, gameCode: string, copyGameCode: string)
    requires Valid(t) && !IsBlank(copyGameCode)
    ensures var r := CopyGamePlay(t, gameCode, copyGameCode);
      && (forall k :: k in r.plays && k !in t.plays ==>
            exists s :: s in t.plays.Values && s.gameCode == copyGameCode && ClonedFrom(t, r, k, gameCode, s))
      && (forall s :: s in t.plays.Values && s.gameCode == copyGameCode ==>
            PlayCodeHeldByOther(r.plays, gameCode, s.gamePlayCode, None))
      && (forall k :: k in r.rules && k !in t.rules ==>
            t.nextId <= k && r.rules[k].gamePlayId in r.plays && r.rules[k].gamePlayId !in t.plays)
  {
    var sources := PlaysOfGame(t.plays, copyGameCode, t.nextId);
    var r := CopyPlays(t, gameCode, sources);
    forall s | s in sources ensures s.id in t.plays && t.plays[s.id] == s && s.gameCode == copyGameCode {
      PlaysOfGameMembers(t, copyGameCode, s);
    }
    CopyPlaysClones(t, gameCode, sources);
    CopyPlaysCovers(t, gameCode, sources);
    forall s | s in t.plays.Values && s.gameCode == copyGameCode
      ensures PlayCodeHeldByOther(r.plays, gameCode, s.gamePlayCode, None)
    {
      PlaysOfGameMembers(t, copyGameCode, s);
    }
  }

  /** addOrUpdateGame with a copyGameCode adds nothing but copyGamePlay's
      clones: every new play clones a play of the `copyGameCode` game that the
      saved game lacked, every such play's gamePlayCode is present under the
      saved game afterwards, and every new rule belongs to a new play. */
  lemma AddOrUpdateGameCopies(t: Tables, p: GameParam)
    requires Valid(t) && AddOrUpdateGame(t, p).Ok? && !IsBlank(p.copyGameCode)
    ensures var r := AddOrUpdateGame(t, p).value;
      && (forall k :: k in r.plays && k !in t.plays ==>
            exists s :: s in t.plays.Values && s.gameCode == p.copyGameCode && ClonedFrom(t, r, k, p.gameCode, s))
      && (forall s :: s in t.plays.Values && s.gameCode == p.copyGameCode ==>
            PlayCodeHeldByOther(r.plays, p.gameCode, s.gamePlayCode, None))
      && (forall k :: k in r.rules && k !in t.rules ==>
            t.nextId <= k && r.rules[k].gamePlayId in r.plays && r.rules[k].gamePlayId !in t.plays)
  {
    var t1 := PutGame(t, p);
    var r := CopyGamePlay(t1, p.gameCode, p.copyGameCode);
    CopyGamePlayClones(t1, p.gameCode, p.copyGameCode);
    forall k | k in r.plays && k !in t.plays
      ensures exists s :: s in t.plays.Values && s.gameCode == p.copyGameCode && ClonedFrom(t, r, k, p.gameCode, s)
    {
      var s :| s in t1.plays.Values && s.gameCode == p.copyGameCode && ClonedFrom(t1, r, k, p.gameCode, s);
      RulesOfPlayStable(t, t1, s.id);
      assert ClonedFrom(t, r, k, p.gameCode, s);
    }
  }
}
