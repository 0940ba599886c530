/**
 * The server's handlers as the source runs them: one registry object shared
 * by every connection, and one object per connection holding the code of
 * the game it created. Each handler changes the registry step by step and
 * is proved to end in the state the matching transition of Sessions gives.
 *
 * A handler's local `game` is the game object it looked up; it is kept as a
 * value here, and each change to it is written back to the registry entry
 * under its code while that entry exists (Registry.Update).
 */
module Server {
  import opened GameModel
  import opened Scoring
  import opened Sessions

  /** The process-wide `games` object, and the events sent out so far. */
  class Registry {
    var games: map<string, Game>
    var outbox: seq<Event>

    function State(): World
      reads this
    {
      World(games, outbox)
    }

    predicate Valid()
      reads this
    {
      ValidGames(games)
    }

    constructor ()
      ensures games == map[] && outbox == [] && Valid()
    {
      games := map[];
      outbox := [];
    }

    /** `socket.send`: one message to one connection. */
    method SendTo(to: ConnId, m: Message)
      modifies this
      ensures games == old(games) && outbox == old(outbox) + [Send(to, m)]
    {
      outbox := outbox + [Send(to, m)];
    }

    /** The same message to every slot, in slot order (the `forEach` over the players). */
    method SendAll(ps: seq<Player>, m: Message)
      modifies this
      ensures games == old(games) && outbox == old(outbox) + Broadcast(ps, m)
    {
      var i := 0;
      while i < |ps|
        invariant 0 <= i <= |ps|
        invariant games == old(games) && outbox == old(outbox) + Broadcast(ps[..i], m)
      {
        assert Broadcast(ps[..i + 1], m) == Broadcast(ps[..i], m) + [Send(ps[i].conn, m)];
        SendTo(ps[i].conn, m);
        i := i + 1;
      }
      assert ps[..i] == ps;
    }

    /** A change to the game object registered under `code`, visible only while the entry exists. */
    method Update(code: string, g: Game)
      modifies this
      ensures games == WriteBack(old(games), code, g) && outbox == old(outbox)
    {
      if code in games {
        games := games[code := g];
      }
    }

    /** `delete games[code]`. */
    method Remove(code: string)
      modifies this
      ensures games == old(games) - {code} && outbox == old(outbox)
    {
      games := games - {code};
    }

    /** `setTimeout(() => startNextRound(game), 2000)`: the round start is scheduled, not run. */
    method Schedule(code: string)
      modifies this
      ensures games == old(games) && outbox == old(outbox) + [NextRoundScheduled(code)]
    {
      outbox := outbox + [NextRoundScheduled(code)];
    }
  }

  /** One client connection: its socket's id and the code of the game it created, if any. */
  class Connection {
    const id: ConnId
    const server: Registry
    var gameCode: Option<string>

    constructor (id: ConnId, server: Registry)
      ensures this.id == id && this.server == server && gameCode == None
    {
      this.id := id;
      this.server := server;
      gameCode := None;
    }

    /** `handleCreateGame`, with `freshCode` standing for the generated code. */
    method HandleCreateGame(username: string, freshCode: string)
      requires server.Valid()
      modifies this, server
      ensures server.Valid()
      ensures gameCode == Some(freshCode)
      ensures server.State() == CreateGame(old(server.State()), id, username, freshCode)
    {
      gameCode := Some(freshCode);
      server.games := server.games[freshCode := NewGame(username, id)];
      server.SendTo(id, GameCodeMsg(freshCode));
    }

    /** `handleJoinGame`: the joiner becomes slot 2 of a game with a free slot. */
    method HandleJoinGame(code: string, username: string)
      requires server.Valid()
      modifies server
      ensures server.Valid()
      ensures server.State() == JoinGame(old(server.State()), id, code, username)
    {
      JoinOutcome(server.State(), id, code, username);
      if code in server.games && |server.games[code].players| < 2 {
        var g := server.games[code];
        g := g.(players := g.players + [Player(username, id, 0, None)]);
        server.games := server.games[code := g];
        ghost var before := server.outbox;
        var i := 0;
        while i < |g.players|
          invariant 0 <= i <= |g.players|
          invariant server.games == old(server.games)[code := g]
          invariant server.outbox == before + StartEvents(g.players)[..i]
        {
          assert StartEvents(g.players)[..i + 1] == StartEvents(g.players)[..i] + [StartEvents(g.players)[i]];
          server.SendTo(g.players[i].conn, StartMsg(i + 1, g.players[Opponent(i)].username));
          i := i + 1;
        }
        assert StartEvents(g.players)[..i] == StartEvents(g.players);
        g := StartNextRound(code, g);
      }
    }

    /** `startNextRound`: clears every slot's number and the timeout flag, then announces the round. */
    method StartNextRound(code: string, g: Game) returns (g': Game)
      modifies server
      ensures g' == ClearRound(g)
      ensures server.State() == NextRound(old(server.State()), code, g)
    {
      var ps := g.players;
      var i := 0;
      while i < |ps|
        invariant 0 <= i <= |ps| && |ps| == |g.players|
        invariant forall j :: 0 <= j < i ==> ps[j] == g.players[j].(number := None)
        invariant forall j :: i <= j < |ps| ==> ps[j] == g.players[j]
      {
        ps := ps[i := ps[i].(number := None)];
        i := i + 1;
      }
      g' := g.(players := ps, isTimeout := false);
      assert g'.players == ClearRound(g).players;
      server.Update(code, g');
      server.SendAll(g'.players, RoundStartMsg);
    }

    /** The scheduled `startNextRound` of a game that is still registered. */
    method RunScheduledRound(code: string)
      requires server.Valid()
      modifies server
      ensures server.Valid()
      ensures server.State() == ScheduledRound(old(server.State()), code)
    {
      ScheduledRoundPreservesValid(server.State(), code);
      if code in server.games {
        var _ := StartNextRound(code, server.games[code]);
      }
    }

    /**
     * `checkGameOver`: announces the slot opposite the first loser and deletes
     * this connection's own game, or changes nothing.
     */
    method CheckGameOver(g: Game) returns (over: bool)
      requires GameOverDefined(g.players)
      modifies server
      ensures var c := GameOverCheck(old(server.State()), gameCode, g);
        over == c.over && server.State() == c.world
    {
      var loser := LoserIndex(g.players);
      if loser == -1 {
        return false;
      }
      var winner := g.players[Opponent(loser)].username;
      server.SendAll(g.players, GameOverMsg(winner));
      if gameCode.Some? {
        server.Remove(gameCode.value);
      }
      return true;
    }

    /** The `forEach` that takes a point from every masked slot and runs `checkGameOver` after each. */
    method PenalizeWhere(code: string, g: Game, mask: seq<bool>) returns (g': Game)
      requires |mask| == |g.players| && LoneSafe(g.players, mask, 0)
      modifies server
      ensures var p := PenalizeFrom(old(server.State()), gameCode, code, g, mask, 0);
        g' == p.game && server.State() == p.world
    {
      g' := g;
      var i := 0;
      while i < |g'.players|
        invariant i <= |g'.players| && |g'.players| == |mask|
        invariant LoneSafe(g'.players, mask, i)
        invariant PenalizeFrom(server.State(), gameCode, code, g', mask, i)
               == PenalizeFrom(old(server.State()), gameCode, code, g, mask, 0)
        decreases |g'.players| - i
      {
        if mask[i] {
          PenalizeStep(server.State(), gameCode, code, g', mask, i);
          g' := DecScoreAt(g', i);
          server.Update(code, g');
          var _ := CheckGameOver(g');
        } else {
          SkipStep(server.State(), gameCode, code, g', mask, i);
        }
        i := i + 1;
      }
    }

    /** Reports the scores with `report`, then schedules the next round unless the game is over. */
    method ReportAndFinish(code: string, g: Game, report: Message)
      requires GameOverDefined(g.players)
      modifies server
      ensures server.State() == Finish(old(server.State()).(log := old(server.State()).log + Broadcast(g.players, report)), gameCode, code, g)
    {
      server.SendAll(g.players, report);
      var over := CheckGameOver(g);
      if !over {
        server.Schedule(code);
      }
    }

    /** `handleTimeout`: raises the flag, penalises every slot without a number, reports the scores. */
    method HandleTimeout(code: string)
      requires server.Valid()
      requires code in server.games ==> TimeoutSafe(server.games[code])
      modifies server
      ensures server.Valid()
      ensures server.State() == FireTimeout(old(server.State()), gameCode, code)
    {
      TimeoutPreservesValid(server.State(), gameCode, code);
      if code !in server.games {
        return;
      }
      var g := server.games[code].(isTimeout := true);
      server.games := server.games[code := g];
      g := PenalizeWhere(code, g, UnsubmittedMask(g.players));
      ReportAndFinish(code, g, TimeoutMsg(Scores(g.players)));
    }

    /** `calculateResult`: unless the timeout flag is up, every slot but the winner loses a point. */
    method CalculateResult(code: string)
      requires code in server.games && AllSubmitted(server.games[code].players)
      requires GameOverDefined(server.games[code].players)
      modifies server
      ensures server.State() == Resolve(old(server.State()), gameCode, code)
    {
      var g := server.games[code];
      if g.isTimeout {
        return;
      }
      var numbers := Numbers(g.players);
      var winnerIndex := WinnerIndex(numbers);
      if winnerIndex != -1 {
        g := PenalizeWhere(code, g, NotWinnerMask(|g.players|, winnerIndex));
      } else {
        assert |g.players| == 0;
        assert PenalizeFrom(server.State(), gameCode, code, g, NotWinnerMask(0, -1), 0) == Penalty(server.State(), g);
      }
      ReportAndFinish(code, g, ResultReport(numbers, Scores(g.players)));
    }

    /** `handleNumberSubmission`: stores the number and resolves the round once all slots have one. */
    method HandleNumberSubmission(code: string, playerNumber: int, number: int)
      requires server.Valid()
      requires code in server.games ==> 1 <= playerNumber <= |server.games[code].players|
      modifies server
      ensures server.Valid()
      ensures server.State() == SubmitNumber(old(server.State()), gameCode, code, playerNumber, number)
    {
      SubmissionPreservesValid(server.State(), gameCode, code, playerNumber, number);
      if code !in server.games {
        return;
      }
      var g := SetNumber(server.games[code], playerNumber - 1, number);
      server.games := server.games[code := g];
      if AllSubmitted(g.players) && !g.isTimeout {
        CalculateResult(code);
      }
    }

    /** The `close` handler: deletes this connection's own game when its code is non-empty and registered. */
    method OnClose()
      requires server.Valid()
      modifies server
      ensures server.Valid()
      ensures server.State() == CloseConnection(old(server.State()), gameCode)
    {
      if gameCode.Some? && gameCode.value != "" && gameCode.value in server.games {
        server.Remove(gameCode.value);
      }
    }

    /** The `message` handler: dispatches on the message's type. */
    method OnMessage(m: Inbound, freshCode: string)
      requires server.Valid() && Handled(server.State(), m)
      modifies this, server
      ensures server.Valid()
      ensures (server.State(), gameCode) == Step(old(server.State()), id, old(gameCode), m, freshCode)
    {
      match m
      case Create(username) => HandleCreateGame(username, freshCode);
      case Join(code, username) => HandleJoinGame(code, username);
      case Number(code, n, x) => HandleNumberSubmission(code, n, x);
      case Timeout(code) => HandleTimeout(code);
      case Other =>
    }
  }
}
