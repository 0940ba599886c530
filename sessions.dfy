/**
 * The registry of games and the handlers over it, as transition functions on
 * a World: the registry (code to game) and the log of every event produced.
 *
 * A handler works on the game object it looked up. Each change to that object
 * is visible through the registry only while the code still maps to it, which
 * WriteBack captures: after `checkGameOver` has deleted the entry, later
 * changes reach nobody. `checkGameOver` deletes the entry of the connection's
 * OWN code (the code it created), not the code of the game it checks.
 */
module Sessions {
  import opened GameModel
  import opened Scoring

  datatype World = World(games: map<string, Game>, log: seq<Event>)

  /** What `checkGameOver` answers, and the World after it. */
  datatype Checked = Checked(over: bool, world: World)

  /** The World after a penalty loop, and the game object in its final state. */
  datatype Penalty = Penalty(world: World, game: Game)

  /** A change to the game object under `code`, seen through the registry only if the entry is still there. */
  function WriteBack(games: map<string, Game>, code: string, g: Game): map<string, Game>
  {
    if code in games then games[code := g] else games
  }

  /** `delete games[gameCode]` with the connection's own code; without one nothing is removed. */
  function Drop(games: map<string, Game>, own: Option<string>): map<string, Game>
  {
    if own.Some? then games - {own.value} else games
  }

  /** `handleCreateGame`: registers a one-slot game under the fresh code and tells the creator the code. */
  function CreateGame(w: World, conn: ConnId, username: string, code: string): (r: World)
    ensures r.games.Keys == w.games.Keys + {code}
    ensures |r.games[code].players| == 1 && r.games[code].players[0] == Player(username, conn, 0, None)
    ensures !r.games[code].isTimeout && r.games[code].round == 0
    ensures forall c :: c in w.games && c != code ==> r.games[c] == w.games[c]
    ensures r.log == w.log + [Send(conn, GameCodeMsg(code))]
  {
    World(w.games[code := NewGame(username, conn)], w.log + [Send(conn, GameCodeMsg(code))])
  }

  /** `startNextRound`: clears the numbers and the timeout flag and tells every slot a round starts. */
  function NextRound(w: World, code: string, g: Game): World
  {
    var g' := ClearRound(g);
    World(WriteBack(w.games, code, g'), w.log + Broadcast(g'.players, RoundStartMsg))
  }

  /** `handleJoinGame`: a game with a free slot takes the joiner as slot 2, announces the start and opens a round. */
  function JoinGame(w: World, conn: ConnId, code: string, username: string): World
    requires ValidGames(w.games)
  {
    if code in w.games && |w.games[code].players| < 2 then
      var g := w.games[code];
      var g1 := g.(players := g.players + [Player(username, conn, 0, None)]);
      NextRound(World(w.games[code := g1], w.log + StartEvents(g1.players)), code, g1)
    else
      w
  }

  /**
   * `checkGameOver`: true exactly when some score is at or below the losing
   * score; then every slot is told the name of the slot opposite the first
   * loser, and the connection's own game leaves the registry.
   */
  function GameOverCheck(w: World, own: Option<string>, g: Game): (r: Checked)
    requires GameOverDefined(g.players)
    ensures r.over == HasLoser(g.players)
    ensures r.over ==> r.world.games == Drop(w.games, own)
    ensures r.world.log == w.log + Announcement(g.players)
    ensures !r.over ==> r.world == w
  {
    var loser := LoserIndex(g.players);
    if loser == -1 then Checked(false, w)
    else Checked(true, World(Drop(w.games, own), w.log + Broadcast(g.players, GameOverMsg(g.players[Opponent(loser)].username))))
  }

  /** What `checkGameOver` sends: the winner's name to every slot when some slot lost, else nothing. */
  function Announcement(ps: seq<Player>): seq<Event>
    requires GameOverDefined(ps)
  {
    if HasLoser(ps) then Broadcast(ps, GameOverMsg(WinnerName(ps))) else []
  }

  /** The check reports the end exactly when some slot is at or below the losing score. */
  lemma GameOverIffSomeoneAtLosingScore(w: World, own: Option<string>, g: Game)
    requires GameOverDefined(g.players)
    ensures GameOverCheck(w, own, g).over <==> exists i :: 0 <= i < |g.players| && g.players[i].score <= LosingScore
  {
  }

  /** A lone slot must stay above the losing score through the penalties from index `i` on. */
  predicate LoneSafe(ps: seq<Player>, mask: seq<bool>, i: nat)
  {
    |ps| == 1 ==> ps[0].score - (if i == 0 && 0 < |mask| && mask[0] then 1 else 0) > LosingScore
  }

  /**
   * The `forEach` that takes a point from every masked slot from index `i`
   * on and runs `checkGameOver` after each one.
   */
  function PenalizeFrom(w: World, own: Option<string>, code: string, g: Game, mask: seq<bool>, i: nat): (r: Penalty)
    requires |mask| == |g.players| && i <= |g.players|
    requires LoneSafe(g.players, mask, i)
    ensures |r.game.players| == |g.players| && r.game.isTimeout == g.isTimeout && r.game.round == g.round
    ensures |g.players| == 1 ==> r.game.players[0].score == g.players[0].score - (if i == 0 && mask[0] then 1 else 0)
    ensures GameOverDefined(r.game.players)
    decreases |g.players| - i
  {
    if i == |g.players| then Penalty(w, g)
    else if mask[i] then
      var g1 := DecScoreAt(g, i);
      PenalizeFrom(GameOverCheck(w.(games := WriteBack(w.games, code, g1)), own, g1).world, own, code, g1, mask, i + 1)
    else
      PenalizeFrom(w, own, code, g, mask, i + 1)
  }

  /**
   * What the penalty loop from index `i` sends: after each masked slot's
   * point, the check's announcement for the slots as they then stand.
   */
  function LoopAnnouncements(ps: seq<Player>, mask: seq<bool>, i: nat): (r: seq<Event>)
    requires |mask| == |ps| && i <= |ps| && LoneSafe(ps, mask, i)
    ensures OnlyGameOvers(r)
    decreases |ps| - i
  {
    if i == |ps| then []
    else if mask[i] then
      var ps1 := ps[i := DecScore(ps[i])];
      Announcement(ps1) + LoopAnnouncements(ps1, mask, i + 1)
    else
      LoopAnnouncements(ps, mask, i + 1)
  }

  /** What follows the report: the game-over announcement, or else the next round's scheduling. */
  function Tail(code: string, g: Game): seq<Event>
    requires GameOverDefined(g.players)
  {
    if HasLoser(g.players) then Broadcast(g.players, GameOverMsg(WinnerName(g.players)))
    else [NextRoundScheduled(code)]
  }

  /** `if (!checkGameOver(game)) setTimeout(() => startNextRound(game), 2000)`. */
  function Finish(w: World, own: Option<string>, code: string, g: Game): (r: World)
    requires GameOverDefined(g.players)
    ensures r.games == if HasLoser(g.players) then Drop(w.games, own) else w.games
    ensures r.log == w.log + Tail(code, g)
  {
    var c := GameOverCheck(w, own, g);
    if c.over then c.world else c.world.(log := c.world.log + [NextRoundScheduled(code)])
  }

  /**
   * The end of a round, shared by the timeout and the result: penalise the
   * masked slots, report the new scores to every slot, then check for the end.
   */
  function Settle(w: World, own: Option<string>, code: string, g: Game, mask: seq<bool>, report: seq<int> -> Message): World
    requires |mask| == |g.players| && LoneSafe(g.players, mask, 0)
  {
    var p := PenalizeFrom(w, own, code, g, mask, 0);
    Finish(p.world.(log := p.world.log + Broadcast(p.game.players, report(Scores(p.game.players)))), own, code, p.game)
  }

  /** A timeout must not leave a lone slot at the losing score (announcing its winner would read a missing slot). */
  predicate TimeoutSafe(g: Game)
  {
    LoneSafe(g.players, UnsubmittedMask(g.players), 0)
  }

  /** `handleTimeout`: raises the flag, penalises every slot without a number, reports the scores. */
  function FireTimeout(w: World, own: Option<string>, code: string): World
    requires code in w.games ==> TimeoutSafe(w.games[code])
  {
    if code !in w.games then w
    else
      var g := w.games[code].(isTimeout := true);
      Settle(World(w.games[code := g], w.log), own, code, g, UnsubmittedMask(g.players), s => TimeoutMsg(s))
  }

  /** Every slot's number as the result reports it, and the winner from the distances to the target. */
  function ResultReport(numbers: seq<int>, scores: seq<int>): Message
  {
    ResultMsg(numbers, AverageTimes2(numbers), TargetTimes5(numbers), WinnerIndex(numbers) + 1, scores)
  }

  /** `calculateResult`: unless the timeout flag is up, every slot but the winner loses a point. */
  function Resolve(w: World, own: Option<string>, code: string): World
    requires code in w.games && AllSubmitted(w.games[code].players) && GameOverDefined(w.games[code].players)
  {
    var g := w.games[code];
    if g.isTimeout then w
    else
      var numbers := Numbers(g.players);
      Settle(w, own, code, g, NotWinnerMask(|g.players|, WinnerIndex(numbers)), s => ResultReport(numbers, s))
  }

  /** `handleNumberSubmission`: stores the number, and resolves the round once every slot has one and no timeout fired. */
  function SubmitNumber(w: World, own: Option<string>, code: string, playerNumber: int, number: int): World
    requires ValidGames(w.games)
    requires code in w.games ==> 1 <= playerNumber <= |w.games[code].players|
  {
    if code !in w.games then w
    else
      var g := SetNumber(w.games[code], playerNumber - 1, number);
      var w1 := w.(games := w.games[code := g]);
      if AllSubmitted(g.players) && !g.isTimeout then Resolve(w1, own, code) else w1
  }

  /** The `close` handler: removes the connection's own game, when it has a non-empty code that is registered. */
  function CloseConnection(w: World, own: Option<string>): (r: World)
    ensures r.log == w.log
    ensures r.games.Keys <= w.games.Keys
    ensures forall c :: c in r.games ==> r.games[c] == w.games[c]
    ensures forall c :: c in w.games && Some(c) != own ==> c in r.games
    ensures own.Some? && own.value != "" ==> own.value !in r.games
    ensures own.None? || own == Some("") ==> r == w
  {
    if own.Some? && own.value != "" && own.value in w.games then w.(games := w.games - {own.value})
    else w
  }

  /** The delayed `startNextRound` of a game that is still registered. */
  function ScheduledRound(w: World, code: string): World
  {
    if code in w.games then NextRound(w, code, w.games[code]) else w
  }

  /** Inbound messages, by their `type`; a message of any other type is ignored. */
  datatype Inbound =
    | Create(username: string)
    | Join(gameCode: string, username: string)
    | Number(gameCode: string, playerNumber: int, number: int)
    | Timeout(gameCode: string)
    | Other

  /** What the handlers need of a message in order not to throw. */
  predicate Handled(w: World, m: Inbound)
  {
    match m
    case Number(code, n, _) => code in w.games ==> 1 <= n <= |w.games[code].players|
    case Timeout(code) => code in w.games ==> TimeoutSafe(w.games[code])
    case _ => true
  }

  /**
   * One inbound message on connection `conn`, whose own code is `own`; a
   * `create` takes `freshCode` as its code. Gives the new World and own code.
   */
  function Step(w: World, conn: ConnId, own: Option<string>, m: Inbound, freshCode: string): (World, Option<string>)
    requires ValidGames(w.games) && Handled(w, m)
  {
    match m
    case Create(username) => (CreateGame(w, conn, username, freshCode), Some(freshCode))
    case Join(code, username) => (JoinGame(w, conn, code, username), own)
    case Number(code, n, x) => (SubmitNumber(w, own, code, n, x), own)
    case Timeout(code) => (FireTimeout(w, own, code), own)
    case Other => (w, own)
  }

  // ---------------------------------------------------------------------------
  // The end of a round in closed form

  /** Some slot from index `i` on is to be penalised. */
  predicate MaskedFrom(mask: seq<bool>, i: nat)
  {
    exists j :: i <= j < |mask| && mask[j]
  }

  /** Every event is a game-over announcement. */
  predicate OnlyGameOvers(events: seq<Event>)
  {
    forall k :: 0 <= k < |events| ==> events[k].Send? && events[k].msg.GameOverMsg?
  }

  /**
   * The registry algebra of one penalty step followed by the rest of the loop:
   * `over` is the step's check, `laterMasked` says the rest penalises someone,
   * `loserAtEnd` that the final game has a loser.
   */
  lemma CombineRegistry(games: map<string, Game>, own: Option<string>, code: string, g1: Game, g': Game,
                        over: bool, laterMasked: bool, loserAtEnd: bool)
    requires over ==> loserAtEnd
    requires !laterMasked ==> g' == g1 && loserAtEnd == over
    ensures var mid := if over then Drop(WriteBack(games, code, g1), own) else WriteBack(games, code, g1);
      (if loserAtEnd && laterMasked then Drop(WriteBack(mid, code, g'), own) else WriteBack(mid, code, g'))
      == (if loserAtEnd then Drop(WriteBack(games, code, g'), own) else WriteBack(games, code, g'))
  {
  }

  /** A loop whose remaining mask is clear leaves the game object as it is. */
  lemma UnmaskedRestKeepsGame(w: World, own: Option<string>, code: string, g: Game, mask: seq<bool>, i: nat)
    requires |mask| == |g.players| && i <= |g.players| && LoneSafe(g.players, mask, i)
    requires !MaskedFrom(mask, i)
    ensures PenalizeFrom(w, own, code, g, mask, i).game == g
  {
    var g' := PenalizeFrom(w, own, code, g, mask, i).game;
    PenalizeGame(w, own, code, g, mask, i);
    assert forall j :: 0 <= j < |g.players| ==> g'.players[j] == g.players[j] by {
      forall j | 0 <= j < |g.players| ensures g'.players[j] == g.players[j] {
        if i <= j && mask[j] {
          assert MaskedFrom(mask, i);
        }
      }
    }
    assert g'.players == g.players;
  }

  /** One turn of the penalty loop on a masked slot: a point off, then the check. */
  lemma PenalizeStep(w: World, own: Option<string>, code: string, g: Game, mask: seq<bool>, i: nat)
    requires |mask| == |g.players| && i < |g.players| && LoneSafe(g.players, mask, i) && mask[i]
    ensures LoneSafe(DecScoreAt(g, i).players, mask, i + 1)
    ensures var g1 := DecScoreAt(g, i);
      PenalizeFrom(w, own, code, g, mask, i)
      == PenalizeFrom(GameOverCheck(w.(games := WriteBack(w.games, code, g1)), own, g1).world, own, code, g1, mask, i + 1)
  {
  }

  /** One turn of the penalty loop on an unmasked slot changes nothing. */
  lemma SkipStep(w: World, own: Option<string>, code: string, g: Game, mask: seq<bool>, i: nat)
    requires |mask| == |g.players| && i < |g.players| && LoneSafe(g.players, mask, i) && !mask[i]
    ensures LoneSafe(g.players, mask, i + 1)
    ensures PenalizeFrom(w, own, code, g, mask, i) == PenalizeFrom(w, own, code, g, mask, i + 1)
  {
  }

  /** The loop takes exactly one point from every masked slot from index `i` on, and changes nothing else in the game. */
  lemma {:induction false} PenalizeGame(w: World, own: Option<string>, code: string, g: Game, mask: seq<bool>, i: nat)
    requires |mask| == |g.players| && i <= |g.players| && LoneSafe(g.players, mask, i)
    ensures var r := PenalizeFrom(w, own, code, g, mask, i).game;
      forall j :: 0 <= j < |g.players| ==>
        r.players[j] == if i <= j && mask[j] then DecScore(g.players[j]) else g.players[j]
    decreases |g.players| - i
  {
    if i == |g.players| {
    } else if mask[i] {
      var g1 := DecScoreAt(g, i);
      var c := GameOverCheck(w.(games := WriteBack(w.games, code, g1)), own, g1);
      PenalizeStep(w, own, code, g, mask, i);
      PenalizeGame(c.world, own, code, g1, mask, i + 1);
    } else {
      SkipStep(w, own, code, g, mask, i);
      PenalizeGame(w, own, code, g, mask, i + 1);
    }
  }

  /** A slot at or below the losing score stays there through the rest of the loop. */
  lemma LoserSurvivesLoop(w: World, own: Option<string>, code: string, g: Game, mask: seq<bool>, i: nat)
    requires |mask| == |g.players| && i <= |g.players| && LoneSafe(g.players, mask, i)
    ensures HasLoser(g.players) ==> HasLoser(PenalizeFrom(w, own, code, g, mask, i).game.players)
  {
    if HasLoser(g.players) {
      PenalizeGame(w, own, code, g, mask, i);
      LoserPersists(g.players, PenalizeFrom(w, own, code, g, mask, i).game.players);
    }
  }

  /** The registry claim of the loop from index `i`, as PenalizeRegistry states it. */
  predicate RegistryAfterLoop(w: World, own: Option<string>, code: string, g: Game, mask: seq<bool>, i: nat)
    requires |mask| == |g.players| && i <= |g.players| && LoneSafe(g.players, mask, i)
  {
    var p := PenalizeFrom(w, own, code, g, mask, i);
    p.world.games == if HasLoser(p.game.players) && MaskedFrom(mask, i) then Drop(WriteBack(w.games, code, p.game), own)
                     else WriteBack(w.games, code, p.game)
  }

  /** The registry claim carries back over a turn on a masked slot. */
  lemma RegistryMaskedStep(w: World, own: Option<string>, code: string, g: Game, mask: seq<bool>, i: nat)
    requires |mask| == |g.players| && i < |g.players| && LoneSafe(g.players, mask, i) && mask[i]
    requires var g1 := DecScoreAt(g, i);
      LoneSafe(g1.players, mask, i + 1)
      && RegistryAfterLoop(GameOverCheck(w.(games := WriteBack(w.games, code, g1)), own, g1).world, own, code, g1, mask, i + 1)
    ensures RegistryAfterLoop(w, own, code, g, mask, i)
  {
    var g1 := DecScoreAt(g, i);
    var c := GameOverCheck(w.(games := WriteBack(w.games, code, g1)), own, g1);
    PenalizeStep(w, own, code, g, mask, i);
    var p := PenalizeFrom(c.world, own, code, g1, mask, i + 1);
    assert MaskedFrom(mask, i);
    if c.over {
      LoserSurvivesLoop(c.world, own, code, g1, mask, i + 1);
    }
    if !MaskedFrom(mask, i + 1) {
      UnmaskedRestKeepsGame(c.world, own, code, g1, mask, i + 1);
    }
    CombineRegistry(w.games, own, code, g1, p.game, c.over, MaskedFrom(mask, i + 1), HasLoser(p.game.players));
  }

  /**
   * The registry after the penalty loop: the game in its final state where the
   * entry survives, and the connection's own entry gone when a check inside the
   * loop found a loser.
   */
  lemma {:induction false} PenalizeRegistry(w: World, own: Option<string>, code: string, g: Game, mask: seq<bool>, i: nat)
    requires |mask| == |g.players| && i <= |g.players| && LoneSafe(g.players, mask, i)
    requires code in w.games ==> w.games[code] == g
    ensures var p := PenalizeFrom(w, own, code, g, mask, i);
      p.world.games == if HasLoser(p.game.players) && MaskedFrom(mask, i) then Drop(WriteBack(w.games, code, p.game), own)
                       else WriteBack(w.games, code, p.game)
    decreases |g.players| - i
  {
    if i == |g.players| {
      assert !MaskedFrom(mask, i);
    } else if mask[i] {
      var g1 := DecScoreAt(g, i);
      var c := GameOverCheck(w.(games := WriteBack(w.games, code, g1)), own, g1);
      PenalizeStep(w, own, code, g, mask, i);
      PenalizeRegistry(c.world, own, code, g1, mask, i + 1);
      RegistryMaskedStep(w, own, code, g, mask, i);
    } else {
      SkipStep(w, own, code, g, mask, i);
      PenalizeRegistry(w, own, code, g, mask, i + 1);
      assert MaskedFrom(mask, i) == MaskedFrom(mask, i + 1) by {
        if MaskedFrom(mask, i) {
          var j :| i <= j < |mask| && mask[j];
          assert j != i;
        }
      }
    }
  }

  /** The penalty loop appends to the log exactly the announcements of its checks. */
  lemma {:induction false} PenalizeLog(w: World, own: Option<string>, code: string, g: Game, mask: seq<bool>, i: nat)
    requires |mask| == |g.players| && i <= |g.players| && LoneSafe(g.players, mask, i)
    ensures PenalizeFrom(w, own, code, g, mask, i).world.log == w.log + LoopAnnouncements(g.players, mask, i)
    decreases |g.players| - i
  {
    if i == |g.players| {
    } else if mask[i] {
      var g1 := DecScoreAt(g, i);
      var c := GameOverCheck(w.(games := WriteBack(w.games, code, g1)), own, g1);
      PenalizeStep(w, own, code, g, mask, i);
      PenalizeLog(c.world, own, code, g1, mask, i + 1);
      assert w.log + Announcement(g1.players) + LoopAnnouncements(g1.players, mask, i + 1)
          == w.log + (Announcement(g1.players) + LoopAnnouncements(g1.players, mask, i + 1));
    } else {
      SkipStep(w, own, code, g, mask, i);
      PenalizeLog(w, own, code, g, mask, i + 1);
    }
  }

  /** A loop that leaves no slot at or below the losing score announces nothing. */
  lemma {:induction false} QuietLoop(w: World, own: Option<string>, code: string, g: Game, mask: seq<bool>, i: nat)
    requires |mask| == |g.players| && i <= |g.players| && LoneSafe(g.players, mask, i)
    requires !HasLoser(PenalizeFrom(w, own, code, g, mask, i).game.players)
    ensures LoopAnnouncements(g.players, mask, i) == []
    decreases |g.players| - i
  {
    if i == |g.players| {
    } else if mask[i] {
      var g1 := DecScoreAt(g, i);
      var c := GameOverCheck(w.(games := WriteBack(w.games, code, g1)), own, g1);
      PenalizeStep(w, own, code, g, mask, i);
      LoserSurvivesLoop(c.world, own, code, g1, mask, i + 1);
      QuietLoop(c.world, own, code, g1, mask, i + 1);
    } else {
      SkipStep(w, own, code, g, mask, i);
      QuietLoop(w, own, code, g, mask, i + 1);
    }
  }

  /**
   * The end of a round in closed form: each masked slot lost exactly one
   * point; the registry holds the final game where the entry survives and lacks
   * the connection's own game when a loser exists; the log gains the loop's
   * announcements (none without a loser), then the report of the final scores
   * to every slot, then the game-over announcement or the next round's
   * scheduling.
   */
  lemma SettleOutcome(w: World, own: Option<string>, code: string, g: Game, mask: seq<bool>, report: seq<int> -> Message)
    requires |mask| == |g.players| && LoneSafe(g.players, mask, 0)
    requires code in w.games && w.games[code] == g
    ensures GameOverDefined(Penalized(g.players, mask))
    ensures var g' := g.(players := Penalized(g.players, mask));
      var r := Settle(w, own, code, g, mask, report);
      && r.games == (if HasLoser(g'.players) then Drop(w.games[code := g'], own) else w.games[code := g'])
      && r.log == w.log + LoopAnnouncements(g.players, mask, 0) + Broadcast(g'.players, report(Scores(g'.players))) + Tail(code, g')
      && (!HasLoser(g'.players) ==> LoopAnnouncements(g.players, mask, 0) == [])
  {
    var p := PenalizeFrom(w, own, code, g, mask, 0);
    var g' := g.(players := Penalized(g.players, mask));
    PenalizeGame(w, own, code, g, mask, 0);
    assert p.game.players == g'.players;
    PenalizeRegistry(w, own, code, g, mask, 0);
    PenalizeLog(w, own, code, g, mask, 0);
    if !HasLoser(g'.players) {
      QuietLoop(w, own, code, g, mask, 0);
    } else {
      var once := Drop(w.games[code := g'], own);
      assert Drop(once, own) == once;
    }
  }

  // ---------------------------------------------------------------------------
  // The handlers' properties

  /**
   * A timeout raises the flag and takes one point from exactly the slots
   * without a number; a slot that submitted keeps its number and score. The
   * loop's game-over announcements come before the scores, and there are none
   * when nobody reached the losing score.
   */
  lemma TimeoutOutcome(w: World, own: Option<string>, code: string)
    requires ValidGames(w.games) && code in w.games && TimeoutSafe(w.games[code])
    ensures var g := w.games[code];
      var g' := g.(isTimeout := true, players := Penalized(g.players, UnsubmittedMask(g.players)));
      var r := FireTimeout(w, own, code);
      && g'.isTimeout
      && |g'.players| == |g.players|
      && (forall j :: 0 <= j < |g.players| ==>
            && g'.players[j].score == g.players[j].score - (if g.players[j].number.None? then 1 else 0)
            && g'.players[j].number == g.players[j].number
            && g'.players[j].username == g.players[j].username)
      && GameOverDefined(g'.players)
      && r.games == (if HasLoser(g'.players) then Drop(w.games[code := g'], own) else w.games[code := g'])
      && r.log == w.log + LoopAnnouncements(g.players, UnsubmittedMask(g.players), 0)
           + Broadcast(g'.players, TimeoutMsg(Scores(g'.players))) + Tail(code, g')
      && (!HasLoser(g'.players) ==>
            r.log == w.log + Broadcast(g'.players, TimeoutMsg(Scores(g'.players))) + [NextRoundScheduled(code)])
  {
    var g := w.games[code];
    var gt := g.(isTimeout := true);
    var w0 := World(w.games[code := gt], w.log);
    var mask := UnsubmittedMask(gt.players);
    SettleOutcome(w0, own, code, gt, mask, s => TimeoutMsg(s));
    var g' := gt.(players := Penalized(gt.players, mask));
    assert w0.games[code := g'] == w.games[code := g'];
    var r := FireTimeout(w, own, code);
    if !HasLoser(g'.players) {
      assert r.log == w.log + [] + Broadcast(g'.players, TimeoutMsg(Scores(g'.players))) + [NextRoundScheduled(code)];
    }
  }

  /** A timeout keeps every registered game valid. */
  lemma TimeoutPreservesValid(w: World, own: Option<string>, code: string)
    requires ValidGames(w.games) && (code in w.games ==> TimeoutSafe(w.games[code]))
    ensures ValidGames(FireTimeout(w, own, code).games)
  {
    if code in w.games {
      TimeoutOutcome(w, own, code);
      var g := w.games[code];
      var g' := g.(isTimeout := true, players := Penalized(g.players, UnsubmittedMask(g.players)));
      var r := FireTimeout(w, own, code);
      assert ValidGame(g');
      forall c | c in r.games ensures ValidGame(r.games[c]) {
        if c != code {
          assert r.games[c] == w.games[c];
        }
      }
    }
  }

  /** The source has no guard against a second timeout in a round: a slot still without a number loses another point. */
  lemma RepeatedTimeoutPenalisesAgain(w: World, own: Option<string>, code: string)
    requires ValidGames(w.games) && code in w.games && |w.games[code].players| == 2
    ensures var w1 := FireTimeout(w, own, code);
      && ValidGames(w1.games)
      && (code in w1.games ==>
            && |w1.games[code].players| == 2
            && var w2 := FireTimeout(w1, own, code);
               code in w2.games ==>
                 && |w2.games[code].players| == 2
                 && forall j :: 0 <= j < 2 && w.games[code].players[j].number.None? ==>
                      w2.games[code].players[j].score == w.games[code].players[j].score - 2)
  {
    TimeoutOutcome(w, own, code);
    TimeoutPreservesValid(w, own, code);
    var w1 := FireTimeout(w, own, code);
    if code in w1.games {
      TimeoutOutcome(w1, own, code);
    }
  }

  /** A timeout after every slot submitted penalises nobody. */
  lemma TimeoutAfterSubmissionsPenalisesNobody(w: World, own: Option<string>, code: string)
    requires ValidGames(w.games) && code in w.games && AllSubmitted(w.games[code].players)
    ensures var r := FireTimeout(w, own, code);
      code in r.games ==> Scores(r.games[code].players) == Scores(w.games[code].players) && r.games[code].isTimeout
  {
    TimeoutOutcome(w, own, code);
  }

  /**
   * The game-over message can go out three times: a timeout that takes two
   * slots without a number from one above the losing score to it announces
   * slot 2 as the winner after each point, and again after the scores.
   */
  lemma TimeoutCanAnnounceGameOverThrice(w: World, own: Option<string>, code: string)
    requires ValidGames(w.games) && code in w.games
    requires var ps := w.games[code].players;
      && |ps| == 2 && ps[0].number.None? && ps[1].number.None?
      && ps[0].score == LosingScore + 1 && ps[1].score == LosingScore + 1
    ensures var ps := w.games[code].players;
      var end := Broadcast(ps, GameOverMsg(ps[1].username));
      FireTimeout(w, own, code).log
        == w.log + end + end + Broadcast(ps, TimeoutMsg([LosingScore, LosingScore])) + end
  {
    var ps := w.games[code].players;
    var end := Broadcast(ps, GameOverMsg(ps[1].username));
    var mask := UnsubmittedMask(ps);
    assert mask == [true, true];
    TimeoutOutcome(w, own, code);
    var ps1 := ps[0 := DecScore(ps[0])];
    var ps2 := ps1[1 := DecScore(ps1[1])];
    assert LoserIndex(ps1) == 0 && LoserIndex(ps2) == 0;
    assert Broadcast(ps1, GameOverMsg(ps[1].username)) == end;
    assert Broadcast(ps2, GameOverMsg(ps[1].username)) == end;
    assert WinnerName(ps1) == ps[1].username && WinnerName(ps2) == ps[1].username;
    assert LoopAnnouncements(ps, mask, 0) == Announcement(ps1) + LoopAnnouncements(ps1, mask, 1);
    assert LoopAnnouncements(ps1, mask, 1) == Announcement(ps2) + LoopAnnouncements(ps2, mask, 2);
    assert LoopAnnouncements(ps2, mask, 2) == [];
    var g' := w.games[code].(isTimeout := true, players := Penalized(ps, mask));
    assert g'.players == ps2;
    assert Scores(ps2) == [LosingScore, LosingScore];
    assert Broadcast(ps2, TimeoutMsg([LosingScore, LosingScore])) == Broadcast(ps, TimeoutMsg([LosingScore, LosingScore]));
  }

  /**
   * Resolving a round: when the timeout flag is down, exactly the slots other
   * than the winner lose one point, and every slot is told the numbers, the
   * average, the target, the 1-based winner and the new scores, after the
   * loop's game-over announcements (none when nobody reached the losing score).
   */
  lemma ResolveOutcome(w: World, own: Option<string>, code: string)
    requires code in w.games && AllSubmitted(w.games[code].players) && GameOverDefined(w.games[code].players)
    requires 0 < |w.games[code].players| && !w.games[code].isTimeout
    ensures var g := w.games[code];
      var numbers := Numbers(g.players);
      var winner := WinnerIndex(numbers);
      var g' := g.(players := Penalized(g.players, NotWinnerMask(|g.players|, winner)));
      var r := Resolve(w, own, code);
      && 0 <= winner < |g.players|
      && (forall j :: 0 <= j < |g.players| ==>
            && g'.players[j].score == g.players[j].score - (if j == winner then 0 else 1)
            && g'.players[j].number == g.players[j].number)
      && GameOverDefined(g'.players)
      && r.games == (if HasLoser(g'.players) then Drop(w.games[code := g'], own) else w.games[code := g'])
      && r.log == w.log + LoopAnnouncements(g.players, NotWinnerMask(|g.players|, winner), 0)
           + Broadcast(g'.players, ResultMsg(numbers, Sum(numbers), 2 * Sum(numbers), winner + 1, Scores(g'.players)))
           + Tail(code, g')
      && (!HasLoser(g'.players) ==> LoopAnnouncements(g.players, NotWinnerMask(|g.players|, winner), 0) == [])
  {
    var g := w.games[code];
    var numbers := Numbers(g.players);
    assert |Distances(numbers)| == |numbers| == |g.players|;
    var mask := NotWinnerMask(|g.players|, WinnerIndex(numbers));
    SettleOutcome(w, own, code, g, mask, s => ResultReport(numbers, s));
  }

  /** `calculateResult` re-checks the flag: after a timeout it changes nothing. */
  lemma ResolveAfterTimeoutIsNoop(w: World, own: Option<string>, code: string)
    requires code in w.games && AllSubmitted(w.games[code].players) && GameOverDefined(w.games[code].players)
    requires w.games[code].isTimeout
    ensures Resolve(w, own, code) == w
  {
  }

  /** Two slots: the winner is slot 1 only when strictly closer to the target; the other slot loses one point. */
  lemma TwoPlayerResolution(w: World, own: Option<string>, code: string)
    requires code in w.games && |w.games[code].players| == 2 && AllSubmitted(w.games[code].players)
    requires !w.games[code].isTimeout
    ensures var g := w.games[code];
      var a := g.players[0].number.value;
      var b := g.players[1].number.value;
      var winner := if Abs(3 * b - 2 * a) < Abs(3 * a - 2 * b) then 1 else 0;
      var r := Resolve(w, own, code);
      && WinnerIndex(Numbers(g.players)) == winner
      && (code in r.games ==>
            && |r.games[code].players| == 2
            && r.games[code].players[winner].score == g.players[winner].score
            && r.games[code].players[1 - winner].score == g.players[1 - winner].score - 1)
  {
    var g := w.games[code];
    var a := g.players[0].number.value;
    var b := g.players[1].number.value;
    assert Numbers(g.players) == [a, b];
    TwoPlayerWinner(a, b);
    ResolveOutcome(w, own, code);
  }

  /**
   * A submission that leaves a slot without a number, or arrives after the
   * timeout fired, is stored and scores nothing: there is no duplicate guard,
   * so a second submission simply overwrites the first.
   */
  lemma SubmissionWithoutResolution(w: World, own: Option<string>, code: string, playerNumber: int, number: int)
    requires ValidGames(w.games) && code in w.games && 1 <= playerNumber <= |w.games[code].players|
    requires w.games[code].isTimeout || !AllSubmitted(SetNumber(w.games[code], playerNumber - 1, number).players)
    ensures var r := SubmitNumber(w, own, code, playerNumber, number);
      && r == w.(games := w.games[code := SetNumber(w.games[code], playerNumber - 1, number)])
      && r.log == w.log
      && r.games.Keys == w.games.Keys
      && r.games[code].players[playerNumber - 1].number == Some(number)
      && Scores(r.games[code].players) == Scores(w.games[code].players)
      && ValidGames(r.games)
  {
  }

  /** The `j`-th message of a broadcast sits `j` places after what came before it. */
  lemma BroadcastAt(before: seq<Event>, ps: seq<Player>, m: Message, after: seq<Event>, j: int)
    requires 0 <= j < |ps|
    ensures (before + Broadcast(ps, m) + after)[|before| + j] == Send(ps[j].conn, m)
  {
  }

  /** A log holding a broadcast of a result after position `start` has that result for slot `j`. */
  lemma ResultToSlot(log: seq<Event>, before: seq<Event>, ps: seq<Player>, msg: Message, after: seq<Event>, start: nat, j: int)
    requires log == before + Broadcast(ps, msg) + after && start <= |before|
    requires msg.ResultMsg? && 0 <= j < |ps|
    ensures exists k :: (start <= k < |log| && log[k].Send? && log[k].to == ps[j].conn
                         && log[k].msg.ResultMsg? && log[k].msg.numbers == msg.numbers)
  {
    BroadcastAt(before, ps, msg, after, j);
    assert log[|before| + j] == Send(ps[j].conn, msg);
  }

  /** The log of a resolved round, with the result's recipients read off the slots before the penalties. */
  lemma ResolveLog(w: World, own: Option<string>, code: string)
    requires code in w.games && AllSubmitted(w.games[code].players) && GameOverDefined(w.games[code].players)
    requires 0 < |w.games[code].players| && !w.games[code].isTimeout
    ensures var ps := w.games[code].players;
      var numbers := Numbers(ps);
      var mask := NotWinnerMask(|ps|, WinnerIndex(numbers));
      var g' := w.games[code].(players := Penalized(ps, mask));
      && GameOverDefined(g'.players)
      && Resolve(w, own, code).log
         == w.log + LoopAnnouncements(ps, mask, 0)
            + Broadcast(ps, ResultMsg(numbers, Sum(numbers), 2 * Sum(numbers), WinnerIndex(numbers) + 1, Scores(g'.players)))
            + Tail(code, g')
  {
    var g := w.games[code];
    ResolveOutcome(w, own, code);
    var numbers := Numbers(g.players);
    var winner := WinnerIndex(numbers);
    var g' := g.(players := Penalized(g.players, NotWinnerMask(|g.players|, winner)));
    var msg := ResultMsg(numbers, Sum(numbers), 2 * Sum(numbers), winner + 1, Scores(g'.players));
    assert Broadcast(g'.players, msg) == Broadcast(g.players, msg);
  }

  /** Resolving a round with the flag down sends every slot a result carrying the round's numbers. */
  lemma ResolveReportsToEverySlot(w: World, own: Option<string>, code: string)
    requires code in w.games && AllSubmitted(w.games[code].players) && GameOverDefined(w.games[code].players)
    requires 0 < |w.games[code].players| && !w.games[code].isTimeout
    ensures var ps := w.games[code].players;
      var r := Resolve(w, own, code);
      forall j :: 0 <= j < |ps| ==>
        exists k :: (|w.log| <= k < |r.log| && r.log[k].Send? && r.log[k].to == ps[j].conn
                     && r.log[k].msg.ResultMsg? && r.log[k].msg.numbers == Numbers(ps))
  {
    var ps := w.games[code].players;
    ResolveLog(w, own, code);
    var numbers := Numbers(ps);
    var mask := NotWinnerMask(|ps|, WinnerIndex(numbers));
    var g' := w.games[code].(players := Penalized(ps, mask));
    var msg := ResultMsg(numbers, Sum(numbers), 2 * Sum(numbers), WinnerIndex(numbers) + 1, Scores(g'.players));
    var r := Resolve(w, own, code);
    forall j | 0 <= j < |ps|
      ensures exists k :: (|w.log| <= k < |r.log| && r.log[k].Send? && r.log[k].to == ps[j].conn
                           && r.log[k].msg.ResultMsg? && r.log[k].msg.numbers == numbers)
    {
      ResultToSlot(r.log, w.log + LoopAnnouncements(ps, mask, 0), ps, msg, Tail(code, g'), |w.log|, j);
    }
  }

  /** A submission that completes a round with the flag down sends every slot the result with the round's numbers. */
  lemma SubmissionCompletingRoundReportsResult(w: World, own: Option<string>, code: string, playerNumber: int, number: int)
    requires ValidGames(w.games) && code in w.games && 1 <= playerNumber <= |w.games[code].players|
    requires !w.games[code].isTimeout && AllSubmitted(SetNumber(w.games[code], playerNumber - 1, number).players)
    ensures var g1 := SetNumber(w.games[code], playerNumber - 1, number);
      var r := SubmitNumber(w, own, code, playerNumber, number);
      forall j :: 0 <= j < |g1.players| ==>
        exists k :: (|w.log| <= k < |r.log| && r.log[k].Send? && r.log[k].to == g1.players[j].conn
                     && r.log[k].msg.ResultMsg? && r.log[k].msg.numbers == Numbers(g1.players))
  {
    var g1 := SetNumber(w.games[code], playerNumber - 1, number);
    var w1 := w.(games := w.games[code := g1]);
    assert SubmitNumber(w, own, code, playerNumber, number) == Resolve(w1, own, code);
    ResolveReportsToEverySlot(w1, own, code);
  }

  /** A submission to an unknown code changes nothing. */
  lemma SubmissionToUnknownCode(w: World, own: Option<string>, code: string, playerNumber: int, number: int)
    requires ValidGames(w.games) && code !in w.games
    ensures SubmitNumber(w, own, code, playerNumber, number) == w
  {
  }

  /** Resolving a round keeps every registered game valid. */
  lemma ResolvePreservesValid(w: World, own: Option<string>, code: string)
    requires ValidGames(w.games) && code in w.games && AllSubmitted(w.games[code].players)
    ensures ValidGames(Resolve(w, own, code).games)
  {
    var g := w.games[code];
    if !g.isTimeout {
      ResolveOutcome(w, own, code);
      var g' := g.(players := Penalized(g.players, NotWinnerMask(|g.players|, WinnerIndex(Numbers(g.players)))));
      assert ValidGame(g');
      var r := Resolve(w, own, code);
      forall c | c in r.games ensures ValidGame(r.games[c]) {
        if c != code {
          assert r.games[c] == w.games[c];
        }
      }
    }
  }

  /** A submission stores the number and, when it completes the round, resolves it; every game stays valid. */
  lemma SubmissionPreservesValid(w: World, own: Option<string>, code: string, playerNumber: int, number: int)
    requires ValidGames(w.games)
    requires code in w.games ==> 1 <= playerNumber <= |w.games[code].players|
    ensures ValidGames(SubmitNumber(w, own, code, playerNumber, number).games)
  {
    if code in w.games {
      var g1 := SetNumber(w.games[code], playerNumber - 1, number);
      var w1 := w.(games := w.games[code := g1]);
      assert ValidGames(w1.games);
      if AllSubmitted(g1.players) && !g1.isTimeout {
        ResolvePreservesValid(w1, own, code);
      }
    }
  }

  /**
   * Joining a game with a free slot appends the joiner as slot 2, tells slot
   * 1 and slot 2 their numbers and each other's names, then opens a round;
   * a missing or full game is left as it was.
   */
  lemma JoinOutcome(w: World, conn: ConnId, code: string, username: string)
    requires ValidGames(w.games)
    ensures var r := JoinGame(w, conn, code, username);
      && (!(code in w.games && |w.games[code].players| < 2) ==> r == w)
      && (code in w.games && |w.games[code].players| < 2 ==>
            var g := w.games[code];
            var creator := g.players[0];
            && r.games.Keys == w.games.Keys
            && (forall c :: c in w.games && c != code ==> r.games[c] == w.games[c])
            && r.games[code] == Game([creator.(number := None), Player(username, conn, 0, None)], false, g.round)
            && r.log == w.log + [Send(creator.conn, StartMsg(1, username)), Send(conn, StartMsg(2, creator.username)),
                                 Send(creator.conn, RoundStartMsg), Send(conn, RoundStartMsg)])
      && ValidGames(r.games)
  {
  }

  /** The delayed round start keeps every game valid. */
  lemma ScheduledRoundPreservesValid(w: World, code: string)
    requires ValidGames(w.games)
    ensures ValidGames(ScheduledRound(w, code).games)
  {
  }

  /** Every handled message keeps every registered game valid: one or two slots, round 0, a lone slot above the losing score. */
  lemma StepPreservesValid(w: World, conn: ConnId, own: Option<string>, m: Inbound, freshCode: string)
    requires ValidGames(w.games) && Handled(w, m)
    ensures ValidGames(Step(w, conn, own, m, freshCode).0.games)
  {
    match m
    case Create(username) =>
    case Join(code, username) => JoinOutcome(w, conn, code, username);
    case Number(code, n, x) => SubmissionPreservesValid(w, own, code, n, x);
    case Timeout(code) => TimeoutPreservesValid(w, own, code);
    case Other =>
  }
}
