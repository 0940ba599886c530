/**
 * Values of the number-guessing game server: player slots, games, and the
 * events the server produces (messages to a connection, a scheduled round).
 */
module GameModel {

  datatype Option<T> = None | Some(value: T)

  /** Identifies one client connection; it stands for the socket a player slot holds. */
  type ConnId = nat

  /** A score at or below this ends the game. */
  const LosingScore: int := -10

  /** One player slot: display name, the connection it answers to, score and this round's number. */
  datatype Player = Player(username: string, conn: ConnId, score: int, number: Option<int>)

  /** One game: one or two ordered slots, the timeout flag of the open round, and the round field. */
  datatype Game = Game(players: seq<Player>, isTimeout: bool, round: int)

  /**
   * Outbound messages. The result message carries the average and the target
   * scaled to integers: average == averageTimes2 / 2 and target == targetTimes5 / 5.
   */
  datatype Message =
    | GameCodeMsg(gameCode: string)
    | StartMsg(playerNumber: int, opponent: string)
    | RoundStartMsg
    | ResultMsg(numbers: seq<int>, averageTimes2: int, targetTimes5: int, winner: int, scores: seq<int>)
    | TimeoutMsg(scores: seq<int>)
    | GameOverMsg(winnerName: string)

  /** What the server does towards the outside: send a message, or schedule the next round of a game. */
  datatype Event =
    | Send(to: ConnId, msg: Message)
    | NextRoundScheduled(gameCode: string)

  /** The game a creator starts: one slot, score 0, no number, no timeout, round 0. */
  function NewGame(username: string, conn: ConnId): Game
  {
    Game([Player(username, conn, 0, None)], false, 0)
  }

  /** The slot opposite `index`, as `index === 0 ? 1 : 0`. */
  function Opponent(index: int): int
  {
    if index == 0 then 1 else 0
  }

  function Scores(ps: seq<Player>): seq<int>
  {
    seq(|ps|, i requires 0 <= i < |ps| => ps[i].score)
  }

  /** Every slot holds a number this round. */
  predicate AllSubmitted(ps: seq<Player>)
  {
    forall i :: 0 <= i < |ps| ==> ps[i].number.Some?
  }

  function Numbers(ps: seq<Player>): seq<int>
    requires AllSubmitted(ps)
  {
    seq(|ps|, i requires 0 <= i < |ps| && AllSubmitted(ps) => ps[i].number.value)
  }

  /** The same message to every slot, in slot order. */
  function Broadcast(ps: seq<Player>, m: Message): seq<Event>
  {
    seq(|ps|, i requires 0 <= i < |ps| => Send(ps[i].conn, m))
  }

  /** The `start` message to every slot: its own 1-based number and the opposite slot's name. */
  function StartEvents(ps: seq<Player>): seq<Event>
    requires |ps| >= 2
  {
    seq(|ps|, i requires 0 <= i < |ps| && |ps| >= 2 => Send(ps[i].conn, StartMsg(i + 1, ps[Opponent(i)].username)))
  }

  /** The first slot whose score is at or below the losing score, or -1 (a `findIndex`). */
  function LoserIndex(ps: seq<Player>): (r: int)
    ensures -1 <= r < |ps|
    ensures r == -1 <==> forall i :: 0 <= i < |ps| ==> ps[i].score > LosingScore
    ensures 0 <= r ==> ps[r].score <= LosingScore && forall i :: 0 <= i < r ==> ps[i].score > LosingScore
  {
    if |ps| == 0 then -1
    else if ps[0].score <= LosingScore then 0
    else
      var k := LoserIndex(ps[1..]);
      if k == -1 then -1 else k + 1
  }

  predicate HasLoser(ps: seq<Player>)
  {
    LoserIndex(ps) != -1
  }

  /**
   * Announcing the winner reads the slot opposite the first loser, which
   * exists unless a lone slot is at or below the losing score.
   */
  predicate GameOverDefined(ps: seq<Player>)
  {
    |ps| == 1 ==> ps[0].score > LosingScore
  }

  function WinnerName(ps: seq<Player>): string
    requires HasLoser(ps) && GameOverDefined(ps)
  {
    assert |ps| != 1;
    ps[Opponent(LoserIndex(ps))].username
  }

  /**
   * The games the handlers keep: one or two slots, a round field that is
   * never advanced, and a lone creator who has not reached the losing score
   * (announcing a winner for a lone loser would read a missing slot).
   */
  predicate ValidGame(g: Game)
  {
    && 1 <= |g.players| <= 2
    && g.round == 0
    && GameOverDefined(g.players)
  }

  predicate ValidGames(games: map<string, Game>)
  {
    forall c :: c in games ==> ValidGame(games[c])
  }

  /** Stores `x` as slot `k`'s number; nothing else changes. */
  function SetNumber(g: Game, k: int, x: int): (r: Game)
    requires 0 <= k < |g.players|
    ensures |r.players| == |g.players| && r.isTimeout == g.isTimeout && r.round == g.round
    ensures r.players[k].number == Some(x)
    ensures r.players[k].username == g.players[k].username && r.players[k].conn == g.players[k].conn
    ensures r.players[k].score == g.players[k].score
    ensures forall j :: 0 <= j < |g.players| && j != k ==> r.players[j] == g.players[j]
  {
    g.(players := g.players[k := g.players[k].(number := Some(x))])
  }

  function DecScore(p: Player): Player
  {
    p.(score := p.score - 1)
  }

  /** Slot `k` loses one point. */
  function DecScoreAt(g: Game, k: int): Game
    requires 0 <= k < |g.players|
  {
    g.(players := g.players[k := DecScore(g.players[k])])
  }

  /** Every slot whose mask bit is set loses one point. */
  function Penalized(ps: seq<Player>, mask: seq<bool>): seq<Player>
    requires |mask| == |ps|
  {
    seq(|ps|, j requires 0 <= j < |ps| && |mask| == |ps| => if mask[j] then DecScore(ps[j]) else ps[j])
  }

  /** The slots a timeout penalises: those without a number. */
  function UnsubmittedMask(ps: seq<Player>): seq<bool>
  {
    seq(|ps|, j requires 0 <= j < |ps| => ps[j].number.None?)
  }

  /** The slots a resolved round penalises: all but the winner. */
  function NotWinnerMask(n: nat, winner: int): seq<bool>
  {
    seq(n, j requires 0 <= j < n => j != winner)
  }

  /** A fresh round: every number cleared and the timeout flag down. */
  function ClearRound(g: Game): (r: Game)
    ensures |r.players| == |g.players| && !r.isTimeout && r.round == g.round
    ensures forall j :: 0 <= j < |g.players| ==>
      && r.players[j].number == None
      && r.players[j].score == g.players[j].score
      && r.players[j].username == g.players[j].username
      && r.players[j].conn == g.players[j].conn
  {
    g.(players := seq(|g.players|, j requires 0 <= j < |g.players| => g.players[j].(number := None)), isTimeout := false)
  }

  /** Scores only go down, so a slot at or below the losing score stays there. */
  lemma LoserPersists(ps: seq<Player>, qs: seq<Player>)
    requires |ps| == |qs|
    requires forall j :: 0 <= j < |ps| ==> qs[j].score <= ps[j].score
    requires HasLoser(ps)
    ensures HasLoser(qs)
    ensures LoserIndex(qs) <= LoserIndex(ps)
  {
  }
}
