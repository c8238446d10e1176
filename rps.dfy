/**
  The rock-paper-scissors console game: the rule that decides one round
  (`check_conditions`) and the score update and best-of stopping rule that
  the game loop applies after each round. Reading moves, printing and the
  computer's random choice are not modelled.
 */
module RockPaperScissors {

  /** Result codes of `check_conditions`. */
  const Tie := 0
  const PlayerWins := 1
  const CpuWins := -1

  /** `check_conditions(player, cpu)`: 0 when both strings are equal, 1 when
      the player's move beats the computer's, -1 in every other case,
      including strings that are not a move. */
  function CheckConditions(player: string, cpu: string): (r: int)
    ensures r == Tie || r == PlayerWins || r == CpuWins
    ensures r == Tie <==> player == cpu
    ensures r == PlayerWins <==>
      || (player == "rock" && cpu == "scissors")
      || (player == "paper" && cpu == "rock")
      || (player == "scissors" && cpu == "paper")
  {
    if player == cpu then Tie
    else if || (player == "rock" && cpu == "scissors")
            || (player == "paper" && cpu == "rock")
            || (player == "scissors" && cpu == "paper")
    then PlayerWins
    else CpuWins
  }

  /** The three moves, and an independent statement of who beats whom: on
      the cycle rock, paper, scissors, each move beats the one before it. */
  datatype Move = Rock | Paper | Scissors

  function Name(m: Move): string
  {
    match m
    case Rock => "rock"
    case Paper => "paper"
    case Scissors => "scissors"
  }

  function Ordinal(m: Move): int
  {
    match m
    case Rock => 0
    case Paper => 1
    case Scissors => 2
  }

  /** The outcome of a round between two moves, by position on the cycle. */
  function Judge(player: Move, cpu: Move): (r: int)
  {
    var d := (Ordinal(player) - Ordinal(cpu)) % 3;
    if d == 0 then Tie else if d == 1 then PlayerWins else CpuWins
  }

  /** On the three move names, `check_conditions` agrees with the cyclic rule. */
  lemma CheckConditionsAgreesWithJudge(player: Move, cpu: Move)
    ensures CheckConditions(Name(player), Name(cpu)) == Judge(player, cpu)
  {
    match player
    case Rock => match cpu { case Rock => case Paper => case Scissors => }
    case Paper => match cpu { case Rock => case Paper => case Scissors => }
    case Scissors => match cpu { case Rock => case Paper => case Scissors => }
  }

  /** For two moves, exchanging the players negates the outcome. */
  lemma CheckConditionsAntisymmetric(player: Move, cpu: Move)
    ensures CheckConditions(Name(cpu), Name(player)) == -CheckConditions(Name(player), Name(cpu))
  {
    CheckConditionsAgreesWithJudge(player, cpu);
    CheckConditionsAgreesWithJudge(cpu, player);
  }

  /** A player string that is not a move never wins: it ties with an equal
      string and loses to everything else. */
  lemma UnrecognisedPlayerLoses(player: string, cpu: string)
    requires player !in {"rock", "paper", "scissors"}
    ensures CheckConditions(player, cpu) == if player == cpu then Tie else CpuWins
  {
  }

  /** Whether the game loop goes on, and who was announced the winner. */
  datatype Status = Playing | PlayerWon | CpuWon

  datatype Game = Game(playerScore: int, cpuScore: int, status: Status)

  /** Euclidean division of a natural number: the quotient times the
      divisor is at most `a` and falls short of it by less than `b`. */
  lemma DivBounds(a: nat, b: int)
    requires b > 0
    ensures 0 <= (a / b) * b <= a < (a / b) * b + b
  {
    var q, r := a / b, a % b;
    assert a == q * b + r && 0 <= r < b;
    assert 0 <= q;
  }

  /** C++ integer division, which truncates toward zero: the quotient times
      the divisor never passes `a` away from zero, and falls short of it by
      less than one divisor. */
  function CDiv(a: int, b: int): (q: int)
    requires b > 0
    ensures 0 <= a ==> 0 <= q * b <= a < q * b + b
    ensures a < 0 ==> q * b - b < a <= q * b <= 0
  {
    if a >= 0 then
      DivBounds(a, b);
      a / b
    else
      var m := (-a) / b;
      DivBounds(-a, b);
      assert (-m) * b == -(m * b);
      -m
  }

  /** The score that ends a best-of-`numGames` game, `num_games / 2 + 1`: for
      a non-negative count it is the smallest strict majority of the rounds,
      and it is positive exactly when `numGames >= -1` (C++ gives -1 / 2 == 0). */
  function Threshold(numGames: int): (t: int)
    ensures 0 <= numGames ==> numGames < 2 * t && 2 * (t - 1) <= numGames
    ensures 1 <= t <==> -1 <= numGames
  {
    CDiv(numGames, 2) + 1
  }

  /** The number of decisive rounds (code 1 or -1) among the results. */
  function Decisive(winners: seq<int>): nat
  {
    if winners == [] then 0
    else
      var w := winners[|winners| - 1];
      Decisive(winners[..|winners| - 1]) + if w == PlayerWins || w == CpuWins then 1 else 0
  }

  /** One pass of the game loop after `check_conditions` gave `winner`: the
      round's winner scores a point (nothing changes on any other code),
      then the player's score is compared with the target `t` first and the
      computer's second. */
  function Round(g: Game, winner: int, t: int): (g': Game)
    requires g.status == Playing
    ensures winner == PlayerWins ==>
      g'.playerScore == g.playerScore + 1 && g'.cpuScore == g.cpuScore
    ensures winner == CpuWins ==>
      g'.playerScore == g.playerScore && g'.cpuScore == g.cpuScore + 1
    ensures winner != PlayerWins && winner != CpuWins ==>
      g'.playerScore == g.playerScore && g'.cpuScore == g.cpuScore
    ensures g'.status == PlayerWon <==> g'.playerScore == t
    ensures g'.status == CpuWon <==> g'.playerScore != t && g'.cpuScore == t
  {
    var p := if winner == PlayerWins then g.playerScore + 1 else g.playerScore;
    var c := if winner == CpuWins then g.cpuScore + 1 else g.cpuScore;
    var s := if p == t then PlayerWon else if c == t then CpuWon else Playing;
    Game(p, c, s)
  }

  /** The game loop of `main` with target score `t`, after a sequence of round
      results, starting from 0 : 0; results after the game has stopped are not
      played. The source plays `Play(Threshold(num_games), ..)`. Scores only
      count decisive rounds, and while the game goes on every decisive round
      has been counted. */
  function Play(t: int, winners: seq<int>): (g: Game)
    ensures 0 <= g.playerScore && 0 <= g.cpuScore
    ensures g.playerScore + g.cpuScore <= Decisive(winners)
    ensures g.status == Playing ==> g.playerScore + g.cpuScore == Decisive(winners)
  {
    if winners == [] then Game(0, 0, Playing)
    else
      var g := Play(t, winners[..|winners| - 1]);
      if g.status == Playing then Round(g, winners[|winners| - 1], t) else g
  }

  /** What holds of every state the game loop reaches with a positive target. */
  ghost predicate Reachable(g: Game, t: int)
  {
    && 0 <= g.playerScore && 0 <= g.cpuScore
    && (g.status == Playing ==> g.playerScore < t && g.cpuScore < t)
    && (g.status == PlayerWon ==> g.playerScore == t && g.cpuScore < t)
    && (g.status == CpuWon ==> g.cpuScore == t && g.playerScore < t)
  }

  /** With a positive target (for the source, `num_games >= -1`): scores never
      pass the target, the game stops the first time one of them reaches it,
      and the announced winner is the one who reached it while the other is
      still below. */
  lemma {:induction false} PlayReachable(t: int, winners: seq<int>)
    requires 1 <= t
    ensures Reachable(Play(t, winners), t)
  {
    if winners != [] {
      PlayReachable(t, winners[..|winners| - 1]);
    }
  }

  /** With a positive target `t`, the game is over once `2 * t - 1` decisive
      rounds have been played. */
  lemma PlayEnds(t: int, winners: seq<int>)
    requires 1 <= t && 2 * t - 1 <= Decisive(winners)
    ensures Play(t, winners).status != Playing
  {
    PlayReachable(t, winners);
  }

  /** As written, `num_games` of -2 or -3 gives target 0: the first decisive
      round ends the game and announces the player who lost it. */
  lemma NegativeBestOfAnnouncesLoser(numGames: int)
    requires numGames == -2 || numGames == -3
    ensures Play(Threshold(numGames), [PlayerWins]) == Game(1, 0, CpuWon)
    ensures Play(Threshold(numGames), [CpuWins]) == Game(0, 1, PlayerWon)
  {
    assert Threshold(numGames) == 0;
    assert [PlayerWins][..0] == [] && [CpuWins][..0] == [];
  }

  /** As written, `num_games <= -4` gives a negative target that no score
      reaches: the loop never stops, whatever the rounds. */
  lemma {:induction false} NegativeBestOfNeverEnds(numGames: int, winners: seq<int>)
    requires numGames <= -4
    ensures Play(Threshold(numGames), winners).status == Playing
  {
    if winners != [] {
      NegativeBestOfNeverEnds(numGames, winners[..|winners| - 1]);
    }
  }

  /** The evidently intended target: a best-of count below -1 plays as
      `num_games` 0 and -1 already do, first to one point; elsewhere it is the
      source's `num_games / 2 + 1`. */
  function Target(numGames: int): (t: int)
    ensures 1 <= t
    ensures -1 <= numGames ==> t == Threshold(numGames)
  {
    if numGames < -1 then 1 else Threshold(numGames)
  }

  /** With the corrected target the game ends for every best-of count, after
      at most `2 * Target(numGames) - 1` decisive rounds, and announces the
      player who reached the target. */
  lemma TargetGameEnds(numGames: int, winners: seq<int>)
    requires 2 * Target(numGames) - 1 <= Decisive(winners)
    ensures Play(Target(numGames), winners).status != Playing
    ensures Reachable(Play(Target(numGames), winners), Target(numGames))
  {
    PlayReachable(Target(numGames), winners);
  }
}
