/**
 The driver around `Move`: the arrow-key table and the guard that filters
 key presses, the once-a-second timer that replays the stored heading, the
 game-over flag both of them set on an error, and the start-up sequence.
 */
module Loop {

  import opened Grid
  import opened Snakes
  import opened Apples
  import opened Games

  /** The `keys` table: key name to delta. */
  const Keys: map<string, Place> := map[
    "ArrowUp" := Place(0, -1),
    "ArrowDown" := Place(0, 1),
    "ArrowLeft" := Place(-1, 0),
    "ArrowRight" := Place(1, 0)
  ]

  /** A lookup in `keys`; a name not in the table yields the zero `Place`. */
  function KeyDelta(key: string): (d: Place)
    ensures IsHeading(d)
    ensures d == Zero <==> key !in Keys
  {
    if key in Keys then Keys[key] else Zero
  }

  /**
   The guard of the key handler: a non-zero delta whose x-component differs
   from the x-component of head minus neck. The y-components are never compared.
   */
  predicate KeyAccepted(places: seq<Place>, p: Place)
    requires |places| >= 2
  {
    (p.x != 0 || p.y != 0) && p.x != places[0].x - places[1].x
  }

  /** The program: the game, and whether its context has been cancelled. */
  datatype World = World(game: Game, over: bool)

  /** A timer tick or a key press, each with the draws the generator would yield to it. */
  datatype Event = Tick(draws: seq<Place>) | Key(key: string, draws: seq<Place>)

  /**
   What the source needs for an event to be handled: the body it indexes,
   and, if the event eats, a generator that yields a free cell.
   */
  predicate StepOk(w: World, e: Event) {
    var ps := w.game.snake.places;
    || w.over
    || (match e
        case Tick(draws) => |ps| >= 1 && DrawsSuffice(w.game, w.game.snake.move, draws)
        case Key(key, draws) =>
          |ps| >= 2 && (KeyAccepted(ps, KeyDelta(key)) ==> DrawsSuffice(w.game, KeyDelta(key), draws)))
  }

  /**
   The timer branch of `move`: replay the stored heading; an error cancels
   the game, which then stays as it was.
   */
  function OnTick(w: World, draws: seq<Place>): (w': World)
    requires StepOk(w, Tick(draws))
    ensures w.over ==> w' == w
    ensures !w.over ==>
              var h := NewHead(w.game, w.game.snake.move);
              w'.over <==> Outbound(h) || h in w.game.snake.places
    ensures w'.over ==> w'.game == w.game
    ensures !w'.over ==> w'.game.snake.move == w.game.snake.move
    ensures |w'.game.snake.places| >= |w.game.snake.places|
    ensures !w.over && !w'.over ==> w'.game.snake.places[0] == NewHead(w.game, w.game.snake.move)
    ensures !w.over ==> w'.game == Move(w.game, w.game.snake.move, draws).game
    ensures w'.game.score >= w.game.score
  {
    if w.over then w
    else
      var r := Move(w.game, w.game.snake.move, draws);
      World(r.game, r.err.Some?)
  }

  /**
   The key handler: an accepted key moves the snake at once with the key's
   delta, and an error cancels the game; any other key changes nothing.
   */
  function OnKey(w: World, key: string, draws: seq<Place>): (w': World)
    requires StepOk(w, Key(key, draws))
    ensures w.over ==> w' == w
    ensures |w'.game.snake.places| >= |w.game.snake.places|
    ensures !w.over && !KeyAccepted(w.game.snake.places, KeyDelta(key)) ==> w' == w
    ensures !w.over && KeyAccepted(w.game.snake.places, KeyDelta(key)) ==>
              var h := NewHead(w.game, KeyDelta(key));
              && (w'.over <==> Outbound(h) || h in w.game.snake.places)
              && (w'.over ==> w'.game == w.game)
              && (!w'.over ==> w'.game.snake.move == KeyDelta(key) && w'.game.snake.places[0] == h)
              && w'.game == Move(w.game, KeyDelta(key), draws).game
    ensures w'.game.score >= w.game.score
  {
    if w.over then w
    else
      var p := KeyDelta(key);
      if KeyAccepted(w.game.snake.places, p) then
        var r := Move(w.game, p, draws);
        World(r.game, r.err.Some?)
      else w
  }

  function Step(w: World, e: Event): (w': World)
    requires StepOk(w, e)
    ensures w.over ==> w' == w
    ensures w'.over && !w.over ==> w'.game == w.game
    ensures w'.game.score >= w.game.score
    ensures |w'.game.snake.places| >= |w.game.snake.places|
  {
    match e
    case Tick(draws) => OnTick(w, draws)
    case Key(key, draws) => OnKey(w, key, draws)
  }

  /** Every event of the run meets `StepOk` in the state it arrives in. */
  predicate Feasible(w: World, events: seq<Event>)
    decreases |events|
  {
    |events| == 0 || (StepOk(w, events[0]) && Feasible(Step(w, events[0]), events[1..]))
  }

  /**
   A run of events in arrival order. Once over, the game stays over and
   unchanged, and the score never goes down.
   */
  function Run(w: World, events: seq<Event>): (w': World)
    requires Feasible(w, events)
    ensures w.over ==> w' == w
    ensures w'.game.score >= w.game.score
    ensures |w'.game.snake.places| >= |w.game.snake.places|
    decreases |events|
  {
    if |events| == 0 then w else Run(Step(w, events[0]), events[1..])
  }

  lemma StepPreservesInv(w: World, e: Event)
    requires Inv(w.game) && StepOk(w, e)
    ensures Inv(Step(w, e).game)
  {
  }

  /** Every state a run reaches from an invariant state satisfies the invariant. */
  lemma {:induction false} RunPreservesInv(w: World, events: seq<Event>)
    requires Inv(w.game) && Feasible(w, events)
    ensures Inv(Run(w, events).game)
    decreases |events|
  {
    if |events| > 0 {
      StepPreservesInv(w, events[0]);
      RunPreservesInv(Step(w, events[0]), events[1..]);
    }
  }

  /** The state `setup` leaves: three segments in row `Size / 2`, zero heading, apple at the origin, score zero. */
  function Setup(): (g: Game)
    ensures Inv(g) && g.score == 0 && g.snake.move == Zero
  {
    var row := Size / 2;
    Game(Snake([Place(3, row), Place(2, row), Place(1, row)], Zero), Zero, 0)
  }

  /** `Setup` with the apple `main` draws for it. */
  function FirstApple(appleDraws: seq<Place>): Game
    requires ValidDraws(appleDraws) && HasFreeDraw(Setup().snake.places, appleDraws)
  {
    Setup().(apple := CreateApple(Setup().snake.places, appleDraws))
  }

  predicate StartOk(appleDraws: seq<Place>, moveDraws: seq<Place>) {
    && ValidDraws(appleDraws)
    && HasFreeDraw(Setup().snake.places, appleDraws)
    && DrawsSuffice(FirstApple(appleDraws), Place(1, 0), moveDraws)
  }

  /**
   `main` up to the loop: setup, draw an apple, and move right once. `main`
   ignores the error of that move; it never has one.
   */
  function Start(appleDraws: seq<Place>, moveDraws: seq<Place>): (w: World)
    requires StartOk(appleDraws, moveDraws)
    ensures !w.over && Inv(w.game)
    ensures w.game.snake.move == Place(1, 0) && w.game.snake.places[0] == Place(4, Size / 2)
  {
    var g := FirstApple(appleDraws);
    var r := Move(g, Place(1, 0), moveDraws);
    MovePreservesInv(g, Place(1, 0), moveDraws);
    World(r.game, false)
  }

  /** Every state the program reaches from start-up satisfies the invariant. */
  lemma ReachableInv(appleDraws: seq<Place>, moveDraws: seq<Place>, events: seq<Event>)
    requires StartOk(appleDraws, moveDraws) && Feasible(Start(appleDraws, moveDraws), events)
    ensures Inv(Run(Start(appleDraws, moveDraws), events).game)
  {
    RunPreservesInv(Start(appleDraws, moveDraws), events);
  }

  /** A key moves or ends a running game exactly when the guard accepts it. */
  lemma KeyActsIffAccepted(w: World, key: string, draws: seq<Place>)
    requires !w.over && StepOk(w, Key(key, draws))
    ensures OnKey(w, key, draws) != w <==> KeyAccepted(w.game.snake.places, KeyDelta(key))
  {
  }

  /**
   Pressing the key of the current horizontal direction is ignored: its x
   delta equals head minus neck.
   */
  lemma SameHorizontalKeyIgnored(w: World, key: string, draws: seq<Place>)
    requires |w.game.snake.places| >= 2
    requires key in Keys && Keys[key].y == 0
    requires w.game.snake.places[0] == Add(w.game.snake.places[1], Keys[key])
    ensures OnKey(w, key, draws) == w
  {
  }

  /**
   Pressing the reverse of the current horizontal direction passes the
   guard, sends the head onto the neck and ends the game with the board as
   it was.
   */
  lemma HorizontalReversalEndsGame(w: World, key: string, draws: seq<Place>)
    requires !w.over && |w.game.snake.places| >= 2
    requires key in Keys && Keys[key].y == 0
    requires w.game.snake.places[0] == Add(w.game.snake.places[1], Place(-Keys[key].x, 0))
    ensures StepOk(w, Key(key, draws)) && OnKey(w, key, draws) == World(w.game, true)
  {
  }

  /**
   While head and neck share a column, both vertical keys are ignored: the
   guard compares x-components only, and both are zero.
   */
  lemma VerticalKeysIgnoredInColumn(w: World, key: string, draws: seq<Place>)
    requires |w.game.snake.places| >= 2
    requires w.game.snake.places[0].x == w.game.snake.places[1].x
    requires key == "ArrowUp" || key == "ArrowDown"
    ensures OnKey(w, key, draws) == w
  {
  }

  /**
   When the first apple lands right in front of the snake, the first move
   eats it: the score becomes one and the body ends in two copies of the
   same cell, not in the old tail.
   */
  lemma FirstMoveOntoApple(moveDraws: seq<Place>)
    requires StartOk([Place(4, Size / 2)], moveDraws)
    ensures var g := Start([Place(4, Size / 2)], moveDraws).game;
            && g.score == 1
            && g.snake.places == [Place(4, 8), Place(3, 8), Place(2, 8), Place(2, 8)]
  {
  }
}
