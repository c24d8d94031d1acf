/** The game controller `AlienInvasion` with its drawing, event polling and
    process exit taken away: the bullets, the alien fleet, the score, the fleet
    direction, the ship's movement flags and the game-over flag. */
module Invasion {
  import opened Layout
  import opened Groups

  /** The keys the controller tells apart; every other key code is `OtherKey`. */
  datatype Key = Right | Left | Space | OtherKey

  class AlienInvasion {
    // Settings and sprite sizes, fixed for the whole game.
    const screenWidth: int
    const screenHeight: int
    const alienWidth: int
    const alienHeight: int
    const shipHeight: int
    const bulletsAllowed: nat
    const fleetDropSpeed: int

    /** The bottom edge of every live bullet, oldest first. */
    var bullets: seq<int>
    /** The live aliens, in the order they were added to the group. */
    var aliens: seq<Alien>
    var score: int
    /** `settings.fleet_direction`: +1 to the right, -1 to the left. */
    var fleetDirection: int
    /** `ship.moving_left` and `ship.moving_right`. */
    var movingLeft: bool
    var movingRight: bool
    /** Set where `alien_invasion.py` calls `_game_over()`. */
    var gameOver: bool
    /** How many times `settings.increase_speed()` has been called. */
    var speedIncreases: nat

    ghost predicate Valid()
      reads this
    {
      && alienWidth > 0 && alienHeight > 0 && shipHeight >= 0
      && |bullets| <= bulletsAllowed
      && (fleetDirection == 1 || fleetDirection == -1)
      && score >= 0 && score % 10 == 0
    }

    /** `__init__`: empty bullet group, a fresh fleet, score zero. */
    constructor (screenWidth: int, screenHeight: int, alienWidth: int, alienHeight: int, shipHeight: int,
                 bulletsAllowed: nat, fleetDropSpeed: int, fleetDirection: int)
      requires alienWidth > 0 && alienHeight > 0 && shipHeight >= 0
      requires fleetDirection == 1 || fleetDirection == -1
      ensures Valid()
      ensures this.screenWidth == screenWidth && this.screenHeight == screenHeight
      ensures this.alienWidth == alienWidth && this.alienHeight == alienHeight
      ensures this.shipHeight == shipHeight && this.bulletsAllowed == bulletsAllowed
      ensures this.fleetDropSpeed == fleetDropSpeed && this.fleetDirection == fleetDirection
      ensures bullets == [] && aliens == FleetLayout(screenWidth, screenHeight, alienWidth, alienHeight, shipHeight)
      ensures score == 0 && !movingLeft && !movingRight && !gameOver && speedIncreases == 0
    {
      this.screenWidth, this.screenHeight := screenWidth, screenHeight;
      this.alienWidth, this.alienHeight, this.shipHeight := alienWidth, alienHeight, shipHeight;
      this.bulletsAllowed, this.fleetDropSpeed := bulletsAllowed, fleetDropSpeed;
      this.fleetDirection := fleetDirection;
      bullets, aliens := [], [];
      movingLeft, movingRight, gameOver := false, false, false;
      speedIncreases := 0;
      new;
      CreateFleet();
      score := 0;
    }

    // -------------------------------------------------------------------------
    // Keyboard

    /** `_check_keydown_events`: right and left raise their flag, space fires. */
    method KeyDown(key: Key, spawnBottom: int)
      requires Valid()
      modifies this`movingRight, this`movingLeft, this`bullets
      ensures Valid()
      ensures movingRight == (old(movingRight) || key == Right)
      ensures movingLeft == (old(movingLeft) || key == Left)
      ensures bullets == if key == Space && |old(bullets)| < bulletsAllowed
                         then old(bullets) + [spawnBottom] else old(bullets)
    {
      if key == Right {
        movingRight := true;
      } else if key == Left {
        movingLeft := true;
      } else if key == Space {
        FireBullet(spawnBottom);
      }
    }

    /** `_check_keyup_events`: right and left lower their flag; nothing fires. */
    method KeyUp(key: Key)
      requires Valid()
      modifies this`movingRight, this`movingLeft
      ensures Valid()
      ensures movingRight == (old(movingRight) && key != Right)
      ensures movingLeft == (old(movingLeft) && key != Left)
    {
      if key == Right {
        movingRight := false;
      } else if key == Left {
        movingLeft := false;
      }
    }

    // -------------------------------------------------------------------------
    // Bullets

    /** `_fire_bullet`: a new bullet, whose bottom is `spawnBottom`, joins the group
        only while fewer than `bulletsAllowed` are live. */
    method FireBullet(spawnBottom: int)
      requires Valid()
      modifies this`bullets
      ensures Valid()
      ensures bullets == if |old(bullets)| < bulletsAllowed then old(bullets) + [spawnBottom] else old(bullets)
    {
      if |bullets| < bulletsAllowed {
        bullets := bullets + [spawnBottom];
      }
    }

    /** The loop of `_update_bullets` that removes, from the live group, every bullet of
        a copy whose bottom is at or above the top of the screen. */
    method PruneBullets()
      requires Valid()
      modifies this`bullets
      ensures Valid()
      ensures bullets == Survivors(old(bullets))
    {
      var copy := bullets;
      var kept := 0;  // how many bullets of copy[..i] are still in the group
      ghost var done: seq<int> := [];
      var i := 0;
      while i < |copy|
        invariant 0 <= i <= |copy|
        invariant done == Survivors(copy[..i]) && kept == |done|
        invariant bullets == done + copy[i..]
      {
        PruneStep(copy, i, done);
        if copy[i] <= 0 {
          bullets := bullets[..kept] + bullets[kept + 1..];
        } else {
          done := done + [copy[i]];
          kept := kept + 1;
        }
        i := i + 1;
      }
      assert copy[..i] == copy;
    }

    /** `_update_bullets`: every bullet's own `update()` gives its new bottom
        (`advanced`), bullets off the top are dropped, then collisions are handled;
        `hits` is what `groupcollide` reports against the pruned group. */
    method UpdateBullets(advanced: seq<int>, hits: map<nat, set<nat>>)
      requires Valid() && |advanced| == |bullets|
      requires WellFormedHits(hits, |Survivors(advanced)|, |aliens|)
      modifies this`bullets, this`aliens, this`score, this`speedIncreases
      ensures Valid()
      ensures score == old(score) + 10 * |hits|
      ensures var remaining := Without(old(aliens), HitAliens(hits));
        if remaining == [] then
          && bullets == []
          && aliens == FleetLayout(screenWidth, screenHeight, alienWidth, alienHeight, shipHeight)
          && speedIncreases == old(speedIncreases) + 1
        else
          && bullets == Without(Survivors(advanced), hits.Keys)
          && aliens == remaining
          && speedIncreases == old(speedIncreases)
    {
      bullets := advanced;
      PruneBullets();
      CheckBulletAlienCollisions(hits);
    }

    /** `_check_bullet_alien_collisions`: hit bullets and aliens leave their groups and
        the score grows by 10 per entry of the collision dictionary; once no alien is
        left, the bullets are cleared, the speed goes up and a new fleet is built. */
    method CheckBulletAlienCollisions(hits: map<nat, set<nat>>)
      requires Valid() && WellFormedHits(hits, |bullets|, |aliens|)
      modifies this`bullets, this`aliens, this`score, this`speedIncreases
      ensures Valid()
      ensures score == old(score) + 10 * |hits|
      ensures var remaining := Without(old(aliens), HitAliens(hits));
        if remaining == [] then
          && bullets == []
          && aliens == FleetLayout(screenWidth, screenHeight, alienWidth, alienHeight, shipHeight)
          && speedIncreases == old(speedIncreases) + 1
        else
          && bullets == Without(old(bullets), hits.Keys)
          && aliens == remaining
          && speedIncreases == old(speedIncreases)
    {
      bullets := Without(bullets, hits.Keys);
      aliens := Without(aliens, HitAliens(hits));
      if |hits| > 0 {
        score := score + 10 * |hits|;
      }
      if aliens == [] {
        bullets := [];
        speedIncreases := speedIncreases + 1;
        CreateFleet();
      }
    }

    // -------------------------------------------------------------------------
    // The fleet

    /** `_create_alien(n, r)`: one more alien at column `n`, row `r`. */
    method CreateAlien(n: nat, r: nat)
      modifies this`aliens
      ensures aliens == old(aliens) + [Placement(alienWidth, alienHeight, n, r)]
    {
      var x := alienWidth + 2 * alienWidth * n;
      var y := alienHeight + 2 * alienHeight * r;
      aliens := aliens + [Alien(x, y)];
    }

    /** `_create_fleet`: rows top to bottom, each filled left to right. */
    method CreateFleet()
      requires alienWidth > 0 && alienHeight > 0
      modifies this`aliens
      ensures aliens == old(aliens) + FleetLayout(screenWidth, screenHeight, alienWidth, alienHeight, shipHeight)
    {
      var numberAliensX := ColumnCount(screenWidth, alienWidth);
      var numberRows := RowCount(screenHeight, alienHeight, shipHeight);
      var cols, rows := Clamp(numberAliensX), Clamp(numberRows);
      var r := 0;
      while r < rows
        invariant 0 <= r <= rows
        invariant aliens == old(aliens) + Grid(alienWidth, alienHeight, cols, r)
      {
        var n := 0;
        while n < cols
          invariant 0 <= n <= cols
          invariant aliens == old(aliens) + Grid(alienWidth, alienHeight, cols, r) + Row(alienWidth, alienHeight, r, n)
        {
          CreateAlien(n, r);
          n := n + 1;
        }
        r := r + 1;
      }
    }

    /** `_change_fleet_direction`: every alien drops by `fleetDropSpeed` and keeps its x;
        the fleet direction flips. */
    method ChangeFleetDirection()
      requires Valid()
      modifies this`aliens, this`fleetDirection
      ensures Valid()
      ensures fleetDirection == -old(fleetDirection)
      ensures |aliens| == |old(aliens)|
      ensures forall i :: 0 <= i < |aliens| ==>
        aliens[i] == Alien(old(aliens)[i].x, old(aliens)[i].y + fleetDropSpeed)
    {
      var i := 0;
      while i < |aliens|
        invariant 0 <= i <= |aliens| == |old(aliens)|
        invariant forall j :: 0 <= j < i ==> aliens[j] == Alien(old(aliens)[j].x, old(aliens)[j].y + fleetDropSpeed)
        invariant forall j :: i <= j < |aliens| ==> aliens[j] == old(aliens)[j]
        invariant fleetDirection == old(fleetDirection)
      {
        aliens := aliens[i := Alien(aliens[i].x, aliens[i].y + fleetDropSpeed)];
        i := i + 1;
      }
      fleetDirection := -fleetDirection;
    }

    /** `_update_aliens`: every alien's own `update()` gives its new x (`movedX`);
        `atEdge[i]` is what `check_edges()` says of alien `i` afterwards. The first alien
        at an edge makes the whole fleet drop and turn once; `shipHit` is what
        `spritecollideany(ship, aliens)` reports. */
    method UpdateAliens(movedX: seq<int>, atEdge: seq<bool>, shipHit: bool)
      requires Valid() && |movedX| == |aliens| && |atEdge| == |aliens|
      modifies this`aliens, this`fleetDirection, this`gameOver
      ensures Valid()
      ensures var turned := exists i :: 0 <= i < |atEdge| && atEdge[i];
        && |aliens| == |old(aliens)|
        && (forall i :: 0 <= i < |aliens| ==>
              aliens[i] == Alien(movedX[i], old(aliens)[i].y + (if turned then fleetDropSpeed else 0)))
        && fleetDirection == (if turned then -old(fleetDirection) else old(fleetDirection))
      ensures gameOver == (old(gameOver) || shipHit || ReachedBottom(aliens, alienHeight, screenHeight))
      ensures fleetDropSpeed >= 0 && old(ReachedBottom(aliens, alienHeight, screenHeight)) ==>
        ReachedBottom(aliens, alienHeight, screenHeight)
    {
      var before := aliens;
      aliens := seq(|before|, i requires 0 <= i < |before| => Alien(movedX[i], before[i].y));
      ghost var moved := aliens;
      var turned := false;
      var i := 0;
      while i < |aliens|
        invariant 0 <= i <= |aliens|
        invariant !turned && aliens == moved && fleetDirection == old(fleetDirection)
        invariant forall j :: 0 <= j < i ==> !atEdge[j]
      {
        if atEdge[i] {
          ChangeFleetDirection();
          turned := true;
          break;
        }
        i := i + 1;
      }
      assert turned <==> exists j :: 0 <= j < |atEdge| && atEdge[j];
      if fleetDropSpeed >= 0 && ReachedBottom(before, alienHeight, screenHeight) {
        DropKeepsBottom(before, aliens, if turned then fleetDropSpeed else 0, alienHeight, screenHeight);
      }
      if shipHit {
        gameOver := true;
      }
      CheckAliensBottom();
    }

    /** `_check_aliens_bottom`: game over once some alien's bottom edge reaches the
        bottom of the screen. */
    method CheckAliensBottom()
      requires Valid()
      modifies this`gameOver
      ensures Valid()
      ensures gameOver == (old(gameOver) || ReachedBottom(aliens, alienHeight, screenHeight))
    {
      var i := 0;
      while i < |aliens|
        invariant 0 <= i <= |aliens|
        invariant gameOver == (old(gameOver) || exists j :: 0 <= j < i && aliens[j].y + alienHeight >= screenHeight)
      {
        if aliens[i].y + alienHeight >= screenHeight {
          gameOver := true;
        }
        i := i + 1;
      }
    }
  }

  /** What a caller can rely on, for example with an 800 x 600 screen, 40 x 40 aliens,
      a 60-pixel ship and a cap of three bullets. */
  method ExampleGameScenario()
  {
    var game := new AlienInvasion(800, 600, 40, 40, 60, 3, 10, 1);
    game.KeyDown(Space, 560);
    game.KeyDown(Space, 560);
    game.KeyDown(Space, 560);
    game.KeyDown(Space, 560);
    assert game.bullets == [560, 560, 560];
    game.KeyDown(Right, 560);
    assert game.movingRight && !game.movingLeft;
    game.KeyUp(Right);
    assert !game.movingRight;
  }
}
