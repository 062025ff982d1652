/** The game world of the snipez server (server/server.c:18-113, 320-417):
    the entities that occupy tiles, the per-cell lists the server keeps them
    in, the occupancy query, and placing a new user.

    Positions are tile coordinates; a cell of the maze is `CELL_SIZE` tiles
    square. The server threads users, bullets and enemies through intrusive
    linked lists; the model keeps each list as a sequence in list order. */
module World {
  import opened Util
  import opened Random
  import MazeWalls

  /** Size of a tile in pixels. */
  const TILE_SIZE: nat := 8
  /** Size of a maze cell in tiles. */
  const CELL_SIZE: nat := 20

  /** A player. `width`/`height` are the canvas size in pixels;
      `lastUpdate` is the number of the last frame sent to the player. */
  datatype User = User(name: string, x: nat, y: nat, width: nat, height: nat,
                       moveX: int, moveY: int, lastUpdate: nat)

  datatype Enemy = Enemy(x: nat, y: nat)

  datatype Bullet = Bullet(x: nat, y: nat, deltaX: int, deltaY: int)

  /** An enemy generator; it covers the 2 by 2 tiles from (x, y). */
  datatype Generator = Generator(x: nat, y: nat)

  /** What one maze cell holds, each list in the order the server walks it. */
  datatype Cell = Cell(bullets: seq<Bullet>, enemies: seq<Enemy>, users: seq<User>, generator: Option<Generator>)

  /** A long-poll request parked until the next frame: the user, and the
      request as an opaque handle. */
  datatype PendingUpdate = PendingUpdate(user: User, request: nat)

  /** `OccType` (lines 321-329). */
  datatype OccType = OccEmpty | OccWall | OccUser | OccEnemy | OccBullet | OccGenerator

  /** What `*ptr_out` points at after `get_occupancy`. */
  datatype Occupant = UserOcc(user: User) | EnemyOcc(enemy: Enemy) | BulletOcc(bullet: Bullet) | GeneratorOcc(generator: Generator)

  /** The cell with no entities: `dsk_malloc0` of a `Cell`. */
  const EmptyCell: Cell := Cell([], [], [], None)

  /** Tile (x, y) lies inside a `w` by `h` cell universe. */
  predicate InUniverse(w: nat, h: nat, x: nat, y: nat)
  {
    x < CELL_SIZE * w && y < CELL_SIZE * h
  }

  /** Index of the cell holding tile (x, y) (lines 350 and 390-392): cells
      are numbered row by row, so the index recovers the tile's cell column
      and cell row whenever the tile lies within the `w` cell columns. */
  function CellIndex(w: nat, x: nat, y: nat): (r: nat)
    ensures x < CELL_SIZE * w ==> r % w == x / CELL_SIZE && r / w == y / CELL_SIZE
  {
    if x < CELL_SIZE * w then
      DivUnique(x / CELL_SIZE + (y / CELL_SIZE) * w, w, y / CELL_SIZE, x / CELL_SIZE);
      x / CELL_SIZE + (y / CELL_SIZE) * w
    else
      x / CELL_SIZE + (y / CELL_SIZE) * w
  }

  /** The cell of a tile inside the universe exists. */
  lemma CellIndexInRange(w: nat, h: nat, x: nat, y: nat)
    requires InUniverse(w, h, x, y)
    ensures CellIndex(w, x, y) < w * h
    ensures CellIndex(w, x, y) % w == x / CELL_SIZE && CellIndex(w, x, y) / w == y / CELL_SIZE
  {
    MazeWalls.CellAt(w, h, x / CELL_SIZE, y / CELL_SIZE);
  }

  predicate UserAt(c: Cell, x: nat, y: nat)
  {
    exists u :: u in c.users && u.x == x && u.y == y
  }

  /** The generator of the cell covers (x, y) (lines 357-359): its
      footprint is the 2 by 2 square of tiles whose corner it stands on. */
  predicate GeneratorCovers(c: Cell, x: nat, y: nat)
    ensures GeneratorCovers(c, x, y) <==>
      c.generator.Some? &&
      c.generator.value.x <= x < c.generator.value.x + 2 &&
      c.generator.value.y <= y < c.generator.value.y + 2
  {
    c.generator.Some? &&
    (c.generator.value.x == x || c.generator.value.x + 1 == x) &&
    (c.generator.value.y == y || c.generator.value.y + 1 == y)
  }

  predicate BulletAt(c: Cell, x: nat, y: nat)
  {
    exists b :: b in c.bullets && b.x == x && b.y == y
  }

  predicate EnemyAt(c: Cell, x: nat, y: nat)
  {
    exists e :: e in c.enemies && e.x == x && e.y == y
  }

  /** `get_occupancy` (lines 340-377): a tile outside the universe is a wall
      (whether or not the universe wraps); inside, the tile's cell is
      searched for a user, then the generator's footprint, then a bullet,
      then an enemy, and the first hit is reported with its entity. Walls of
      the maze play no part. */
  function GetOccupancy(w: nat, h: nat, cells: seq<Cell>, x: nat, y: nat): (r: (OccType, Option<Occupant>))
    requires |cells| == w * h
    ensures r.0 == OccWall <==> !InUniverse(w, h, x, y)
    ensures r.1.Some? <==> r.0 in {OccUser, OccGenerator, OccBullet, OccEnemy}
    ensures InUniverse(w, h, x, y) ==>
      CellIndex(w, x, y) < |cells| &&
      var c := cells[CellIndex(w, x, y)];
      && (r.0 == OccUser <==> UserAt(c, x, y))
      && (r.0 == OccGenerator <==> !UserAt(c, x, y) && GeneratorCovers(c, x, y))
      && (r.0 == OccBullet <==> !UserAt(c, x, y) && !GeneratorCovers(c, x, y) && BulletAt(c, x, y))
      && (r.0 == OccEnemy <==> !UserAt(c, x, y) && !GeneratorCovers(c, x, y) && !BulletAt(c, x, y) && EnemyAt(c, x, y))
      && (r.0 == OccEmpty <==> !UserAt(c, x, y) && !GeneratorCovers(c, x, y) && !BulletAt(c, x, y) && !EnemyAt(c, x, y))
    ensures r.0 == OccUser ==>
      (r.1.value.UserOcc? && r.1.value.user in cells[CellIndex(w, x, y)].users &&
       r.1.value.user.x == x && r.1.value.user.y == y)
    ensures r.0 == OccUser ==>
      var us := cells[CellIndex(w, x, y)].users;
      exists i :: 0 <= i < |us| && r.1.value.user == us[i] &&
        forall k :: 0 <= k < i ==> !(us[k].x == x && us[k].y == y)
    ensures r.0 == OccGenerator ==> r.1 == Some(GeneratorOcc(cells[CellIndex(w, x, y)].generator.value))
    ensures r.0 == OccBullet ==>
      (r.1.value.BulletOcc? && r.1.value.bullet in cells[CellIndex(w, x, y)].bullets &&
       r.1.value.bullet.x == x && r.1.value.bullet.y == y)
    ensures r.0 == OccBullet ==>
      var bs := cells[CellIndex(w, x, y)].bullets;
      exists i :: 0 <= i < |bs| && r.1.value.bullet == bs[i] &&
        forall k :: 0 <= k < i ==> !(bs[k].x == x && bs[k].y == y)
    ensures r.0 == OccEnemy ==>
      (r.1.value.EnemyOcc? && r.1.value.enemy in cells[CellIndex(w, x, y)].enemies &&
       r.1.value.enemy.x == x && r.1.value.enemy.y == y)
    ensures r.0 == OccEnemy ==>
      var es := cells[CellIndex(w, x, y)].enemies;
      exists i :: 0 <= i < |es| && r.1.value.enemy == es[i] &&
        forall k :: 0 <= k < i ==> !(es[k].x == x && es[k].y == y)
  {
    if !InUniverse(w, h, x, y) then (OccWall, None)
    else
      CellIndexInRange(w, h, x, y);
      var c := cells[CellIndex(w, x, y)];
      var ui := FirstMatch(c.users, (u: User) => u.x == x && u.y == y);
      if ui.Some? then (OccUser, Some(UserOcc(c.users[ui.value])))
      else if GeneratorCovers(c, x, y) then (OccGenerator, Some(GeneratorOcc(c.generator.value)))
      else
        var bi := FirstMatch(c.bullets, (b: Bullet) => b.x == x && b.y == y);
        if bi.Some? then (OccBullet, Some(BulletOcc(c.bullets[bi.value])))
        else
          var ei := FirstMatch(c.enemies, (e: Enemy) => e.x == x && e.y == y);
          if ei.Some? then (OccEnemy, Some(EnemyOcc(c.enemies[ei.value])))
          else (OccEmpty, None)
  }

  /** The query depends only on the cell of the tile: changing any other
      cell leaves its answer as it was. */
  lemma OccupancyIsLocal(w: nat, h: nat, cells: seq<Cell>, i: nat, c: Cell, x: nat, y: nat)
    requires |cells| == w * h && i < |cells| && InUniverse(w, h, x, y) && CellIndex(w, x, y) != i
    ensures GetOccupancy(w, h, cells[i := c], x, y) == GetOccupancy(w, h, cells, x, y)
  {
    CellIndexInRange(w, h, x, y);
    assert cells[i := c][CellIndex(w, x, y)] == cells[CellIndex(w, x, y)];
  }

  /** A game (lines 96-113) as far as the modelled operations touch it. */
  class Game {
    const name: string
    /** `universe_width`, `universe_height`, in cells. */
    const width: nat
    const height: nat
    const wrap: bool
    const hWalls: array<byte>
    const vWalls: array<byte>
    /** `users`, threaded through `next_in_game`, newest first. */
    var users: seq<User>
    var cells: seq<Cell>
    var latestUpdate: nat
    var pendingUpdates: seq<PendingUpdate>

    ghost predicate Valid()
      reads this
    {
      0 < width && 0 < height && |cells| == width * height
    }

    /** A game with the given maze and no entities, at frame 0. */
    constructor (name: string, w: nat, h: nat, wrap: bool, hWalls: array<byte>, vWalls: array<byte>)
      requires 0 < w && 0 < h
      ensures Valid()
      ensures this.name == name && width == w && height == h && this.wrap == wrap
      ensures this.hWalls == hWalls && this.vWalls == vWalls
      ensures users == [] && latestUpdate == 0 && pendingUpdates == []
      ensures forall i :: 0 <= i < |cells| ==> cells[i] == EmptyCell
    {
      this.name, width, height, this.wrap := name, w, h, wrap;
      this.hWalls, this.vWalls := hWalls, vWalls;
      users := [];
      cells := seq(w * h, _ => EmptyCell);
      latestUpdate := 0;
      pendingUpdates := [];
    }

    /** The tile drawn by the `k`-th round of the placement loop (lines
        388-393): two `random_int_range` calls. */
    function DrawnTile(draws: seq<nat>, k: nat): (t: (nat, nat))
      requires 0 < width && 0 < height && 2 * k + 1 < |draws|
      ensures InUniverse(width, height, t.0, t.1)
    {
      (RandomIntRange(width * CELL_SIZE, draws[2 * k]), RandomIntRange(height * CELL_SIZE, draws[2 * k + 1]))
    }

    /** `create_user` (lines 380-417): draw random tiles until one is empty,
        then make a user there, facing no direction and with no frame seen
        (`last_update` is `(unsigned) -1`), put it into its cell and onto the
        front of the game's users. As written, the user becomes the cell's
        only user: whoever was listed there before is dropped from the cell.
        The placement loop stops with no user when `draws` runs out. */
    method CreateUser(userName: string, canvasWidth: nat, canvasHeight: nat, draws: seq<nat>)
      returns (u: Option<User>, tries: nat)
      requires Valid()
      modifies this
      ensures Valid()
      ensures 2 * tries <= |draws|
      ensures forall k :: 0 <= k < tries ==>
        GetOccupancy(width, height, old(cells), DrawnTile(draws, k).0, DrawnTile(draws, k).1).0 != OccEmpty
      ensures u.None? ==> 2 * tries + 1 >= |draws| && users == old(users) && cells == old(cells)
      ensures u.Some? ==>
        && 2 * tries + 1 < |draws|
        && var (x, y) := DrawnTile(draws, tries);
        && GetOccupancy(width, height, old(cells), x, y).0 == OccEmpty
        && u.value == User(userName, x, y, canvasWidth, canvasHeight, 0, 0, U32_MODULUS - 1)
        && users == [u.value] + old(users)
        && CellIndex(width, x, y) < |cells|
        && cells == old(cells)[CellIndex(width, x, y) := old(cells)[CellIndex(width, x, y)].(users := [u.value])]
      ensures latestUpdate == old(latestUpdate) && pendingUpdates == old(pendingUpdates)
    {
      tries := 0;
      var x, y;
      while true
        invariant 2 * tries <= |draws|
        invariant forall k :: 0 <= k < tries ==>
          GetOccupancy(width, height, cells, DrawnTile(draws, k).0, DrawnTile(draws, k).1).0 != OccEmpty
        decreases |draws| - 2 * tries
      {
        if 2 * tries + 1 >= |draws| {
          return None, tries;
        }
        x := RandomIntRange(width * CELL_SIZE, draws[2 * tries]);
        y := RandomIntRange(height * CELL_SIZE, draws[2 * tries + 1]);
        if GetOccupancy(width, height, cells, x, y).0 == OccEmpty {
          break;
        }
        tries := tries + 1;
      }
      CellIndexInRange(width, height, x, y);
      var ci := x / CELL_SIZE + (y / CELL_SIZE) * width;
      var user := User(userName, x, y, canvasWidth, canvasHeight, 0, 0, U32(-1));
      cells := cells[ci := cells[ci].(users := [user])];
      users := [user] + users;
      u := Some(user);
    }

    /** The serve-or-park step of `handle_update_game` for a user that has
        already seen the latest frame (lines 880-884): the request goes onto
        the front of the pending list. */
    method Park(user: User, request: nat)
      modifies this
      ensures pendingUpdates == [PendingUpdate(user, request)] + old(pendingUpdates)
      ensures users == old(users) && cells == old(cells) && latestUpdate == old(latestUpdate)
    {
      pendingUpdates := [PendingUpdate(user, request)] + pendingUpdates;
    }
  }

  /** After `create_user` places `u` on an empty tile, the query at that
      tile reports `u`. */
  lemma PlacedUserIsFound(w: nat, h: nat, cells: seq<Cell>, u: User)
    requires |cells| == w * h && InUniverse(w, h, u.x, u.y)
    ensures CellIndex(w, u.x, u.y) < |cells|
    ensures var ci := CellIndex(w, u.x, u.y);
      GetOccupancy(w, h, cells[ci := cells[ci].(users := [u])], u.x, u.y) == (OccUser, Some(UserOcc(u)))
  {
    CellIndexInRange(w, h, u.x, u.y);
  }

  /** The overwritten cell head: a user `v` that stood on another tile of the
      same cell is no longer found by the query once `u` is placed. */
  lemma PlacementHidesCellmates(w: nat, h: nat, cells: seq<Cell>, u: User, v: User)
    requires |cells| == w * h && InUniverse(w, h, u.x, u.y)
    requires CellIndex(w, u.x, u.y) < |cells| && v in cells[CellIndex(w, u.x, u.y)].users
    requires InUniverse(w, h, v.x, v.y) && CellIndex(w, v.x, v.y) == CellIndex(w, u.x, u.y)
    requires (v.x, v.y) != (u.x, u.y)
    ensures var ci := CellIndex(w, u.x, u.y);
      GetOccupancy(w, h, cells, v.x, v.y).0 == OccUser &&
      GetOccupancy(w, h, cells[ci := cells[ci].(users := [u])], v.x, v.y).0 != OccUser
  {
    var ci := CellIndex(w, u.x, u.y);
    assert UserAt(cells[ci], v.x, v.y);
    var c' := cells[ci].(users := [u]);
    assert !UserAt(c', v.x, v.y);
  }
}
