/** The server's registry of games (`all_games`, server/server.c:114) and
    the bookkeeping around it: creating a game (lines 176-186), the lookups
    `find_game` and `find_user` (lines 692-713), and the serve-or-park
    decision of `handle_update_game` (lines 864-887). */
module Server {
  import opened Util
  import World
  import MazeGen
  import Scramble
  import MazeWalls

  /** What `handle_update_game` does with a request. */
  datatype UpdateResult =
    | UserNotFound       // "user ... not found", a 400 response
    | Parked             // queued on the game's pending updates
    | Served(user: World.User)  // answered at once with a fresh view

  /** `find_game`: the first game in `games` with the given name. */
  function FindGame(games: seq<World.Game>, name: string): (r: Option<World.Game>)
    ensures r.Some? ==> r.value in games && r.value.name == name
    ensures r.None? <==> forall g :: g in games ==> g.name != name
    ensures r.Some? ==> exists i :: 0 <= i < |games| && games[i] == r.value &&
                                    forall k :: 0 <= k < i ==> games[k].name != name
  {
    match FirstMatch(games, (g: World.Game) => g.name == name)
    case None => None
    case Some(i) => Some(games[i])
  }

  /** No user of game `g` has the given name. */
  predicate NoUserNamed(g: World.Game, name: string)
    reads g
  {
    forall v :: v in g.users ==> v.name != name
  }

  /** `find_user`: the first user with the given name, searching the games
      in order and each game's users in order; the game is the one the user
      was found in. */
  function FindUser(games: seq<World.Game>, name: string): (r: Option<(World.Game, World.User)>)
    reads games
    ensures r.Some? ==> r.value.0 in games && r.value.1 in r.value.0.users && r.value.1.name == name
    ensures r.None? <==> forall g :: g in games ==> NoUserNamed(g, name)
  {
    if games == [] then None
    else
      match FirstMatch(games[0].users, (u: World.User) => u.name == name)
      case Some(k) => Some((games[0], games[0].users[k]))
      case None => FindUser(games[1..], name)
  }

  /** The user `find_user` returns belongs to the first game that has a
      user of that name, and is the first such user of that game. */
  lemma {:induction false} FindUserFindsFirst(games: seq<World.Game>, name: string)
    requires FindUser(games, name).Some?
    ensures exists i :: 0 <= i < |games| && games[i] == FindUser(games, name).value.0 &&
              forall k :: 0 <= k < i ==> NoUserNamed(games[k], name)
    ensures var (g, u) := FindUser(games, name).value;
            exists j :: 0 <= j < |g.users| && g.users[j] == u &&
              forall m :: 0 <= m < j ==> g.users[m].name != name
  {
    var r := FindUser(games, name);
    match FirstMatch(games[0].users, (u: World.User) => u.name == name)
    case Some(k) =>
      assert games[0] == r.value.0;
    case None =>
      assert NoUserNamed(games[0], name);
      assert r == FindUser(games[1..], name);
      FindUserFindsFirst(games[1..], name);
      var i :| 0 <= i < |games[1..]| && games[1..][i] == r.value.0 &&
               forall k :: 0 <= k < i ==> NoUserNamed(games[1..][k], name);
      assert games[i + 1] == r.value.0;
      assert forall k :: 1 <= k < i + 1 ==> games[k] == games[1..][k - 1];
  }

  /** The server's global state. */
  class Registry {
    /** `all_games`, newest first. */
    var games: seq<World.Game>

    constructor ()
      ensures games == []
    {
      games := [];
    }

    /** `create_game` (lines 176-319): a 32 by 32 wrapping universe pushed
        onto the front of the games, its maze carved by the generator `maze`
        with the results of `rand()` given as `draws`. The game's two
        bitmaps are the generator's: every wall the generator never
        enqueued stands, and when the generator completes, exactly the
        enqueued walls are down. */
    method CreateGame(name: string, draws: seq<nat>)
      returns (g: World.Game, maze: MazeGen.Generator, o: MazeGen.Outcome,
               ghost list0: seq<int>, ghost labels0: seq<int>, ghost rings0: map<int, seq<int>>)
      requires |draws| >= 4 * (32 * 32)
      modifies this
      ensures fresh(g) && games == [g] + old(games)
      ensures g.Valid() && g.name == name && g.width == 32 && g.height == 32 && g.wrap
      ensures g.users == [] && g.latestUpdate == 0 && g.pendingUpdates == []
      ensures forall i :: 0 <= i < |g.cells| ==> g.cells[i] == World.EmptyCell
      ensures g.hWalls.Length == 32 * 32 && g.vWalls.Length == 32 * 32
      ensures fresh(maze) && g.hWalls == maze.hWalls && g.vWalls == maze.vWalls
      ensures maze.width == 32 && maze.height == 32 && maze.wrap
      ensures maze.Shape() && maze.ListOk() && maze.BitsOk()
      ensures maze.enqueued == MazeWalls.Candidates(32, true, Scramble.Shuffle(Scramble.Identity(2 * (32 * 32)), draws, 2 * (32 * 32))[..32 * 32])
      ensures |maze.enqueued| <= 32 * 32
      ensures forall e :: 0 <= e < 2 * (32 * 32) && e !in maze.enqueued ==> maze.WallBit(e) == 1
      ensures o == MazeGen.Done ==>
        maze.walls.list == [] && forall e :: 0 <= e < 2 * (32 * 32) ==> (maze.WallBit(e) == 0 <==> e in maze.enqueued)
      ensures o != MazeGen.Done ==>
        && MazeGen.FaultFrom(32, 32, true, o, list0, labels0, rings0)
        && MazeGen.FaultLeaves(32, 32, o, list0, labels0, rings0, maze.walls.list, maze.sets.setNumber[..],
                               maze.sets.nextInSet[..], maze.sets.rings)
    {
      maze, o, list0, labels0, rings0 := MazeGen.GenerateMaze(32, 32, true, draws);
      g := new World.Game(name, 32, 32, true, maze.hWalls, maze.vWalls);
      games := [g] + games;
    }

    /** The decision of `handle_update_game`: an unknown user gets an error;
        a user that has already seen the game's latest frame is parked on
        the front of the game's pending updates; any other user is served at
        once, and nothing is recorded (its `last_update` stays as it was). */
    method HandleUpdateGame(userName: string, request: nat) returns (r: UpdateResult)
      modifies games
      ensures games == old(games)
      ensures old(FindUser(games, userName)).None? <==> r == UserNotFound
      ensures old(FindUser(games, userName)).Some? ==>
        var (g, u) := old(FindUser(games, userName)).value;
        && (r == Parked <==> u.lastUpdate == old(g.latestUpdate))
        && (r == Parked ==> g.pendingUpdates == [World.PendingUpdate(u, request)] + old(g.pendingUpdates))
        && (r != Parked ==> r == Served(u) && g.pendingUpdates == old(g.pendingUpdates))
      ensures forall h :: h in games ==>
        h.users == old(h.users) && h.cells == old(h.cells) && h.latestUpdate == old(h.latestUpdate)
      ensures forall h :: h in games && (old(FindUser(games, userName)).None? || h != old(FindUser(games, userName)).value.0) ==>
        h.pendingUpdates == old(h.pendingUpdates)
    {
      var found := FindUser(games, userName);
      if found.None? {
        return UserNotFound;
      }
      var (g, u) := found.value;
      if u.lastUpdate == g.latestUpdate {
        g.Park(u, request);
        r := Parked;
      } else {
        r := Served(u);
      }
    }
  }
}
