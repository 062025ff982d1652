/** `random_int_range` (server/server.c:31-34). The C library's `rand()` is not
    modelled: its result is the parameter `draw`, so every caller says which
    value the generator produced. */
module Random {

  /** `rand() % max`: a value below `max`; a draw already below `max` is kept as is. */
  function RandomIntRange(max: nat, draw: nat): (r: nat)
    requires max > 0
    ensures r < max
    ensures draw < max ==> r == draw
  {
    draw % max
  }
}
