/**
 * How many nodes one merge of `build_huffman_tree` takes. The first merge of an r-ary tree (r > 2)
 * takes the group size s in [2, r] with (N - s) divisible by r - 1, as in Huffman's 1952 paper, so
 * that every later merge can take exactly r nodes and the last merge leaves one node.
 */
module Grouping {

  /** The one size in [2, radix] congruent to `count` modulo radix - 1, in closed form. */
  function FirstGroup(count: nat, radix: nat): (s: nat)
    requires radix > 2
    ensures 2 <= s <= radix
  {
    2 + (count - 2) % (radix - 1)
  }

  /**
   * The number of nodes the merge at `level` pops from a working list of `count` nodes
   * (huffman.py lines 40-54): the first group at level 0 when radix > 2, otherwise radix.
   */
  function GroupSize(level: nat, count: nat, radix: nat): (g: nat)
    requires radix >= 2
  {
    if level == 0 && radix > 2 then FirstGroup(count, radix) else radix
  }

  lemma DivMod(x: int, d: int)
    requires d > 0
    ensures x == d * (x / d) + x % d && 0 <= x % d < d
  {
  }

  lemma MulDist(d: int, a: int, b: int)
    ensures d * (a - b) == d * a - d * b
  {
  }

  /** A nonzero multiple of `d` is at least `d` away from zero. */
  lemma MulAway(d: int, k: int)
    requires d > 0
    ensures k >= 1 ==> d * k >= d
    ensures k <= -1 ==> d * k <= -d
  {
  }

  /** Every multiple of `d` leaves no remainder. */
  lemma MulMod(d: int, q: int)
    requires d > 0
    ensures (d * q) % d == 0
  {
    var x := d * q;
    var k := q - x / d;
    DivMod(x, d);
    MulDist(d, q, x / d);
    MulAway(d, k);
  }

  /** A multiple of `d` strictly between -d and d is zero. */
  lemma SmallMultiple(z: int, d: int)
    requires d > 0 && -d < z < d && z % d == 0
    ensures z == 0
  {
    DivMod(z, d);
    MulAway(d, z / d);
  }

  /** Differences of numbers with the same remainder are multiples. */
  lemma SameRemainder(x: int, y: int, d: int)
    requires d > 0 && x % d == y % d
    ensures (x - y) % d == 0
  {
    DivMod(x, d);
    DivMod(y, d);
    MulDist(d, x / d, y / d);
    MulMod(d, x / d - y / d);
  }

  /** The closed form has the defining properties of the first group size. */
  lemma FirstGroupFits(count: nat, radix: nat)
    requires radix > 2
    ensures 2 <= FirstGroup(count, radix) <= radix
    ensures (count - FirstGroup(count, radix)) % (radix - 1) == 0
    ensures count >= 2 ==> FirstGroup(count, radix) <= count
  {
    var d := radix - 1;
    DivMod(count - 2, d);
    MulMod(d, (count - 2) / d);
  }

  /**
   * The first group size is the only size in [2, radix] that leaves a multiple of radix - 1:
   * whichever order the sizes are tried in, the same one is found.
   */
  lemma FirstGroupUnique(count: nat, radix: nat, s: int)
    requires radix > 2 && 2 <= s <= radix && (count - s) % (radix - 1) == 0
    ensures s == FirstGroup(count, radix)
  {
    var f := FirstGroup(count, radix);
    FirstGroupFits(count, radix);
    SameRemainder(count - s, count - f, radix - 1);
    SmallMultiple(f - s, radix - 1);
  }

  /**
   * A working list of `count` nodes that merges of `radix` nodes take down to exactly one node:
   * count is 1 + k (radix - 1) for some k >= 0, each such merge taking radix - 1 nodes away.
   */
  predicate Reducible(count: int, radix: nat)
    requires radix >= 2
    decreases if count <= 1 then 0 else count
  {
    if count <= 1 then count == 1 else Reducible(count - (radix - 1), radix)
  }

  /** `Reducible` is the remainder condition of Huffman's construction. */
  lemma {:induction false} ReducibleMod(count: int, radix: nat)
    requires radix >= 2
    ensures Reducible(count, radix) <==> count >= 1 && (count - 1) % (radix - 1) == 0
    decreases if count <= 1 then 0 else count
  {
    var d := radix - 1;
    if count > 1 {
      ReducibleMod(count - d, radix);
      DivMod(count - 1, d);
      DivMod(count - 1 - d, d);
      if (count - 1) % d == 0 {
        MulDist(d, (count - 1) / d, 1);
        MulMod(d, (count - 1) / d - 1);
        if count - d < 1 {
          SmallMultiple(count - 1, d);
        }
      }
      if count - d >= 1 && (count - 1 - d) % d == 0 {
        MulDist(d, (count - 1 - d) / d, -1);
        MulMod(d, (count - 1 - d) / d + 1);
      }
    }
  }

  /** A reducible list of more than one node holds at least radix nodes, and one merge of radix keeps it reducible. */
  lemma LaterGroupFits(count: nat, radix: nat)
    requires radix >= 2 && count >= 2 && Reducible(count, radix)
    ensures radix <= count && Reducible(count - radix + 1, radix)
  {
    ReducibleMod(count - (radix - 1), radix);
  }

  /**
   * Each merge fits: the group has 2..radix nodes, no more than the list holds, and after the
   * merge, with the parent put back, the list is reducible.
   */
  lemma GroupFits(level: nat, count: nat, radix: nat)
    requires radix >= 2 && count >= 2 && (level > 0 ==> Reducible(count, radix))
    ensures var g := GroupSize(level, count, radix);
      2 <= g <= radix && g <= count && Reducible(count - g + 1, radix)
  {
    if level == 0 && radix > 2 {
      FirstGroupFits(count, radix);
      ReducibleMod(count - FirstGroup(count, radix) + 1, radix);
    } else if level == 0 {
      ReducibleMod(count - 1, radix);
    } else {
      LaterGroupFits(count, radix);
    }
  }

  /**
   * The scan of lines 41-42: try s = radix, radix - 1, ..., 2 and stop at the first s that
   * leaves a multiple of radix - 1. The scan always stops inside the range, at the closed form.
   */
  method FirstGroupSize(count: nat, radix: nat) returns (s: nat)
    requires radix > 2
    ensures 2 <= s <= radix && (count - s) % (radix - 1) == 0
    ensures count >= 2 ==> s <= count
    ensures s == FirstGroup(count, radix)
  {
    FirstGroupFits(count, radix);
    s := radix;
    while (count - s) % (radix - 1) != 0
      invariant FirstGroup(count, radix) <= s <= radix
      decreases s
    {
      s := s - 1;
    }
    FirstGroupUnique(count, radix, s);
  }
}
