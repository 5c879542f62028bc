/** Walks of unit steps over open cells: how the player moves through a maze,
    and what "connected to the start" means for the generator. */
module Paths {
  import opened Cells

  /** `b` is one cell up, down, left or right of `a`. */
  predicate UnitStep(a: Pos, b: Pos) {
    || (a.x == b.x && (b.y == a.y + 1 || b.y == a.y - 1))
    || (a.y == b.y && (b.x == a.x + 1 || b.x == a.x - 1))
  }

  /** A non-empty walk of unit steps that stays on open cells of `g`. */
  predicate IsPath(g: Grid, path: seq<Pos>) {
    && |path| > 0
    && (forall i :: 0 <= i < |path| ==> IsOpen(g, path[i]))
    && (forall i :: 0 <= i < |path| - 1 ==> UnitStep(path[i], path[i + 1]))
  }

  /** Some walk over open cells of `g` leads from `a` to `b`. */
  ghost predicate Reachable(g: Grid, a: Pos, b: Pos) {
    exists path :: IsPath(g, path) && path[0] == a && path[|path| - 1] == b
  }

  lemma ReachableFromItself(g: Grid, a: Pos)
    requires IsOpen(g, a)
    ensures Reachable(g, a, a)
  {
    assert IsPath(g, [a]);
  }

  /** Opening walls never disconnects anything. */
  lemma ReachableSurvivesOpening(g: Grid, h: Grid, a: Pos)
    requires Opens(g, h)
    ensures forall b :: Reachable(g, a, b) ==> Reachable(h, a, b)
  {
    forall b | Reachable(g, a, b) ensures Reachable(h, a, b) {
      var path :| IsPath(g, path) && path[0] == a && path[|path| - 1] == b;
      assert IsPath(h, path);
    }
  }

  /** A reachable cell's open neighbour is reachable too. */
  lemma ReachableStep(g: Grid, a: Pos, b: Pos, c: Pos)
    requires Reachable(g, a, b)
    requires IsOpen(g, c) && UnitStep(b, c)
    ensures Reachable(g, a, c)
  {
    var path :| IsPath(g, path) && path[0] == a && path[|path| - 1] == b;
    var longer := path + [c];
    assert forall i :: 0 <= i < |longer| - 1 ==> UnitStep(longer[i], longer[i + 1]) by {
      forall i | 0 <= i < |longer| - 1 ensures UnitStep(longer[i], longer[i + 1]) {
        if i < |path| - 1 {
          assert longer[i] == path[i] && longer[i + 1] == path[i + 1];
        } else {
          assert longer[i] == b && longer[i + 1] == c;
        }
      }
    }
    assert IsPath(g, longer);
    assert longer[0] == a && longer[|longer| - 1] == c;
  }
}
