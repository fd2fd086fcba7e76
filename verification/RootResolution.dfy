/** Finding the mount an entity hangs under, on any parent graph, with a memo shared by calls. */
module RootResolution {
  import opened TreeIndex

  /** Parent pointers by entity id; they may dangle or form cycles. */
  type Graph = map<Id, Id>

  /** Following `n` parent pointers from `id` ends at the parentless entity `root`. */
  predicate ClimbsTo(g: Graph, id: Id, root: Id, n: nat)
    decreases n
  {
    && id in g
    && if n == 0 then id == root && g[id] == ZERO else g[id] != ZERO && ClimbsTo(g, g[id], root, n - 1)
  }

  ghost predicate HasRoot(g: Graph, id: Id, root: Id) {
    exists n: nat :: ClimbsTo(g, id, root, n)
  }

  /** The answer of the plain walk: the parentless ancestor, or the zero id when there is none. */
  ghost function PlainRoot(g: Graph, id: Id): (root: Id)
    ensures root != ZERO ==> HasRoot(g, id, root)
  {
    if exists r: Id :: r != ZERO && HasRoot(g, id, r) then var r: Id :| r != ZERO && HasRoot(g, id, r); r
    else ZERO
  }

  lemma {:induction false} RootUnique(g: Graph, id: Id, r: Id, n: nat, s: Id, m: nat)
    requires ClimbsTo(g, id, r, n) && ClimbsTo(g, id, s, m)
    ensures r == s && n == m
    decreases n
  {
    if n > 0 {
      RootUnique(g, g[id], r, n - 1, s, m - 1);
    }
  }

  lemma PlainRootIs(g: Graph, id: Id, root: Id, n: nat)
    requires root != ZERO && ClimbsTo(g, id, root, n)
    ensures PlainRoot(g, id) == root
  {
    assert HasRoot(g, id, root);
    var r := PlainRoot(g, id);
    var m: nat :| ClimbsTo(g, id, r, m);
    RootUnique(g, id, root, n, r, m);
  }

  /** An entity with a parent has its parent's root. */
  lemma PlainRootStep(g: Graph, id: Id)
    requires id in g && g[id] != ZERO
    ensures PlainRoot(g, id) == PlainRoot(g, g[id])
  {
    var r, s := PlainRoot(g, id), PlainRoot(g, g[id]);
    if s != ZERO {
      var n: nat :| ClimbsTo(g, g[id], s, n);
      PlainRootIs(g, id, s, n + 1);
    } else if r != ZERO {
      var n: nat :| ClimbsTo(g, id, r, n);
      PlainRootIs(g, g[id], r, n - 1);
    }
  }

  lemma {:induction false} NoClimbOut(g: Graph, loop: set<Id>, id: Id, root: Id, n: nat)
    requires id in loop && forall i | i in loop :: i in g && g[i] != ZERO && g[i] in loop
    ensures !ClimbsTo(g, id, root, n)
    decreases n
  {
    if n > 0 {
      NoClimbOut(g, loop, g[id], root, n - 1);
    }
  }

  /** Nodes whose parents stay among them have no root. */
  lemma LoopHasNoRoot(g: Graph, loop: set<Id>, id: Id)
    requires id in loop && forall i | i in loop :: i in g && g[i] != ZERO && g[i] in loop
    ensures PlainRoot(g, id) == ZERO
  {
    var r := PlainRoot(g, id);
    if r != ZERO {
      var n: nat :| ClimbsTo(g, id, r, n);
      NoClimbOut(g, loop, id, r, n);
    }
  }

  /** Every memo entry is the plain walk's answer. */
  ghost predicate Sound(g: Graph, memo: map<Id, Id>) {
    forall id | id in memo :: memo[id] == PlainRoot(g, id)
  }

  method Record(memo: map<Id, Id>, chain: seq<Id>, root: Id) returns (r: map<Id, Id>)
    ensures r == memo + (map id | id in chain :: root)
  {
    r := memo;
    for i := 0 to |chain|
      invariant r == memo + (map id | id in chain[..i] :: root)
    {
      assert chain[..i + 1] == chain[..i] + [chain[i]];
      r := r[chain[i] := root];
    }
    assert chain[..|chain|] == chain;
  }

  /** Terminates on every graph, answers as the plain walk does whatever the memo holds, and
      leaves a sound memo that only grew. */
  method ResolveRootId(g: Graph, id: Id, memo: map<Id, Id>) returns (root: Id, found: bool, after: map<Id, Id>)
    requires ZERO !in g && Sound(g, memo)
    ensures root == PlainRoot(g, id) && found == (root != ZERO)
    ensures Sound(g, after) && memo.Keys <= after.Keys
  {
    if id == ZERO {
      return ZERO, false, memo;
    }
    if id in memo {
      return memo[id], memo[id] != ZERO, memo;
    }
    var current, chain: seq<Id>, seen: set<Id> := id, [], {};
    while true
      invariant current != ZERO
      invariant seen == (set i | i in chain) && seen <= g.Keys
      invariant forall i | i in seen :: g[i] != ZERO && (g[i] in seen || g[i] == current)
      invariant forall i | i in seen :: PlainRoot(g, i) == PlainRoot(g, current)
      invariant PlainRoot(g, current) == PlainRoot(g, id)
      decreases g.Keys - seen
    {
      if current in memo {
        root := memo[current];
        break;
      }
      if current in seen {
        root := ZERO;
        LoopHasNoRoot(g, seen, current);
        break;
      }
      seen := seen + {current};
      chain := chain + [current];
      if current !in g {
        root := ZERO;
        break;
      }
      if g[current] == ZERO {
        root := current;
        assert ClimbsTo(g, current, current, 0);
        PlainRootIs(g, current, current, 0);
        break;
      }
      PlainRootStep(g, current);
      current := g[current];
    }
    found := root != ZERO;
    after := Record(memo, chain, root);
  }
}
