/**
 Recursive walks over a finite reference graph: the recursion behind `get` (variable references) and
 behind `parse_all` (include files). A name that is not a node is a leaf: the code stops there.
 */
module Reachability {

  type Graph = map<string, set<string>>

  /** A recursive walk from `x` needs at most `depth` nested calls on nodes of the graph. */
  ghost predicate Grounded(g: Graph, x: string, depth: nat)
    decreases depth
  {
    x in g ==> depth > 0 && forall y :: y in g[x] ==> Grounded(g, y, depth - 1)
  }

  /** Some nesting depth suffices; otherwise the code recurses without end. */
  ghost predicate Terminates(g: Graph, x: string) {
    exists depth: nat :: Grounded(g, x, depth)
  }

  ghost predicate Walk(g: Graph, p: seq<string>) {
    && (forall i :: 0 <= i < |p| ==> p[i] in g)
    && (forall i :: 0 < i < |p| ==> p[i] in g[p[i - 1]])
  }

  ghost predicate WalkFrom(g: Graph, x: string, p: seq<string>) {
    |p| > 0 && p[0] == x && Walk(g, p)
  }

  /** No walk from `x` meets a node twice. */
  ghost predicate NoCycleFrom(g: Graph, x: string) {
    forall p, i, j :: WalkFrom(g, x, p) && 0 <= i < j < |p| ==> p[i] != p[j]
  }

  lemma {:induction false} GroundedBoundsWalks(g: Graph, x: string, depth: nat, p: seq<string>)
    requires Grounded(g, x, depth) && WalkFrom(g, x, p)
    ensures |p| <= depth
    decreases depth
  {
    if |p| > 1 {
      GroundedBoundsWalks(g, p[1], depth - 1, p[1..]);
    }
  }

  lemma {:induction false} BoundedWalksGround(g: Graph, x: string, depth: nat)
    requires forall p :: WalkFrom(g, x, p) ==> |p| <= depth
    ensures Grounded(g, x, depth)
    decreases depth
  {
    if x in g {
      assert WalkFrom(g, x, [x]);
      forall y | y in g[x] ensures Grounded(g, y, depth - 1) {
        forall p | WalkFrom(g, y, p) ensures |p| <= depth - 1 {
          assert WalkFrom(g, x, [x] + p);
        }
        BoundedWalksGround(g, y, depth - 1);
      }
    }
  }

  /** Distinct nodes fit in the graph. */
  lemma {:induction false} DistinctFits(p: seq<string>, s: set<string>)
    requires forall i :: 0 <= i < |p| ==> p[i] in s
    requires forall i, j :: 0 <= i < j < |p| ==> p[i] != p[j]
    ensures |p| <= |s|
  {
    if p == [] {
    } else {
      DistinctFits(p[1..], s - {p[0]});
    }
  }

  /** Going round a repetition once more gives a longer walk with the same repetition. */
  lemma {:induction false} CyclePumps(g: Graph, x: string, p: seq<string>, i: nat, j: nat, n: nat)
      returns (q: seq<string>)
    requires WalkFrom(g, x, p) && i < j < |p| && p[i] == p[j]
    ensures WalkFrom(g, x, q) && |q| > n
    decreases n - |p|
  {
    q := p[..j] + p[i..];
    if |q| <= n {
      q := CyclePumps(g, x, q, i, j, n);
    }
  }

  lemma GroundedForbidsCycles(g: Graph, x: string, depth: nat)
    requires Grounded(g, x, depth)
    ensures NoCycleFrom(g, x)
  {
    if p, i, j :| WalkFrom(g, x, p) && 0 <= i < j < |p| && p[i] == p[j] {
      var q := CyclePumps(g, x, p, i, j, depth);
      GroundedBoundsWalks(g, x, depth, q);
    }
  }

  /**
   The walk from `x` ends exactly when no cycle can be reached from `x`, and then the nesting never
   exceeds the number of nodes.
   */
  lemma GroundedExactlyWhenAcyclic(g: Graph, x: string)
    ensures Terminates(g, x) <==> NoCycleFrom(g, x)
    ensures NoCycleFrom(g, x) ==> Grounded(g, x, |g|)
  {
    if NoCycleFrom(g, x) {
      forall p | WalkFrom(g, x, p) ensures |p| <= |g| {
        DistinctFits(p, g.Keys);
      }
      BoundedWalksGround(g, x, |g|);
    }
    if Terminates(g, x) {
      var depth: nat :| Grounded(g, x, depth);
      GroundedForbidsCycles(g, x, depth);
    }
  }
}
