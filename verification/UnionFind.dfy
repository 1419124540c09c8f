/** The merged groups of login bundles: an array of parents, flattened by path
    halving as it is searched. */
module UnionFind {

  /** Node i of the forest: rep names its tree's root, and the link from it goes down. */
  ghost predicate Node(g: seq<nat>, rep: seq<nat>, height: seq<nat>, i: nat)
    requires |g| == |rep| == |height| && i < |g|
  {
    && g[i] < |g| && rep[i] < |g| && rep[g[i]] == rep[i]
    && (if g[i] == i then rep[i] == i else rep[i] != i && height[g[i]] < height[i])
    && g[rep[i]] == rep[i]
  }

  ghost predicate Forest(g: seq<nat>, rep: seq<nat>, height: seq<nat>) {
    |g| == |rep| == |height| && forall i :: 0 <= i < |g| ==> Node(g, rep, height, i)
  }

  /** bundle_group: the root of i's tree. Halving leaves every root as it was,
      and the search ends, because each step goes down. */
  method Root(group: array<nat>, at: nat, ghost rep: seq<nat>, ghost height: seq<nat>) returns (r: nat)
    requires at < group.Length && Forest(group[..], rep, height)
    modifies group
    ensures Forest(group[..], rep, height)
    ensures r == rep[at] < group.Length
  {
    var i: nat := at;
    assert Node(group[..], rep, height, i);
    while group[i] != i
      invariant i < group.Length && Forest(group[..], rep, height) && rep[i] == rep[at]
      decreases height[i]
    {
      ghost var g := group[..];
      Halve(g, rep, height, i);
      group[i] := group[group[i]];
      assert group[..] == g[i := g[g[i]]];
      i := group[i];
    }
    assert Node(group[..], rep, height, i);
    r := i;
  }

  lemma Halve(g: seq<nat>, rep: seq<nat>, height: seq<nat>, i: nat)
    requires Forest(g, rep, height) && i < |g| && g[i] != i
    ensures g[i] < |g| && g[g[i]] < |g|
    ensures Forest(g[i := g[g[i]]], rep, height)
    ensures rep[g[g[i]]] == rep[i] && height[g[g[i]]] < height[i]
  {
    assert Node(g, rep, height, i) && Node(g, rep, height, g[i]) && Node(g, rep, height, g[g[i]]);
    var g' := g[i := g[g[i]]];
    forall x | 0 <= x < |g|
      ensures Node(g', rep, height, x)
    {
      assert Node(g, rep, height, x);
    }
  }

  /** The roots once the tree of b hangs below the root of a. */
  function Merged(rep: seq<nat>, a: nat, b: nat): (out: seq<nat>)
    requires a < |rep| && b < |rep|
    ensures |out| == |rep|
    ensures forall x :: 0 <= x < |out| ==> out[x] == if rep[x] == rep[b] then rep[a] else rep[x]
  {
    seq(|rep|, x requires 0 <= x < |rep| => if rep[x] == rep[b] then rep[a] else rep[x])
  }

  function Raised(rep: seq<nat>, height: seq<nat>, a: nat, b: nat): (out: seq<nat>)
    requires a < |rep| == |height| && b < |rep| && rep[a] < |height|
    ensures |out| == |rep|
    ensures forall x :: 0 <= x < |out| ==>
              out[x] == if rep[x] == rep[b] && rep[a] != rep[b] then height[x] + height[rep[a]] + 1 else height[x]
  {
    seq(|rep|, x requires 0 <= x < |rep| =>
      if rep[x] == rep[b] && rep[a] != rep[b] then height[x] + height[rep[a]] + 1 else height[x])
  }

  lemma Link(g: seq<nat>, rep: seq<nat>, height: seq<nat>, a: nat, b: nat)
    requires Forest(g, rep, height) && a < |g| && b < |g|
    ensures rep[b] < |g| && rep[a] < |g|
    ensures Forest(g[rep[b] := rep[a]], Merged(rep, a, b), Raised(rep, height, a, b))
  {
    assert Node(g, rep, height, a) && Node(g, rep, height, b);
    var ra, rb := rep[a], rep[b];
    assert Node(g, rep, height, ra) && Node(g, rep, height, rb);
    var g', rep', height' := g[rb := ra], Merged(rep, a, b), Raised(rep, height, a, b);
    forall x | 0 <= x < |g|
      ensures Node(g', rep', height', x)
    {
      assert Node(g, rep, height, x) && Node(g, rep, height, g[x]);
      assert Node(g, rep, height, rep[x]);
    }
  }

  /** group[bundle_group(group, b)] = bundle_group(group, a). */
  method Merge(group: array<nat>, a: nat, b: nat, ghost rep: seq<nat>, ghost height: seq<nat>)
    returns (ghost rep': seq<nat>, ghost height': seq<nat>)
    requires a < group.Length && b < group.Length && Forest(group[..], rep, height)
    modifies group
    ensures Forest(group[..], rep', height')
    ensures rep' == Merged(rep, a, b)
  {
    assert Node(group[..], rep, height, a) && Node(group[..], rep, height, b);
    var rb := Root(group, b, rep, height);
    var ra := Root(group, a, rep, height);
    ghost var g := group[..];
    Link(g, rep, height, a, b);
    group[rb] := ra;
    assert group[..] == g[rb := ra];
    rep', height' := Merged(rep, a, b), Raised(rep, height, a, b);
  }
}
