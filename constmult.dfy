/**
 * The addition-chain search of constmult/constmult.c: a table indexed by
 * value, 0 .. 2 * target, is filled round by round with nodes that record
 * how each value is computed from earlier ones by one shift, addition or
 * subtraction, and how many adders or subtractors that takes. Shifts are
 * free. The search stops once the target value has a node.
 */
module ConstMult {

  /**
   * A node of the table. The source allocates it once and never changes its
   * fields afterwards (the `visited` flag, used only while printing, is not
   * part of this model), so they are constant here.
   */
  class Node {
    const value: nat
    const bigPrev: Node?
    const smallPrev: Node?
    /** The number of adders or subtractors needed to compute value. */
    const numOperations: nat
    /** Whether value is bigPrev - smallPrev rather than bigPrev + smallPrev. */
    const subtract: bool

    constructor (value: nat, bigPrev: Node?, smallPrev: Node?, numOperations: nat, subtract: bool)
      ensures this.value == value && this.bigPrev == bigPrev && this.smallPrev == smallPrev
      ensures this.numOperations == numOperations && this.subtract == subtract
    {
      this.value := value;
      this.bigPrev := bigPrev;
      this.smallPrev := smallPrev;
      this.numOperations := numOperations;
      this.subtract := subtract;
    }
  }

  /** v is b shifted left by zero or more places: v = b * 2^m. */
  predicate ShiftedFrom(v: nat, b: nat)
    decreases v
  {
    v == b || (b < v && v % 2 == 0 && ShiftedFrom(v / 2, b))
  }

  /** Shifting once more keeps a value among the shifts of b. */
  lemma ShiftedFromDouble(v: nat, b: nat)
    requires ShiftedFrom(v, b)
    ensures ShiftedFrom(2 * v, b) && b <= v
  {
  }

  /** Two shifts of the same b that differ by less than a factor of two are equal. */
  lemma {:induction false} ShiftedFromBetween(w: nat, v: nat, b: nat)
    requires ShiftedFrom(w, b) && ShiftedFrom(v, b) && v <= w < 2 * v
    ensures w == v
  {
    if w != b && v != b {
      ShiftedFromBetween(w / 2, v / 2, b);
    }
  }

  function Max(a: nat, b: nat): nat
  {
    if a < b then b else a
  }

  /**
   * What a node in slot v says, and why it is right: it holds value v; the
   * root (no predecessor) is 1 at no cost; a shift of its big predecessor
   * costs nothing; a sum or difference of a bigger and a smaller value costs
   * one more than the dearer of the two. The subtract flag is never set.
   */
  predicate NodeOk(n: Node, v: nat)
  {
    n.value == v && !n.subtract &&
    (n.bigPrev == null ==> n.smallPrev == null && v == 1 && n.numOperations == 0) &&
    (n.bigPrev != null && n.smallPrev == null ==>
       n.bigPrev.value < v && ShiftedFrom(v, n.bigPrev.value) &&
       n.numOperations == n.bigPrev.numOperations) &&
    (n.bigPrev != null && n.smallPrev != null ==>
       n.smallPrev.value < n.bigPrev.value &&
       (v == n.bigPrev.value + n.smallPrev.value || v == n.bigPrev.value - n.smallPrev.value) &&
       n.numOperations == Max(n.bigPrev.numOperations, n.smallPrev.numOperations) + 1)
  }

  /**
   * The node table for target: 2 * target + 1 slots, each empty or holding a
   * correct node for its index; nothing is ever written to the last one.
   */
  ghost predicate Table(s: seq<Node?>, target: nat)
  {
    |s| == 2 * target + 1 && s[2 * target] == null &&
    forall v :: 0 <= v < |s| && s[v] != null ==> NodeOk(s[v], v)
  }

  /** Every node of the table costs at most k operations. */
  ghost predicate CostsAtMost(s: seq<Node?>, k: nat)
  {
    forall v :: 0 <= v < |s| && s[v] != null ==> s[v].numOperations <= k
  }

  /** Nothing stored in before is overwritten in s. */
  ghost predicate Kept(before: seq<Node?>, s: seq<Node?>)
  {
    |before| == |s| &&
    forall v :: 0 <= v < |before| && before[v] != null ==> s[v] == before[v]
  }

  /** Every slot empty in before and filled in s holds a node of cost k. */
  ghost predicate NewCost(before: seq<Node?>, s: seq<Node?>, k: nat)
    requires |before| == |s|
  {
    forall v :: 0 <= v < |before| && before[v] == null && s[v] != null ==> s[v].numOperations == k
  }

  /** Every slot empty in before and filled in s holds a value b shifted left one or more places. */
  ghost predicate NewShifts(before: seq<Node?>, s: seq<Node?>, b: nat)
    requires |before| == |s|
  {
    forall v :: 0 <= v < |before| && before[v] == null && s[v] != null ==> b < v && ShiftedFrom(v, b)
  }

  /** Storing a correct shift node of cost k into an empty slot keeps all of the above. */
  lemma StoreShift(before: seq<Node?>, s: seq<Node?>, target: nat, value: nat, node: Node, b: nat, k: nat)
    requires Table(s, target) && Kept(before, s) && NewCost(before, s, k) && NewShifts(before, s, b)
    requires value < 2 * target && s[value] == null && NodeOk(node, value) && node.numOperations == k
    requires b < value && ShiftedFrom(value, b)
    ensures var s' := s[value := node];
      Table(s', target) && Kept(before, s') && NewCost(before, s', k) && NewShifts(before, s', b)
  {
  }

  /**
   * What a round that gives nodes cost k + 1 keeps: a correct table, no
   * overwritten slot, every new node at cost k + 1 and no node dearer.
   */
  ghost predicate Round(before: seq<Node?>, s: seq<Node?>, target: nat, k: nat)
  {
    Table(s, target) && Kept(before, s) && NewCost(before, s, k + 1) && CostsAtMost(s, k + 1)
  }

  /** Storing a correct node of cost k + 1 into an empty slot below 2 * target keeps a round's invariant. */
  lemma StoreSum(before: seq<Node?>, s: seq<Node?>, target: nat, value: nat, node: Node, k: nat)
    requires Round(before, s, target, k)
    requires value < 2 * target && s[value] == null && NodeOk(node, value) && node.numOperations == k + 1
    ensures Round(before, s[value := node], target, k)
  {
  }

  /** Keeping what was stored is transitive. */
  lemma KeptTrans(s0: seq<Node?>, s1: seq<Node?>, s2: seq<Node?>)
    requires Kept(s0, s1) && Kept(s1, s2)
    ensures Kept(s0, s2)
  {
  }

  /**
   * Pair (a, b) of round k is done in s: when before held a node of cost
   * exactly k at a and a node of cost at most k at b < a, s has nodes for
   * a - b and, when it stays below 2 * target, for a + b.
   */
  ghost predicate PairDone(before: seq<Node?>, s: seq<Node?>, target: nat, k: nat, a: nat, b: nat)
    requires |before| == |s| == 2 * target + 1 && 1 <= b < a < 2 * target
  {
    before[a] != null && before[a].numOperations == k && before[b] != null && before[b].numOperations <= k ==>
      s[a - b] != null && (a + b < 2 * target ==> s[a + b] != null)
  }

  /** Every pair (a, b) before (i, j), in the order the loops visit them, is done. */
  ghost predicate DoneBelow(before: seq<Node?>, s: seq<Node?>, target: nat, k: nat, i: nat, j: nat)
    requires |before| == |s| == 2 * target + 1
  {
    forall a, b :: 1 <= b < a < 2 * target && (a < i || (a == i && b < j)) ==> PairDone(before, s, target, k, a, b)
  }

  /**
   * What one round promises: every value that one more adder or subtractor
   * gives from the nodes before it (a node of cost k and a smaller one of
   * cost at most k) has a node.
   */
  ghost predicate Combined(before: seq<Node?>, s: seq<Node?>, target: nat, k: nat)
  {
    |before| == |s| == 2 * target + 1 &&
    forall a, b :: 1 <= b < a < 2 * target ==> PairDone(before, s, target, k, a, b)
  }

  /** Pairs done stay done once more nodes are stored, and pair (i, j) joins them. */
  lemma DoneStep(before: seq<Node?>, s: seq<Node?>, s': seq<Node?>, target: nat, k: nat, i: nat, j: nat)
    requires |before| == |s| == 2 * target + 1 && 1 <= j < i < 2 * target
    requires DoneBelow(before, s, target, k, i, j) && Kept(s, s') && PairDone(before, s', target, k, i, j)
    ensures DoneBelow(before, s', target, k, i, j + 1)
  {
    forall a, b | 1 <= b < a < 2 * target && (a < i || (a == i && b < j + 1))
      ensures PairDone(before, s', target, k, a, b)
    {
      if a != i || b != j {
        assert PairDone(before, s, target, k, a, b);
      }
    }
  }

  /** Once every j < i is done, the loops move to the next i. */
  lemma DoneRow(before: seq<Node?>, s: seq<Node?>, target: nat, k: nat, i: nat)
    requires |before| == |s| == 2 * target + 1 && DoneBelow(before, s, target, k, i, i)
    ensures DoneBelow(before, s, target, k, i + 1, 0)
  {
    forall a, b | 1 <= b < a < 2 * target && a < i + 1
      ensures PairDone(before, s, target, k, a, b)
    {
      assert a < i || (a == i && b < i);
    }
  }

  /** A slot i without a node of cost k in before has nothing to do. */
  lemma SkipRow(before: seq<Node?>, s: seq<Node?>, target: nat, k: nat, i: nat)
    requires |before| == |s| == 2 * target + 1 && DoneBelow(before, s, target, k, i, 0)
    requires i < |before| && (before[i] == null || before[i].numOperations != k)
    ensures DoneBelow(before, s, target, k, i + 1, 0)
  {
    forall a, b | 1 <= b < a < 2 * target && a < i + 1
      ensures PairDone(before, s, target, k, a, b)
    {
      if a < i {
        assert a < i || (a == i && b < 0);
      }
    }
  }

  /** A round's invariant followed by a step that only adds nodes of cost k + 1 is a round's invariant. */
  lemma RoundCompose(before: seq<Node?>, mid: seq<Node?>, after: seq<Node?>, target: nat, k: nat)
    requires Round(before, mid, target, k)
    requires Table(after, target) && Kept(mid, after) && NewCost(mid, after, k + 1)
    ensures Round(before, after, target, k)
  {
  }

  /**
   * createNode: a new node for value with the given predecessors, stored at
   * nodes[value]. It costs nothing without a predecessor, as much as its big
   * predecessor for a shift, and one more than the dearer predecessor for a
   * sum or difference.
   */
  method CreateNode(nodes: array<Node?>, value: nat, bigPrev: Node?, smallPrev: Node?, subtract: bool)
    returns (node: Node)
    requires value < nodes.Length
    modifies nodes
    ensures fresh(node) && nodes[..] == old(nodes[..])[value := node]
    ensures node.value == value && node.bigPrev == bigPrev && node.smallPrev == smallPrev
    ensures node.subtract == subtract
    ensures bigPrev == null ==> node.numOperations == 0
    ensures bigPrev != null && smallPrev == null ==> node.numOperations == bigPrev.numOperations
    ensures bigPrev != null && smallPrev != null ==>
      node.numOperations == Max(bigPrev.numOperations, smallPrev.numOperations) + 1
  {
    var numOperations: nat := 0;
    if bigPrev != null {
      numOperations := bigPrev.numOperations;
      if smallPrev != null {
        if smallPrev.numOperations > numOperations {
          numOperations := smallPrev.numOperations;
        }
        numOperations := numOperations + 1;
      }
    }
    node := new Node(value, bigPrev, smallPrev, numOperations, subtract);
    nodes[value] := node;
  }

  /**
   * addPowersOfTwo: every shift of prevNode's value below 2 * target gets a
   * node if its slot is empty, as a shift of the last node this call
   * created (or of prevNode), so at prevNode's cost. Filled slots are left
   * alone.
   */
  method AddPowersOfTwo(nodes: array<Node?>, prevNode: Node, target: nat)
    requires Table(nodes[..], target) && target < 0x4000_0000
    requires 1 <= prevNode.value < 2 * target && nodes[prevNode.value] != null
    modifies nodes
    ensures Table(nodes[..], target) && Kept(old(nodes[..]), nodes[..])
    ensures NewCost(old(nodes[..]), nodes[..], prevNode.numOperations)
    ensures NewShifts(old(nodes[..]), nodes[..], prevNode.value)
    ensures forall v :: 0 <= v < 2 * target && ShiftedFrom(v, prevNode.value) ==> nodes[v] != null
  {
    ghost var before := nodes[..];
    ghost var start := prevNode;
    var prev := prevNode;
    var value: nat := prevNode.value;
    while value < target * 2
      invariant Table(nodes[..], target) && Kept(before, nodes[..])
      invariant NewCost(before, nodes[..], start.numOperations) && NewShifts(before, nodes[..], start.value)
      invariant ShiftedFrom(value, start.value) && start.value <= value
      invariant ShiftedFrom(prev.value, start.value) && prev.numOperations == start.numOperations
      invariant ShiftedFrom(value, prev.value) && prev.value <= value
      invariant value == start.value || prev.value < value
      invariant forall v :: 0 <= v < nodes.Length && v < value && ShiftedFrom(v, start.value) ==> nodes[v] != null
      invariant nodes[start.value] != null
      decreases 2 * target - value
    {
      if nodes[value] == null {
        ghost var s := nodes[..];
        prev := CreateNode(nodes, value, prev, null, false);
        StoreShift(before, s, target, value, prev, start.value, start.numOperations);
      }
      ShiftedFromDouble(value, start.value);
      ShiftedFromDouble(value, prev.value);
      ShiftsCovered(nodes, value, start.value);
      value := 2 * value;
    }
  }

  /** Once the shift value of b is filled, every shift of b below 2 * value is. */
  lemma ShiftsCovered(nodes: array<Node?>, value: nat, b: nat)
    requires value < nodes.Length && nodes[value] != null && ShiftedFrom(value, b)
    requires forall v :: 0 <= v < nodes.Length && v < value && ShiftedFrom(v, b) ==> nodes[v] != null
    ensures forall v :: 0 <= v < nodes.Length && v < 2 * value && ShiftedFrom(v, b) ==> nodes[v] != null
  {
    forall v | 0 <= v < nodes.Length && v < 2 * value && ShiftedFrom(v, b)
      ensures nodes[v] != null
    {
      if v >= value {
        ShiftedFromBetween(v, value, b);
      }
    }
  }

  /**
   * The step addOneAdderOrSubtractor writes out twice, for the sum and for the
   * difference: a node for value from bigNode (cost k) and the smaller
   * smallNode (cost at most k), stored in its empty slot, then its shifts.
   */
  method CreateWithShifts(nodes: array<Node?>, target: nat, k: nat, value: nat, bigNode: Node, smallNode: Node,
                          ghost before: seq<Node?>)
    requires target < 0x4000_0000 && Round(before, nodes[..], target, k)
    requires 1 <= value < 2 * target && nodes[value] == null
    requires smallNode.value < bigNode.value
    requires value == bigNode.value + smallNode.value || value == bigNode.value - smallNode.value
    requires bigNode.numOperations == k && smallNode.numOperations <= k
    modifies nodes
    ensures Round(before, nodes[..], target, k)
    ensures Kept(old(nodes[..]), nodes[..]) && nodes[value] != null
  {
    ghost var s0 := nodes[..];
    var node := CreateNode(nodes, value, bigNode, smallNode, false);
    StoreSum(before, s0, target, value, node, k);
    ghost var s1 := nodes[..];
    AddPowersOfTwo(nodes, node, target);
    RoundCompose(before, s1, nodes[..], target, k);
    KeptTrans(s0, s1, nodes[..]);
  }

  /**
   * addOneAdderOrSubtractor for round k: every node of cost exactly k is
   * combined with every smaller node of cost at most k, by sum (when it stays
   * below 2 * target) and by difference; each new value gets a node and its
   * shifts. The source passes `false` as the subtract flag for differences as
   * well. Every node this round adds costs k + 1, no slot already filled
   * is overwritten, and every sum and difference of the nodes there were
   * (Combined) has a node. Nodes this round adds cost k + 1, so they are
   * not combined again in the same round.
   */
  method AddOneAdderOrSubtractor(nodes: array<Node?>, target: nat, numOperations: nat)
    requires 1 <= target < 0x4000_0000
    requires Table(nodes[..], target) && CostsAtMost(nodes[..], numOperations)
    modifies nodes
    ensures Round(old(nodes[..]), nodes[..], target, numOperations)
    ensures Combined(old(nodes[..]), nodes[..], target, numOperations)
  {
    ghost var before := nodes[..];
    var i: nat := 1;
    while i < target * 2
      invariant 1 <= i <= 2 * target
      invariant Round(before, nodes[..], target, numOperations)
      invariant DoneBelow(before, nodes[..], target, numOperations, i, 0)
    {
      var bigNode := nodes[i];
      if bigNode != null && bigNode.numOperations == numOperations {
        assert NodeOk(nodes[..][i], i);
        assert before[i] == bigNode;
        var j: nat := 1;
        while j < i
          invariant 1 <= j <= i
          invariant Round(before, nodes[..], target, numOperations)
          invariant DoneBelow(before, nodes[..], target, numOperations, i, j)
        {
          ghost var s0 := nodes[..];
          var smallNode := nodes[j];
          if smallNode != null && smallNode.numOperations <= numOperations {
            assert NodeOk(nodes[..][j], j);
            if i + j < 2 * target {
              var node := nodes[i + j];
              if node == null {
                CreateWithShifts(nodes, target, numOperations, i + j, bigNode, smallNode, before);
              }
            }
            ghost var s1 := nodes[..];
            var node := nodes[i - j];
            if node == null {
              CreateWithShifts(nodes, target, numOperations, i - j, bigNode, smallNode, before);
            }
            KeptTrans(s0, s1, nodes[..]);
          }
          DoneStep(before, s0, nodes[..], target, numOperations, i, j);
          j := j + 1;
        }
        DoneRow(before, nodes[..], target, numOperations, i);
      } else {
        SkipRow(before, nodes[..], target, numOperations, i);
      }
      i := i + 1;
    }
  }

  /** Every shift of 1 below 2 * target, that is every power of two, has a node of cost 0. */
  ghost predicate PowersFree(s: seq<Node?>, target: nat)
    requires |s| == 2 * target + 1
  {
    forall v :: 0 <= v < 2 * target && ShiftedFrom(v, 1) ==> s[v] != null && s[v].numOperations == 0
  }

  /**
   * The search of constmult's main: a table of 2 * target + 1 empty slots, the
   * root node 1 and its shifts, then rounds 0, 1, ... until the target has a
   * node. The source's loop has no bound; here it also stops after maxRounds
   * rounds. Every node costs at most the number of rounds run, and powers of
   * two cost nothing.
   */
  method Search(target: nat, maxRounds: nat) returns (nodes: array<Node?>, rounds: nat)
    requires 1 <= target < 0x4000_0000
    ensures fresh(nodes) && Table(nodes[..], target) && PowersFree(nodes[..], target)
    ensures CostsAtMost(nodes[..], rounds)
    ensures rounds <= maxRounds && (nodes[target] != null || rounds == maxRounds)
    ensures nodes[target] != null ==> nodes[target].numOperations == rounds
  {
    nodes := new Node?[2 * target + 1](_ => null);
    var node := CreateNode(nodes, 1, null, null, false);
    nodes[1] := node;
    AddPowersOfTwo(nodes, node, target);
    rounds := 0;
    while nodes[target] == null && rounds < maxRounds
      invariant Table(nodes[..], target) && PowersFree(nodes[..], target)
      invariant CostsAtMost(nodes[..], rounds) && rounds <= maxRounds
      invariant nodes[target] != null ==> nodes[target].numOperations == rounds
    {
      ghost var s := nodes[..];
      AddOneAdderOrSubtractor(nodes, target, rounds);
      assert Kept(s, nodes[..]);
      rounds := rounds + 1;
    }
  }
}
