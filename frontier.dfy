/**
 * The open set of a search: nodes generated and not yet expanded. One class serves the three
 * disciplines of the source (a FIFO queue, a LIFO stack and a comparator-ordered priority
 * queue); the discipline is fixed when the frontier is built.
 */
module Frontiers {
  import opened Wrappers
  import opened SearchNode

  /** The two node comparators: by cumulative cost, and one under which all nodes tie. */
  datatype Ordering = ByCost | AllTied

  /** The comparator's verdict, negative, zero or positive, as Double.compare gives it on costs. */
  function Compare<S, A>(o: Ordering, x: Node<S, A>, y: Node<S, A>): (c: int)
    ensures o == AllTied ==> c == 0
    ensures o == ByCost ==> (c < 0 <==> x.cost < y.cost) && (c == 0 <==> x.cost == y.cost)
    ensures -1 <= c <= 1
  {
    match o
    case AllTied => 0
    case ByCost => if x.cost < y.cost then -1 else if x.cost > y.cost then 1 else 0
  }

  /** Both comparators are total preorders: reflexive, antisymmetric in sign, and transitive. */
  lemma CompareIsPreorder<S, A>(o: Ordering, x: Node<S, A>, y: Node<S, A>, z: Node<S, A>)
    ensures Compare(o, x, x) == 0
    ensures Compare(o, x, y) == -Compare(o, y, x)
    ensures Compare(o, x, y) <= 0 && Compare(o, y, z) <= 0 ==> Compare(o, x, z) <= 0
  {
  }

  datatype Discipline = Fifo | Lifo | Priority(ordering: Ordering)

  /** The position of the first node in `s` that no other node of `s` precedes under `o`. */
  function FirstMinimal<S, A>(o: Ordering, s: seq<Node<S, A>>): (k: nat)
    requires |s| > 0
    ensures k < |s|
  {
    MinimalFrom(o, s, 1, 0)
  }

  /**
   * The scan behind `FirstMinimal`: `best` is the first minimal position among the first `i`
   * nodes, and a later node replaces it only when it strictly precedes it.
   */
  function MinimalFrom<S, A>(o: Ordering, s: seq<Node<S, A>>, i: nat, best: nat): (k: nat)
    requires best < i <= |s|
    ensures k < |s|
    decreases |s| - i
  {
    if i == |s| then best
    else MinimalFrom(o, s, i + 1, if Compare(o, s[i], s[best]) < 0 then i else best)
  }

  /** A scan that starts from the first minimal position of a prefix ends at the first minimal position of `s`. */
  lemma {:induction false} MinimalFromIsFirstMinimum<S, A>(o: Ordering, s: seq<Node<S, A>>, i: nat, best: nat)
    requires best < i <= |s|
    requires forall j :: 0 <= j < i ==> Compare(o, s[best], s[j]) <= 0
    requires forall j :: 0 <= j < best ==> Compare(o, s[j], s[best]) > 0
    ensures forall j :: 0 <= j < |s| ==> Compare(o, s[MinimalFrom(o, s, i, best)], s[j]) <= 0
    ensures forall j :: 0 <= j < MinimalFrom(o, s, i, best) ==> Compare(o, s[j], s[MinimalFrom(o, s, i, best)]) > 0
    decreases |s| - i
  {
    if i < |s| {
      var next := if Compare(o, s[i], s[best]) < 0 then i else best;
      forall j | 0 <= j < i + 1
        ensures Compare(o, s[next], s[j]) <= 0
      {
        CompareIsPreorder(o, s[i], s[best], s[j]);
      }
      forall j | 0 <= j < next
        ensures Compare(o, s[j], s[next]) > 0
      {
        CompareIsPreorder(o, s[j], s[best], s[i]);
      }
      MinimalFromIsFirstMinimum(o, s, i + 1, next);
    }
  }

  /**
   * The node at `FirstMinimal` precedes or ties every node of `s`, and every node before it
   * is strictly worse, so it is the first of the minimal nodes.
   */
  lemma FirstMinimalIsFirstMinimum<S, A>(o: Ordering, s: seq<Node<S, A>>)
    requires |s| > 0
    ensures forall j :: 0 <= j < |s| ==> Compare(o, s[FirstMinimal(o, s)], s[j]) <= 0
    ensures forall j :: 0 <= j < FirstMinimal(o, s) ==> Compare(o, s[j], s[FirstMinimal(o, s)]) > 0
  {
    CompareIsPreorder(o, s[0], s[0], s[0]);
    MinimalFromIsFirstMinimum(o, s, 1, 0);
  }

  /**
   * The position in the insertion-ordered contents `s` of the node that `remove` hands out:
   * the oldest for a queue, the newest for a stack, a minimal one for a priority queue.
   */
  function Taken<S, A>(d: Discipline, s: seq<Node<S, A>>): (k: nat)
    requires |s| > 0
    ensures k < |s|
    ensures d == Fifo ==> k == 0
    ensures d == Lifo ==> k == |s| - 1
  {
    match d
    case Fifo => 0
    case Lifo => |s| - 1
    case Priority(o) => FirstMinimal(o, s)
  }

  /** What is left after removing position `k`. */
  function Without<T>(s: seq<T>, k: nat): seq<T>
    requires k < |s|
  {
    s[..k] + s[k + 1..]
  }

  /** Removing one position takes out exactly one occurrence of the removed element. */
  lemma WithoutIsMultisetRemoval<T>(s: seq<T>, k: nat)
    requires k < |s|
    ensures multiset(Without(s, k)) == multiset(s) - multiset{s[k]}
    ensures |Without(s, k)| == |s| - 1
    ensures forall x :: x in Without(s, k) ==> x in s
  {
    assert s == s[..k] + [s[k]] + s[k + 1..];
  }

  /** A queue hands nodes out in the order they came in; the rest keep their order. */
  lemma FifoOrder<S, A>(s: seq<Node<S, A>>, n: Node<S, A>)
    ensures Taken(Fifo, [n] + s) == 0 && Without([n] + s, 0) == s
    ensures |s| > 0 ==> Taken(Fifo, s + [n]) == 0 && Without(s + [n], 0) == s[1..] + [n]
  {
    if |s| > 0 {
      assert Without(s + [n], 0) == (s + [n])[1..];
    }
  }

  /** A stack hands out the node added last, and taking it restores the previous contents. */
  lemma LifoAddRemove<S, A>(s: seq<Node<S, A>>, n: Node<S, A>)
    ensures Taken(Lifo, s + [n]) == |s|
    ensures (s + [n])[|s|] == n && Without(s + [n], |s|) == s
  {
    assert (s + [n])[..|s|] == s;
  }

  /**
   * With the cost ordering, the node handed out costs no more than any node left behind;
   * with the all-tied ordering every held node is minimal, so any of them may be handed out.
   */
  lemma PriorityTakesCheapest<S, A>(s: seq<Node<S, A>>)
    requires |s| > 0
    ensures forall j :: 0 <= j < |s| ==> s[Taken(Priority(ByCost), s)].cost <= s[j].cost
    ensures forall k, j :: 0 <= k < |s| && 0 <= j < |s| ==> Compare(AllTied, s[k], s[j]) <= 0
  {
    var k := Taken(Priority(ByCost), s);
    FirstMinimalIsFirstMinimum(ByCost, s);
    forall j | 0 <= j < |s|
      ensures s[k].cost <= s[j].cost
    {
      assert Compare(ByCost, s[k], s[j]) <= 0;
    }
  }

  /** A frontier of one fixed discipline; `nodes` holds its contents in insertion order. */
  class Frontier<S, A> {
    const discipline: Discipline
    var nodes: seq<Node<S, A>>

    /** A new frontier is empty. */
    constructor (d: Discipline)
      ensures discipline == d && nodes == []
    {
      discipline := d;
      nodes := [];
    }

    /** add: one more node is held. */
    method Add(n: Node<S, A>)
      modifies this
      ensures nodes == old(nodes) + [n]
    {
      nodes := nodes + [n];
    }

    /**
     * remove: hands out and drops the node at `Taken`. On an empty frontier a queue or a
     * priority queue answers `None` (poll returns null), while a stack fails, so its callers
     * must test `IsEmpty` first.
     */
    method Remove() returns (r: Option<Node<S, A>>)
      requires discipline == Lifo ==> nodes != []
      modifies this
      ensures old(nodes) == [] ==> r == None && nodes == []
      ensures old(nodes) != [] ==>
        && r == Some(old(nodes)[Taken(discipline, old(nodes))])
        && nodes == Without(old(nodes), Taken(discipline, old(nodes)))
      ensures r.Some? ==> multiset(nodes) == multiset(old(nodes)) - multiset{r.value}
      ensures forall m :: m in nodes ==> m in old(nodes)
    {
      if nodes == [] {
        r := None;
      } else {
        var k := Taken(discipline, nodes);
        r := Some(nodes[k]);
        WithoutIsMultisetRemoval(nodes, k);
        nodes := Without(nodes, k);
      }
    }

    /** isEmpty: nothing is held. */
    predicate IsEmpty()
      reads this
      ensures IsEmpty() <==> |nodes| == 0
    {
      nodes == []
    }
  }
}
