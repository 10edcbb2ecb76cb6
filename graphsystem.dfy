/**
 * The node network of the graph toy: an integer binomial coefficient, nodes
 * that keep copies of the nodes they are connected to (compared by id), and
 * the shuffle step that draws two random node ids. The value of each `rand()`
 * call is a parameter: `rolls` lists them in order.
 */
module GraphSystem {
  import opened Base

  // ---------------- Binomial coefficients ----------------

  /** Reference definition: Pascal's rule. */
  function Binomial(n: nat, k: nat): nat
  {
    if k == 0 then 1
    else if n == 0 then 0
    else Binomial(n - 1, k - 1) + Binomial(n - 1, k)
  }

  lemma {:induction false} BinomialAboveN(n: nat, k: nat)
    requires k > n
    ensures Binomial(n, k) == 0
  {
    if n > 0 {
      BinomialAboveN(n - 1, k - 1);
      BinomialAboveN(n - 1, k);
    }
  }

  lemma {:induction false} BinomialOne(n: nat)
    ensures Binomial(n, 1) == n
  {
    if n > 0 {
      BinomialOne(n - 1);
    }
  }

  lemma {:induction false} BinomialAll(n: nat)
    ensures Binomial(n, n) == 1
  {
    if n > 0 {
      BinomialAll(n - 1);
      BinomialAboveN(n - 1, n);
    }
  }

  /** One step of the multiplicative formula: C(n, i) (n - i) = C(n, i + 1) (i + 1). */
  lemma {:induction false} BinomialStep(n: nat, i: nat)
    ensures Binomial(n, i) * (n - i) == Binomial(n, i + 1) * (i + 1)
  {
    if n == 0 {
      BinomialAboveN(0, i + 1);
      if i > 0 {
        BinomialAboveN(0, i);
      }
    } else if i == 0 {
      BinomialOne(n);
    } else {
      BinomialStep(n - 1, i - 1);
      BinomialStep(n - 1, i);
      PascalStep(Binomial(n - 1, i - 1), Binomial(n - 1, i), Binomial(n - 1, i + 1), n, i);
    }
  }

  /** The arithmetic behind `BinomialStep`, on plain integers: with C(n, i) = a + b and
      C(n, i + 1) = b + c, the two step identities for n - 1 give the one for n. */
  lemma PascalStep(a: int, b: int, c: int, n: int, i: int)
    requires a * (n - i) == b * i
    requires b * (n - 1 - i) == c * (i + 1)
    ensures (a + b) * (n - i) == (b + c) * (i + 1)
  {
    calc {
      (a + b) * (n - i);
      a * (n - i) + b * (n - i);
      b * i + b * (n - i);
      b * (i + 1) + b * (n - 1 - i);
      b * (i + 1) + c * (i + 1);
      (b + c) * (i + 1);
    }
  }

  /** Choosing k of n is choosing the n - k left out. */
  lemma {:induction false} BinomialSymmetry(n: nat, k: nat)
    requires k <= n
    ensures Binomial(n, k) == Binomial(n, n - k)
  {
    if k == 0 {
      BinomialAll(n);
    } else if k == n {
      BinomialAll(n);
    } else {
      BinomialSymmetry(n - 1, k - 1);
      BinomialSymmetry(n - 1, k);
      assert Binomial(n, n - k) == Binomial(n - 1, n - k - 1) + Binomial(n - 1, n - k);
    }
  }

  /** The number of pairs: C(m, 2) = m (m - 1) / 2. */
  lemma {:induction false} BinomialPairs(m: nat)
    ensures Binomial(m, 2) * 2 == m * (m - 1)
  {
    if m > 0 {
      BinomialPairs(m - 1);
      BinomialOne(m - 1);
    }
  }

  /** `combination`: k is replaced by min(k, n - k), then `result` is multiplied by
      n - i and divided by i + 1 for i = 0 .. k - 1; the division is exact. For
      k outside 0..n the loop does not run and the result is 1. */
  method Combination(n: int, k: int) returns (result: int)
    ensures result == if 0 <= k <= n then Binomial(n, k) else 1
  {
    var m := k;
    if m > n - m {
      m := n - m;
    }
    assert 0 <= k <= n ==> 0 <= m <= n && (m == k || m == n - k);
    assert 0 < m ==> 0 <= k <= n;
    result := 1;
    var i := 0;
    while i < m
      invariant 0 <= i <= (if 0 < m then m else 0) && (0 < m ==> m <= n)
      invariant result == if 0 <= n then Binomial(n, i) else 1
    {
      BinomialStep(n, i);
      result := result * (n - i);
      ExactDivision(Binomial(n, i + 1), i + 1, result);
      result := result / (i + 1);
      i := i + 1;
    }
    if 0 <= k <= n {
      assert result == Binomial(n, m);
      BinomialSymmetry(n, k);
    }
  }

  lemma ExactDivision(q: int, d: int, x: int)
    requires d > 0 && x == q * d
    ensures x / d == q
  {
    var r := x / d;
    assert d * (r - q) == -(x % d) by {
      assert x == d * r + x % d;
      assert d * (r - q) == d * r - d * q;
    }
    if r > q {
      AtLeastOnce(d, r - q);
    } else if r < q {
      AtLeastOnce(d, q - r);
    }
  }

  lemma AtLeastOnce(d: int, t: int)
    requires d > 0 && t >= 1
    ensures d * t >= d
  {
    assert d * t == d * (t - 1) + d;
  }

  // ---------------- Nodes ----------------

  /** A `Node` as stored in another node's `receivers`: a copy taken when it was pushed. */
  datatype NodeValue = NodeValue(id: int, receivers: seq<NodeValue>)

  /** `std::find` with `operator==`, which compares ids only: the first position
      holding a node with this id, or the length when there is none. */
  function Find(rs: seq<NodeValue>, id: int): (r: nat)
    ensures r <= |rs|
    ensures r < |rs| ==> rs[r].id == id
    ensures forall j :: 0 <= j < r ==> rs[j].id != id
  {
    if rs == [] then 0
    else if rs[0].id == id then 0
    else 1 + Find(rs[1..], id)
  }

  predicate HasId(rs: seq<NodeValue>, id: int)
  {
    exists j :: 0 <= j < |rs| && rs[j].id == id
  }

  /** No two receivers share an id. */
  predicate UniqueIds(rs: seq<NodeValue>)
  {
    forall i, j :: 0 <= i < j < |rs| ==> rs[i].id != rs[j].id
  }

  /** Reference definition of `addSingleConnection` on the list: push unless the id is present. */
  function AddReceiver(rs: seq<NodeValue>, v: NodeValue): seq<NodeValue>
  {
    if HasId(rs, v.id) then rs else rs + [v]
  }

  /** `find` reports "absent" exactly when no receiver has the id. */
  lemma FindAbsent(rs: seq<NodeValue>, id: int)
    ensures Find(rs, id) == |rs| <==> !HasId(rs, id)
  {
  }

  /** Adding keeps ids unique, makes the id present, grows the list by at most one
      and keeps every earlier receiver in place. */
  lemma AddReceiverProperties(rs: seq<NodeValue>, v: NodeValue)
    ensures UniqueIds(rs) ==> UniqueIds(AddReceiver(rs, v))
    ensures HasId(AddReceiver(rs, v), v.id)
    ensures |rs| <= |AddReceiver(rs, v)| <= |rs| + 1
    ensures AddReceiver(rs, v)[..|rs|] == rs
  {
    if !HasId(rs, v.id) {
      assert AddReceiver(rs, v)[|rs|] == v;
    }
  }

  /** Adding the same node twice changes nothing the second time. */
  lemma AddReceiverIdempotent(rs: seq<NodeValue>, v: NodeValue)
    ensures AddReceiver(AddReceiver(rs, v), v) == AddReceiver(rs, v)
  {
    AddReceiverProperties(rs, v);
  }

  class Node {
    var id: int
    var receivers: seq<NodeValue>

    /** `Node(int id)`, also the implicit conversion from `int`. */
    constructor (id: int)
      ensures this.id == id && receivers == []
    {
      this.id := id;
      receivers := [];
    }

    /** `Node()`: the default node has id -1. */
    constructor Default()
      ensures id == -1 && receivers == []
    {
      id := -1;
      receivers := [];
    }

    /** A copy of this node, as `push_back` stores it. */
    function Value(): NodeValue
      reads this
    {
      NodeValue(id, receivers)
    }

    /** `addSingleConnection`: pushes a copy of `connection` unless a receiver has its id. */
    method AddSingleConnection(connection: Node)
      modifies this
      ensures id == old(id)
      ensures receivers == AddReceiver(old(receivers), old(connection.Value()))
    {
      var copy := connection.Value();
      if Find(receivers, connection.id) == |receivers| {
        receivers := receivers + [copy];
      }
    }

    /** `shuffleConnections`. With two or more receivers it draws `a` and `b` as in
        `ShuffleResult`, links `a` and `b` with this node and with each other, and
        clears `receivers`. `a` and `b` are local nodes, so no other node changes. */
    method ShuffleConnections(rolls: seq<nat>) returns (outcome: ShuffleOutcome)
      modifies this
      ensures id == old(id)
      ensures outcome == ShuffleResult(old(|receivers|), rolls)
      ensures receivers == if outcome.Shuffled? then [] else old(receivers)
    {
      if |receivers| == 0 || |receivers| == 1 {
        return Untouched;
      }
      var count := Combination(|receivers|, 2);
      assert count == PairCount(|receivers|);
      if |rolls| == 0 {
        return RollsExhausted;
      }
      var a := new Node(rolls[0] % count);
      var b := new Node(a.id);
      var next := 1;
      while a.id == b.id
        invariant 1 <= next <= |rolls|
        invariant fresh(a) && fresh(b) && a != b && a.receivers == [] && b.receivers == []
        invariant a.id == rolls[0] % count
        invariant a.id == b.id ==> FirstDifferent(rolls, 1, a.id, count) == FirstDifferent(rolls, next, a.id, count)
        invariant a.id != b.id ==> FirstDifferent(rolls, 1, a.id, count) == Some(next - 1) && b.id == rolls[next - 1] % count
        invariant receivers == old(receivers) && id == old(id)
        decreases |rolls| - next
      {
        if next == |rolls| {
          return RollsExhausted;
        }
        b.id, b.receivers := rolls[next] % count, [];
        next := next + 1;
      }
      AddDualConnection(a);
      AddDualConnection(b);
      a.AddSingleConnection(b);
      b.AddSingleConnection(a);
      receivers := [];
      return Shuffled(a.id, b.id);
    }

    /** `addDualConnection`: the same push here, then `connection` pushes a copy of this
        node as it is after that push. */
    method AddDualConnection(connection: Node)
      modifies this, connection
      ensures id == old(id) && connection.id == old(connection.id)
      ensures var first := AddReceiver(old(receivers), old(connection.Value()));
              && (connection != this ==> receivers == first)
              && connection.receivers == AddReceiver(if connection == this then first else old(connection.receivers), NodeValue(id, first))
    {
      var copy := connection.Value();
      if Find(receivers, connection.id) == |receivers| {
        receivers := receivers + [copy];
      }
      connection.AddSingleConnection(this);
    }
  }

  /** After `addDualConnection` each of two distinct nodes lists the other's id and
      no list grew by more than one. */
  lemma DualConnectionLinksBoth(mine: seq<NodeValue>, myId: int, theirs: seq<NodeValue>, other: NodeValue)
    requires other.receivers == theirs
    ensures var first := AddReceiver(mine, other);
            var second := AddReceiver(theirs, NodeValue(myId, first));
            && HasId(first, other.id) && HasId(second, myId)
            && |first| <= |mine| + 1 && |second| <= |theirs| + 1
  {
    var first := AddReceiver(mine, other);
    AddReceiverProperties(mine, other);
    AddReceiverProperties(theirs, NodeValue(myId, first));
  }

  // ---------------- Shuffling ----------------

  datatype ShuffleOutcome =
    | Untouched                    // 0 or 1 receivers: nothing happens
    | Shuffled(a: int, b: int)     // the two distinct ids drawn
    | RollsExhausted               // every listed `rand()` value repeated the first id

  /** Reference definition of the retry loop: the position, from `from` on, of the
      first roll whose residue differs from `first`. */
  function FirstDifferent(rolls: seq<nat>, from: nat, first: int, count: nat): (r: Option<nat>)
    requires count > 0
    ensures r.Some? ==> from <= r.value < |rolls| && rolls[r.value] % count != first
    ensures r.Some? ==> forall j :: from <= j < r.value ==> rolls[j] % count == first
    ensures r.None? ==> forall j :: from <= j < |rolls| ==> rolls[j] % count == first
    decreases |rolls| - from
  {
    if from >= |rolls| then None
    else if rolls[from] % count != first then Some(from)
    else FirstDifferent(rolls, from + 1, first, count)
  }

  /** With a single possible residue the retry loop never finds a second id. */
  lemma {:induction false} OneResidueNeverExits(rolls: seq<nat>, from: nat)
    ensures FirstDifferent(rolls, from, 0, 1) == None
    decreases |rolls| - from
  {
    if from < |rolls| {
      assert rolls[from] % 1 == 0;
      OneResidueNeverExits(rolls, from + 1);
    }
  }

  /** `combination(receivers.size(), 2)` for two or more receivers: the number of pairs. */
  function PairCount(m: nat): (r: nat)
    requires m >= 2
    ensures r * 2 == m * (m - 1)
    ensures r >= 1 && (m == 2 <==> r == 1)
  {
    BinomialPairs(m);
    Binomial(m, 2)
  }

  /** Reference definition of what `shuffleConnections` draws for a node with
      `size` receivers: nothing for 0 or 1, otherwise `a = rand() % C(size, 2)`
      and `b` the next roll with another residue. */
  function ShuffleResult(size: nat, rolls: seq<nat>): ShuffleOutcome
  {
    if size <= 1 then Untouched
    else if |rolls| == 0 then RollsExhausted
    else
      var count := PairCount(size);
      var first := rolls[0] % count;
      match FirstDifferent(rolls, 1, first, count)
      case None => RollsExhausted
      case Some(j) => Shuffled(first, rolls[j] % count)
  }

  /** A shuffle draws two distinct ids below the number of pairs, and the retry loop
      can end only with at least three receivers: two receivers give C(2, 2) = 1. */
  lemma ShuffleDrawsTwoIds(size: nat, rolls: seq<nat>)
    ensures ShuffleResult(size, rolls).Shuffled? ==>
              var o := ShuffleResult(size, rolls);
              size >= 3 && o.a != o.b && 0 <= o.a < PairCount(size) && 0 <= o.b < PairCount(size)
    ensures size == 2 ==> ShuffleResult(size, rolls) == RollsExhausted
  {
    if size == 2 && |rolls| > 0 {
      OneResidueNeverExits(rolls, 1);
    }
  }
}
