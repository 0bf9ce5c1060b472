/** The consistent-hash balancer: a ring of replica points, its sorted keys and the known nodes. */
module ConsistentHash {
  import opened Models
  import opened Sorting

  const DEFAULT_REPLICAS: nat := 3

  const HASHES: nat := 0x1_0000_0000

  type Hash = x: int | 0 <= x < HASHES

  /** Any hash function will do; the gateway uses CRC-32. */
  type HashFn = string -> Hash

  predicate AtMost(a: Hash, b: Hash) {
    a <= b
  }

  function ReplicaKey(id: string, i: nat): string
    requires i < DEFAULT_REPLICAS
  {
    id + "-" + ["0", "1", "2"][i]
  }

  function ReplicaHash(h: HashFn, id: string, i: nat): Hash
    requires i < DEFAULT_REPLICAS
  {
    h(ReplicaKey(id, i))
  }

  /** The points of the first `n` replicas of a node. */
  ghost function PointsUpTo(h: HashFn, id: string, n: nat): set<Hash>
    requires n <= DEFAULT_REPLICAS
  {
    if n == 0 then {} else PointsUpTo(h, id, n - 1) + {ReplicaHash(h, id, n - 1)}
  }

  ghost function Points(h: HashFn, id: string): set<Hash> {
    PointsUpTo(h, id, DEFAULT_REPLICAS)
  }

  lemma PointsStep(h: HashFn, id: string, n: nat)
    requires n < DEFAULT_REPLICAS
    ensures PointsUpTo(h, id, n + 1) == PointsUpTo(h, id, n) + {ReplicaHash(h, id, n)}
  {
  }

  /** The points of a node are the hashes of its ID with the numbers 0, 1 and 2 appended. */
  lemma PointsOfANode(h: HashFn, id: string)
    ensures Points(h, id) == {h(id + "-0"), h(id + "-1"), h(id + "-2")}
  {
    hide ReplicaHash;
    ReplicaHashes(h, id);
    assert PointsUpTo(h, id, 0) == {};
    hide PointsUpTo;
    PointsStep(h, id, 0);
    PointsStep(h, id, 1);
    PointsStep(h, id, 2);
  }

  lemma ReplicaHashes(h: HashFn, id: string)
    ensures ReplicaHash(h, id, 0) == h(id + "-0")
    ensures ReplicaHash(h, id, 1) == h(id + "-1")
    ensures ReplicaHash(h, id, 2) == h(id + "-2")
  {
    assert id + "-" + "0" == id + "-0" && id + "-" + "1" == id + "-1" && id + "-" + "2" == id + "-2";
  }

  ghost predicate IsReplica(h: HashFn, id: string, p: Hash) {
    p in Points(h, id)
  }

  // ---------------------------------------------------------------- the ring as a value

  datatype Ring = Ring(points: map<Hash, string>, keys: seq<Hash>, nodes: map<string, nat>)

  const EMPTY_RING: Ring := Ring(map[], [], map[])

  ghost predicate Coherent(h: HashFn, r: Ring) {
    && SortedBy(r.keys, AtMost)
    && (forall p :: p in r.keys <==> p in r.points)
    && (forall p :: p in r.points ==> r.points[p] in r.nodes && IsReplica(h, r.points[p], p))
    && (forall id :: id in r.nodes ==> r.nodes[id] == DEFAULT_REPLICAS)
  }

  ghost function ReplicaBag(h: HashFn, id: string, n: nat): multiset<Hash>
    requires n <= DEFAULT_REPLICAS
  {
    if n == 0 then multiset{} else ReplicaBag(h, id, n - 1) + multiset{ReplicaHash(h, id, n - 1)}
  }

  /** A node takes its replica points, also those that another node holds. */
  ghost function Claimed(h: HashFn, points: map<Hash, string>, id: string): map<Hash, string> {
    ClaimedUpTo(h, points, id, DEFAULT_REPLICAS)
  }

  ghost function ClaimedUpTo(h: HashFn, points: map<Hash, string>, id: string, n: nat): map<Hash, string>
    requires n <= DEFAULT_REPLICAS
  {
    points + map p | p in PointsUpTo(h, id, n) :: id
  }

  ghost function Added(h: HashFn, r: Ring, id: string): Ring {
    Ring(Claimed(h, r.points, id),
         Ascending(multiset(r.keys) + ReplicaBag(h, id, DEFAULT_REPLICAS), AtMost),
         r.nodes[id := DEFAULT_REPLICAS])
  }

  /** An unknown node has no replicas to delete; the keys are rebuilt from the ring either way. */
  ghost function Removed(h: HashFn, r: Ring, id: string): Ring {
    var points := if id in r.nodes then r.points - Points(h, id) else r.points;
    Ring(points, Ascending(multiset(points.Keys), AtMost), r.nodes - {id})
  }

  lemma {:induction false} InReplicaBag(h: HashFn, id: string, n: nat, p: Hash)
    requires n <= DEFAULT_REPLICAS
    ensures p in ReplicaBag(h, id, n) <==> p in PointsUpTo(h, id, n)
  {
    if n > 0 {
      InReplicaBag(h, id, n - 1, p);
      PointsStep(h, id, n - 1);
    }
  }

  lemma BagStep(h: HashFn, id: string, n: nat)
    requires n < DEFAULT_REPLICAS
    ensures ReplicaBag(h, id, n + 1) == ReplicaBag(h, id, n) + multiset{ReplicaHash(h, id, n)}
  {
  }

  lemma ClaimStep(h: HashFn, points: map<Hash, string>, id: string, n: nat)
    requires n < DEFAULT_REPLICAS
    ensures ClaimedUpTo(h, points, id, n + 1) == ClaimedUpTo(h, points, id, n)[ReplicaHash(h, id, n) := id]
  {
    PointsStep(h, id, n);
  }

  /** Adding writes the three points one after the other. */
  lemma AddedWritesThreePoints(h: HashFn, points: map<Hash, string>, id: string)
    ensures Claimed(h, points, id) == points[h(id + "-0") := id][h(id + "-1") := id][h(id + "-2") := id]
  {
    hide ReplicaHash;
    ReplicaHashes(h, id);
    assert ClaimedUpTo(h, points, id, 0) == points;
    hide ClaimedUpTo;
    ClaimStep(h, points, id, 0);
    ClaimStep(h, points, id, 1);
    ClaimStep(h, points, id, 2);
  }

  /** And it appends their three keys. */
  lemma AddedAppendsThreeKeys(h: HashFn, id: string)
    ensures ReplicaBag(h, id, DEFAULT_REPLICAS) == multiset{h(id + "-0"), h(id + "-1"), h(id + "-2")}
  {
    hide ReplicaHash;
    ReplicaHashes(h, id);
    assert ReplicaBag(h, id, 0) == multiset{};
    hide ReplicaBag;
    BagStep(h, id, 0);
    BagStep(h, id, 1);
    BagStep(h, id, 2);
  }

  lemma AddedCoherent(h: HashFn, r: Ring, id: string)
    requires Coherent(h, r)
    ensures Coherent(h, Added(h, r, id))
  {
    var r' := Added(h, r, id);
    forall p ensures p in r'.keys <==> p in r'.points {
      AddedKeys(h, r, id, p);
    }
  }

  lemma AddedKeys(h: HashFn, r: Ring, id: string, p: Hash)
    ensures p in Added(h, r, id).keys <==> p in r.keys || IsReplica(h, id, p)
  {
    var r' := Added(h, r, id);
    assert p in r'.keys <==> p in multiset(r'.keys);
    assert p in r.keys <==> p in multiset(r.keys);
    InReplicaBag(h, id, DEFAULT_REPLICAS, p);
  }

  lemma KeysOfRemoved(h: HashFn, r: Ring, id: string)
    ensures var r' := Removed(h, r, id);
            && SortedBy(r'.keys, AtMost)
            && multiset(r'.keys) == multiset(r'.points.Keys)
            && (forall p :: p in r'.keys <==> p in r'.points)
  {
    var r' := Removed(h, r, id);
    forall p ensures p in r'.keys <==> p in r'.points {
      assert p in multiset(r'.keys) <==> p in multiset(r'.points.Keys);
    }
  }

  /** A removal keeps the ring coherent, leaves no point with the removed owner, and leaves no duplicate key. */
  lemma RemovedCoherent(h: HashFn, r: Ring, id: string)
    requires Coherent(h, r)
    ensures var r' := Removed(h, r, id);
            && Coherent(h, r')
            && (forall p :: p in r'.points ==> r'.points[p] != id)
            && (forall i, j :: 0 <= i < j < |r'.keys| ==> r'.keys[i] < r'.keys[j])
  {
    KeysOfRemoved(h, r, id);
    var r' := Removed(h, r, id);
    forall i, j | 0 <= i < j < |r'.keys| ensures r'.keys[i] < r'.keys[j] {
      assert multiset(r'.points.Keys)[r'.keys[i]] <= 1;
      CountedOnceIsDistinct(r'.keys, i, j);
      assert AtMost(r'.keys[i], r'.keys[j]);
    }
  }

  // ---------------------------------------------------------------- runs

  datatype Op = Add(id: string) | Remove(id: string)

  ghost function Apply(h: HashFn, r: Ring, op: Op): Ring {
    match op
    case Add(id) => Added(h, r, id)
    case Remove(id) => Removed(h, r, id)
  }

  ghost function Run(h: HashFn, r: Ring, ops: seq<Op>): Ring
    decreases |ops|
  {
    if ops == [] then r else Run(h, Apply(h, r, ops[0]), ops[1..])
  }

  /** Every reachable ring is coherent: colliding replicas, repeated adds and unknown removals included. */
  lemma {:induction false} ReachableCoherent(h: HashFn, r: Ring, ops: seq<Op>)
    requires Coherent(h, r)
    ensures Coherent(h, Run(h, r, ops))
    decreases |ops|
  {
    if ops != [] {
      if ops[0].Add? { AddedCoherent(h, r, ops[0].id); } else { RemovedCoherent(h, r, ops[0].id); }
      ReachableCoherent(h, Apply(h, r, ops[0]), ops[1..]);
    }
  }

  // ---------------------------------------------------------------- lookup

  /** The first point at or after `q`, or the least point of all when none follows. */
  ghost predicate IsSuccessor(points: set<Hash>, q: Hash, p: Hash) {
    && p in points
    && if exists x :: x in points && q <= x
       then q <= p && forall x :: x in points && q <= x ==> p <= x
       else forall x :: x in points ==> p <= x
  }

  lemma {:induction false} LeastExists(s: set<Hash>) returns (m: Hash)
    requires s != {}
    ensures m in s && forall x :: x in s ==> m <= x
    decreases s
  {
    m :| m in s;
    if s != {m} {
      var rest := s - {m};
      var m' := LeastExists(rest);
      assert forall x :: x in s ==> x == m || x in rest;
      if m' < m { m := m'; }
    }
  }

  lemma SuccessorExists(points: set<Hash>, q: Hash)
    requires points != {}
    ensures exists p :: IsSuccessor(points, q, p)
  {
    var p: Hash;
    var after := set x | x in points && q <= x;
    if after == {} {
      p := LeastExists(points);
      forall x | x in points ensures x < q { assert x !in after; }
    } else {
      p := LeastExists(after);
      assert p in points && q <= p;
      forall x | x in points && q <= x ensures p <= x { assert x in after; }
    }
    assert IsSuccessor(points, q, p);
  }

  ghost function Successor(points: set<Hash>, q: Hash): (p: Hash)
    requires points != {}
    ensures IsSuccessor(points, q, p)
    ensures forall x :: IsSuccessor(points, q, x) ==> x == p
  {
    SuccessorExists(points, q);
    var p :| IsSuccessor(points, q, p);
    p
  }

  /** The node to which the ring assigns a key with hash `q`. */
  ghost function Owner(r: Ring, q: Hash): string
    requires r.points != map[]
  {
    r.points[Successor(r.points.Keys, q)]
  }

  /** Searching the sorted keys and wrapping around finds the successor among the ring's points. */
  lemma FoundKeyIsSuccessor(h: HashFn, r: Ring, q: Hash, idx: nat)
    requires Coherent(h, r) && idx < |r.keys|
    requires (forall i :: idx <= i < |r.keys| ==> q <= r.keys[i])
             || (idx == 0 && forall i :: 0 <= i < |r.keys| ==> r.keys[i] < q)
    requires forall i :: 0 <= i < idx ==> r.keys[i] < q
    ensures r.keys[idx] in r.points && r.keys[idx] == Successor(r.points.Keys, q)
  {
    hide IsReplica;
    assert IsSuccessor(r.points.Keys, q, r.keys[idx]) by {
      forall x | x in r.points ensures exists i :: 0 <= i < |r.keys| && r.keys[i] == x {
        assert x in r.keys;
      }
      forall i | idx < i < |r.keys| ensures r.keys[idx] <= r.keys[i] {
        assert AtMost(r.keys[idx], r.keys[i]);
      }
      assert r.keys[idx] in r.keys;
    }
  }

  lemma KeysWithPoints(h: HashFn, r: Ring)
    requires Coherent(h, r)
    ensures r.keys == [] <==> r.points == map[]
  {
    if r.keys == [] {
      assert forall p :: p in r.points ==> p in r.keys;
    } else {
      assert r.keys[0] in r.points;
    }
  }

  /** The first listed origin with the owner's ID; the first origin of all when the owner is not listed. */
  ghost function Choice(origins: seq<Origin>, owner: string): (o: Origin)
    requires origins != []
    ensures o in origins
    ensures o.id == owner || (o == origins[0] && forall x :: x in origins ==> x.id != owner)
  {
    if origins[0].id == owner then origins[0]
    else if |origins| > 1 && Choice(origins[1..], owner).id == owner then Choice(origins[1..], owner)
    else origins[0]
  }

  lemma {:induction false} ChoiceIsFirst(origins: seq<Origin>, owner: string, i: nat)
    requires i < |origins| && origins[i].id == owner
    requires forall j :: 0 <= j < i ==> origins[j].id != owner
    ensures Choice(origins, owner) == origins[i]
  {
    if i > 0 { ChoiceIsFirst(origins[1..], owner, i - 1); }
  }

  ghost function Route(r: Ring, q: Hash, origins: seq<Origin>): Outcome<Origin> {
    if origins == [] then Err(NO_ORIGINS)
    else if r.points == map[] then Ok(origins[0])
    else Ok(Choice(origins, Owner(r, q)))
  }

  /** This is the first listed origin with the ID, or the first of all when none has it. */
  ghost predicate FirstListed(origins: seq<Origin>, id: string, o: Origin) {
    if exists x :: x in origins && x.id == id
    then exists i ::
           0 <= i < |origins| && o == origins[i] && o.id == id && forall j :: 0 <= j < i ==> origins[j].id != id
    else origins != [] && o == origins[0]
  }

  lemma ChoiceIsFirstListed(origins: seq<Origin>, owner: string)
    requires origins != []
    ensures FirstListed(origins, owner, Choice(origins, owner))
  {
    if x :| x in origins && x.id == owner {
      var i := FirstWith(origins, owner);
      ChoiceIsFirst(origins, owner, i);
    }
  }

  lemma {:induction false} FirstWith(origins: seq<Origin>, id: string) returns (i: nat)
    requires exists x :: x in origins && x.id == id
    ensures i < |origins| && origins[i].id == id && forall j :: 0 <= j < i ==> origins[j].id != id
  {
    i := 0;
    if origins[0].id != id {
      assert origins == [origins[0]] + origins[1..];
      var k := FirstWith(origins[1..], id);
      i := k + 1;
      assert forall j :: 0 < j < i ==> origins[j] == origins[1..][j - 1];
    }
  }

  /**
   * Every lookup goes to the owner of the first point at or after the hash, wrapping around: to the first listed
   * origin with that ID, or the first of all; without points to the first of all; without origins it is an error.
   */
  lemma RouteGoesToTheSuccessor(r: Ring, q: Hash, origins: seq<Origin>)
    ensures origins == [] ==> Route(r, q, origins) == Err(NO_ORIGINS)
    ensures origins != [] && r.points == map[] ==> Route(r, q, origins) == Ok(origins[0])
    ensures r.points != map[] ==> exists p :: IsSuccessor(r.points.Keys, q, p)
    ensures origins != [] ==>
              forall p :: IsSuccessor(r.points.Keys, q, p) ==>
                            Route(r, q, origins).Ok? && FirstListed(origins, r.points[p], Route(r, q, origins).value)
  {
    if r.points != map[] {
      assert IsSuccessor(r.points.Keys, q, Successor(r.points.Keys, q));
      if origins != [] { ChoiceIsFirstListed(origins, Owner(r, q)); }
    }
  }

  // ---------------------------------------------------------------- minimal disruption

  /** Adding a node, even with colliding replicas, moves a key only to that node. */
  lemma AddingMovesKeysOnlyToTheNewNode(h: HashFn, r: Ring, id: string, q: Hash)
    requires r.points != map[]
    ensures Added(h, r, id).points != map[]
    ensures var p := Successor(Added(h, r, id).points.Keys, q);
            Owner(Added(h, r, id), q) == if IsReplica(h, id, p) then id else Owner(r, q)
  {
    var r' := Added(h, r, id);
    PointsStep(h, id, DEFAULT_REPLICAS - 1);
    assert ReplicaHash(h, id, DEFAULT_REPLICAS - 1) in r'.points;
    var p := Successor(r'.points.Keys, q);
    if !IsReplica(h, id, p) {
      assert IsSuccessor(r.points.Keys, q, p) by {
        assert forall x :: x in r.points.Keys ==> x in r'.points.Keys;
      }
    }
  }

  /** Removing a node moves no key whose successor point is not one of that node's replicas. */
  lemma RemovingKeepsOtherKeys(h: HashFn, r: Ring, id: string, q: Hash)
    requires r.points != map[]
    requires !IsReplica(h, id, Successor(r.points.Keys, q))
    ensures Removed(h, r, id).points != map[]
    ensures Owner(Removed(h, r, id), q) == Owner(r, q)
  {
    var r' := Removed(h, r, id);
    var p := Successor(r.points.Keys, q);
    assert p in r'.points;
    assert IsSuccessor(r'.points.Keys, q, p) by {
      assert forall x :: x in r'.points.Keys ==> x in r.points.Keys;
    }
  }

  /** Whatever collides, an added node draws lookups to itself only: an answer that changes is the new node's. */
  lemma AddingMovesRoutesOnlyToTheNewNode(h: HashFn, r: Ring, id: string, q: Hash, origins: seq<Origin>)
    ensures var before, after := Route(r, q, origins), Route(Added(h, r, id), q, origins);
            after != before ==> after.Ok? && FirstListed(origins, id, after.value)
  {
    var r' := Added(h, r, id);
    if origins != [] {
      PointsOfANode(h, id);
      assert h(id + "-0") in r'.points;
      ChoiceIsFirstListed(origins, id);
      if r.points == map[] {
        assert forall p :: p in r'.points ==> r'.points[p] == id;
      } else {
        AddingMovesKeysOnlyToTheNewNode(h, r, id, q);
      }
    }
  }

  /** Whatever collides, a removal changes only lookups whose successor point is a replica of the removed node. */
  lemma RemovingKeepsOtherRoutes(h: HashFn, r: Ring, id: string, q: Hash, origins: seq<Origin>)
    requires forall p :: IsSuccessor(r.points.Keys, q, p) ==> !IsReplica(h, id, p)
    ensures Route(Removed(h, r, id), q, origins) == Route(r, q, origins)
  {
    if r.points != map[] { RemovingKeepsOtherKeys(h, r, id, q); }
  }

  /** Over a ring without collisions and with all its nodes listed, a removal moves exactly that node's lookups. */
  lemma RemovingMovesExactlyItsRoutes(h: HashFn, r: Ring, id: string, q: Hash, origins: seq<Origin>)
    requires ExactlyLive(h, r) && id in r.nodes && Removed(h, r, id).points != map[]
    requires forall node :: node in r.nodes ==> exists o :: o in origins && o.id == node
    ensures Route(r, q, origins).Ok?
    ensures Route(Removed(h, r, id), q, origins) != Route(r, q, origins) <==> Route(r, q, origins).value.id == id
  {
    hide IsReplica;
    assert r.points != map[] && origins != [];
    RemovingMovesExactlyItsKeys(h, r, id, q);
    assert Owner(r, q) in r.nodes;
  }

  // ---------------------------------------------------------------- the history of a point

  lemma {:induction false} RunSnoc(h: HashFn, r: Ring, ops: seq<Op>, op: Op)
    ensures Run(h, r, ops + [op]) == Apply(h, Run(h, r, ops), op)
    decreases |ops|
  {
    if ops == [] {
      assert [] + [op] == [op];
      RunOne(h, r, op);
    } else {
      assert (ops + [op])[0] == ops[0] && (ops + [op])[1..] == ops[1..] + [op];
      RunSnoc(h, Apply(h, r, ops[0]), ops[1..], op);
    }
  }

  /** An add of any node with a replica at the point, or the removal of such a node while it is known. */
  ghost predicate Touches(h: HashFn, r: Ring, op: Op, p: Hash) {
    IsReplica(h, op.id, p) && (op.Remove? ==> op.id in r.nodes)
  }

  ghost predicate TouchedAt(h: HashFn, ops: seq<Op>, p: Hash, k: int) {
    0 <= k < |ops| && Touches(h, Run(h, EMPTY_RING, ops[..k]), ops[k], p)
  }

  ghost predicate LastTouched(h: HashFn, ops: seq<Op>, p: Hash, k: int) {
    TouchedAt(h, ops, p, k) && forall j :: k < j ==> !TouchedAt(h, ops, p, j)
  }

  lemma TouchesOfFront(h: HashFn, ops: seq<Op>, p: Hash, k: int)
    requires ops != []
    ensures TouchedAt(h, ops[..|ops| - 1], p, k) <==> TouchedAt(h, ops, p, k) && k < |ops| - 1
  {
    if 0 <= k < |ops| - 1 { assert ops[..|ops| - 1][..k] == ops[..k]; }
  }

  lemma UntouchedPointStays(h: HashFn, r: Ring, op: Op, p: Hash)
    ensures var points := Apply(h, r, op).points;
            if Touches(h, r, op, p) then (p in points <==> op.Add?) && (op.Add? ==> points[p] == op.id)
            else (p in points <==> p in r.points) && (p in points ==> points[p] == r.points[p])
  {
  }

  lemma LastTouchOfFront(h: HashFn, ops: seq<Op>, p: Hash, k: int)
    requires ops != [] && !TouchedAt(h, ops, p, |ops| - 1)
    ensures LastTouched(h, ops[..|ops| - 1], p, k) <==> LastTouched(h, ops, p, k)
  {
    var front := ops[..|ops| - 1];
    TouchesOfFront(h, ops, p, k);
    if LastTouched(h, front, p, k) {
      forall j | k < j ensures !TouchedAt(h, ops, p, j) { TouchesOfFront(h, ops, p, j); }
    }
    if LastTouched(h, ops, p, k) {
      forall j | k < j ensures !TouchedAt(h, front, p, j) { TouchesOfFront(h, ops, p, j); }
    }
  }

  /**
   * For every hash, with any collisions: after a run a point is in the ring exactly when the last operation that
   * touched it is an add, and then it belongs to the node which that operation added.
   */
  lemma {:induction false} LastTouchDecides(h: HashFn, ops: seq<Op>, p: Hash)
    ensures p in Run(h, EMPTY_RING, ops).points <==> exists k :: LastTouched(h, ops, p, k) && ops[k].Add?
    ensures forall k :: LastTouched(h, ops, p, k) && ops[k].Add? ==>
                          p in Run(h, EMPTY_RING, ops).points && Run(h, EMPTY_RING, ops).points[p] == ops[k].id
    decreases |ops|
  {
    if ops != [] {
      var front, op, n := ops[..|ops| - 1], ops[|ops| - 1], |ops| - 1;
      var r := Run(h, EMPTY_RING, front);
      assert ops == front + [op];
      RunSnoc(h, EMPTY_RING, front, op);
      UntouchedPointStays(h, r, op, p);
      assert TouchedAt(h, ops, p, n) <==> Touches(h, r, op, p);
      if TouchedAt(h, ops, p, n) {
        assert LastTouched(h, ops, p, n);
        assert forall k :: LastTouched(h, ops, p, k) ==> k == n;
      } else {
        LastTouchDecides(h, front, p);
        forall k ensures LastTouched(h, front, p, k) <==> LastTouched(h, ops, p, k) {
          LastTouchOfFront(h, ops, p, k);
        }
      }
    }
  }

  // ---------------------------------------------------------------- independence from history

  /** No replica of one of these nodes collides with a replica of another. */
  ghost predicate NoCollision(h: HashFn, ids: set<string>) {
    forall x, y, p :: x in ids && y in ids && IsReplica(h, x, p) && IsReplica(h, y, p) ==> x == y
  }

  ghost predicate Mentions(ids: set<string>, ops: seq<Op>) {
    forall i :: 0 <= i < |ops| ==> ops[i].id in ids
  }

  /** The ring holds exactly the replica points of its nodes. */
  ghost predicate ExactlyLive(h: HashFn, r: Ring) {
    && (forall p :: p in r.points ==> r.points[p] in r.nodes && IsReplica(h, r.points[p], p))
    && (forall id, p :: id in r.nodes && IsReplica(h, id, p) ==> p in r.points && r.points[p] == id)
  }

  lemma {:induction false} RunIsExactlyLive(h: HashFn, r: Ring, ids: set<string>, ops: seq<Op>)
    requires NoCollision(h, ids) && Mentions(ids, ops)
    requires r.nodes.Keys <= ids && ExactlyLive(h, r)
    ensures Run(h, r, ops).nodes.Keys <= ids && ExactlyLive(h, Run(h, r, ops))
    decreases |ops|
  {
    if ops != [] {
      var r' := Apply(h, r, ops[0]);
      var x := ops[0].id;
      assert x in ids;
      forall id, p | id in r'.nodes && IsReplica(h, id, p)
        ensures p in r'.points && r'.points[p] == id
      {
        assert id in ids;
        assert IsReplica(h, x, p) ==> x == id;
      }
      RunIsExactlyLive(h, r', ids, ops[1..]);
    }
  }

  lemma ExactlyLiveUnique(h: HashFn, r1: Ring, r2: Ring)
    requires ExactlyLive(h, r1) && ExactlyLive(h, r2) && r1.nodes.Keys == r2.nodes.Keys
    ensures r1.points == r2.points
  {
    forall p ensures (p in r1.points <==> p in r2.points)
      ensures p in r1.points ==> r1.points[p] == r2.points[p]
    {
      if p in r1.points { assert r1.points[p] in r2.nodes; }
      if p in r2.points { assert r2.points[p] in r1.nodes; }
    }
  }

  /** Any two runs over these nodes that leave the same nodes answer every lookup alike. */
  ghost predicate HistoryIndependent(h: HashFn, ids: set<string>) {
    forall ops1, ops2, q, origins ::
      Mentions(ids, ops1) && Mentions(ids, ops2)
      && Run(h, EMPTY_RING, ops1).nodes.Keys == Run(h, EMPTY_RING, ops2).nodes.Keys
      ==> Route(Run(h, EMPTY_RING, ops1), q, origins) == Route(Run(h, EMPTY_RING, ops2), q, origins)
  }

  lemma SameNodesSamePoints(h: HashFn, ids: set<string>, ops1: seq<Op>, ops2: seq<Op>)
    requires NoCollision(h, ids) && Mentions(ids, ops1) && Mentions(ids, ops2)
    requires Run(h, EMPTY_RING, ops1).nodes.Keys == Run(h, EMPTY_RING, ops2).nodes.Keys
    ensures Run(h, EMPTY_RING, ops1).points == Run(h, EMPTY_RING, ops2).points
  {
    RunIsExactlyLive(h, EMPTY_RING, ids, ops1);
    RunIsExactlyLive(h, EMPTY_RING, ids, ops2);
    ExactlyLiveUnique(h, Run(h, EMPTY_RING, ops1), Run(h, EMPTY_RING, ops2));
  }

  /** After adding `x` and then `y`, a replica point of `y` routes to `y`. */
  lemma LastAddWins(h: HashFn, x: string, y: string, p: Hash, origins: seq<Origin>)
    requires IsReplica(h, y, p)
    requires exists o :: o in origins && o.id == y
    ensures var r := Run(h, EMPTY_RING, [Add(x), Add(y)]);
            r.nodes.Keys == {x, y} && Route(r, p, origins).Ok? && Route(r, p, origins).value.id == y
  {
    RunTwo(h, EMPTY_RING, Add(x), Add(y));
    var r := Run(h, EMPTY_RING, [Add(x), Add(y)]);
    assert r.nodes.Keys == {x, y};
    assert p in r.points && r.points[p] == y;
    assert IsSuccessor(r.points.Keys, p, p);
  }

  lemma CollisionMakesOrderMatter(h: HashFn, ids: set<string>, x: string, y: string, p: Hash)
    requires x in ids && y in ids && x != y && IsReplica(h, x, p) && IsReplica(h, y, p)
    ensures !HistoryIndependent(h, ids)
  {
    hide Run, Route, IsReplica;
    var origins := [Origin(x, ""), Origin(y, "")];
    assert origins[0].id == x && origins[1].id == y;
    var xy, yx := [Add(x), Add(y)], [Add(y), Add(x)];
    assert Mentions(ids, xy) && Mentions(ids, yx);
    var rxy, ryx := Run(h, EMPTY_RING, xy), Run(h, EMPTY_RING, yx);
    assert Route(rxy, p, origins) != Route(ryx, p, origins) && rxy.nodes.Keys == ryx.nodes.Keys by {
      LastAddWins(h, x, y, p, origins);
      LastAddWins(h, y, x, p, origins);
    }
  }

  /** The ring forgets its history exactly when no replicas of different nodes collide. */
  lemma HistoryIndependentExactlyWithoutCollisions(h: HashFn, ids: set<string>)
    ensures HistoryIndependent(h, ids) <==> NoCollision(h, ids)
  {
    if NoCollision(h, ids) {
      forall ops1, ops2, q, origins |
        && Mentions(ids, ops1) && Mentions(ids, ops2)
        && Run(h, EMPTY_RING, ops1).nodes.Keys == Run(h, EMPTY_RING, ops2).nodes.Keys
        ensures Route(Run(h, EMPTY_RING, ops1), q, origins) == Route(Run(h, EMPTY_RING, ops2), q, origins)
      {
        SameNodesSamePoints(h, ids, ops1, ops2);
      }
    } else {
      var x, y, p :| x in ids && y in ids && IsReplica(h, x, p) && IsReplica(h, y, p) && x != y;
      CollisionMakesOrderMatter(h, ids, x, y, p);
    }
  }

  // ---------------------------------------------------------------- collisions are unavoidable

  /** A family of different node names. */
  function Name(n: nat): string {
    seq(n, i => 'a')
  }

  /** The first replica points of the first `n` names. */
  ghost function FirstPoints(h: HashFn, n: nat): set<int> {
    if n == 0 then {} else FirstPoints(h, n - 1) + {ReplicaHash(h, Name(n - 1), 0)}
  }

  lemma {:induction false} FirstPointsFromNames(h: HashFn, n: nat)
    ensures forall p :: p in FirstPoints(h, n) ==> exists i :: 0 <= i < n && p == ReplicaHash(h, Name(i), 0)
  {
    if n > 0 { FirstPointsFromNames(h, n - 1); }
  }

  ghost predicate AllDifferent(h: HashFn, n: nat) {
    forall i, j :: 0 <= i < j < n ==> ReplicaHash(h, Name(i), 0) != ReplicaHash(h, Name(j), 0)
  }

  lemma {:induction false} DifferentPointsCount(h: HashFn, n: nat)
    requires AllDifferent(h, n)
    ensures |FirstPoints(h, n)| == n
  {
    if n > 0 {
      DifferentPointsCount(h, n - 1);
      FirstPointsFromNames(h, n - 1);
    }
  }

  ghost function Below(n: nat): set<int> {
    if n == 0 then {} else Below(n - 1) + {n - 1}
  }

  lemma {:induction false} InBelow(n: nat, x: nat)
    ensures x in Below(n) <==> x < n
  {
    if n > 0 { InBelow(n - 1, x); }
  }

  lemma {:induction false} BelowCount(n: nat)
    ensures |Below(n)| == n
  {
    if n > 0 {
      BelowCount(n - 1);
      InBelow(n - 1, n - 1);
    }
  }

  lemma {:induction false} FirstPointsBelow(h: HashFn, n: nat)
    ensures FirstPoints(h, n) <= Below(HASHES)
  {
    hide Below;
    if n > 0 {
      FirstPointsBelow(h, n - 1);
      InBelow(HASHES, ReplicaHash(h, Name(n - 1), 0));
    }
  }

  lemma SubsetCount(a: set<int>, b: set<int>)
    requires a <= b
    ensures |a| <= |b|
  {
    assert a + (b - a) == b;
  }

  /** There are more names than points: every hash makes replicas of some two different nodes collide. */
  lemma EveryHashCollides(h: HashFn)
    ensures exists ids :: !NoCollision(h, ids) && !HistoryIndependent(h, ids)
  {
    var n := HASHES + 1;
    MorePointsThanHashes(h, n);
    var i, j :| 0 <= i < j < n && ReplicaHash(h, Name(i), 0) == ReplicaHash(h, Name(j), 0);
    CollisionAt(h, Name(i), Name(j), ReplicaHash(h, Name(i), 0));
  }

  lemma MorePointsThanHashes(h: HashFn, n: nat)
    requires n > HASHES
    ensures !AllDifferent(h, n)
  {
    hide FirstPoints, Below, AllDifferent, ReplicaHash;
    FirstPointsBelow(h, n);
    BelowCount(HASHES);
    SubsetCount(FirstPoints(h, n), Below(HASHES));
    if AllDifferent(h, n) { DifferentPointsCount(h, n); }
  }

  lemma CollisionAt(h: HashFn, x: string, y: string, p: Hash)
    requires x != y && ReplicaHash(h, x, 0) == p == ReplicaHash(h, y, 0)
    ensures !NoCollision(h, {x, y}) && !HistoryIndependent(h, {x, y})
  {
    FirstReplicaIsReplica(h, x);
    FirstReplicaIsReplica(h, y);
    HistoryIndependentExactlyWithoutCollisions(h, {x, y});
  }

  lemma FirstReplicaIsReplica(h: HashFn, id: string)
    ensures IsReplica(h, id, ReplicaHash(h, id, 0))
  {
    PointsStep(h, id, 0);
    PointsStep(h, id, 1);
    PointsStep(h, id, 2);
  }

  lemma RunOne(h: HashFn, r: Ring, op: Op)
    ensures Run(h, r, [op]) == Apply(h, r, op)
  {
    assert Run(h, Apply(h, r, op), []) == Apply(h, r, op);
    assert [op][1..] == [];
  }

  lemma RunTwo(h: HashFn, r: Ring, a: Op, b: Op)
    ensures Run(h, r, [a, b]) == Apply(h, Apply(h, r, a), b)
  {
    RunOne(h, Apply(h, r, a), b);
    assert [a, b][1..] == [b];
  }

  /** Two adds commute exactly when the nodes are the same or share no replica point. */
  lemma AddsCommuteExactly(h: HashFn, points: map<Hash, string>, x: string, y: string)
    ensures Claimed(h, Claimed(h, points, x), y) == Claimed(h, Claimed(h, points, y), x)
            <==> x == y || Points(h, x) !! Points(h, y)
  {
    hide PointsUpTo;
    var xy, yx := Claimed(h, Claimed(h, points, x), y), Claimed(h, Claimed(h, points, y), x);
    if Points(h, x) !! Points(h, y) {
      assert xy == yx;
    } else {
      var p :| p in Points(h, x) && p in Points(h, y);
      assert xy[p] == y && yx[p] == x;
    }
  }

  /** Removing a just-added new node restores the ring exactly when it took over nobody's point. */
  lemma RemoveUndoesAddExactly(h: HashFn, r: Ring, id: string)
    requires id !in r.nodes
    ensures Removed(h, Added(h, r, id), id).nodes == r.nodes
    ensures Removed(h, Added(h, r, id), id).points == r.points
            <==> forall p :: IsReplica(h, id, p) ==> p !in r.points
  {
    var back := Removed(h, Added(h, r, id), id);
    assert back.nodes == r.nodes;
    if forall p :: IsReplica(h, id, p) ==> p !in r.points {
      assert back.points == r.points;
    }
  }

  /** Without collisions, removing a node moves exactly that node's keys. */
  lemma RemovingMovesExactlyItsKeys(h: HashFn, r: Ring, id: string, q: Hash)
    requires ExactlyLive(h, r) && id in r.nodes
    requires r.points != map[] && Removed(h, r, id).points != map[]
    ensures Owner(Removed(h, r, id), q) != Owner(r, q) <==> Owner(r, q) == id
  {
    var p := Successor(r.points.Keys, q);
    if Owner(r, q) == id {
      var p' := Successor(Removed(h, r, id).points.Keys, q);
      assert p' in r.points && !IsReplica(h, id, p');
    } else {
      assert !IsReplica(h, id, p);
      RemovingKeepsOtherKeys(h, r, id, q);
    }
  }

  /**
   * Adding and removing `y` can leave another node without any point, though it is still a node:
   * `x` keeps a point exactly when it had one that `y` did not claim.
   */
  lemma CollisionsCanStrandANode(h: HashFn, r: Ring, x: string, y: string)
    requires x in r.nodes && y !in r.nodes
    ensures var back := Removed(h, Added(h, r, y), y);
            && x in back.nodes
            && ((exists p :: p in back.points && back.points[p] == x)
                <==> exists p :: p in r.points && r.points[p] == x && !IsReplica(h, y, p))
  {
    var back := Removed(h, Added(h, r, y), y);
    forall p ensures p in back.points <==> p in r.points && !IsReplica(h, y, p)
      ensures p in back.points ==> back.points[p] == r.points[p]
    {
    }
  }

  // ---------------------------------------------------------------- the balancer

  class Balancer {
    const hash: HashFn
    var ring: map<Hash, string>
    var keys: seq<Hash>
    var nodes: map<string, nat>

    ghost function State(): Ring
      reads this
    {
      Ring(ring, keys, nodes)
    }

    ghost predicate Valid()
      reads this
    {
      Coherent(hash, State())
    }

    constructor (hash: HashFn)
      ensures Valid() && State() == EMPTY_RING && this.hash == hash
    {
      this.hash := hash;
      ring, keys, nodes := map[], [], map[];
    }

    method AddOrigin(origin: Origin)
      requires Valid()
      modifies this
      ensures Valid() && State() == Added(hash, old(State()), origin.id)
      ensures var id, p0, p1, p2 := origin.id, hash(origin.id + "-0"), hash(origin.id + "-1"), hash(origin.id + "-2");
              && ring == old(ring)[p0 := id][p1 := id][p2 := id]
              && multiset(keys) == multiset(old(keys)) + multiset{p0, p1, p2}
              && nodes == old(nodes)[id := 3]
      ensures forall i, j :: 0 <= i < j < |keys| ==> keys[i] <= keys[j]
    {
      hide Coherent, PointsUpTo, ReplicaBag, Claimed, Sort;
      ghost var before := State();
      AddedWritesThreePoints(hash, ring, origin.id);
      AddedAppendsThreeKeys(hash, origin.id);
      AddedCoherent(hash, before, origin.id);
      var originId := origin.id;
      nodes := nodes[originId := DEFAULT_REPLICAS];
      AddReplicas(originId);
      SortIsAscending(keys, AtMost);
      keys := Sort(keys, AtMost);
    }

    method AddReplicas(originId: string)
      modifies `ring, `keys
      ensures ring == Claimed(hash, old(ring), originId)
      ensures multiset(keys) == multiset(old(keys)) + ReplicaBag(hash, originId, DEFAULT_REPLICAS)
    {
      for i := 0 to DEFAULT_REPLICAS
        invariant multiset(keys) == multiset(old(keys)) + ReplicaBag(hash, originId, i)
        invariant ring == ClaimedUpTo(hash, old(ring), originId, i)
      {
        ClaimStep(hash, old(ring), originId, i);
        var p := ReplicaHash(hash, originId, i);
        ring := ring[p := originId];
        keys := keys + [p];
      }
    }

    method RemoveOrigin(originId: string)
      requires Valid()
      modifies this
      ensures Valid() && State() == Removed(hash, old(State()), originId)
      ensures var points := {hash(originId + "-0"), hash(originId + "-1"), hash(originId + "-2")};
              ring == if originId in old(nodes) then old(ring) - points else old(ring)
      ensures nodes == old(nodes) - {originId}
      ensures forall p :: p in keys <==> p in ring
      ensures forall i, j :: 0 <= i < j < |keys| ==> keys[i] < keys[j]
    {
      hide SortedBy, IsReplica;
      ghost var before := State();
      PointsOfANode(hash, originId);
      var replicas := if originId in nodes then nodes[originId] else 0;
      nodes := nodes - {originId};
      for i := 0 to replicas
        invariant nodes == before.nodes - {originId}
        invariant ring == before.points - PointsUpTo(hash, originId, i)
      {
        PointsStep(hash, originId, i);
        var p := ReplicaHash(hash, originId, i);
        ring := ring - {p};
      }
      keys := RebuiltKeys(ring);
      assert State() == Removed(hash, before, originId);
      RemovedCoherent(hash, before, originId);
    }

    /** Collects the points, in whatever order the map yields them, and sorts them. */
    static method RebuiltKeys(points: map<Hash, string>) returns (newKeys: seq<Hash>)
      ensures newKeys == Ascending(multiset(points.Keys), AtMost)
    {
      newKeys := [];
      var todo := points.Keys;
      while todo != {}
        invariant multiset(newKeys) + multiset(todo) == multiset(points.Keys)
        decreases todo
      {
        var p :| p in todo;
        newKeys := newKeys + [p];
        todo := todo - {p};
      }
      assert multiset(newKeys) == multiset(points.Keys);
      SortIsAscending(newKeys, AtMost);
      newKeys := Sort(newKeys, AtMost);
    }

    /** The least index whose key is at or after `q`, or the number of keys when there is none. */
    method Search(q: Hash) returns (idx: nat)
      requires Valid()
      ensures idx <= |keys|
      ensures forall i :: 0 <= i < idx ==> keys[i] < q
      ensures forall i :: idx <= i < |keys| ==> q <= keys[i]
    {
      var lo, hi := 0, |keys|;
      while lo < hi
        invariant 0 <= lo <= hi <= |keys|
        invariant forall i :: 0 <= i < lo ==> keys[i] < q
        invariant forall i :: hi <= i < |keys| ==> q <= keys[i]
      {
        var mid := (lo + hi) / 2;
        assert forall i :: 0 <= i < mid ==> AtMost(keys[i], keys[mid]);
        assert forall i :: mid < i < |keys| ==> AtMost(keys[mid], keys[i]);
        if keys[mid] >= q { hi := mid; } else { lo := mid + 1; }
      }
      idx := lo;
    }

    method SelectOrigin(key: string, origins: seq<Origin>) returns (r: Outcome<Origin>)
      requires Valid()
      ensures r == Route(State(), hash(key), origins)
      ensures origins == [] ==> r == Err(NO_ORIGINS)
      ensures origins != [] && ring == map[] ==> r == Ok(origins[0])
      ensures origins != [] && ring != map[] ==>
                exists p, i ::
                  && p in ring && 0 <= i < |origins| && r == Ok(origins[i])
                  && (if exists x :: x in ring && hash(key) <= x
                      then hash(key) <= p && forall x :: x in ring && hash(key) <= x ==> p <= x
                      else forall x :: x in ring ==> p <= x)
                  && (if exists o :: o in origins && o.id == ring[p]
                      then origins[i].id == ring[p] && forall j :: 0 <= j < i ==> origins[j].id != ring[p]
                      else i == 0)
    {
      hide Coherent, IsReplica, Choice;
      if |origins| == 0 { return Err(NO_ORIGINS); }
      KeysWithPoints(hash, State());
      if |keys| == 0 { return Ok(origins[0]); }
      var q := hash(key);
      var idx := Search(q);
      if idx == |keys| { idx := 0; }
      var p := keys[idx];
      FoundKeyIsSuccessor(hash, State(), q, idx);
      var originId := ring[p];
      for i := 0 to |origins|
        invariant forall j :: 0 <= j < i ==> origins[j].id != originId
      {
        if origins[i].id == originId {
          ChoiceIsFirst(origins, originId, i);
          return Ok(origins[i]);
        }
      }
      return Ok(origins[0]);
    }
  }
}
