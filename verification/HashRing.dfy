/**
 `hash64_ring`: consistent hashing of keys to nodes over a ring of 64-bit points. The digest is any
 function from strings to points; different virtual nodes may collide.
 */
module RingLookup {

  const MODULUS := 0x1_0000_0000_0000_0000

  type Point = p: nat | p < MODULUS

  type Ring = map<Point, string>

  /** The decimal digits of a number, as to_string prints them. */
  function Decimal(n: nat): string {
    if n < 10 then ["0123456789"[n]] else Decimal(n / 10) + ["0123456789"[n % 10]]
  }

  function VNode(node: string, i: nat): string {
    node + "#" + Decimal(i)
  }

  /** Where the first `n` virtual nodes of `node` fall. */
  function Points(h: string -> Point, node: string, n: nat): set<Point> {
    if n == 0 then {} else Points(h, node, n - 1) + {h(VNode(node, n - 1))}
  }

  /** The number a string of digits stands for. */
  function Number(s: string): nat {
    if s == "" then 0 else Number(s[..|s| - 1]) * 10 + if '0' <= s[|s| - 1] <= '9' then (s[|s| - 1] - '0') as int else 0
  }

  lemma DigitAt(d: nat)
    requires d < 10
    ensures "0123456789"[d] == ('0' as int + d) as char
  {}

  /** Printed and read again, a number is itself, and only zero begins with a zero. */
  lemma {:induction false} DecimalReadsBack(n: nat)
    ensures Number(Decimal(n)) == n && Decimal(n) != "" && (n > 0 ==> Decimal(n)[0] != '0')
    ensures forall c | c in Decimal(n) :: '0' <= c <= '9'
  {
    var last := ["0123456789"[n % 10]];
    DigitAt(n % 10);
    if n >= 10 {
      DecimalReadsBack(n / 10);
      assert (Decimal(n / 10) + last)[..|Decimal(n / 10)|] == Decimal(n / 10);
    } else {
      assert last[..0] == "" && Number(last[..0]) == 0;
    }
  }

  /** A node's points are the hashes of its name, a hash sign and each number below `n`. */
  lemma {:induction false} PointsAre(h: string -> Point, node: string, n: nat)
    ensures forall p :: p in Points(h, node, n) <==> exists i: nat :: i < n && p == h(VNode(node, i))
    ensures forall i: nat :: VNode(node, i) == node + "#" + Decimal(i)
  {
    if n > 0 {
      PointsAre(h, node, n - 1);
      var last: nat := n - 1;
      assert h(VNode(node, last)) in Points(h, node, n);
    }
  }

  // ----- the operations

  /** Points already on the ring keep their owner. */
  function Inserted(r: Ring, node: string, ps: set<Point>): Ring {
    map p | p in r.Keys + ps :: if p in r then r[p] else node
  }

  function Removed(r: Ring, node: string, ps: set<Point>): Ring {
    map p | p in r && !(p in ps && r[p] == node) :: r[p]
  }

  predicate Inserts(r: Ring, ps: set<Point>) {
    exists p :: p in ps && p !in r
  }

  predicate Removes(r: Ring, node: string, ps: set<Point>) {
    exists p :: p in ps && p in r && r[p] == node
  }

  lemma InsertedOneMore(r: Ring, node: string, ps: set<Point>, p: Point)
    ensures Inserted(r, node, ps + {p})
            == if p in Inserted(r, node, ps) then Inserted(r, node, ps) else Inserted(r, node, ps)[p := node]
    ensures Inserts(r, ps + {p}) <==> Inserts(r, ps) || p !in Inserted(r, node, ps)
  {
    assert p in ps + {p};
  }

  lemma RemovedOneMore(r: Ring, node: string, ps: set<Point>, p: Point)
    ensures var r' := Removed(r, node, ps);
      && Removed(r, node, ps + {p}) == (if p in r' && r'[p] == node then r' - {p} else r')
      && (Removes(r, node, ps + {p}) <==> Removes(r, node, ps) || (p in r' && r'[p] == node))
  {
    assert p in ps + {p};
  }

  // ----- the owner of a point

  /** How far clockwise `to` lies from `from`. */
  function Distance(from: Point, to: Point): Point {
    if from <= to then to - from else to + MODULUS - from
  }

  /** `k` is the first point met going clockwise from `x`, `x` itself included. */
  ghost predicate IsSuccessor(ks: set<Point>, x: Point, k: Point) {
    k in ks && forall q | q in ks :: Distance(x, k) <= Distance(x, q)
  }

  /** The search get makes: the least point not below `x`, or else the least of all. */
  predicate IsLeastFrom(ks: set<Point>, from: Point, k: Point) {
    k in ks && from <= k && forall q | q in ks && from <= q :: k <= q
  }

  lemma LowerBoundOrFirstIsSuccessor(ks: set<Point>, x: Point, k: Point)
    requires if exists q :: q in ks && x <= q then IsLeastFrom(ks, x, k) else IsLeastFrom(ks, 0, k)
    ensures IsSuccessor(ks, x, k)
  {
    forall q | q in ks ensures Distance(x, k) <= Distance(x, q) {}
  }

  lemma {:induction false} LeastFromExists(ks: set<Point>, from: Point, q: Point) returns (k: Point)
    requires q in ks && from <= q
    ensures IsLeastFrom(ks, from, k)
    decreases q
  {
    if IsLeastFrom(ks, from, q) {
      k := q;
    } else {
      var p :| p in ks && from <= p && p < q;
      k := LeastFromExists(ks, from, p);
    }
  }

  lemma SuccessorExists(ks: set<Point>, x: Point) returns (k: Point)
    requires ks != {}
    ensures IsSuccessor(ks, x, k)
  {
    if q :| q in ks && x <= q {
      k := LeastFromExists(ks, x, q);
    } else {
      var q :| q in ks;
      k := LeastFromExists(ks, 0, q);
    }
    LowerBoundOrFirstIsSuccessor(ks, x, k);
  }

  lemma SuccessorIsUnique(ks: set<Point>, x: Point, k1: Point, k2: Point)
    requires IsSuccessor(ks, x, k1) && IsSuccessor(ks, x, k2)
    ensures k1 == k2
  {}

  ghost function Successor(ks: set<Point>, x: Point): (k: Point)
    requires ks != {}
    ensures IsSuccessor(ks, x, k)
  {
    SuccessorIsThere(ks, x);
    var k :| IsSuccessor(ks, x, k);
    k
  }

  lemma SuccessorIsThere(ks: set<Point>, x: Point)
    requires ks != {}
    ensures exists k :: IsSuccessor(ks, x, k)
  {
    var k := SuccessorExists(ks, x);
  }

  /** The node get returns for a key that hashes to `x`. */
  ghost function Owner(r: Ring, x: Point): string
    requires r.Keys != {}
  {
    r[Successor(r.Keys, x)]
  }

  // ----- minimal disruption

  /**
   Inserting a node moves exactly the keys for which one of its new points comes before their old
   owner's, and moves them to that node; every other key keeps its owner, collisions or not.
   */
  lemma InsertMovesOnlyToNewNode(r: Ring, node: string, ps: set<Point>, x: Point)
    requires r.Keys != {}
    ensures Inserted(r, node, ps).Keys != {}
    ensures var closer := exists p :: p in ps && p !in r && Distance(x, p) < Distance(x, Successor(r.Keys, x));
      Owner(Inserted(r, node, ps), x) == if closer then node else Owner(r, x)
  {
    var r' := Inserted(r, node, ps);
    var k, k' := Successor(r.Keys, x), Successor(r'.Keys, x);
    assert k in r';
    if k' in r {
      SuccessorIsUnique(r.Keys, x, k, k');
    } else {
      assert k' in ps && Distance(x, k') <= Distance(x, k);
    }
  }

  /** The first node inserted owns every key. */
  lemma FirstNodeOwnsAll(node: string, ps: set<Point>, x: Point)
    requires ps != {}
    ensures Inserted(map[], node, ps).Keys != {} && Owner(Inserted(map[], node, ps), x) == node
  {
    var p :| p in ps;
    assert p in Inserted(map[], node, ps);
  }

  /** Removing a node changes the owner of no key another node owns. */
  lemma RemoveMovesOnlyItsKeys(r: Ring, node: string, ps: set<Point>, x: Point)
    requires r.Keys != {} && Owner(r, x) != node
    ensures Removed(r, node, ps).Keys != {}
    ensures Owner(Removed(r, node, ps), x) == Owner(r, x)
  {
    var r' := Removed(r, node, ps);
    var k := Successor(r.Keys, x);
    assert k in r';
    SuccessorIsUnique(r'.Keys, x, k, Successor(r'.Keys, x));
  }

  /** Every point on the ring belongs to a node that has a virtual node there. */
  ghost predicate OwnPoints(h: string -> Point, n: nat, r: Ring) {
    forall p | p in r :: p in Points(h, r[p], n)
  }

  /** Inserting a node and removing it again restores the ring exactly when the node was not on it. */
  lemma InsertThenRemoveRestoresIff(h: string -> Point, n: nat, r: Ring, node: string)
    requires OwnPoints(h, n, r)
    ensures var ps := Points(h, node, n);
      Removed(Inserted(r, node, ps), node, ps) == r <==> node !in r.Values
  {
    var ps := Points(h, node, n);
    var back := Removed(Inserted(r, node, ps), node, ps);
    if node in r.Values {
      var p :| p in r && r[p] == node;
      assert p !in back;
    } else {
      forall p | p in r ensures p in back && back[p] == r[p] {
        assert r[p] in r.Values;
      }
      assert back == r;
    }
  }

  /** Nodes whose points do not collide with anyone's can be inserted in either order. */
  lemma DisjointInsertsCommute(r: Ring, a: string, ps: set<Point>, b: string, qs: set<Point>)
    requires ps !! qs
    ensures Inserted(Inserted(r, a, ps), b, qs) == Inserted(Inserted(r, b, qs), a, ps)
  {}

  // ----- size

  lemma InsertAddsOwner(h: string -> Point, n: nat, r: Ring, node: string)
    requires OwnPoints(h, n, r)
    ensures var ps := Points(h, node, n);
      && OwnPoints(h, n, Inserted(r, node, ps))
      && Inserted(r, node, ps).Values == r.Values + (if Inserts(r, ps) then {node} else {})
  {
    var ps := Points(h, node, n);
    var r' := Inserted(r, node, ps);
    forall v | v in r.Values ensures v in r'.Values {
      var p :| p in r && r[p] == v;
      assert p in r' && r'[p] == v;
    }
    if Inserts(r, ps) {
      var p :| p in ps && p !in r;
      assert p in r' && r'[p] == node;
    }
  }

  lemma RemoveDropsOwner(h: string -> Point, n: nat, r: Ring, node: string)
    requires OwnPoints(h, n, r)
    ensures var ps := Points(h, node, n);
      && OwnPoints(h, n, Removed(r, node, ps))
      && Removed(r, node, ps).Values == r.Values - {node}
      && (Removes(r, node, ps) <==> node in r.Values)
  {
    var ps := Points(h, node, n);
    var r' := Removed(r, node, ps);
    forall v | v in r.Values && v != node ensures v in r'.Values {
      var p :| p in r && r[p] == v;
      assert p in r' && r'[p] == v;
    }
  }

  // ----- usage

  lemma {:induction false} PointsAreFew(h: string -> Point, node: string, n: nat)
    ensures |Points(h, node, n)| <= n
  {
    if n > 0 {
      PointsAreFew(h, node, n - 1);
    }
  }

  lemma UnionSize<T>(a: set<T>, b: set<T>)
    ensures |a + b| <= |a| + |b|
    ensures a !! b ==> |a + b| == |a| + |b|
  {
    if a !! b {
    } else {
      assert a + b == a + (b - a);
      assert b == (b - a) + (b * a);
    }
  }

  function PointsOf(r: Ring, node: string): set<Point> {
    set p | p in r && r[p] == node
  }

  /** The points of one node on the ring, and those of the others. */
  lemma RingSplits(h: string -> Point, n: nat, r: Ring, node: string)
    requires OwnPoints(h, n, r)
    ensures PointsOf(r, node) <= Points(h, node, n)
    ensures |r| == |Removed(r, node, Points(h, node, n))| + |PointsOf(r, node)|
  {
    var r', mine := Removed(r, node, Points(h, node, n)), PointsOf(r, node);
    assert r.Keys == r'.Keys + mine;
    UnionSize(r'.Keys, mine);
    assert |r| == |r.Keys| && |r'| == |r'.Keys|;
  }

  /** Every node on the ring owns all its points. */
  predicate Whole(h: string -> Point, n: nat, r: Ring) {
    forall v | v in r.Values :: OwnsAll(r, v, Points(h, v, n))
  }

  predicate OwnsAll(r: Ring, node: string, ps: set<Point>) {
    forall p | p in ps :: p in r && r[p] == node
  }

  lemma OneMoreTimes(a: nat, b: nat, n: nat)
    requires a == b + 1
    ensures a * n == b * n + n
  {}

  /** A node leaves with its points, and is one owner less. */
  lemma OwnerLeaves(h: string -> Point, n: nat, r: Ring, node: string)
    requires OwnPoints(h, n, r) && node in r.Values
    ensures var r' := Removed(r, node, Points(h, node, n));
      && OwnPoints(h, n, r')
      && |r'.Values| == |r.Values| - 1
      && |r| == |r'| + |PointsOf(r, node)|
      && |r.Values| * n == |r'.Values| * n + n
  {
    var r' := Removed(r, node, Points(h, node, n));
    RemoveDropsOwner(h, n, r, node);
    OneOwnerLess(r.Values, node);
    RingSplits(h, n, r, node);
    OneMoreTimes(|r.Values|, |r'.Values|, n);
  }

  /** usage() is at most one point for each virtual node of each node on the ring. */
  lemma {:induction false} UsageIsBounded(h: string -> Point, n: nat, r: Ring)
    requires OwnPoints(h, n, r)
    ensures |r| <= |r.Values| * n
    decreases |r.Values|
  {
    if r.Keys == {} {
      EmptyRing(r, n);
    } else {
      var node := SomeOwner(r);
      OwnerLeaves(h, n, r, node);
      RingSplits(h, n, r, node);
      SubsetIsSmaller(PointsOf(r, node), Points(h, node, n));
      PointsAreFew(h, node, n);
      UsageIsBounded(h, n, Removed(r, node, Points(h, node, n)));
    }
  }

  lemma EmptyRing(r: Ring, n: nat)
    requires r.Keys == {}
    ensures |r| == 0 && |r.Values| == 0 && |r.Values| * n == 0
  {
    assert r.Values == {};
  }

  /** It is exactly that just when every node owns all its points and has one for each virtual node. */
  lemma {:induction false} UsageIsFullIff(h: string -> Point, n: nat, r: Ring)
    requires OwnPoints(h, n, r)
    ensures |r| == |r.Values| * n <==> Whole(h, n, r) && forall v | v in r.Values :: |Points(h, v, n)| == n
    decreases |r.Values|
  {
    if r.Keys == {} {
      EmptyRing(r, n);
    } else {
      var node := SomeOwner(r);
      var ps := Points(h, node, n);
      var r' := Removed(r, node, ps);
      OwnerLeaves(h, n, r, node);
      RingSplits(h, n, r, node);
      SubsetIsSmaller(PointsOf(r, node), ps);
      PointsAreFew(h, node, n);
      RemoveDropsOwner(h, n, r, node);
      UsageIsBounded(h, n, r');
      UsageIsFullIff(h, n, r');
      WholeSplits(h, n, r, node);
      assert r.Values == r'.Values + {node};
    }
  }

  lemma OwnsAllIff(h: string -> Point, n: nat, r: Ring, node: string)
    requires OwnPoints(h, n, r)
    ensures |PointsOf(r, node)| == |Points(h, node, n)| <==> OwnsAll(r, node, Points(h, node, n))
  {
    var ps, mine := Points(h, node, n), PointsOf(r, node);
    RingSplits(h, n, r, node);
    UnionSize(mine, ps - mine);
    assert mine + (ps - mine) == ps;
    assert |mine| == |ps| <==> ps - mine == {};
    assert OwnsAll(r, node, ps) <==> ps - mine == {};
  }

  lemma OthersOwnAllIff(r: Ring, node: string, ps: set<Point>, other: string, qs: set<Point>)
    requires other != node
    ensures OwnsAll(r, other, qs) <==> OwnsAll(Removed(r, node, ps), other, qs)
  {}

  lemma WholeSplits(h: string -> Point, n: nat, r: Ring, node: string)
    requires OwnPoints(h, n, r) && node in r.Values
    ensures var r' := Removed(r, node, Points(h, node, n));
      Whole(h, n, r) <==> Whole(h, n, r') && |PointsOf(r, node)| == |Points(h, node, n)|
  {
    var ps := Points(h, node, n);
    RemoveDropsOwner(h, n, r, node);
    OwnsAllIff(h, n, r, node);
    forall other | other != node
      ensures OwnsAll(r, other, Points(h, other, n)) <==> OwnsAll(Removed(r, node, ps), other, Points(h, other, n))
    {
      OthersOwnAllIff(r, node, ps, other, Points(h, other, n));
    }
  }

  lemma SomeOwner(r: Ring) returns (node: string)
    requires r.Keys != {}
    ensures node in r.Values
  {
    var p :| p in r;
    node := r[p];
  }

  lemma SubsetIsSmaller<T>(a: set<T>, b: set<T>)
    requires a <= b
    ensures |a| <= |b|
  {
    UnionSize(a, b - a);
    assert a + (b - a) == b;
  }

  lemma OneOwnerLess(vs: set<string>, v: string)
    requires v in vs
    ensures |vs - {v}| == |vs| - 1
  {}

  // ----- counting nodes

  function Increment(size: nat): nat {
    if size + 1 == MODULUS then 0 else size + 1
  }

  function Decrement(size: nat): nat {
    if size == 0 then MODULUS - 1 else size - 1
  }

  datatype State = State(ring: Ring, size: nat)

  datatype Operation = Insert(node: string) | Remove(node: string)

  function Apply(h: string -> Point, n: nat, s: State, op: Operation): State {
    var ps := Points(h, op.node, n);
    match op
    case Insert(node) => State(Inserted(s.ring, node, ps), if Inserts(s.ring, ps) then Increment(s.size) else s.size)
    case Remove(node) => State(Removed(s.ring, node, ps), if Removes(s.ring, node, ps) then Decrement(s.size) else s.size)
  }

  /**
   One operation keeps size_ equal to the number of nodes on the ring exactly if it is not the
   insert of a node that already is on the ring and gains points that had been taken from it.
   */
  lemma SizeStepExactIff(h: string -> Point, n: nat, s: State, op: Operation)
    requires OwnPoints(h, n, s.ring) && s.size == |s.ring.Values| < MODULUS - 1
    ensures OwnPoints(h, n, Apply(h, n, s, op).ring)
    ensures Apply(h, n, s, op).size == |Apply(h, n, s, op).ring.Values| <==>
            !(op.Insert? && op.node in s.ring.Values && Inserts(s.ring, Points(h, op.node, n)))
  {
    match op {
      case Insert(node) =>
        InsertAddsOwner(h, n, s.ring, node);
        SizeWith(s.ring.Values, node);
      case Remove(node) =>
        RemoveDropsOwner(h, n, s.ring, node);
        SizeWith(s.ring.Values - {node}, node);
        assert node in s.ring.Values ==> s.ring.Values - {node} + {node} == s.ring.Values;
        assert node !in s.ring.Values ==> s.ring.Values - {node} == s.ring.Values;
    }
  }

  lemma SizeWith(s: set<string>, x: string)
    ensures |s + {x}| == if x in s then |s| else |s| + 1
  {
    assert x in s ==> s + {x} == s;
  }

  /** Any two of the nodes named have no point in common, or all their points. */
  predicate ApartOrAlike(h: string -> Point, n: nat, names: set<string>) {
    forall a, b | a in names && b in names ::
      Points(h, a, n) !! Points(h, b, n) || Points(h, a, n) == Points(h, b, n)
  }

  function Run(h: string -> Point, n: nat, s: State, ops: seq<Operation>): State
    decreases |ops|
  {
    if ops == [] then s else Run(h, n, Apply(h, n, s, ops[0]), ops[1..])
  }

  /** A node that shares a point already owned has no point that is free. */
  lemma OwnerHasAll(h: string -> Point, n: nat, r: Ring, p: Point, node: string, q: Point, names: set<string>)
    requires ApartOrAlike(h, n, names) && r.Values <= names && node in names
    requires OwnPoints(h, n, r) && Whole(h, n, r) && p in r
    requires p in Points(h, node, n) && q in Points(h, node, n)
    ensures q in r
  {
    assert r[p] in r.Values && p in Points(h, r[p], n);
    assert q in Points(h, r[p], n);
  }

  lemma ApplyKeepsWhole(h: string -> Point, n: nat, s: State, op: Operation, names: set<string>)
    requires ApartOrAlike(h, n, names) && s.ring.Values <= names && op.node in names
    requires OwnPoints(h, n, s.ring) && Whole(h, n, s.ring)
    ensures Whole(h, n, Apply(h, n, s, op).ring) && Apply(h, n, s, op).ring.Values <= names
  {
    var r, r', ps := s.ring, Apply(h, n, s, op).ring, Points(h, op.node, n);
    match op {
      case Insert(node) =>
        InsertAddsOwner(h, n, r, node);
        forall v, p | v in r'.Values && p in Points(h, v, n) ensures p in r' && r'[p] == v {
          if v !in r.Values {
            var q :| q in ps && q !in r;
            if p in r {
              OwnerHasAll(h, n, r, p, node, q, names);
            }
          }
        }
      case Remove(node) =>
        RemoveDropsOwner(h, n, r, node);
    }
  }

  /** Any operations keep the points on the ring its nodes' own, and so bound their number. */
  lemma {:induction false} RunKeepsOwnPoints(h: string -> Point, n: nat, s: State, ops: seq<Operation>)
    requires OwnPoints(h, n, s.ring)
    ensures var r := Run(h, n, s, ops).ring; OwnPoints(h, n, r) && |r| <= |r.Values| * n
    decreases |ops|
  {
    if ops == [] {
      UsageIsBounded(h, n, s.ring);
    } else {
      InsertAddsOwner(h, n, s.ring, ops[0].node);
      RemoveDropsOwner(h, n, s.ring, ops[0].node);
      RunKeepsOwnPoints(h, n, Apply(h, n, s, ops[0]), ops[1..]);
    }
  }

  /**
   If any two nodes ever named are apart or alike, a ring whose nodes own all their points and are
   all counted, as on an empty one, stays so after any operations.
   */
  lemma {:induction false} SizeCountsNodes(h: string -> Point, n: nat, s: State, ops: seq<Operation>, names: set<string>)
    requires ApartOrAlike(h, n, names) && s.ring.Values <= names && forall op | op in ops :: op.node in names
    requires OwnPoints(h, n, s.ring) && Whole(h, n, s.ring)
    requires s.size == |s.ring.Values| && s.size + |ops| < MODULUS
    ensures var s' := Run(h, n, s, ops);
      Whole(h, n, s'.ring) && s'.ring.Values <= names && s'.size == |s'.ring.Values|
    decreases |ops|
  {
    if ops != [] {
      ApplyKeepsWhole(h, n, s, ops[0], names);
      SizeStepExactIff(h, n, s, ops[0]);
      assert |s.ring.Values| < MODULUS - 1;
      SizeCountsNodes(h, n, Apply(h, n, s, ops[0]), ops[1..], names);
    }
  }

  ghost predicate CountsAfter(h: string -> Point, n: nat, ops: seq<Operation>) {
    var s := Run(h, n, State(map[], 0), ops);
    s.size == |s.ring.Values|
  }

  /** size() is right after every sequence of operations on some nodes exactly if they are apart or alike. */
  lemma SizeCountsNodesIff(h: string -> Point, n: nat, names: set<string>)
    ensures
      (forall ops: seq<Operation> | |ops| < MODULUS && (forall op | op in ops :: op.node in names) :: CountsAfter(h, n, ops))
      <==> ApartOrAlike(h, n, names)
  {
    if ApartOrAlike(h, n, names) {
      forall ops: seq<Operation> | |ops| < MODULUS && (forall op | op in ops :: op.node in names)
        ensures CountsAfter(h, n, ops)
      {
        SizeCountsNodes(h, n, State(map[], 0), ops, names);
      }
    } else {
      var a, b :| a in names && b in names
        && !(Points(h, a, n) !! Points(h, b, n)) && Points(h, a, n) != Points(h, b, n);
      if Points(h, b, n) <= Points(h, a, n) {
        OverlapCountsTwice(h, n, b, a);
        assert !CountsAfter(h, n, Twice(b, a));
      } else {
        OverlapCountsTwice(h, n, a, b);
        assert !CountsAfter(h, n, Twice(a, b));
      }
    }
  }

  function Twice(a: string, b: string): (ops: seq<Operation>)
    ensures |ops| < MODULUS && forall op | op in ops :: op.node in {a, b}
  {
    [Insert(a), Insert(b), Remove(a), Insert(b)]
  }

  /**
   Two nodes share a point and the second has another: the first leaves, and the second, inserted
   again, gains the point it had missed and is counted twice.
   */
  lemma OverlapCountsTwice(h: string -> Point, n: nat, a: string, b: string)
    requires !(Points(h, a, n) !! Points(h, b, n)) && !(Points(h, b, n) <= Points(h, a, n))
    ensures var s := Run(h, n, State(map[], 0), Twice(a, b)); s.ring.Values == {b} && s.size == 2
  {
    var ps, qs := Points(h, a, n), Points(h, b, n);
    var p, q :| p in ps && p in qs && q in qs && q !in ps;
    var s0 := State(map[], 0);
    var s1 := State(map x | x in ps :: a, 1);
    var s2 := State(map x | x in ps + qs :: if x in ps then a else b, 2);
    var s3 := State(map x | x in qs - ps :: b, 1);
    var s4 := State(map x | x in qs :: b, 2);
    assert Apply(h, n, s0, Insert(a)) == s1 by { assert p !in s0.ring && Inserted(s0.ring, a, ps) == s1.ring; }
    assert Apply(h, n, s1, Insert(b)) == s2 by { assert q !in s1.ring && Inserted(s1.ring, b, qs) == s2.ring; }
    assert Apply(h, n, s2, Remove(a)) == s3 by {
      assert p in s2.ring && s2.ring[p] == a && Removed(s2.ring, a, ps) == s3.ring;
    }
    assert Apply(h, n, s3, Insert(b)) == s4 by { assert p !in s3.ring && Inserted(s3.ring, b, qs) == s4.ring; }
    FourOperations(h, n, s0, Insert(a), Insert(b), Remove(a), Insert(b));
    assert s4.ring[q] == b;
  }

  /** A hash under which "a" and "b" share a point, and one under which no virtual nodes collide. */
  lemma CollisionCountsTwice()
    ensures var h: string -> Point := (v: string) => if v == "b#1" then 1 else 0;
      var s := Run(h, 2, State(map[], 0), Twice("a", "b"));
      s.ring.Values == {"b"} && s.size == 2
  {
    var h: string -> Point := (v: string) => if v == "b#1" then 1 else 0;
    TwoPoints(h, "a");
    TwoPoints(h, "b");
    Spelled();
    assert 0 in Points(h, "a", 2) && 0 in Points(h, "b", 2);
    assert 1 !in Points(h, "a", 2) && 1 in Points(h, "b", 2);
    OverlapCountsTwice(h, 2, "a", "b");
  }

  /** A hash under which no virtual nodes of "a" and "b" collide: four points and two nodes, rightly counted. */
  lemma ApartExample()
    ensures var h: string -> Point := (v: string) => if v == "a#0" then 0 else if v == "a#1" then 1 else if v == "b#0" then 2 else 3;
      var s := Run(h, 2, State(map[], 0), [Insert("a"), Insert("b")]);
      ApartOrAlike(h, 2, {"a", "b"}) && s.ring.Values == {"a", "b"} && s.size == 2 && |s.ring| == 4
  {
    var h: string -> Point := (v: string) => if v == "a#0" then 0 else if v == "a#1" then 1 else if v == "b#0" then 2 else 3;
    Spelled();
    ApartRun(h);
  }

  lemma ApartRun(h: string -> Point)
    requires h("a#0") == 0 && h("a#1") == 1 && h("b#0") == 2 && h("b#1") == 3
    ensures var s := Run(h, 2, State(map[], 0), [Insert("a"), Insert("b")]);
      ApartOrAlike(h, 2, {"a", "b"}) && s.ring.Values == {"a", "b"} && s.size == 2 && |s.ring| == 4
  {
    FourPoints(h);
    BothFill(h, 2, "a", "b", 0, 2);
  }

  lemma BothFill(h: string -> Point, n: nat, a: string, b: string, p: Point, q: Point)
    requires ApartOrAlike(h, n, {a, b}) && Points(h, a, n) !! Points(h, b, n)
    requires a != b && p in Points(h, a, n) && q in Points(h, b, n)
    requires |Points(h, a, n)| == n && |Points(h, b, n)| == n
    ensures var s := Run(h, n, State(map[], 0), [Insert(a), Insert(b)]);
      s.ring.Values == {a, b} && s.size == 2 && |s.ring| == 2 * n
  {
    Both(h, n, a, b, p, q);
    TwoOwners(h, n, Run(h, n, State(map[], 0), [Insert(a), Insert(b)]).ring, a, b);
  }

  lemma TwoOwners(h: string -> Point, n: nat, r: Ring, a: string, b: string)
    requires OwnPoints(h, n, r) && Whole(h, n, r) && r.Values == {a, b} && a != b
    requires |Points(h, a, n)| == n && |Points(h, b, n)| == n
    ensures |r.Values| == 2 && |r| == 2 * n
  {
    UsageIsFullIff(h, n, r);
  }

  lemma FourPoints(h: string -> Point)
    requires h("a#0") == 0 && h("a#1") == 1 && h("b#0") == 2 && h("b#1") == 3
    ensures Points(h, "a", 2) == {0, 1} && Points(h, "b", 2) == {2, 3} && "a" != "b"
    ensures ApartOrAlike(h, 2, {"a", "b"}) && |Points(h, "a", 2)| == |Points(h, "b", 2)| == 2
  {
    TwoPoints(h, "a");
    TwoPoints(h, "b");
    assert "a" + "#0" == "a#0" && "a" + "#1" == "a#1" && "b" + "#0" == "b#0" && "b" + "#1" == "b#1";
    assert "a"[0] != "b"[0];
  }

  lemma Both(h: string -> Point, n: nat, a: string, b: string, p: Point, q: Point)
    requires ApartOrAlike(h, n, {a, b}) && Points(h, a, n) !! Points(h, b, n)
    requires a != b && p in Points(h, a, n) && q in Points(h, b, n)
    ensures var s := Run(h, n, State(map[], 0), [Insert(a), Insert(b)]);
      OwnPoints(h, n, s.ring) && Whole(h, n, s.ring) && s.ring.Values == {a, b} && s.size == |s.ring.Values|
  {
    var s0 := State(map[], 0);
    var s1 := Apply(h, n, s0, Insert(a));
    InsertAddsOwner(h, n, s0.ring, a);
    assert Inserts(s0.ring, Points(h, a, n)) by { assert p !in s0.ring; }
    InsertAddsOwner(h, n, s1.ring, b);
    assert Inserts(s1.ring, Points(h, b, n)) by { assert q !in s1.ring; }
    assert {a} + {b} == {a, b};
    TwoOperations(h, n, s0, Insert(a), Insert(b));
    SizeCountsNodes(h, n, s0, [Insert(a), Insert(b)], {a, b});
  }

  lemma Spelled()
    ensures "a#0"[0] == 'a' && "a#1"[0] == 'a' && "b#0"[0] == 'b' && "b#1"[0] == 'b'
    ensures "a#0"[2] == '0' && "a#1"[2] == '1' && "b#0"[2] == '0' && "b#1"[2] == '1'
  {}

  lemma TwoPoints(h: string -> Point, node: string)
    ensures Points(h, node, 2) == {h(node + "#0"), h(node + "#1")}
  {
    assert VNode(node, 0) == node + "#0" && VNode(node, 1) == node + "#1";
    assert Points(h, node, 1) == Points(h, node, 0) + {h(VNode(node, 0))};
  }

  lemma TwoOperations(h: string -> Point, n: nat, s: State, a: Operation, b: Operation)
    ensures Run(h, n, s, [a, b]) == Apply(h, n, Apply(h, n, s, a), b)
  {
    assert [a, b][1..] == [b] && [b][1..] == [];
    assert Run(h, n, Apply(h, n, s, a), [b]) == Apply(h, n, Apply(h, n, s, a), b);
  }

  lemma FourOperations(h: string -> Point, n: nat, s: State, a: Operation, b: Operation, c: Operation, d: Operation)
    ensures Run(h, n, s, [a, b, c, d]) == Apply(h, n, Apply(h, n, Apply(h, n, Apply(h, n, s, a), b), c), d)
  {
    assert [a, b, c, d][1..] == [b, c, d] && [b, c, d][1..] == [c, d] && [c, d][1..] == [d] && [d][1..] == [];
    var s3 := Apply(h, n, Apply(h, n, Apply(h, n, s, a), b), c);
    assert Run(h, n, s3, [d]) == Apply(h, n, s3, d);
    assert Run(h, n, Apply(h, n, Apply(h, n, s, a), b), [c, d]) == Apply(h, n, s3, d);
  }
}

/** The object, with its loops over virtual nodes, tied to the functions on rings. */
module HashRing {
  import opened RingLookup

  class HashRing {
    const hash: string -> Point
    const vnodes: int
    var ring: Ring
    var size: nat

    /** How many virtual nodes the loops visit. */
    function Visited(): nat {
      if vnodes > 0 then vnodes else 0
    }

    ghost function Abstract(): State
      reads this
    {
      State(ring, size)
    }

    constructor (hash: string -> Point, vnodes: int)
      ensures this.hash == hash && this.vnodes == vnodes && Abstract() == State(map[], 0)
    {
      this.hash, this.vnodes, ring, size := hash, vnodes, map[], 0;
    }

    /** Building from a list fills the ring but never touches size_. */
    constructor FromList(hash: string -> Point, nodes: seq<string>, vnodes: int)
      ensures this.hash == hash && this.vnodes == vnodes && size == 0
      ensures ring == InsertedAll(hash, if vnodes > 0 then vnodes else 0, map[], nodes)
    {
      this.hash, this.vnodes, size := hash, vnodes, 0;
      var r: Ring := map[];
      var n: nat := if vnodes > 0 then vnodes else 0;
      for k := 0 to |nodes|
        invariant InsertedAll(hash, n, r, nodes[k..]) == InsertedAll(hash, n, map[], nodes)
      {
        ghost var before := r;
        for i := 0 to n
          invariant r == Inserted(before, nodes[k], Points(hash, nodes[k], i))
        {
          var p := hash(VNode(nodes[k], i));
          InsertedOneMore(before, nodes[k], Points(hash, nodes[k], i), p);
          if p !in r {
            r := r[p := nodes[k]];
          }
        }
        assert nodes[k..][0] == nodes[k] && nodes[k..][1..] == nodes[k + 1..];
      }
      ring := r;
    }

    method Insert(node: string) returns (inserted: bool)
      modifies this
      ensures Abstract() == Apply(hash, Visited(), old(Abstract()), Operation.Insert(node))
      ensures inserted <==> Inserts(old(ring), Points(hash, node, Visited()))
    {
      inserted := false;
      ghost var before := ring;
      var i := 0;
      while i < vnodes
        invariant 0 <= i <= Visited() && size == old(size)
        invariant ring == Inserted(before, node, Points(hash, node, i))
        invariant inserted <==> Inserts(before, Points(hash, node, i))
      {
        var p := hash(VNode(node, i));
        InsertedOneMore(before, node, Points(hash, node, i), p);
        if p !in ring {
          ring := ring[p := node];
          inserted := true;
        }
        i := i + 1;
      }
      if inserted {
        size := Increment(size);
      }
    }

    method Remove(node: string) returns (removed: bool)
      modifies this
      ensures Abstract() == Apply(hash, Visited(), old(Abstract()), Operation.Remove(node))
      ensures removed <==> Removes(old(ring), node, Points(hash, node, Visited()))
    {
      removed := false;
      ghost var before := ring;
      var i := 0;
      while i < vnodes
        invariant 0 <= i <= Visited() && size == old(size)
        invariant ring == Removed(before, node, Points(hash, node, i))
        invariant removed <==> Removes(before, node, Points(hash, node, i))
      {
        var p := hash(VNode(node, i));
        RemovedOneMore(before, node, Points(hash, node, i), p);
        if p in ring && ring[p] == node {
          ring := ring - {p};
          removed := true;
        }
        i := i + 1;
      }
      if removed {
        size := Decrement(size);
      }
    }

    /** On an empty ring the code would read past its end. */
    method Get(key: string) returns (node: string)
      requires ring.Keys != {}
      ensures node == Owner(ring, hash(key))
    {
      var x := hash(key);
      var ks := ring.Keys;
      var k: Point;
      if exists q | q in ks :: x <= q {
        ghost var q :| q in ks && x <= q;
        ghost var least := LeastFromExists(ks, x, q);
        k :| k in ks && IsLeastFrom(ks, x, k);
      } else {
        ghost var q :| q in ks;
        ghost var least := LeastFromExists(ks, 0, q);
        k :| k in ks && IsLeastFrom(ks, 0, k);
      }
      LowerBoundOrFirstIsSuccessor(ks, x, k);
      SuccessorIsUnique(ks, x, k, Successor(ks, x));
      node := ring[k];
    }

    /** One point at most for each virtual node of each node. */
    method Usage() returns (n: nat)
      ensures n == |ring|
      ensures OwnPoints(hash, Visited(), ring) ==> n <= |ring.Values| * Visited()
    {
      n := |ring|;
      if OwnPoints(hash, Visited(), ring) {
        UsageIsBounded(hash, Visited(), ring);
      }
    }
  }

  function InsertedAll(h: string -> Point, n: nat, r: Ring, nodes: seq<string>): Ring
    decreases |nodes|
  {
    if nodes == [] then r else InsertedAll(h, n, Inserted(r, nodes[0], Points(h, nodes[0], n)), nodes[1..])
  }

  lemma {:induction false} ListedNodes(h: string -> Point, n: nat, r: Ring, nodes: seq<string>)
    requires OwnPoints(h, n, r)
    ensures OwnPoints(h, n, InsertedAll(h, n, r, nodes))
    ensures r.Values <= InsertedAll(h, n, r, nodes).Values
    ensures r.Values == {} && nodes != [] && n > 0 ==> InsertedAll(h, n, r, nodes).Values != {}
    ensures n == 0 ==> InsertedAll(h, n, r, nodes) == r
    decreases |nodes|
  {
    if nodes != [] {
      var ps := Points(h, nodes[0], n);
      InsertAddsOwner(h, n, r, nodes[0]);
      ListedNodes(h, n, Inserted(r, nodes[0], ps), nodes[1..]);
      if n > 0 && r.Values == {} {
        assert h(VNode(nodes[0], n - 1)) in ps;
        NoOwnersNoPoints(r);
      }
    }
  }

  lemma NoOwnersNoPoints(r: Ring)
    requires r.Values == {}
    ensures r == map[]
  {
    if r.Keys != {} {
      var node := SomeOwner(r);
    }
  }

  /** A ring built from a list counts its nodes right exactly if nothing was put on it. */
  lemma ListedRingCountsIff(h: string -> Point, vnodes: int, nodes: seq<string>)
    ensures var r := InsertedAll(h, if vnodes > 0 then vnodes else 0, map[], nodes);
      |r.Values| == 0 <==> nodes == [] || vnodes <= 0
  {
    ListedNodes(h, if vnodes > 0 then vnodes else 0, map[], nodes);
  }

  /** Removing any node from such a ring wraps size_ around. */
  lemma ListedRingWraps(h: string -> Point, n: nat, nodes: seq<string>, node: string)
    ensures var r := InsertedAll(h, n, map[], nodes);
      node in r.Values ==> Apply(h, n, State(r, 0), Operation.Remove(node)).size == MODULUS - 1
  {
    ListedNodes(h, n, map[], nodes);
    RemoveDropsOwner(h, n, InsertedAll(h, n, map[], nodes), node);
  }
}
