/** The append-only Merkle tree: roots, inclusion proofs and what they bind. */
module Merkle {
  import opened Models

  /** A hex SHA-256 digest: always 64 characters. */
  type Digest = d: string | |d| == 64 witness seq(64, _ => '0')

  /** The hash is a parameter: nothing below depends on which function it is. */
  type Hash = string -> Digest

  datatype Result<T> = Ok(value: T) | IndexError

  datatype Direction = Left | Right

  datatype Sibling = Sibling(hash: string, direction: Direction)

  datatype MerkleNode =
    | Leaf(hash: Digest, payload: string)
    | Inner(hash: Digest, left: MerkleNode, right: MerkleNode)

  // ----------------------------------------------------------- specification

  /** Two hex strings, one after the other. */
  function Joined(left: string, right: string): string {
    left + right
  }

  /** One level up: neighbours are hashed together, an odd last one with itself. */
  ghost function NextLevel(h: Hash, level: seq<Digest>): (up: seq<Digest>) {
    seq((|level| + 1) / 2, i requires 0 <= i < (|level| + 1) / 2 => Parent(h, level, i))
  }

  /** Index of the node hashed together with node `idx` on a level of `n` nodes. */
  function Partner(idx: nat, n: nat): (k: nat)
    requires idx < n
    ensures k < n
  {
    var pair := if idx % 2 == 0 then idx + 1 else idx - 1;
    if pair >= n then idx else pair
  }

  /** The node above nodes 2i and 2i + 1. */
  ghost function Parent(h: Hash, level: seq<Digest>, i: nat): Digest
    requires 2 * i < |level|
  {
    h(Joined(level[2 * i], level[Partner(2 * i, |level|)]))
  }

  ghost function Root(h: Hash, level: seq<Digest>): Digest
    requires level != []
    decreases |level|
  {
    if |level| == 1 then level[0] else Root(h, NextLevel(h, level))
  }

  ghost function Proof(h: Hash, level: seq<Digest>, idx: nat): seq<Sibling>
    requires idx < |level|
    decreases |level|
  {
    if |level| == 1 then []
    else [SiblingOf(level, idx)] + Proof(h, NextLevel(h, level), idx / 2)
  }

  /** The other hash of the pair of `idx`, and the side it is on. */
  function SiblingOf(level: seq<Digest>, idx: nat): Sibling
    requires idx < |level|
  {
    Sibling(level[Partner(idx, |level|)], if idx % 2 == 0 then Right else Left)
  }

  function Combine(h: Hash, current: Digest, s: Sibling): Digest {
    if s.direction.Right? then h(Joined(current, s.hash)) else h(Joined(s.hash, current))
  }

  /** The root a proof leads to from `current`. */
  ghost function Climb(h: Hash, current: Digest, proof: seq<Sibling>): Digest
    decreases |proof|
  {
    if proof == [] then current else Climb(h, Combine(h, current, proof[0]), proof[1..])
  }

  ghost function Digests(h: Hash, payloads: seq<string>): (ds: seq<Digest>)
    ensures |ds| == |payloads|
    ensures forall i :: 0 <= i < |ds| ==> ds[i] == h(payloads[i])
  {
    seq(|payloads|, i requires 0 <= i < |payloads| => h(payloads[i]))
  }

  /** The root over a list of payloads; the hash of nothing when there are none. */
  ghost function TreeRoot(h: Hash, payloads: seq<string>): Digest {
    if payloads == [] then h("") else Root(h, Digests(h, payloads))
  }

  ghost predicate Collision(h: Hash, x: string, y: string) {
    x != y && h(x) == h(y)
  }

  ghost function Directions(proof: seq<Sibling>): seq<Direction> {
    seq(|proof|, i requires 0 <= i < |proof| => proof[i].direction)
  }

  // ------------------------------------------------------------ completeness

  /** Half way up: the parent of a node is the node combined with its sibling. */
  lemma ParentCombines(h: Hash, level: seq<Digest>, idx: nat)
    requires idx < |level| && |level| > 1
    ensures NextLevel(h, level)[idx / 2] == Combine(h, level[idx], SiblingOf(level, idx))
  {
    assert 2 * (idx / 2) == (if idx % 2 == 0 then idx else idx - 1);
  }

  /** At every size, odd levels included, the proof of every index leads to the root. */
  lemma {:induction false} ProofReachesRoot(h: Hash, level: seq<Digest>, idx: nat)
    requires idx < |level|
    ensures Climb(h, level[idx], Proof(h, level, idx)) == Root(h, level)
    decreases |level|
  {
    if |level| <= 1 {
    } else {
      var up := NextLevel(h, level);
      var rest := Proof(h, up, idx / 2);
      ParentCombines(h, level, idx);
      ProofReachesRoot(h, up, idx / 2);
      assert ([SiblingOf(level, idx)] + rest)[1..] == rest;
    }
  }

  /** Every leaf of every tree has an accepted proof. */
  lemma EveryLeafProves(h: Hash, payloads: seq<string>, idx: nat)
    requires idx < |payloads|
    ensures Climb(h, h(payloads[idx]), Proof(h, Digests(h, payloads), idx)) == TreeRoot(h, payloads)
  {
    ProofReachesRoot(h, Digests(h, payloads), idx);
  }

  ghost function Power2(d: nat): (p: nat)
    ensures p >= 1
  {
    if d == 0 then 1 else 2 * Power2(d - 1)
  }

  /** Proofs are logarithmic: their length is the least d with 2^d at or above the leaf count. */
  lemma {:induction false} ProofIsLogarithmic(h: Hash, level: seq<Digest>, idx: nat)
    requires idx < |level|
    ensures |level| <= Power2(|Proof(h, level, idx)|)
    ensures |level| > 1 ==> Power2(|Proof(h, level, idx)| - 1) < |level|
    decreases |level|
  {
    if |level| <= 1 {
    } else {
      ProofIsLogarithmic(h, NextLevel(h, level), idx / 2);
    }
  }

  lemma DirectionsOfCons(s: Sibling, rest: seq<Sibling>)
    ensures Directions([s] + rest) == [s.direction] + Directions(rest)
  {
  }

  /** The directions of a proof depend on the index and the leaf count alone. */
  lemma {:induction false} SameShape(h: Hash, a: seq<Digest>, b: seq<Digest>, idx: nat)
    requires |a| == |b| && idx < |a|
    ensures Directions(Proof(h, a, idx)) == Directions(Proof(h, b, idx))
    decreases |a|
  {
    if |a| <= 1 {
    } else {
      SameShape(h, NextLevel(h, a), NextLevel(h, b), idx / 2);
      DirectionsOfCons(SiblingOf(a, idx), Proof(h, NextLevel(h, a), idx / 2));
      DirectionsOfCons(SiblingOf(b, idx), Proof(h, NextLevel(h, b), idx / 2));
    }
  }

  // ----------------------------------------------------------------- binding

  /** Two digests in a row determine both. */
  lemma SplitsUniquely(a: string, b: string, c: string, d: string)
    requires a + b == c + d && |a| == |c|
    ensures a == c && b == d
  {
    assert a == (a + b)[..|a|] && c == (c + d)[..|c|];
    assert b == (a + b)[|a|..] && d == (c + d)[|c|..];
  }

  /** Climbing with the same directions to the same root means the same start and the same siblings. */
  lemma {:induction false} ClimbBinds(h: Hash, c: Digest, p: seq<Sibling>, d: Digest, q: seq<Sibling>)
    returns (x: string, y: string)
    requires Directions(p) == Directions(q) && Climb(h, c, p) == Climb(h, d, q)
    requires forall s :: s in q ==> |s.hash| == 64
    ensures (c == d && p == q) || Collision(h, x, y)
    decreases |p|
  {
    assert |Directions(p)| == |Directions(q)|;
    if p == [] {
      x, y := "", "";
    } else {
      assert p[0].direction == Directions(p)[0] == Directions(q)[0] == q[0].direction;
      assert Directions(p[1..]) == Directions(p)[1..] == Directions(q)[1..] == Directions(q[1..]);
      x, y := ClimbBinds(h, Combine(h, c, p[0]), p[1..], Combine(h, d, q[0]), q[1..]);
      if !Collision(h, x, y) {
        assert p == [p[0]] + p[1..] && q == [q[0]] + q[1..] && q[0] in q;
        if p[0].direction.Right? {
          x, y := Joined(c, p[0].hash), Joined(d, q[0].hash);
          if x == y { SplitsUniquely(c, p[0].hash, d, q[0].hash); }
        } else {
          x, y := Joined(p[0].hash, c), Joined(q[0].hash, d);
          if x == y { assert |x| == |y|; SplitsUniquely(p[0].hash, c, q[0].hash, d); }
        }
      }
    }
  }

  lemma {:induction false} ProofOfDigests(h: Hash, level: seq<Digest>, idx: nat)
    requires idx < |level|
    ensures forall s :: s in Proof(h, level, idx) ==> |s.hash| == 64
    decreases |level|
  {
    if |level| <= 1 {
    } else {
      ProofOfDigests(h, NextLevel(h, level), idx / 2);
    }
  }

  /**
   * Whatever payload and sibling strings are offered, a proof with the directions of index `idx`
   * is accepted only for the payload of that leaf and with the siblings of that leaf, or it shows
   * a collision.
   */
  lemma AcceptedProofBinds(h: Hash, payloads: seq<string>, idx: nat, payload: string, proof: seq<Sibling>)
    returns (x: string, y: string)
    requires idx < |payloads|
    requires Directions(proof) == Directions(Proof(h, Digests(h, payloads), idx))
    requires Climb(h, h(payload), proof) == TreeRoot(h, payloads)
    ensures (payload == payloads[idx] && proof == Proof(h, Digests(h, payloads), idx)) || Collision(h, x, y)
  {
    var honest := Proof(h, Digests(h, payloads), idx);
    EveryLeafProves(h, payloads, idx);
    ProofOfDigests(h, Digests(h, payloads), idx);
    x, y := ClimbBinds(h, h(payload), proof, h(payloads[idx]), honest);
    if !Collision(h, x, y) { x, y := payload, payloads[idx]; }
  }

  // ------------------------------------- which lists of other sizes share a root

  /** Levels between the leaves and the root. */
  ghost function Height(n: nat): nat {
    if n <= 1 then 0 else 1 + Height((n + 1) / 2)
  }

  /** The leaf that stands at position k once every odd level is filled up with copies. */
  ghost function Slot(k: nat, n: nat): (i: nat)
    requires n > 0
    ensures i < n
    decreases n
  {
    if n == 1 then 0
    else
      var i := 2 * Slot(k / 2, (n + 1) / 2) + k % 2;
      if i < n then i else i - 1
  }

  ghost predicate SameExpansion<T(!new)>(a: seq<T>, b: seq<T>)
    requires a != [] && b != []
  {
    forall k: nat :: a[Slot(k, |a|)] == b[Slot(k, |b|)]
  }

  lemma {:induction false} SlotInside(k: nat, n: nat)
    requires k < n
    ensures Slot(k, n) == k
    decreases n
  {
    if n <= 1 {
    } else {
      SlotInside(k / 2, (n + 1) / 2);
    }
  }

  /** What is hashed at position p of the level above. */
  ghost function PairAt(level: seq<Digest>, p: nat): string
    requires level != []
  {
    Joined(level[Slot(2 * p, |level|)], level[Slot(2 * p + 1, |level|)])
  }

  lemma PairsDiffer(a: seq<Digest>, b: seq<Digest>, k: nat, p: nat)
    requires a != [] && b != [] && a[Slot(k, |a|)] != b[Slot(k, |b|)]
    requires k == 2 * p || k == 2 * p + 1
    ensures PairAt(a, p) != PairAt(b, p)
  {
    var a0, a1 := a[Slot(2 * p, |a|)], a[Slot(2 * p + 1, |a|)];
    var b0, b1 := b[Slot(2 * p, |b|)], b[Slot(2 * p + 1, |b|)];
    assert a0 != b0 || a1 != b1;
    JoinedDiffer(a0, a1, b0, b1);
  }

  lemma JoinedDiffer(a: Digest, b: Digest, c: Digest, d: Digest)
    requires a != c || b != d
    ensures Joined(a, b) != Joined(c, d)
  {
    if Joined(a, b) == Joined(c, d) { SplitsUniquely(a, b, c, d); }
  }

  /** The two children of a filled-up position. */
  lemma SlotChildren(h: Hash, level: seq<Digest>, p: nat)
    requires |level| > 1
    ensures NextLevel(h, level)[Slot(p, (|level| + 1) / 2)] == h(PairAt(level, p))
  {
    ChildSlots(p, |level|);
  }

  lemma ChildSlots(p: nat, n: nat)
    requires n > 1
    ensures 2 * Slot(p, (n + 1) / 2) < n
    ensures Slot(2 * p, n) == 2 * Slot(p, (n + 1) / 2)
    ensures Slot(2 * p + 1, n) == Partner(2 * Slot(p, (n + 1) / 2), n)
  {
    var above := Slot(p, (n + 1) / 2);
    DoubledBelow(above, n);
    PartnerOfEven(above, n);
    SlotOfChild(2 * p, p, 0, n);
    SlotOfChild(2 * p + 1, p, 1, n);
  }

  lemma SlotOfChild(k: nat, p: nat, r: nat, n: nat)
    requires n > 1 && r < 2 && k == 2 * p + r
    ensures var i := 2 * Slot(p, (n + 1) / 2) + r;
            Slot(k, n) == if i < n then i else i - 1
  {
    assert k / 2 == p && k % 2 == r;
  }

  lemma DoubledBelow(s: nat, n: nat)
    requires s < (n + 1) / 2
    ensures 2 * s < n
  {
  }

  lemma PartnerOfEven(s: nat, n: nat)
    requires 2 * s < n
    ensures Partner(2 * s, n) == if 2 * s + 1 < n then 2 * s + 1 else 2 * s
  {
    assert (2 * s) % 2 == 0;
  }

  lemma {:induction false} SameExpansionSameRoot(h: Hash, a: seq<Digest>, b: seq<Digest>)
    requires a != [] && b != [] && Height(|a|) == Height(|b|)
    requires SameExpansion(a, b)
    ensures Root(h, a) == Root(h, b)
    decreases |a|
  {
    if |a| == 1 {
      assert a[Slot(0, 1)] == b[Slot(0, 1)];
    } else {
      var x, y := NextLevel(h, a), NextLevel(h, b);
      forall p: nat ensures x[Slot(p, |x|)] == y[Slot(p, |y|)] {
        SlotChildren(h, a, p);
        SlotChildren(h, b, p);
      }
      SameExpansionSameRoot(h, x, y);
    }
  }

  lemma {:induction false} SameRootSameExpansion(h: Hash, a: seq<Digest>, b: seq<Digest>)
    returns (x: string, y: string)
    requires a != [] && b != [] && Height(|a|) == Height(|b|)
    requires Root(h, a) == Root(h, b)
    ensures SameExpansion(a, b) || Collision(h, x, y)
    decreases |a|
  {
    x, y := "", "";
    if |a| <= 1 {
    } else {
      var u, v := NextLevel(h, a), NextLevel(h, b);
      x, y := SameRootSameExpansion(h, u, v);
      if !Collision(h, x, y) {
        if k: nat :| a[Slot(k, |a|)] != b[Slot(k, |b|)] {
          var p := k / 2;
          assert u[Slot(p, |u|)] == v[Slot(p, |v|)];
          SlotChildren(h, a, p);
          SlotChildren(h, b, p);
          PairsDiffer(a, b, k, p);
          x, y := PairAt(a, p), PairAt(b, p);
        }
      }
    }
  }

  /**
   * Lists whose trees are equally high have the same root exactly when filling up their odd levels
   * gives the same list, or a collision of the hash is at hand.
   */
  lemma SameRootExactly(h: Hash, a: seq<string>, b: seq<string>) returns (x: string, y: string)
    requires a != [] && b != [] && Height(|a|) == Height(|b|)
    ensures (TreeRoot(h, a) == TreeRoot(h, b) <==> SameExpansion(a, b)) || Collision(h, x, y)
  {
    x, y := "", "";
    var u, v := Digests(h, a), Digests(h, b);
    if SameExpansion(a, b) {
      forall k: nat ensures u[Slot(k, |u|)] == v[Slot(k, |v|)] {
        assert a[Slot(k, |a|)] == b[Slot(k, |b|)];
      }
      SameExpansionSameRoot(h, u, v);
    } else if TreeRoot(h, a) == TreeRoot(h, b) {
      x, y := SameRootSameExpansion(h, u, v);
      if !Collision(h, x, y) {
        var k: nat :| a[Slot(k, |a|)] != b[Slot(k, |b|)];
        assert u[Slot(k, |u|)] == v[Slot(k, |v|)];
        x, y := a[Slot(k, |a|)], b[Slot(k, |b|)];
      }
    }
  }

  /** So lists of equal length with equal roots are equal, or show a collision of the hash. */
  lemma TreeRootBinds(h: Hash, a: seq<string>, b: seq<string>) returns (x: string, y: string)
    requires |a| == |b| && TreeRoot(h, a) == TreeRoot(h, b)
    ensures a == b || Collision(h, x, y)
  {
    x, y := "", "";
    if a != [] {
      x, y := SameRootExactly(h, a, b);
      if !Collision(h, x, y) {
        forall k | 0 <= k < |a| ensures a[k] == b[k] {
          SlotInside(k, |a|);
          assert a[Slot(k, |a|)] == b[Slot(k, |b|)];
        }
      }
    }
  }

  /** Copies do go unseen: an odd list of more than one leaf has the root of itself with its last leaf again. */
  lemma DuplicatedTailSameRoot(h: Hash, payloads: seq<string>)
    requires |payloads| > 1 && |payloads| % 2 == 1
    ensures TreeRoot(h, payloads + [payloads[|payloads| - 1]]) == TreeRoot(h, payloads)
  {
    var longer := payloads + [payloads[|payloads| - 1]];
    var a, b := Digests(h, payloads), Digests(h, longer);
    forall i | 0 <= i < (|a| + 1) / 2 ensures NextLevel(h, a)[i] == NextLevel(h, b)[i] {
      assert b[2 * i] == a[2 * i];
      assert b[Partner(2 * i, |b|)] == a[Partner(2 * i, |a|)];
    }
    assert NextLevel(h, a) == NextLevel(h, b);
  }

  // ------------------------------------------------------ trees of other heights

  /** The level d steps above this one. */
  ghost function LevelAt(h: Hash, level: seq<Digest>, d: nat): (up: seq<Digest>)
    requires level != [] && d <= Height(|level|)
    ensures up != [] && Height(|up|) == Height(|level|) - d
    decreases d
  {
    if d == 0 then level else LevelAt(h, NextLevel(h, level), d - 1)
  }

  lemma {:induction false} LevelKeepsRoot(h: Hash, level: seq<Digest>, d: nat)
    requires level != [] && d <= Height(|level|)
    ensures Root(h, LevelAt(h, level, d)) == Root(h, level)
    decreases d
  {
    if d == 0 {
    } else {
      LevelKeepsRoot(h, NextLevel(h, level), d - 1);
    }
  }

  /**
   * A tree that is d levels higher than another has the same root exactly when its level d is, filled
   * up, the leaf digests of the other, or a collision of the hash is at hand. For d == 0 this is
   * about trees of equal height.
   */
  lemma SameRootAcrossHeights(h: Hash, a: seq<string>, b: seq<string>, d: nat) returns (x: string, y: string)
    requires a != [] && b != [] && Height(|a|) == Height(|b|) + d
    ensures (TreeRoot(h, a) == TreeRoot(h, b) <==> SameExpansion(LevelAt(h, Digests(h, a), d), Digests(h, b)))
         || Collision(h, x, y)
  {
    x, y := "", "";
    var u, v := LevelAt(h, Digests(h, a), d), Digests(h, b);
    LevelKeepsRoot(h, Digests(h, a), d);
    if SameExpansion(u, v) {
      SameExpansionSameRoot(h, u, v);
    } else if TreeRoot(h, a) == TreeRoot(h, b) {
      x, y := SameRootSameExpansion(h, u, v);
    }
  }

  /** What two neighbouring leaves, or an odd last one with itself, are hashed from one level up. */
  ghost predicate PairsOf(h: Hash, payloads: seq<string>, pairs: seq<string>) {
    && |pairs| == (|payloads| + 1) / 2
    && forall i :: 0 <= i < |pairs| ==>
         pairs[i] == h(payloads[2 * i]) + h(payloads[if 2 * i + 1 < |payloads| then 2 * i + 1 else 2 * i])
  }

  /**
   * Roots from the leaves up: nothing has the hash of nothing, one leaf its own hash, and more leaves the
   * root over the texts that their pairs are hashed from. So leaves and inner nodes are hashed alike.
   */
  lemma RootOfPairs(h: Hash, payloads: seq<string>, pairs: seq<string>)
    requires PairsOf(h, payloads, pairs)
    ensures payloads == [] ==> TreeRoot(h, payloads) == h("")
    ensures |payloads| == 1 ==> TreeRoot(h, payloads) == h(payloads[0])
    ensures |payloads| > 1 ==> TreeRoot(h, payloads) == TreeRoot(h, pairs)
  {
    if |payloads| > 1 {
      var up := NextLevel(h, Digests(h, payloads));
      forall i | 0 <= i < |up| ensures up[i] == h(pairs[i]) {
        assert up[i] == Parent(h, Digests(h, payloads), i);
      }
      assert up == Digests(h, pairs);
    }
  }

  /** Two leaves have the root of one leaf that holds both digests. */
  lemma PairSameRootAsInnerLeaf(h: Hash, a: string, b: string)
    ensures TreeRoot(h, [a, b]) == TreeRoot(h, [h(a) + h(b)])
  {
    RootOfPairs(h, [a, b], [h(a) + h(b)]);
  }

  // ---------------------------------------------------------------- the tree

  ghost function Hashes(level: seq<MerkleNode>): (ds: seq<Digest>)
    ensures |ds| == |level|
    ensures forall i :: 0 <= i < |ds| ==> ds[i] == level[i].hash
  {
    seq(|level|, i requires 0 <= i < |level| => level[i].hash)
  }

  ghost function PayloadsOf(leaves: seq<MerkleNode>): (s: seq<string>)
    ensures |s| == |leaves|
  {
    seq(|leaves|, k requires 0 <= k < |leaves| => if leaves[k].Leaf? then leaves[k].payload else "")
  }

  /** Appending the next pair to a partly built level. */
  lemma OneMorePair(h: Hash, level: seq<Digest>, built: seq<Digest>, i: nat, d: Digest)
    requires 2 * i < |level| && built == NextLevel(h, level)[..i]
    requires d == Parent(h, level, i)
    ensures built + [d] == NextLevel(h, level)[..i + 1]
  {
    assert NextLevel(h, level)[i] == d;
  }

  lemma AssociateStep(done: seq<Sibling>, s: Sibling, rest: seq<Sibling>)
    ensures done + ([s] + rest) == (done + [s]) + rest
  {
  }

  class MerkleTree {
    const hash: Hash
    var leaves: seq<MerkleNode>
    var cachedRoot: Option<Digest>

    ghost predicate Valid() reads this {
      && (forall k :: 0 <= k < |leaves| ==> leaves[k].Leaf? && leaves[k].hash == hash(leaves[k].payload))
      && (cachedRoot.Some? ==> leaves != [] && cachedRoot.value == TreeRoot(hash, Payloads()))
    }

    ghost function Payloads(): (s: seq<string>)
      reads this`leaves
      ensures |s| == |leaves|
    {
      PayloadsOf(leaves)
    }

    lemma LeafDigests()
      requires Valid()
      ensures Hashes(leaves) == Digests(hash, Payloads())
    {
    }

    constructor (hash: Hash)
      ensures Valid() && Payloads() == [] && this.hash == hash
    {
      this.hash := hash;
      leaves := [];
      cachedRoot := None;
    }

    method Append(payload: string) returns (node: MerkleNode)
      requires Valid()
      modifies this
      ensures Valid() && Payloads() == old(Payloads()) + [payload]
      ensures node == Leaf(hash(payload), payload)
    {
      node := Leaf(hash(payload), payload);
      leaves := leaves + [node];
      cachedRoot := None;
    }

    /** The root over what the tree holds now: the cache is never stale. */
    method RootHash() returns (root: Digest)
      requires Valid()
      modifies this`cachedRoot
      ensures Valid() && root == TreeRoot(hash, Payloads())
    {
      if leaves == [] { return hash(""); }
      if cachedRoot.Some? { return cachedRoot.value; }
      LeafDigests();
      var level := leaves;
      while |level| > 1
        invariant level != []
        invariant Root(hash, Hashes(level)) == Root(hash, Hashes(leaves))
        decreases |level|
      {
        level := NodesAbove(level);
      }
      cachedRoot := Some(level[0].hash);
      root := level[0].hash;
    }

    method NodesAbove(level: seq<MerkleNode>) returns (next: seq<MerkleNode>)
      requires |level| > 1
      ensures Hashes(next) == NextLevel(hash, Hashes(level))
      ensures 0 < |next| < |level|
    {
      next := [];
      var i := 0;
      while 2 * i < |level|
        invariant 0 <= i <= (|level| + 1) / 2
        invariant Hashes(next) == NextLevel(hash, Hashes(level))[..i]
      {
        var left := level[2 * i];
        var right := if 2 * i + 1 < |level| then level[2 * i + 1] else left;
        var node := Inner(hash(Joined(left.hash, right.hash)), left, right);
        OneMorePair(hash, Hashes(level), Hashes(next), i, node.hash);
        assert Hashes(next + [node]) == Hashes(next) + [node.hash];
        next := next + [node];
        i := i + 1;
      }
      assert |Hashes(next)| == |next|;
    }

    method ProofFor(index: int) returns (r: Result<seq<Sibling>>)
      requires Valid()
      ensures r.Ok? <==> 0 <= index < |leaves|
      ensures r.Ok? ==> r.value == Proof(hash, Digests(hash, Payloads()), index)
    {
      if !(0 <= index < |leaves|) { return IndexError; }
      var level := LeafHashes();
      var proof: seq<Sibling> := [];
      var idx := index;
      ghost var whole := Proof(hash, level, index);
      while |level| > 1
        invariant 0 <= idx < |level|
        invariant proof + Proof(hash, level, idx) == whole
        decreases |level|
      {
        var sibling := FindSibling(level, idx);
        var above := DigestsAbove(level);
        AssociateStep(proof, sibling, Proof(hash, above, idx / 2));
        proof, level, idx := proof + [sibling], above, idx / 2;
      }
      return Ok(proof);
    }

    method FindSibling(level: seq<Digest>, idx: nat) returns (s: Sibling)
      requires idx < |level|
      ensures s == SiblingOf(level, idx)
    {
      var pair := if idx % 2 == 0 then idx + 1 else idx - 1;
      if pair >= |level| { pair := idx; }
      var direction := if idx % 2 == 0 then Right else Left;
      s := Sibling(level[pair], direction);
    }

    method LeafHashes() returns (level: seq<Digest>)
      requires Valid()
      ensures level == Digests(hash, Payloads())
    {
      level := [];
      for k := 0 to |leaves|
        invariant level == Digests(hash, Payloads())[..k]
      {
        level := level + [leaves[k].hash];
      }
    }

    method DigestsAbove(level: seq<Digest>) returns (next: seq<Digest>)
      requires |level| > 1
      ensures next == NextLevel(hash, level) && 0 < |next| < |level|
    {
      next := [];
      var i := 0;
      while 2 * i < |level|
        invariant 0 <= i <= (|level| + 1) / 2
        invariant next == NextLevel(hash, level)[..i]
      {
        var left := level[2 * i];
        var right := if 2 * i + 1 < |level| then level[2 * i + 1] else left;
        var digest: Digest := hash(Joined(left, right));
        OneMorePair(hash, level, next, i, digest);
        next := next + [digest];
        i := i + 1;
      }
    }

    static method Verify(hash: Hash, payload: string, proof: seq<Sibling>, expectedRoot: string) returns (ok: bool)
      ensures ok <==> Climb(hash, hash(payload), proof) == expectedRoot
    {
      var current: Digest := hash(payload);
      for i := 0 to |proof|
        invariant Climb(hash, current, proof[i..]) == Climb(hash, hash(payload), proof)
      {
        assert proof[i..][0] == proof[i] && proof[i..][1..] == proof[i + 1..];
        current := if proof[i].direction.Right?
          then hash(Joined(current, proof[i].hash))
          else hash(Joined(proof[i].hash, current));
      }
      ok := current == expectedRoot;
    }
  }
}
