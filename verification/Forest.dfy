/** Slot names, and the theory of the derivation forest as a finite parent map.

    A derivation forest is a partial function from a slot to its parent. Everything the
    authority model says about ancestry, at any depth, is said here once: what one splice,
    one renaming, one new leaf and one pruned subtree do to the strict-ancestor relation.
 */
module Forest {

  /** `Real` is a CSpace slot a caller can name. `MapCap(f, k)` is the capability that address
      space `k` holds on frame `f`; no caller can name it. `Temp` is the slot that stands aside
      while two occupied slots are swapped, and is absent from every state between operations. */
  datatype SlotId = Real(n: nat) | MapCap(frame: nat, space: nat) | Temp

  type Parents = map<SlotId, SlotId>

  /** `a` is reached from `d` by following exactly `k` parent links. */
  ghost predicate Above(p: Parents, a: SlotId, d: SlotId, k: nat)
    decreases k
  {
    if k == 0 then a == d else d in p && Above(p, a, p[d], k - 1)
  }

  /** `a` is a strict ancestor of `d`: the transitive closure, with no depth bound. */
  ghost predicate Anc(p: Parents, a: SlotId, d: SlotId) {
    exists k: nat :: k > 0 && Above(p, a, d, k)
  }

  ghost predicate Acyclic(p: Parents) {
    forall a :: !Anc(p, a, a)
  }

  /** The strict descendants of `i`. */
  ghost function Desc(p: Parents, i: SlotId): set<SlotId> {
    set j | j in p && Anc(p, i, j)
  }

  lemma AncUnfold(p: Parents, a: SlotId, d: SlotId)
    ensures Anc(p, a, d) <==> d in p && (p[d] == a || Anc(p, a, p[d]))
  {
    if Anc(p, a, d) {
      var k: nat :| k > 0 && Above(p, a, d, k);
      assert Above(p, a, p[d], k - 1);
    }
    if d in p && p[d] == a {
      assert Above(p, a, p[d], 0);
      assert Above(p, a, d, 1);
    }
    if d in p && Anc(p, a, p[d]) {
      var k: nat :| k > 0 && Above(p, a, p[d], k);
      assert Above(p, a, d, k + 1);
    }
  }

  lemma {:induction false} AboveJoin(p: Parents, a: SlotId, b: SlotId, d: SlotId, j: nat, k: nat)
    requires Above(p, a, b, j) && Above(p, b, d, k)
    ensures Above(p, a, d, j + k)
    decreases k
  {
    if k > 0 { AboveJoin(p, a, b, p[d], j, k - 1); }
  }

  lemma AncTransitive(p: Parents, a: SlotId, b: SlotId, d: SlotId)
    requires Anc(p, a, b) && Anc(p, b, d)
    ensures Anc(p, a, d)
  {
    var j: nat :| j > 0 && Above(p, a, b, j);
    var k: nat :| k > 0 && Above(p, b, d, k);
    AboveJoin(p, a, b, d, j, k);
  }

  /** An ancestor named by a link: whoever is strictly above a slot that has a child is above the child. */
  lemma AncOfChild(p: Parents, a: SlotId, d: SlotId)
    requires d in p && (a == p[d] || Anc(p, a, p[d]))
    ensures Anc(p, a, d)
  {
    AncUnfold(p, a, d);
  }

  /** Every ancestor is itself somebody's parent. */
  lemma {:induction false} AboveIsParent(p: Parents, a: SlotId, d: SlotId, k: nat)
    requires k > 0 && Above(p, a, d, k)
    ensures a in p.Values
    decreases k
  {
    if k == 1 {
      assert p[d] == a;
    } else {
      AboveIsParent(p, a, p[d], k - 1);
    }
  }

  lemma AncIsParent(p: Parents, a: SlotId, d: SlotId)
    requires Anc(p, a, d)
    ensures a in p.Values && d in p
  {
    var k: nat :| k > 0 && Above(p, a, d, k);
    AboveIsParent(p, a, d, k);
  }

  /** A set that has every child of `i` and every child of its own members has every descendant of `i`. */
  lemma {:induction false} ClosedAbove(p: Parents, S: set<SlotId>, i: SlotId, x: SlotId, k: nat)
    requires forall y :: y in p && (p[y] == i || p[y] in S) ==> y in S
    requires k > 0 && Above(p, i, x, k)
    ensures x in S
    decreases k
  {
    if k > 1 { ClosedAbove(p, S, i, p[x], k - 1); }
  }

  lemma ClosedContains(p: Parents, S: set<SlotId>, i: SlotId, x: SlotId)
    requires forall y :: y in p && (p[y] == i || p[y] in S) ==> y in S
    requires Anc(p, i, x)
    ensures x in S
  {
    var k: nat :| k > 0 && Above(p, i, x, k);
    ClosedAbove(p, S, i, x, k);
  }

  // ── delete: splicing one node out ──────────────────────────────────────────

  /** `v` is taken out and its children are given to its parent, or become roots. */
  function Splice(p: Parents, v: SlotId): Parents {
    map x | x in p && x != v && (p[x] == v ==> v in p) :: if p[x] == v then p[v] else p[x]
  }

  lemma {:induction false} SpliceAboveLift(p: Parents, v: SlotId, a: SlotId, d: SlotId, k: nat) returns (j: nat)
    requires Above(Splice(p, v), a, d, k)
    ensures k <= j && Above(p, a, d, j)
    decreases k
  {
    j := 0;
    if k > 0 {
      var q := Splice(p, v);
      var i := SpliceAboveLift(p, v, a, q[d], k - 1);
      if p[d] == v {
        assert Above(p, a, v, i + 1);
        j := i + 2;
      } else {
        j := i + 1;
      }
    }
  }

  lemma {:induction false} SpliceAboveDrop(p: Parents, v: SlotId, a: SlotId, d: SlotId, k: nat)
    requires v !in p || p[v] != v
    requires k > 0 && Above(p, a, d, k) && a != v && d != v
    ensures Anc(Splice(p, v), a, d)
    decreases k
  {
    var q := Splice(p, v);
    if p[d] == v {
      assert Above(p, a, v, k - 1);
      assert Above(p, a, p[v], k - 2);
      if k > 2 { SpliceAboveDrop(p, v, a, p[v], k - 2); }
    } else if k > 1 {
      SpliceAboveDrop(p, v, a, p[d], k - 1);
    }
    AncUnfold(q, a, d);
  }

  /** Splicing one node out keeps the strict-ancestor relation exactly, on everybody else. */
  lemma SpliceAnc(p: Parents, v: SlotId, a: SlotId, d: SlotId)
    requires v !in p || p[v] != v
    ensures Anc(Splice(p, v), a, d) <==> Anc(p, a, d) && a != v && d != v
  {
    var q := Splice(p, v);
    if Anc(q, a, d) {
      var k: nat :| k > 0 && Above(q, a, d, k);
      var j := SpliceAboveLift(p, v, a, d, k);
      AncIsParent(q, a, d);
    }
    if Anc(p, a, d) && a != v && d != v {
      var k: nat :| k > 0 && Above(p, a, d, k);
      SpliceAboveDrop(p, v, a, d, k);
    }
  }

  // ── mint, retype, map: one new leaf ────────────────────────────────────────

  lemma {:induction false} LeafAbove(p: Parents, x: SlotId, q: SlotId, a: SlotId, d: SlotId, k: nat)
    requires x !in p.Values && x != q && d != x
    ensures Above(p[x := q], a, d, k) <==> Above(p, a, d, k)
    decreases k
  {
    if k > 0 && d in p {
      assert p[d] in p.Values;
      LeafAbove(p, x, q, a, p[d], k - 1);
    }
  }

  /** A new leaf `x` under `q` gains `q` and its ancestors, and nobody else's ancestry changes. */
  lemma LeafAnc(p: Parents, x: SlotId, q: SlotId, a: SlotId, d: SlotId)
    requires x !in p.Values && x != q
    ensures Anc(p[x := q], a, d) <==> if d == x then a == q || Anc(p, a, q) else Anc(p, a, d)
  {
    var r := p[x := q];
    forall k: nat, e | e != x ensures Above(r, a, e, k) <==> Above(p, a, e, k) {
      LeafAbove(p, x, q, a, e, k);
    }
    assert Anc(r, a, q) <==> Anc(p, a, q);
    AncUnfold(r, a, d);
  }

  // ── revoke: pruning a set closed under children ────────────────────────────

  lemma {:induction false} PruneAbove(p: Parents, D: set<SlotId>, a: SlotId, d: SlotId, k: nat)
    requires forall x :: x in p && p[x] in D ==> x in D
    requires d !in D
    ensures Above(p - D, a, d, k) <==> Above(p, a, d, k)
    decreases k
  {
    if k > 0 && d in p { PruneAbove(p, D, a, p[d], k - 1); }
  }

  /** Removing a downward-closed set keeps the ancestry of every slot outside it. */
  lemma PruneAnc(p: Parents, D: set<SlotId>, a: SlotId, d: SlotId)
    requires forall x :: x in p && p[x] in D ==> x in D
    ensures Anc(p - D, a, d) <==> d !in D && Anc(p, a, d)
  {
    if d in D {
      AncUnfold(p - D, a, d);
    } else {
      forall k: nat ensures Above(p - D, a, d, k) <==> Above(p, a, d, k) {
        PruneAbove(p, D, a, d, k);
      }
    }
  }

  // ── move and rotate: renaming by a permutation ─────────────────────────────

  /** A permutation of slot names: a transposition, or the three-cycle `a -> b -> c -> a`. */
  datatype Perm = Swap(a: SlotId, b: SlotId) | Cycle(a: SlotId, b: SlotId, c: SlotId) {
    predicate Valid() { Cycle? ==> a != b && b != c && a != c }

    predicate Moves(x: SlotId) { x == a || x == b || (Cycle? && x == c) }

    function To(x: SlotId): SlotId {
      match this
      case Swap(a, b) => if x == a then b else if x == b then a else x
      case Cycle(a, b, c) => if x == a then b else if x == b then c else if x == c then a else x
    }

    function From(y: SlotId): SlotId {
      match this
      case Swap(a, b) => if y == a then b else if y == b then a else y
      case Cycle(a, b, c) => if y == a then c else if y == b then a else if y == c then b else y
    }
  }

  lemma PermInverse(pi: Perm, x: SlotId)
    requires pi.Valid()
    ensures pi.From(pi.To(x)) == x && pi.To(pi.From(x)) == x
  {}

  /** `q` is `p` with every name replaced by its image. */
  ghost predicate Renames(p: Parents, q: Parents, pi: Perm) {
    && (forall x :: x in p <==> pi.To(x) in q)
    && (forall x :: x in p ==> q[pi.To(x)] == pi.To(p[x]))
  }

  lemma {:induction false} RenameAbove(p: Parents, q: Parents, pi: Perm, a: SlotId, d: SlotId, k: nat)
    requires pi.Valid() && Renames(p, q, pi)
    ensures Above(q, pi.To(a), pi.To(d), k) <==> Above(p, a, d, k)
    decreases k
  {
    if k == 0 {
      PermInverse(pi, a);
      PermInverse(pi, d);
    } else if d in p {
      RenameAbove(p, q, pi, a, p[d], k - 1);
    }
  }

  /** Renaming transports the strict-ancestor relation. */
  lemma RenameAnc(p: Parents, q: Parents, pi: Perm, a: SlotId, d: SlotId)
    requires pi.Valid() && Renames(p, q, pi)
    ensures Anc(q, pi.To(a), pi.To(d)) <==> Anc(p, a, d)
  {
    forall k: nat ensures Above(q, pi.To(a), pi.To(d), k) <==> Above(p, a, d, k) {
      RenameAbove(p, q, pi, a, d, k);
    }
  }

  lemma RenameAcyclic(p: Parents, q: Parents, pi: Perm)
    requires pi.Valid() && Renames(p, q, pi) && Acyclic(p)
    ensures Acyclic(q)
  {
    forall b ensures !Anc(q, b, b) {
      PermInverse(pi, b);
      RenameAnc(p, q, pi, pi.From(b), pi.From(b));
    }
  }
}
