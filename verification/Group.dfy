/** Multiples of a member of a commutative group. */
module Group {

  /** A candidate group: its members, addition, neutral element and negation. Each law is a
      predicate of its own, so that proofs name the instances they use. */
  datatype Group<!G(!new)> = Group(has: G -> bool, add: (G, G) -> G, zero: G, neg: G -> G)
  {
    ghost predicate ClosedAt(a: G, b: G)
    {
      has(a) && has(b) ==> has(add(a, b)) && has(neg(a))
    }

    ghost predicate AssociativeAt(a: G, b: G, c: G)
    {
      has(a) && has(b) && has(c) ==> add(add(a, b), c) == add(a, add(b, c))
    }

    ghost predicate CommutativeAt(a: G, b: G)
    {
      has(a) && has(b) ==> add(a, b) == add(b, a)
    }

    ghost predicate NeutralAt(a: G)
    {
      has(a) ==> add(zero, a) == a && add(neg(a), a) == zero
    }

    ghost predicate Closed()
    {
      has(zero) && forall a, b :: ClosedAt(a, b)
    }

    ghost predicate Associative()
    {
      forall a, b, c :: AssociativeAt(a, b, c)
    }

    ghost predicate Laws()
    {
      (forall a, b :: CommutativeAt(a, b)) && (forall a :: NeutralAt(a))
    }

    ghost predicate IsCommutativeGroup()
    {
      Closed() && Associative() && Laws()
    }

    /** k times g. */
    function Times(k: nat, g: G): G
    {
      if k == 0 then zero else add(Times(k - 1, g), g)
    }

    lemma {:induction false} TimesIsMember(k: nat, g: G)
      requires Closed() && has(g)
      ensures has(Times(k, g))
    {
      if k != 0 {
        TimesIsMember(k - 1, g);
        assert ClosedAt(Times(k - 1, g), g);
      }
    }

    lemma {:induction false} TimesAdd(j: nat, k: nat, g: G)
      requires IsCommutativeGroup() && has(g)
      ensures Times(j + k, g) == add(Times(j, g), Times(k, g))
    {
      TimesIsMember(j, g);
      if k == 0 {
        assert CommutativeAt(Times(j, g), zero) && NeutralAt(Times(j, g));
      } else {
        TimesAdd(j, k - 1, g);
        TimesIsMember(k - 1, g);
        assert AssociativeAt(Times(j, g), Times(k - 1, g), g);
      }
    }

    /** What one rung of the ladder does to the multiples k and k + 1. */
    lemma TimesRung(k: nat, g: G)
      requires IsCommutativeGroup() && has(g)
      ensures add(Times(k, g), Times(k, g)) == Times(2 * k, g)
      ensures add(Times(k, g), Times(k + 1, g)) == Times(2 * k + 1, g)
      ensures add(Times(k + 1, g), Times(k, g)) == Times(2 * k + 1, g)
      ensures add(Times(k + 1, g), Times(k + 1, g)) == Times(2 * k + 2, g)
    {
      TimesAdd(k, k, g);
      TimesAdd(k, k + 1, g);
      TimesAdd(k + 1, k, g);
      TimesAdd(k + 1, k + 1, g);
    }

    /** A multiple of the negation is the negation of the multiple. */
    lemma {:induction false} TimesNeg(k: nat, g: G)
      requires IsCommutativeGroup() && has(g)
      ensures add(Times(k, neg(g)), Times(k, g)) == zero
      decreases k
    {
      assert ClosedAt(g, g);
      if k == 0 {
        assert NeutralAt(zero);
      } else {
        var n := neg(g);
        var u, v := Times(k - 1, n), Times(k - 1, g);
        TimesNeg(k - 1, g);
        TimesIsMember(k - 1, g);
        TimesIsMember(k - 1, n);
        TimesIsMember(k, g);
        assert CommutativeAt(v, g) && NeutralAt(g) && NeutralAt(v);
        assert AssociativeAt(u, n, Times(k, g)) && AssociativeAt(n, g, v);
        assert add(n, Times(k, g)) == v;
      }
    }

    lemma NegationIsUnique(a: G, b: G)
      requires IsCommutativeGroup() && has(a) && has(b) && add(a, b) == zero
      ensures a == neg(b)
    {
      assert ClosedAt(b, b) && NeutralAt(a) && NeutralAt(b) && NeutralAt(neg(b));
      assert AssociativeAt(a, b, neg(b)) && CommutativeAt(b, neg(b)) && CommutativeAt(a, zero);
    }

    lemma NegationIsZero(a: G)
      requires IsCommutativeGroup() && has(a)
      ensures neg(a) == zero <==> a == zero
    {
      assert NeutralAt(a) && ClosedAt(zero, zero) && NeutralAt(neg(zero)) && CommutativeAt(zero, neg(zero));
      assert NeutralAt(zero);
    }

    /** Moving a term across an equation. */
    lemma Transpose(a: G, b: G, c: G)
      requires IsCommutativeGroup() && has(a) && has(b) && has(c)
      ensures add(a, neg(b)) == c <==> a == add(c, b)
    {
      assert ClosedAt(b, b) && NeutralAt(a) && NeutralAt(b) && NeutralAt(c);
      assert AssociativeAt(a, neg(b), b) && AssociativeAt(c, b, neg(b));
      assert CommutativeAt(b, neg(b)) && CommutativeAt(a, zero) && CommutativeAt(c, zero);
    }

    lemma {:induction false} TimesTimes(j: nat, k: nat, g: G)
      requires IsCommutativeGroup() && has(g)
      ensures j * k >= 0 && Times(j * k, g) == Times(j, Times(k, g))
      decreases j
    {
      if j != 0 {
        TimesTimes(j - 1, k, g);
        assert j * k == (j - 1) * k + k;
        TimesAdd((j - 1) * k, k, g);
      }
    }

    lemma {:induction false} TimesZero(k: nat)
      requires IsCommutativeGroup()
      ensures Times(k, zero) == zero
    {
      assert NeutralAt(zero);
      if k != 0 {
        TimesZero(k - 1);
      }
    }

    /** Multiples of an element of order n depend on the factor modulo n only. */
    lemma TimesPeriod(k: nat, n: nat, g: G)
      requires IsCommutativeGroup() && has(g) && n > 0 && Times(n, g) == zero
      ensures Times(k, g) == Times(k % n, g)
    {
      var q, r := k / n, k % n;
      assert k == q * n + r;
      TimesTimes(q, n, g);
      TimesZero(q);
      TimesAdd(q * n, r, g);
      TimesIsMember(r, g);
      assert NeutralAt(Times(r, g));
    }

    lemma Remainder(m: nat, n: nat, r: nat, g: G)
      requires IsCommutativeGroup() && has(g) && n > 0 && m % n == r
      requires Times(m, g) == zero && Times(n, g) == zero
      ensures Times(r, g) == zero
    {
      TimesPeriod(m, n, g);
    }

    /** An element whose order divides eight and a number that leaves 5 is the neutral one. */
    lemma OddOrder(n: nat, g: G)
      requires IsCommutativeGroup() && has(g) && n % 8 == 5 && Times(n, g) == zero
      ensures Times(8, g) == zero ==> g == zero
    {
      if Times(8, g) == zero {
        Remainder(n, 8, 5, g);
        Remainder(8, 5, 3, g);
        Remainder(5, 3, 2, g);
        Remainder(3, 2, 1, g);
        assert NeutralAt(g) && Times(1, g) == add(Times(0, g), g);
      }
    }
  }
}
