/** Lexicographic comparison, as `std::lexicographical_compare` computes it. */
module Order {
  ghost predicate StrictTotal<T(!new)>(lt: (T, T) -> bool) {
    && (forall x :: !lt(x, x))
    && (forall x, y, z :: lt(x, y) && lt(y, z) ==> lt(x, z))
    && (forall x, y :: x == y || lt(x, y) || lt(y, x))
  }

  predicate Lex<T>(lt: (T, T) -> bool, a: seq<T>, b: seq<T>) {
    if b == [] then false
    else if a == [] then true
    else lt(a[0], b[0]) || (!lt(b[0], a[0]) && Lex(lt, a[1..], b[1..]))
  }

  lemma {:induction false} LexIrreflexive<T(!new)>(lt: (T, T) -> bool, a: seq<T>)
    requires StrictTotal(lt)
    ensures !Lex(lt, a, a)
  {
    if a != [] {
      LexIrreflexive(lt, a[1..]);
    }
  }

  lemma {:induction false} LexTransitive<T(!new)>(lt: (T, T) -> bool, a: seq<T>, b: seq<T>, c: seq<T>)
    requires StrictTotal(lt)
    requires Lex(lt, a, b) && Lex(lt, b, c)
    ensures Lex(lt, a, c)
  {
    if a != [] {
      if !lt(a[0], b[0]) && !lt(b[0], c[0]) {
        assert a[0] == b[0] == c[0];
        LexTransitive(lt, a[1..], b[1..], c[1..]);
      }
    }
  }

  /** Two sequences neither of which precedes the other are equal. */
  lemma {:induction false} LexTotal<T(!new)>(lt: (T, T) -> bool, a: seq<T>, b: seq<T>)
    requires StrictTotal(lt)
    ensures a == b || Lex(lt, a, b) || Lex(lt, b, a)
  {
    if a != [] && b != [] && a[0] == b[0] {
      LexTotal(lt, a[1..], b[1..]);
      if a[1..] == b[1..] {
        assert a == [a[0]] + a[1..] && b == [b[0]] + b[1..];
      }
    }
  }

  /** `b` goes on after `a`, or has the larger element at `k`, the first difference. */
  ghost predicate DiffersAt<T>(lt: (T, T) -> bool, a: seq<T>, b: seq<T>, k: nat) {
    k <= |a| && k < |b| && a[..k] == b[..k] && (k == |a| || lt(a[k], b[k]))
  }

  /** Lexicographic order by its meaning: the first difference decides. */
  lemma {:induction false} LexIff<T(!new)>(lt: (T, T) -> bool, a: seq<T>, b: seq<T>)
    requires StrictTotal(lt)
    ensures Lex(lt, a, b) <==> exists k: nat :: DiffersAt(lt, a, b, k)
  {
    if b == [] || a == [] {
      assert b != [] ==> DiffersAt(lt, a, b, 0);
    } else {
      LexIff(lt, a[1..], b[1..]);
      FirstDecides(lt, a, b);
    }
  }

  lemma FirstDecides<T(!new)>(lt: (T, T) -> bool, a: seq<T>, b: seq<T>)
    requires StrictTotal(lt) && a != [] && b != []
    ensures (exists k: nat :: DiffersAt(lt, a, b, k))
       <==> lt(a[0], b[0]) || (a[0] == b[0] && exists k: nat :: DiffersAt(lt, a[1..], b[1..], k))
  {
    if k: nat :| DiffersAt(lt, a, b, k) {
      if k > 0 {
        assert a[0] == a[..k][0] == b[..k][0] == b[0];
        assert a[1..][..k - 1] == a[..k][1..] == b[..k][1..] == b[1..][..k - 1];
        assert DiffersAt(lt, a[1..], b[1..], k - 1);
      }
    }
    if lt(a[0], b[0]) {
      assert DiffersAt(lt, a, b, 0);
    }
    if a[0] == b[0] && exists k: nat :: DiffersAt(lt, a[1..], b[1..], k) {
      var k: nat :| DiffersAt(lt, a[1..], b[1..], k);
      assert a[..k + 1] == [a[0]] + a[1..][..k] && b[..k + 1] == [b[0]] + b[1..][..k];
      assert DiffersAt(lt, a, b, k + 1);
    }
  }
}
