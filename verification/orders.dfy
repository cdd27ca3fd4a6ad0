/** Orders used by the ledger's range scans. Composite keys are compared
    field by field and each field character by character, shorter prefix
    first; a scan returns the matching keys in that order. */
module Orders {

  ghost predicate StrictTotalOrder<T(!new)>(lt: (T, T) -> bool) {
    && (forall x :: !lt(x, x))
    && (forall x, y, z :: lt(x, y) && lt(y, z) ==> lt(x, z))
    && (forall x, y :: x != y ==> lt(x, y) || lt(y, x))
  }

  /** Lexicographic extension of `lt`: a proper prefix comes first. */
  function Lex<T(==)>(a: seq<T>, b: seq<T>, lt: (T, T) -> bool): bool {
    if |a| == 0 then |b| > 0
    else if |b| == 0 then false
    else if a[0] == b[0] then Lex(a[1..], b[1..], lt)
    else lt(a[0], b[0])
  }

  lemma {:induction false} LexIrreflexive<T(!new)>(a: seq<T>, lt: (T, T) -> bool)
    ensures !Lex(a, a, lt)
    decreases |a|
  {
    if |a| > 0 {
      LexIrreflexive(a[1..], lt);
    }
  }

  lemma {:induction false} LexTransitive<T(!new)>(a: seq<T>, b: seq<T>, c: seq<T>, lt: (T, T) -> bool)
    requires StrictTotalOrder(lt)
    requires Lex(a, b, lt) && Lex(b, c, lt)
    ensures Lex(a, c, lt)
    decreases |a|
  {
    if |a| > 0 && |b| > 0 && |c| > 0 && a[0] == b[0] && b[0] == c[0] {
      LexTransitive(a[1..], b[1..], c[1..], lt);
    }
  }

  lemma {:induction false} LexTotal<T(!new)>(a: seq<T>, b: seq<T>, lt: (T, T) -> bool)
    requires StrictTotalOrder(lt)
    requires a != b
    ensures Lex(a, b, lt) || Lex(b, a, lt)
    decreases |a|
  {
    if |a| > 0 && |b| > 0 && a[0] == b[0] {
      assert a == [a[0]] + a[1..] && b == [b[0]] + b[1..];
      LexTotal(a[1..], b[1..], lt);
    }
  }

  lemma LexStrictTotal<T(!new)>(lt: (T, T) -> bool, lex: (seq<T>, seq<T>) -> bool)
    requires StrictTotalOrder(lt)
    requires forall a, b :: lex(a, b) == Lex(a, b, lt)
    ensures StrictTotalOrder(lex)
  {
    forall a ensures !lex(a, a) {
      LexIrreflexive(a, lt);
    }
    forall a, b, c | lex(a, b) && lex(b, c) ensures lex(a, c) {
      LexTransitive(a, b, c, lt);
    }
    forall a, b | a != b ensures lex(a, b) || lex(b, a) {
      LexTotal(a, b, lt);
    }
  }

  function CharLt(x: char, y: char): bool {
    x < y
  }

  /** Byte-wise order of UTF-8 strings, which coincides with code-point order. */
  function StringLt(a: string, b: string): bool {
    Lex(a, b, CharLt)
  }

  /** Order of composite keys given as their attribute lists. */
  function FieldsLt(a: seq<string>, b: seq<string>): bool {
    Lex(a, b, StringLt)
  }

  lemma StringOrder()
    ensures StrictTotalOrder(StringLt)
  {
    LexStrictTotal(CharLt, StringLt);
  }

  lemma FieldsOrder()
    ensures StrictTotalOrder(FieldsLt)
  {
    StringOrder();
    LexStrictTotal(StringLt, FieldsLt);
  }

  predicate IsLeast<T>(m: T, s: set<T>, lt: (T, T) -> bool) {
    m in s && forall y :: y in s && y != m ==> lt(m, y)
  }

  lemma {:induction false} LeastExists<T(!new)>(s: set<T>, lt: (T, T) -> bool)
    requires StrictTotalOrder(lt)
    requires s != {}
    ensures exists m :: IsLeast(m, s, lt)
    decreases |s|
  {
    var x :| x in s;
    if s == {x} {
      assert IsLeast(x, s, lt);
    } else {
      LeastExists(s - {x}, lt);
      var m :| IsLeast(m, s - {x}, lt);
      if lt(m, x) {
        assert IsLeast(m, s, lt);
      } else {
        assert IsLeast(x, s, lt);
      }
    }
  }

  lemma LeastUnique<T(!new)>(s: set<T>, lt: (T, T) -> bool)
    requires StrictTotalOrder(lt)
    ensures forall m, n :: IsLeast(m, s, lt) && IsLeast(n, s, lt) ==> m == n
  {
  }

  predicate StrictlySorted<T>(r: seq<T>, lt: (T, T) -> bool) {
    forall i, j :: 0 <= i < j < |r| ==> lt(r[i], r[j])
  }

  /** The elements of a finite set in ascending order: the order in which a
      range scan over the store yields its keys. */
  function Enumerate<T(!new)>(s: set<T>, lt: (T, T) -> bool): (r: seq<T>)
    requires StrictTotalOrder(lt)
    ensures |r| == |s|
    ensures forall x :: x in r <==> x in s
    ensures StrictlySorted(r, lt)
    decreases |s|
  {
    if s == {} then []
    else
      LeastExists(s, lt);
      LeastUnique(s, lt);
      var m :| IsLeast(m, s, lt);
      [m] + Enumerate(s - {m}, lt)
  }

  /** A strictly sorted sequence repeats no element. */
  lemma SortedDistinct<T(!new)>(r: seq<T>, lt: (T, T) -> bool)
    requires StrictTotalOrder(lt)
    requires StrictlySorted(r, lt)
    ensures forall i, j :: 0 <= i < j < |r| ==> r[i] != r[j]
  {
  }
}
