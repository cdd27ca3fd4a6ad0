/** The value of a variable: 0 plus every added amount minus every
    subtracted amount over the live delta rows of the variable. Defined
    here independently of any scan order (as a sum over the set of rows),
    so that the folds of the two packages can be checked against it. */
module Aggregates {
  import opened Wrappers
  import opened Ledger

  /** Amount an update with operator `op` and value `v` adds to a variable;
      an unknown operator adds nothing. */
  function Signed(d: Dialect, op: string, v: real): real {
    if op == d.add then v else if op == d.sub then -v else 0.0
  }

  /** Signed amount that one delta row contributes to its variable. */
  function Contribution(num: Numerals, d: Dialect, k: Key): real {
    if !k.Delta? then 0.0
    else
      match num.parse(k.val)
      case None => 0.0
      case Some(v) => Signed(d, k.op, v)
  }

  /** Sum of the contributions of a sequence of rows. */
  function Sum(num: Numerals, d: Dialect, rows: seq<Key>): real
    decreases |rows|
  {
    if rows == [] then 0.0 else Contribution(num, d, rows[0]) + Sum(num, d, rows[1..])
  }

  /** Sum of the contributions of a set of rows. */
  ghost function SumOver(num: Numerals, d: Dialect, rows: set<Key>): real
    decreases |rows|
  {
    if rows == {} then 0.0
    else
      var x :| x in rows;
      Contribution(num, d, x) + SumOver(num, d, rows - {x})
  }

  /** The set sum does not depend on which row is taken out first. */
  lemma {:induction false} SumOverRemove(num: Numerals, d: Dialect, rows: set<Key>, x: Key)
    requires x in rows
    ensures SumOver(num, d, rows) == Contribution(num, d, x) + SumOver(num, d, rows - {x})
    decreases |rows|
  {
    var y :| y in rows && SumOver(num, d, rows) == Contribution(num, d, y) + SumOver(num, d, rows - {y});
    if y != x {
      SumOverRemove(num, d, rows - {y}, x);
      SumOverRemove(num, d, rows - {x}, y);
      assert rows - {y} - {x} == rows - {x} - {y};
    }
  }

  lemma SumOverAdd(num: Numerals, d: Dialect, rows: set<Key>, x: Key)
    requires x !in rows
    ensures SumOver(num, d, rows + {x}) == SumOver(num, d, rows) + Contribution(num, d, x)
  {
    SumOverRemove(num, d, rows + {x}, x);
    assert rows + {x} - {x} == rows;
  }

  predicate Distinct(rows: seq<Key>) {
    forall i, j :: 0 <= i < j < |rows| ==> rows[i] != rows[j]
  }

  /** Over rows that repeat no key the sequence sum is the set sum. */
  lemma {:induction false} SumOfDistinct(num: Numerals, d: Dialect, rows: seq<Key>)
    requires Distinct(rows)
    ensures Sum(num, d, rows) == SumOver(num, d, Elems(rows))
    decreases |rows|
  {
    if rows != [] {
      SumOfDistinct(num, d, rows[1..]);
      assert Elems(rows) == Elems(rows[1..]) + {rows[0]};
      SumOverAdd(num, d, Elems(rows[1..]), rows[0]);
    }
  }

  /** Value of the variable (name, sub) in a store. */
  ghost function Aggregate(s: Store, num: Numerals, d: Dialect, name: string, sub: string): real {
    SumOver(num, d, Matching(s, name, Some(sub)))
  }

  /** The rows of a sequence that belong to one sub-key, in order. */
  function OfSub(rows: seq<Key>, sub: string): seq<Key>
    decreases |rows|
  {
    if rows == [] then []
    else if rows[0].Delta? && rows[0].sub == sub then
      [rows[0]] + OfSub(rows[1..], sub)
    else OfSub(rows[1..], sub)
  }

  /** OfSub keeps exactly the delta rows of the sub-key, and repeats none
      of them when the rows repeat none. */
  lemma {:induction false} OfSubRows(rows: seq<Key>, sub: string)
    ensures forall k :: k in OfSub(rows, sub) <==> k in rows && k.Delta? && k.sub == sub
    ensures forall i :: 0 <= i < |OfSub(rows, sub)| ==> OfSub(rows, sub)[i].Delta? && OfSub(rows, sub)[i].sub == sub
    ensures Distinct(rows) ==> Distinct(OfSub(rows, sub))
    decreases |rows|
  {
    if rows != [] {
      OfSubRows(rows[1..], sub);
      assert forall k :: k in rows <==> k == rows[0] || k in rows[1..];
    }
  }

  /** Sum of the contributions of the delta rows of one sub-key. */
  function SubSum(num: Numerals, d: Dialect, rows: seq<Key>, sub: string): real
    decreases |rows|
  {
    if rows == [] then 0.0
    else (if rows[0].Delta? && rows[0].sub == sub then Contribution(num, d, rows[0]) else 0.0)
         + SubSum(num, d, rows[1..], sub)
  }

  /** SubSum sums exactly the rows OfSub keeps. */
  lemma {:induction false} SubSumOfSub(num: Numerals, d: Dialect, rows: seq<Key>, sub: string)
    ensures SubSum(num, d, rows, sub) == Sum(num, d, OfSub(rows, sub))
    decreases |rows|
  {
    if rows != [] {
      SubSumOfSub(num, d, rows[1..], sub);
      if rows[0].Delta? && rows[0].sub == sub {
        assert ([rows[0]] + OfSub(rows[1..], sub))[1..] == OfSub(rows[1..], sub);
      }
    }
  }

  /** A scan returns the rows of the variable it covers, so summing them
      gives the variable's value. */
  lemma ScanSumIsAggregate(s: Store, f: Faults, num: Numerals, d: Dialect, name: string, sub: string)
    requires Scan(s, f, name, Some(sub)).Ok?
    ensures Sum(num, d, Scan(s, f, name, Some(sub)).value) == Aggregate(s, num, d, name, sub)
  {
    var rows := Scan(s, f, name, Some(sub)).value;
    ScanDistinct(rows);
    SumOfDistinct(num, d, rows);
    assert Elems(rows) == Matching(s, name, Some(sub));
  }

  /** Per sub-key, the rows of a scan over the name (or over that very
      sub-key) sum to that variable's value. */
  lemma ScanOfSubSumIsAggregate(s: Store, f: Faults, num: Numerals, d: Dialect, name: string,
                                prefix: Option<string>, sub: string)
    requires Scan(s, f, name, prefix).Ok?
    requires prefix.None? || prefix == Some(sub)
    ensures SubSum(num, d, Scan(s, f, name, prefix).value, sub) == Aggregate(s, num, d, name, sub)
  {
    var rows := Scan(s, f, name, prefix).value;
    SubSumOfSub(num, d, rows, sub);
    ScanDistinct(rows);
    var mine := OfSub(rows, sub);
    OfSubRows(rows, sub);
    SumOfDistinct(num, d, mine);
    assert Elems(mine) == Matching(s, name, Some(sub));
  }

  /** The sub-keys of a set of delta rows. */
  function SubKeys(keys: set<Key>): (r: set<string>)
    ensures forall sub :: sub in r <==> exists k :: k in keys && k.Delta? && k.sub == sub
  {
    set k | k in keys && k.Delta? :: k.sub
  }

  /** A delta row as Insert writes it: a number and one of the two operators. */
  predicate WellFormedRow(num: Numerals, d: Dialect, k: Key) {
    k.Delta? ==> num.parse(k.val).Some? && (k.op == d.add || k.op == d.sub)
  }

  /** Every row under the prefix (name[, sub]) is well formed. */
  ghost predicate WellFormedUnder(s: Store, num: Numerals, d: Dialect, name: string, sub: Option<string>) {
    forall k :: k in s && Under(k, name, sub) ==> WellFormedRow(num, d, k)
  }

  /** A variable held in a single row has that row's value. */
  lemma AggregateOfOneRow(s: Store, num: Numerals, d: Dialect, name: string, sub: string, row: Key)
    requires Matching(s, name, Some(sub)) == {row}
    ensures Aggregate(s, num, d, name, sub) == Contribution(num, d, row)
  {
    SumOverRemove(num, d, {row}, row);
    assert {row} - {row} == {};
  }
}
