/** The namespace counter of akchtc/main.go: a variable is a name with an
    optional sub-key, operators are "OP_ADD" and "OP_SUB", and Get and
    Prune answer with one decimal text per sub-key (the response map, each
    entry's Data[0]). Numbers travel between rows of the loop as "%v" text,
    so the running value is re-read from its own text at every row. */
module Akchtc {
  import opened Wrappers
  import opened Ledger
  import Orders
  import Aggregates
  import CompositeKeys

  const Ops := Dialect("OP_ADD", "OP_SUB")

  /** The response map: per sub-key, the decimal text of its value. */
  type Totals = map<string, string>

  /** A number that some text reads as. */
  ghost predicate Parsed(num: Numerals, x: real) {
    exists text :: num.parse(text) == Some(x)
  }

  /** The "%v" text of the sum or difference of two numbers read from text
      reads back as that sum or difference, and 0 is such a number. This
      is what a fold needs, since its running value is always the sum of
      numbers read from rows; decimal texts with exact arithmetic satisfy
      it, and `Numeral.Unary` is a small instance. */
  ghost predicate GeneralReadsBack(num: Numerals) {
    && Parsed(num, 0.0)
    && forall x, y :: Parsed(num, x) && Parsed(num, y) ==>
         && num.parse(num.general(x + y)) == Some(x + y)
         && num.parse(num.general(x - y)) == Some(x - y)
  }

  /** Every text of the map reads as a number. */
  ghost predicate Readable(num: Numerals, m: Totals) {
    forall sub :: sub in m ==> num.parse(m[sub]).Some?
  }

  /** The number a map entry holds; an absent entry counts as 0. */
  function Start(num: Numerals, m: Totals, sub: string): real {
    if sub in m then
      match num.parse(m[sub])
      case Some(x) => x
      case None => 0.0
    else 0.0
  }

  /** The sub-keys of a sequence of delta rows. */
  function Subs(rows: seq<Key>): set<string> {
    Aggregates.SubKeys(Elems(rows))
  }

  /** getValueByOperator: applies the operator to the current value and
      gives the result as "%v" text. */
  function ValueByOperator(num: Numerals, op: string, current: real, value: real): (r: Result<string, Error>)
    ensures r.Ok? <==> op == Ops.add || op == Ops.sub
    ensures r.Err? ==> r.error == UnknownOperator(op)
    ensures GeneralReadsBack(num) && Parsed(num, current) && Parsed(num, value) && r.Ok? ==>
              num.parse(r.value) == Some(current + Aggregates.Signed(Ops, op, value))
  {
    if op == "OP_ADD" then Ok(num.general(current + value))
    else if op == "OP_SUB" then Ok(num.general(current - value))
    else Err(UnknownOperator(op))
  }

  /** The three ways the package folds one row into the response map:
      the loop of Get and the first loop of PRUNE_FAST as written, and the
      fold both evidently intend. */
  datatype Rule = GetRule | FastRule | IntendedRule

  /** Folds one delta row into the response map.

      As written, both loops test `responseMap[key].Key == key`, which also
      holds for an absent entry when the sub-key is "" (the zero value's
      Key is ""); the loop then indexes the entry's nil Data slice and
      panics. Get then applies the operator to 0 for a new sub-key, while
      PRUNE_FAST stores the first row's value text as it is, whatever its
      operator, and without reading it. The intended rule tests membership
      and applies the operator to 0. */
  function Step(num: Numerals, rule: Rule, m: Totals, k: Key): (r: Result<Totals, Error>)
    requires k.Delta?
    ensures r.Ok? ==> r.value.Keys == m.Keys + {k.sub}
  {
    if rule == FastRule then
      if k.sub in m then
        match num.parse(m[k.sub])
        case None => Err(NotANumber(m[k.sub]))
        case Some(current) =>
          match num.parse(k.val)
          case None => Err(NotANumber(k.val))
          case Some(v) =>
            var text :- ValueByOperator(num, k.op, current, v);
            Ok(m[k.sub := text])
      else if k.sub == "" then Err(NilSliceIndex)
      else Ok(m[k.sub := k.val])
    else
      match num.parse(k.val)
      case None => Err(NotANumber(k.val))
      case Some(v) =>
        if k.sub in m then
          match num.parse(m[k.sub])
          case None => Err(NotANumber(m[k.sub]))
          case Some(current) =>
            var text :- ValueByOperator(num, k.op, current, v);
            Ok(m[k.sub := text])
        else if rule == GetRule && k.sub == "" then Err(NilSliceIndex)
        else
          var text :- ValueByOperator(num, k.op, 0.0, v);
          Ok(m[k.sub := text])
  }

  /** Folds the rows into the response map in scan order, stopping at the
      first error. */
  function Fold(num: Numerals, rule: Rule, rows: seq<Key>, m: Totals): (r: Result<Totals, Error>)
    requires forall i :: 0 <= i < |rows| ==> rows[i].Delta?
    decreases |rows|
  {
    if rows == [] then Ok(m)
    else
      match Step(num, rule, m, rows[0])
      case Err(e) => Err(e)
      case Ok(m') => Fold(num, rule, rows[1..], m')
  }

  /** A successful fold has an entry for every sub-key it started with and
      for every sub-key of the rows, and no other. */
  lemma {:induction false} FoldKeys(num: Numerals, rule: Rule, rows: seq<Key>, m: Totals)
    requires forall i :: 0 <= i < |rows| ==> rows[i].Delta?
    requires Fold(num, rule, rows, m).Ok?
    ensures Fold(num, rule, rows, m).value.Keys == m.Keys + Subs(rows)
    decreases |rows|
  {
    if rows != [] {
      assert Elems(rows) == {rows[0]} + Elems(rows[1..]);
      FoldKeys(num, rule, rows[1..], Step(num, rule, m, rows[0]).value);
    }
  }

  /** One intended step succeeds exactly on a well-formed row, and moves
      only that row's sub-key, by the row's signed amount. */
  lemma IntendedStep(num: Numerals, m: Totals, k: Key)
    requires k.Delta?
    requires GeneralReadsBack(num) && Readable(num, m)
    ensures Step(num, IntendedRule, m, k).Ok? <==> Aggregates.WellFormedRow(num, Ops, k)
    ensures var r := Step(num, IntendedRule, m, k);
            r.Ok? ==> && Readable(num, r.value)
                      && forall sub :: Start(num, r.value, sub)
                           == Start(num, m, sub) + (if sub == k.sub then Aggregates.Contribution(num, Ops, k) else 0.0)
  {
  }

  lemma StepKeepsReadable(num: Numerals, m: Totals, k: Key)
    requires k.Delta?
    requires GeneralReadsBack(num) && Readable(num, m)
    requires Step(num, IntendedRule, m, k).Ok?
    ensures Readable(num, Step(num, IntendedRule, m, k).value)
  {
    IntendedStep(num, m, k);
  }

  lemma StartAfterStep(num: Numerals, m: Totals, k: Key, sub: string)
    requires k.Delta?
    requires GeneralReadsBack(num) && Readable(num, m)
    requires Step(num, IntendedRule, m, k).Ok?
    ensures Start(num, Step(num, IntendedRule, m, k).value, sub)
            == Start(num, m, sub) + (if sub == k.sub then Aggregates.Contribution(num, Ops, k) else 0.0)
  {
    IntendedStep(num, m, k);
  }

  /** Under the intended rule, and when "%v" text reads back, the fold
      fails exactly when some row is ill-formed. */
  lemma {:induction false} IntendedFoldOk(num: Numerals, rows: seq<Key>, m: Totals)
    requires forall i :: 0 <= i < |rows| ==> rows[i].Delta?
    requires GeneralReadsBack(num) && Readable(num, m)
    ensures Fold(num, IntendedRule, rows, m).Ok?
            <==> forall i :: 0 <= i < |rows| ==> Aggregates.WellFormedRow(num, Ops, rows[i])
    decreases |rows|
  {
    if rows != [] {
      IntendedStep(num, m, rows[0]);
      var step := Step(num, IntendedRule, m, rows[0]);
      if step.Ok? {
        IntendedFoldOk(num, rows[1..], step.value);
      }
    }
  }

  /** A successful fold is its first step followed by the fold of the
      remaining rows. */
  lemma FoldFront(num: Numerals, rule: Rule, rows: seq<Key>, m: Totals)
    requires rows != [] && forall i :: 0 <= i < |rows| ==> rows[i].Delta?
    requires Fold(num, rule, rows, m).Ok?
    ensures Step(num, rule, m, rows[0]).Ok?
    ensures Fold(num, rule, rows, m) == Fold(num, rule, rows[1..], Step(num, rule, m, rows[0]).value)
  {
  }

  /** Under the intended rule, and when "%v" text reads back, a successful
      fold keeps every entry readable and moves the number of the sub-key
      `sub` by the signed sum of its rows. */
  lemma {:induction false} IntendedFoldStart(num: Numerals, rows: seq<Key>, m: Totals, sub: string)
    requires forall i :: 0 <= i < |rows| ==> rows[i].Delta?
    requires GeneralReadsBack(num) && Readable(num, m)
    requires Fold(num, IntendedRule, rows, m).Ok?
    ensures Readable(num, Fold(num, IntendedRule, rows, m).value)
    ensures Start(num, Fold(num, IntendedRule, rows, m).value, sub)
            == Start(num, m, sub) + Aggregates.SubSum(num, Ops, rows, sub)
    decreases |rows|
  {
    if rows != [] {
      FoldFront(num, IntendedRule, rows, m);
      var m' := Step(num, IntendedRule, m, rows[0]).value;
      StepKeepsReadable(num, m, rows[0]);
      StartAfterStep(num, m, rows[0], sub);
      IntendedFoldStart(num, rows[1..], m', sub);
    }
  }

  /** Under the intended rule, and when "%v" text reads back, a successful
      fold leaves the sub-key `sub` with the text of its start value plus
      the signed sum of its rows. */
  lemma IntendedFoldValue(num: Numerals, rows: seq<Key>, m: Totals, sub: string)
    requires forall i :: 0 <= i < |rows| ==> rows[i].Delta?
    requires GeneralReadsBack(num) && Readable(num, m)
    requires Fold(num, IntendedRule, rows, m).Ok?
    requires sub in Fold(num, IntendedRule, rows, m).value
    ensures num.parse(Fold(num, IntendedRule, rows, m).value[sub])
            == Some(Start(num, m, sub) + Aggregates.SubSum(num, Ops, rows, sub))
  {
    IntendedFoldStart(num, rows, m, sub);
    ReadStart(num, Fold(num, IntendedRule, rows, m).value, sub,
              Start(num, m, sub) + Aggregates.SubSum(num, Ops, rows, sub));
  }

  /** A readable entry reads as its number. */
  lemma ReadStart(num: Numerals, m: Totals, sub: string, x: real)
    requires Readable(num, m) && sub in m && Start(num, m, sub) == x
    ensures num.parse(m[sub]) == Some(x)
  {
  }

  /** As written, Get's loop agrees with the intended fold as long as it
      never meets an absent "" sub-key. */
  lemma {:induction false} GetFoldAgrees(num: Numerals, rows: seq<Key>, m: Totals)
    requires forall i :: 0 <= i < |rows| ==> rows[i].Delta?
    requires "" in m || forall i :: 0 <= i < |rows| ==> rows[i].sub != ""
    ensures Fold(num, GetRule, rows, m) == Fold(num, IntendedRule, rows, m)
    decreases |rows|
  {
    if rows != [] {
      var step := Step(num, GetRule, m, rows[0]);
      assert step == Step(num, IntendedRule, m, rows[0]);
      if step.Ok? {
        GetFoldAgrees(num, rows[1..], step.value);
      }
    }
  }

  /** Whenever Get's loop as written succeeds, it agrees with the
      intended fold: it differs only by failing. */
  lemma {:induction false} GetFoldOkAgrees(num: Numerals, rows: seq<Key>, m: Totals)
    requires forall i :: 0 <= i < |rows| ==> rows[i].Delta?
    requires Fold(num, GetRule, rows, m).Ok?
    ensures Fold(num, GetRule, rows, m) == Fold(num, IntendedRule, rows, m)
    decreases |rows|
  {
    if rows != [] {
      var step := Step(num, GetRule, m, rows[0]);
      assert step == Step(num, IntendedRule, m, rows[0]);
      GetFoldOkAgrees(num, rows[1..], step.value);
    }
  }

  // ----- Get -----

  /** The scanned prefix of Get: the name, and the sub-key only when
      exactly two arguments are given. */
  function QueryPrefix(args: seq<string>): Option<string> {
    if |args| == 2 then Some(args[1]) else None
  }

  /** Get(name[, key]) with a given fold rule. */
  function Query(s: Store, env: Env, rule: Rule, args: seq<string>): (r: Result<Totals, Error>)
    ensures |args| == 0 ==> r == Err(WrongArgumentCount(1))
    ensures r.Ok? ==> && |args| >= 1
                      && Matching(s, args[0], QueryPrefix(args)) != {}
                      && r.value.Keys == Aggregates.SubKeys(Matching(s, args[0], QueryPrefix(args)))
    ensures (&& |args| >= 1 && Scan(s, env.faults, args[0], QueryPrefix(args)).Ok?
             && Matching(s, args[0], QueryPrefix(args)) == {})
              ==> r == Err(NoSuchVariable(args[0]))
    ensures (|args| >= 1 && Scan(s, env.faults, args[0], QueryPrefix(args)).Err?) ==> r.Err?
  {
    if |args| < 1 then Err(WrongArgumentCount(1))
    else
      var name := args[0];
      match Scan(s, env.faults, name, QueryPrefix(args))
      case Err(e) => Err(e)
      case Ok(rows) =>
        if rows == [] then Err(NoSuchVariable(name))
        else
          var none: Totals := map[];
          var r := Fold(env.num, rule, rows, none);
          if r.Ok? then
            FoldKeys(env.num, rule, rows, none);
            ScanElems(s, env.faults, name, QueryPrefix(args));
            assert none.Keys + Subs(rows) == Subs(rows);
            r
          else r
  }

  /** With the intended fold, and when "%v" text reads back, Get succeeds
      exactly when the scan opens and finds rows, all of them well formed,
      and then answers every sub-key with the text of that variable's value. */
  lemma QueryIntendedGivesAggregates(s: Store, env: Env, args: seq<string>)
    requires |args| >= 1 && GeneralReadsBack(env.num)
    ensures var r := Query(s, env, IntendedRule, args);
            r.Ok? <==> && Scan(s, env.faults, args[0], QueryPrefix(args)).Ok?
                       && Matching(s, args[0], QueryPrefix(args)) != {}
                       && Aggregates.WellFormedUnder(s, env.num, Ops, args[0], QueryPrefix(args))
    ensures var r := Query(s, env, IntendedRule, args);
            r.Ok? ==> forall sub :: sub in r.value ==>
                        env.num.parse(r.value[sub]) == Some(Aggregates.Aggregate(s, env.num, Ops, args[0], sub))
  {
    var name, prefix := args[0], QueryPrefix(args);
    if Scan(s, env.faults, name, prefix).Ok? {
      var rows := Scan(s, env.faults, name, prefix).value;
      var none: Totals := map[];
      IntendedFoldOk(env.num, rows, none);
      ScanElems(s, env.faults, name, prefix);
      var r := Query(s, env, IntendedRule, args);
      if r.Ok? {
        assert r == Fold(env.num, IntendedRule, rows, none);
        forall sub | sub in r.value
          ensures env.num.parse(r.value[sub]) == Some(Aggregates.Aggregate(s, env.num, Ops, name, sub))
        {
          SubKeysUnderPrefix(s, name, prefix, sub);
          IntendedFoldGivesAggregate(s, env, name, prefix, rows, sub);
        }
      }
    }
  }

  /** Each entry of the intended fold over a scan reads as the value of its
      variable. */
  lemma IntendedFoldGivesAggregate(s: Store, env: Env, name: string, prefix: Option<string>, rows: seq<Key>, sub: string)
    requires Scan(s, env.faults, name, prefix) == Ok(rows)
    requires prefix.None? || prefix == Some(sub)
    requires GeneralReadsBack(env.num)
    requires Fold(env.num, IntendedRule, rows, map[]).Ok?
    requires sub in Fold(env.num, IntendedRule, rows, map[]).value
    ensures env.num.parse(Fold(env.num, IntendedRule, rows, map[]).value[sub])
            == Some(Aggregates.Aggregate(s, env.num, Ops, name, sub))
  {
    IntendedFoldValue(env.num, rows, map[], sub);
    Aggregates.ScanOfSubSumIsAggregate(s, env.faults, env.num, Ops, name, prefix, sub);
  }

  /** As written, Get answers like the intended fold whenever the variable
      has no "" sub-key. */
  lemma GetAgreesWithoutEmptySubKey(s: Store, env: Env, args: seq<string>)
    requires |args| >= 1
    requires "" !in Aggregates.SubKeys(Matching(s, args[0], QueryPrefix(args)))
    ensures Query(s, env, GetRule, args) == Query(s, env, IntendedRule, args)
  {
    var name, prefix := args[0], QueryPrefix(args);
    if Scan(s, env.faults, name, prefix).Ok? {
      GetFoldAgrees(env.num, Scan(s, env.faults, name, prefix).value, map[]);
    }
  }

  /** A "" sub-key sorts before every other sub-key of the name, so a scan
      that finds one yields it first. */
  lemma EmptySubKeyScansFirst(s: Store, f: Faults, name: string, prefix: Option<string>)
    requires Scan(s, f, name, prefix).Ok?
    requires "" in Aggregates.SubKeys(Matching(s, name, prefix))
    ensures Scan(s, f, name, prefix).value != []
    ensures Scan(s, f, name, prefix).value[0].sub == ""
  {
    var rows := Scan(s, f, name, prefix).value;
    var k :| k in Matching(s, name, prefix) && k.Delta? && k.sub == "";
    var j :| 0 <= j < |rows| && rows[j] == k;
    if j != 0 {
      assert KeyLt(rows[0], rows[j]);
      BeforeEmptySub(rows[0], k);
    }
  }

  /** Only a key with the "" sub-key comes before one with the "" sub-key
      of the same name. */
  lemma BeforeEmptySub(r: Key, k: Key)
    requires r.Delta? && k.Delta? && r.name == k.name && k.sub == ""
    requires KeyLt(r, k)
    ensures r.sub == ""
  {
    if r.sub != "" {
      EmptySubBefore(k, r);
      KeyOrder();
      assert false;
    }
  }

  /** Of two delta keys of one name, the one with the "" sub-key comes
      first. */
  lemma EmptySubBefore(k: Key, r: Key)
    requires k.Delta? && r.Delta? && k.name == r.name
    requires k.sub == "" && r.sub != ""
    ensures KeyLt(k, r)
  {
    assert Fields(k)[1..] != [] && Fields(r)[1..] != [];
    assert Orders.StringLt("", r.sub);
    assert Orders.FieldsLt(Fields(k)[1..], Fields(r)[1..]);
  }

  /** As written, Get on a variable with a "" sub-key and well-formed rows
      indexes a nil slice and panics instead of answering. */
  lemma GetPanicsOnEmptySubKey(s: Store, env: Env, args: seq<string>)
    requires |args| >= 1
    requires Scan(s, env.faults, args[0], QueryPrefix(args)).Ok?
    requires "" in Aggregates.SubKeys(Matching(s, args[0], QueryPrefix(args)))
    requires Aggregates.WellFormedUnder(s, env.num, Ops, args[0], QueryPrefix(args))
    ensures Query(s, env, GetRule, args) == Err(NilSliceIndex)
  {
    EmptySubKeyScansFirst(s, env.faults, args[0], QueryPrefix(args));
  }

  // ----- Prune -----

  /** The scanned prefix of Prune: the name, and the sub-key only when
      exactly three arguments are given. */
  function PrunePrefix(args: seq<string>): Option<string> {
    if |args| == 3 then Some(args[1]) else None
  }

  /** The prune type: the last of three arguments, otherwise the second. */
  function PruneType(args: seq<string>): string
    requires |args| >= 2
  {
    if |args| == 3 then args[2] else args[1]
  }

  /** The row a prune writes back for one sub-key. */
  function FinalKey(name: string, sub: string, text: string, txid: string): Key {
    Delta(name, sub, "OP_ADD", text, txid)
  }

  /** First loop of PRUNE_FAST: each row is folded into the response map,
      then deleted; the first error stops the loop. */
  function Drain(s: Store, env: Env, rule: Rule, rows: seq<Key>, m: Totals): (o: Outcome<Totals>)
    requires forall i :: 0 <= i < |rows| ==> rows[i].Delta?
    ensures o.result.Ok? <==> Fold(env.num, rule, rows, m).Ok? && Elems(rows) !! env.faults.undeletable
    ensures o.result.Ok? ==> o.result == Fold(env.num, rule, rows, m) && o.store == s - Elems(rows)
    ensures forall k :: k in o.store ==> k in s && o.store[k] == s[k]
    ensures forall k :: k in s && k !in Elems(rows) ==> k in o.store
    decreases |rows|
  {
    if rows == [] then Outcome(s, Ok(m))
    else
      var k := rows[0];
      assert Elems(rows) == {k} + Elems(rows[1..]);
      match Step(env.num, rule, m, k)
      case Err(e) => Outcome(s, Err(e))
      case Ok(m') =>
        match Del(s, env.faults, k)
        case Err(e) => Outcome(s, Err(e))
        case Ok(s') => Drain(s', env, rule, rows[1..], m')
  }

  /** `k` is the final row of one of the map's sub-keys. */
  predicate IsFinal(k: Key, name: string, m: Totals, txid: string) {
    k.Delta? && k.name == name && k.sub in m && k == FinalKey(name, k.sub, m[k.sub], txid)
  }

  /** Second loop of PRUNE_FAST (pruneFastUpdate per entry): one "OP_ADD"
      row per sub-key carrying its text; the first refused insertion stops
      the loop. */
  function FastUpdates(s: Store, env: Env, name: string, subs: seq<string>, m: Totals): (o: Outcome<()>)
    requires forall i :: 0 <= i < |subs| ==> subs[i] in m
    ensures o.result.Ok? ==> forall i :: 0 <= i < |subs| ==> FinalKey(name, subs[i], m[subs[i]], env.txid) in o.store
    ensures forall k :: k in s ==> k in o.store
    ensures forall k :: k in s && !IsFinal(k, name, m, env.txid) ==> o.store[k] == s[k]
    ensures forall k :: k in o.store ==> k in s || IsFinal(k, name, m, env.txid)
    ensures o.result.Err? ==> exists i :: 0 <= i < |subs| && o.result.error == FinalInsertFailed(name, subs[i])
    decreases |subs|
  {
    if subs == [] then Outcome(s, Ok(()))
    else
      var sub := subs[0];
      var ins := InsertRow(s, env, Ops, [name, sub, m[sub], "OP_ADD"]);
      if ins.result.Err? then Outcome(s, Err(FinalInsertFailed(name, sub)))
      else
        assert IsFinal(FinalKey(name, sub, m[sub], env.txid), name, m, env.txid);
        var o := FastUpdates(ins.store, env, name, subs[1..], m);
        if o.result.Err? then
          var i :| 0 <= i < |subs[1..]| && o.result.error == FinalInsertFailed(name, subs[1..][i]);
          assert subs[1..][i] == subs[i + 1];
          o
        else
          assert forall i :: 1 <= i < |subs| ==> subs[i] == subs[1..][i - 1];
          o
  }

  /** The sub-keys of the response map, in ascending order. The source
      ranges over a Go map, whose order is unspecified; the model fixes
      the order of the scan. */
  function SortedSubs(m: Totals): (subs: seq<string>)
    ensures forall i :: 0 <= i < |subs| ==> subs[i] in m
    ensures forall sub :: sub in m ==> sub in subs
    ensures forall i, j :: 0 <= i < j < |subs| ==> subs[i] != subs[j]
  {
    Orders.StringOrder();
    var subs := Orders.Enumerate(m.Keys, Orders.StringLt);
    Orders.SortedDistinct(subs, Orders.StringLt);
    subs
  }

  /** Once every row under the prefix is gone and the final rows of all
      the map's sub-keys are written, each sub-key holds its final row and
      nothing else lies under the prefix. */
  lemma FinalRowsOnly(s1: Store, s2: Store, name: string, prefix: Option<string>, m: Totals, txid: string)
    requires Matching(s1, name, prefix) == {}
    requires forall sub :: sub in m ==> prefix.None? || prefix == Some(sub)
    requires forall sub :: sub in m ==> FinalKey(name, sub, m[sub], txid) in s2
    requires forall k :: k in s2 ==> k in s1 || IsFinal(k, name, m, txid)
    ensures forall sub :: sub in m ==> Matching(s2, name, Some(sub)) == {FinalKey(name, sub, m[sub], txid)}
    ensures forall k :: k in s2 && Under(k, name, prefix) ==> k.sub in m
  {
    forall sub | sub in m ensures Matching(s2, name, Some(sub)) == {FinalKey(name, sub, m[sub], txid)} {
      forall k | k in Matching(s2, name, Some(sub)) ensures k == FinalKey(name, sub, m[sub], txid) {
        assert k !in s1 by {
          assert Under(k, name, prefix);
        }
      }
    }
  }

  /** PRUNE_FAST over the scanned rows: drain the rows into the response
      map, then write one row per sub-key. With the intended rule every
      final row carries its variable's value. */
  function PruneFast(s: Store, env: Env, rule: Rule, name: string, prefix: Option<string>, rows: seq<Key>): (o: Outcome<Totals>)
    requires Scan(s, env.faults, name, prefix) == Ok(rows)
    ensures rows == [] ==> o == Outcome(s, Err(NoSuchVariable(name)))
    ensures o.result.Ok? ==>
              && o.result.value.Keys == Aggregates.SubKeys(Matching(s, name, prefix))
              && o.result == Fold(env.num, rule, rows, map[])
              && (forall sub :: sub in o.result.value ==>
                    Matching(o.store, name, Some(sub)) == {FinalKey(name, sub, o.result.value[sub], env.txid)})
              && (forall k :: k in o.store && Under(k, name, prefix) ==> k.sub in o.result.value)
    ensures SameOutside(s, o.store, name, prefix, {})
  {
    if rows == [] then Outcome(s, Err(NoSuchVariable(name)))
    else
      var none: Totals := map[];
      var drained := Drain(s, env, rule, rows, none);
      PruneFastDrained(s, env, rule, name, prefix, rows);
      if drained.result.Err? then Outcome(drained.store, Err(drained.result.error))
      else
        var m := drained.result.value;
        var upd := FastUpdates(drained.store, env, name, SortedSubs(m), m);
        PruneFastUpdated(s, drained.store, env, name, prefix, m);
        if upd.result.Err? then Outcome(upd.store, Err(upd.result.error))
        else Outcome(upd.store, Ok(m))
  }

  /** PRUNE_FAST's first loop changes nothing outside the prefix; when it
      completes, no row is left under the prefix and the map has an entry
      for each sub-key under it. */
  lemma PruneFastDrained(s: Store, env: Env, rule: Rule, name: string, prefix: Option<string>, rows: seq<Key>)
    requires Scan(s, env.faults, name, prefix) == Ok(rows)
    ensures var d := Drain(s, env, rule, rows, map[]);
            && SameOutside(s, d.store, name, prefix, {})
            && (d.result.Ok? ==>
                  && d.result.value.Keys == Aggregates.SubKeys(Matching(s, name, prefix))
                  && Matching(d.store, name, prefix) == {}
                  && forall sub :: sub in d.result.value ==> prefix.None? || prefix == Some(sub))
  {
    var none: Totals := map[];
    var d := Drain(s, env, rule, rows, none);
    ScanElems(s, env.faults, name, prefix);
    ShrunkUnderSameOutside(s, d.store, name, prefix);
    if d.result.Ok? {
      FoldKeys(env.num, rule, rows, none);
      assert d.result.value.Keys == Aggregates.SubKeys(Matching(s, name, prefix));
      MatchingAfterDelete(s, Elems(rows), name, prefix);
      forall sub | sub in d.result.value ensures prefix.None? || prefix == Some(sub) {
        SubKeysUnderPrefix(s, name, prefix, sub);
      }
    }
  }

  /** PRUNE_FAST's second loop writes only final rows of the map's
      sub-keys; when it completes, each sub-key holds only its final row. */
  lemma PruneFastUpdated(s: Store, d: Store, env: Env, name: string, prefix: Option<string>, m: Totals)
    requires SameOutside(s, d, name, prefix, {})
    requires forall sub :: sub in m ==> prefix.None? || prefix == Some(sub)
    requires Matching(d, name, prefix) == {}
    ensures var u := FastUpdates(d, env, name, SortedSubs(m), m);
            && SameOutside(s, u.store, name, prefix, {})
            && (u.result.Ok? ==>
                  && (forall sub :: sub in m ==>
                        Matching(u.store, name, Some(sub)) == {FinalKey(name, sub, m[sub], env.txid)})
                  && (forall k :: k in u.store && Under(k, name, prefix) ==> k.sub in m))
  {
    var u := FastUpdates(d, env, name, SortedSubs(m), m);
    forall k | !Under(k, name, prefix)
      ensures (k in d <==> k in u.store) && (k in u.store ==> u.store[k] == d[k])
    {
      assert !IsFinal(k, name, m, env.txid);
    }
    if u.result.Ok? {
      assert forall sub :: sub in m ==> sub in SortedSubs(m);
      FinalRowsOnly(d, u.store, name, prefix, m, env.txid);
    }
  }

  /** The final row of a sub-key is accepted: its text reads as a number,
      its key is well formed, and the store takes the write. */
  predicate FinalAccepted(env: Env, name: string, sub: string, text: string) {
    && env.num.parse(text).Some?
    && CompositeKeys.ValidAttributes(Fields(FinalKey(name, sub, text, env.txid)))
    && FinalKey(name, sub, text, env.txid) !in env.faults.unwritable
  }

  /** PRUNE_FAST's second loop completes exactly when every final row it
      writes is accepted. */
  lemma {:induction false} FastUpdatesSucceeds(s: Store, env: Env, name: string, subs: seq<string>, m: Totals)
    requires forall i :: 0 <= i < |subs| ==> subs[i] in m
    ensures FastUpdates(s, env, name, subs, m).result.Ok? <==>
              forall i :: 0 <= i < |subs| ==> FinalAccepted(env, name, subs[i], m[subs[i]])
    decreases |subs|
  {
    if subs != [] {
      var sub := subs[0];
      var ins := InsertRow(s, env, Ops, [name, sub, m[sub], "OP_ADD"]);
      if ins.result.Ok? {
        FastUpdatesSucceeds(ins.store, env, name, subs[1..], m);
        assert forall i :: 1 <= i < |subs| ==> subs[i] == subs[1..][i - 1];
      }
    }
  }

  /** Once the fold answers `m`, PRUNE_FAST answers `m` exactly when every
      row under the prefix can be deleted and every final row is accepted. */
  lemma PruneFastSucceeds(s: Store, env: Env, rule: Rule, name: string, prefix: Option<string>, rows: seq<Key>, m: Totals)
    requires Scan(s, env.faults, name, prefix) == Ok(rows)
    requires Query(s, env, rule, SafeQueryArgs(name, prefix)) == Ok(m)
    ensures PruneFast(s, env, rule, name, prefix, rows).result == Ok(m) <==>
              && Matching(s, name, prefix) !! env.faults.undeletable
              && forall sub :: sub in m ==> FinalAccepted(env, name, sub, m[sub])
  {
    var none: Totals := map[];
    assert rows != [] && Fold(env.num, rule, rows, none) == Ok(m);
    ScanElems(s, env.faults, name, prefix);
    var drained := Drain(s, env, rule, rows, none);
    if drained.result.Ok? {
      FastUpdatesOverMap(drained.store, env, name, m);
    }
  }

  /** The second loop over the map's sub-keys completes exactly when the
      final row of every sub-key is accepted. */
  lemma FastUpdatesOverMap(s: Store, env: Env, name: string, m: Totals)
    ensures FastUpdates(s, env, name, SortedSubs(m), m).result.Ok? <==>
              forall sub :: sub in m ==> FinalAccepted(env, name, sub, m[sub])
  {
    var subs := SortedSubs(m);
    FastUpdatesSucceeds(s, env, name, subs, m);
    forall sub | sub in m ensures exists i :: 0 <= i < |subs| && subs[i] == sub {
      assert sub in subs;
    }
  }

  /** The value a variable has once a prune left `row` as its only row. */
  lemma ValueOfFinalRow(t: Store, num: Numerals, name: string, sub: string, text: string, txid: string)
    requires Matching(t, name, Some(sub)) == {FinalKey(name, sub, text, txid)}
    requires num.parse(text).Some?
    ensures Aggregates.Aggregate(t, num, Ops, name, sub) == num.parse(text).value
  {
    Aggregates.AggregateOfOneRow(t, num, Ops, name, sub, FinalKey(name, sub, text, txid));
  }

  /** The corrected PRUNE_FAST keeps the value of every variable it
      prunes, when "%v" text reads back. */
  lemma PruneFastIntendedKeepsValues(s: Store, env: Env, name: string, prefix: Option<string>)
    requires Scan(s, env.faults, name, prefix).Ok?
    requires GeneralReadsBack(env.num)
    requires PruneFast(s, env, IntendedRule, name, prefix, Scan(s, env.faults, name, prefix).value).result.Ok?
    ensures var o := PruneFast(s, env, IntendedRule, name, prefix, Scan(s, env.faults, name, prefix).value);
            forall sub :: sub in o.result.value ==>
              Aggregates.Aggregate(o.store, env.num, Ops, name, sub) == Aggregates.Aggregate(s, env.num, Ops, name, sub)
  {
    var rows := Scan(s, env.faults, name, prefix).value;
    var o := PruneFast(s, env, IntendedRule, name, prefix, rows);
    var m := o.result.value;
    forall sub | sub in m
      ensures Aggregates.Aggregate(o.store, env.num, Ops, name, sub) == Aggregates.Aggregate(s, env.num, Ops, name, sub)
    {
      FinalRowKeepsValue(s, o.store, env, name, prefix, rows, sub);
    }
  }

  /** A final row carrying the intended fold's text for a sub-key holds
      that sub-key's value. */
  lemma FinalRowKeepsValue(s: Store, t: Store, env: Env, name: string, prefix: Option<string>, rows: seq<Key>, sub: string)
    requires Scan(s, env.faults, name, prefix) == Ok(rows)
    requires GeneralReadsBack(env.num)
    requires Fold(env.num, IntendedRule, rows, map[]).Ok?
    requires sub in Fold(env.num, IntendedRule, rows, map[]).value
    requires Matching(t, name, Some(sub))
             == {FinalKey(name, sub, Fold(env.num, IntendedRule, rows, map[]).value[sub], env.txid)}
    ensures Aggregates.Aggregate(t, env.num, Ops, name, sub) == Aggregates.Aggregate(s, env.num, Ops, name, sub)
  {
    var none: Totals := map[];
    var text := Fold(env.num, IntendedRule, rows, none).value[sub];
    IntendedFoldValue(env.num, rows, none, sub);
    FoldKeys(env.num, IntendedRule, rows, none);
    ScanElems(s, env.faults, name, prefix);
    SubKeysUnderPrefix(s, name, prefix, sub);
    Aggregates.ScanOfSubSumIsAggregate(s, env.faults, env.num, Ops, name, prefix, sub);
    ValueOfFinalRow(t, env.num, name, sub, text, env.txid);
  }

  /** As written, PRUNE_FAST copies the first row of a sub-key without its
      operator: a variable holding the single update "OP_SUB v" (value -v)
      is rewritten as "OP_ADD v" (value v). */
  lemma PruneFastDropsFirstOperator(s: Store, env: Env, name: string, sub: string, text: string, txid: string, v: real)
    requires Matching(s, name, Some(sub)) == {Delta(name, sub, "OP_SUB", text, txid)}
    requires Scan(s, env.faults, name, Some(sub)).Ok?
    requires sub != "" && env.num.parse(text) == Some(v)
    requires Delta(name, sub, "OP_SUB", text, txid) !in env.faults.undeletable
    requires CompositeKeys.ValidAttributes([name, sub, "OP_ADD", text, env.txid])
    requires FinalKey(name, sub, text, env.txid) !in env.faults.unwritable
    ensures Aggregates.Aggregate(s, env.num, Ops, name, sub) == -v
    ensures var o := PruneFast(s, env, FastRule, name, Some(sub), Scan(s, env.faults, name, Some(sub)).value);
            && o.result == Ok(map[sub := text])
            && Aggregates.Aggregate(o.store, env.num, Ops, name, sub) == v
  {
    var row := Delta(name, sub, "OP_SUB", text, txid);
    ScanOneRow(s, env.faults, name, sub, row);
    var rows := [row];
    Aggregates.AggregateOfOneRow(s, env.num, Ops, name, sub, row);
    PruneFastOneRow(s, env, name, sub, row);
    var o := PruneFast(s, env, FastRule, name, Some(sub), rows);
    ValueOfFinalRow(o.store, env.num, name, sub, text, env.txid);
  }

  /** A scan of a sub-key held in one row yields exactly that row. */
  lemma ScanOneRow(s: Store, f: Faults, name: string, sub: string, row: Key)
    requires Matching(s, name, Some(sub)) == {row}
    requires Scan(s, f, name, Some(sub)).Ok?
    ensures Scan(s, f, name, Some(sub)) == Ok([row])
  {
    var rows := Scan(s, f, name, Some(sub)).value;
    assert |rows| == 1 && rows[0] in Matching(s, name, Some(sub));
    assert rows == [row];
  }

  /** As written, PRUNE_FAST over a sub-key held in one row answers that
      row's text and leaves it as the final row, whatever the row's
      operator. */
  lemma PruneFastOneRow(s: Store, env: Env, name: string, sub: string, row: Key)
    requires row.Delta? && row.name == name && row.sub == sub && sub != ""
    requires Scan(s, env.faults, name, Some(sub)) == Ok([row])
    requires env.num.parse(row.val).Some?
    requires row !in env.faults.undeletable
    requires CompositeKeys.ValidAttributes([name, sub, "OP_ADD", row.val, env.txid])
    requires FinalKey(name, sub, row.val, env.txid) !in env.faults.unwritable
    ensures var o := PruneFast(s, env, FastRule, name, Some(sub), [row]);
            && o.result == Ok(map[sub := row.val])
            && Matching(o.store, name, Some(sub)) == {FinalKey(name, sub, row.val, env.txid)}
  {
    var none: Totals := map[];
    var m := map[sub := row.val];
    assert Fold(env.num, FastRule, [row], none) == Ok(m) by {
      assert Step(env.num, FastRule, none, row) == Ok(m);
    }
    var drained := Drain(s, env, FastRule, [row], none);
    assert drained.result == Ok(m);
    SortedSubsOne(sub, row.val);
    var args := [name, sub, m[sub], "OP_ADD"];
    assert Fields(DeltaKey(args, env.txid)) == [name, sub, "OP_ADD", row.val, env.txid];
    assert DeltaKey(args, env.txid) == FinalKey(name, sub, row.val, env.txid);
    assert InsertRow(drained.store, env, Ops, args).result.Ok?;
  }

  /** The sub-keys of a one-entry map. */
  lemma SortedSubsOne(sub: string, text: string)
    ensures SortedSubs(map[sub := text]) == [sub]
  {
    var subs := SortedSubs(map[sub := text]);
    assert sub in subs;
    if |subs| > 1 {
      assert false;
    }
  }

  // ----- PRUNE_SAFE -----

  /** pruneSafeBackup's payload: the shortest decimal text of the number
      the map's text reads as (0 when it does not read). */
  function BackupText(num: Numerals, text: string): string {
    match num.parse(text)
    case Some(x) => num.shortest(x)
    case None => num.shortest(0.0)
  }

  /** The sub-key a prune names in its error message: the prefix's, or "". */
  function PrefixText(prefix: Option<string>): string {
    match prefix
    case Some(sub) => sub
    case None => ""
  }

  /** `k` is the backup key of one of the given sub-keys. */
  predicate IsBackupAmong(k: Key, name: string, subs: seq<string>) {
    BackupSub(k, name).Some? && BackupSub(k, name).value in subs
  }

  /** One entry of PRUNE_SAFE's loop: back the value up (pruneSafeBackup),
      delete the `doomed` rows, insert the final row and delete the backup
      (pruneSafeUpdate). */
  function SafeOne(s: Store, env: Env, name: string, sub: string, text: string, doomed: seq<Key>): (o: Outcome<()>)
    requires forall i :: 0 <= i < |doomed| ==> doomed[i].Delta?
    ensures o.result == Err(BackupWriteFailed(name)) ==> o.store == s
    ensures (o.result.Err? && o.result != Err(BackupWriteFailed(name))) ==>
              && BackupKey(name, sub) in o.store
              && o.store[BackupKey(name, sub)] == Text(BackupText(env.num, text))
    ensures o.result.Ok? ==>
              && BackupKey(name, sub) !in o.store
              && FinalKey(name, sub, text, env.txid) in o.store
              && forall k :: k in Elems(doomed) && k != FinalKey(name, sub, text, env.txid) ==> k !in o.store
    ensures o.result == Err(FinalInsertFailed(name, sub)) ==> Elems(doomed) !! o.store.Keys
    ensures forall k :: (k in o.store && k != BackupKey(name, sub) && k != FinalKey(name, sub, text, env.txid))
                          ==> k in s && o.store[k] == s[k]
    ensures forall k :: k in s && k !in Elems(doomed) && k != BackupKey(name, sub) ==> k in o.store
    ensures o.result.Err? ==> o.result.error in {BackupWriteFailed(name), FinalInsertFailed(name, sub), BackupNotRemoved(name)}
                              || o.result.error.DeleteFailed?
  {
    var backup := BackupKey(name, sub);
    match Put(s, env.faults, backup, Text(BackupText(env.num, text)))
    case Err(_) => Outcome(s, Err(BackupWriteFailed(name)))
    case Ok(s1) =>
      var d := DeleteRows(s1, env.faults, doomed);
      if d.result.Err? then Outcome(d.store, Err(d.result.error))
      else
        assert doomed[..|doomed|] == doomed;
        var ins := InsertRow(d.store, env, Ops, [name, sub, text, "OP_ADD"]);
        if ins.result.Err? then Outcome(d.store, Err(FinalInsertFailed(name, sub)))
        else
          match Del(ins.store, env.faults, backup)
          case Err(_) => Outcome(ins.store, Err(BackupNotRemoved(name)))
          case Ok(s4) => Outcome(s4, Ok(()))
  }

  /** PRUNE_SAFE's loop as written: every entry backs up, drains and
      rewrites its sub-key, but all entries share one scan, so the first
      entry deletes the rows of every sub-key and the others delete none. */
  function SafeEach(s: Store, env: Env, name: string, subs: seq<string>, m: Totals, pending: seq<Key>): (o: Outcome<()>)
    requires forall i :: 0 <= i < |subs| ==> subs[i] in m
    requires forall i :: 0 <= i < |pending| ==> pending[i].Delta?
    requires pending != [] ==> subs != []
    decreases |subs|
  {
    if subs == [] then Outcome(s, Ok(()))
    else
      var sub := subs[0];
      var o1 := SafeOne(s, env, name, sub, m[sub], pending);
      match o1.result
      case Err(e) => Outcome(o1.store, Err(e))
      case Ok(_) => SafeEach(o1.store, env, name, subs[1..], m, [])
  }

  /** On success the loop has removed every pending row that is not a final
      row of the map; it writes only final rows and backups of the sub-keys
      it visits, and removes only pending rows and those backups. */
  lemma {:induction false} SafeEachFrame(s: Store, env: Env, name: string, subs: seq<string>, m: Totals, pending: seq<Key>)
    requires forall i :: 0 <= i < |subs| ==> subs[i] in m
    requires forall i :: 0 <= i < |pending| ==> pending[i].Delta?
    requires pending != [] ==> subs != []
    ensures var o := SafeEach(s, env, name, subs, m, pending);
            o.result.Ok? ==> forall k :: k in Elems(pending) && !IsFinal(k, name, m, env.txid) ==> k !in o.store
    ensures var o := SafeEach(s, env, name, subs, m, pending);
            forall k :: (k in o.store && !IsFinal(k, name, m, env.txid) && !IsBackupAmong(k, name, subs))
                          ==> k in s && o.store[k] == s[k]
    ensures var o := SafeEach(s, env, name, subs, m, pending);
            forall k :: (k in s && k !in Elems(pending) && !IsBackupAmong(k, name, subs)) ==> k in o.store
    decreases |subs|
  {
    if subs != [] {
      var sub := subs[0];
      BackupSubOfBackupKey(name, sub);
      assert IsFinal(FinalKey(name, sub, m[sub], env.txid), name, m, env.txid);
      assert IsBackupAmong(BackupKey(name, sub), name, subs);
      assert forall x :: x in subs[1..] ==> x in subs;
      var o1 := SafeOne(s, env, name, sub, m[sub], pending);
      if o1.result.Ok? {
        SafeEachFrame(o1.store, env, name, subs[1..], m, []);
      }
    }
  }

  /** When the loop completes, every sub-key holds its final row and no
      backup. */
  lemma {:induction false} SafeEachCompletes(s: Store, env: Env, name: string, subs: seq<string>, m: Totals, pending: seq<Key>)
    requires forall i :: 0 <= i < |subs| ==> subs[i] in m
    requires forall i, j :: 0 <= i < j < |subs| ==> subs[i] != subs[j]
    requires forall i :: 0 <= i < |pending| ==> pending[i].Delta?
    requires pending != [] ==> subs != []
    requires SafeEach(s, env, name, subs, m, pending).result.Ok?
    ensures forall i :: 0 <= i < |subs| ==>
              && FinalKey(name, subs[i], m[subs[i]], env.txid) in SafeEach(s, env, name, subs, m, pending).store
              && BackupKey(name, subs[i]) !in SafeEach(s, env, name, subs, m, pending).store
    decreases |subs|
  {
    if subs != [] {
      var sub := subs[0];
      var o1 := SafeOne(s, env, name, sub, m[sub], pending);
      var o := SafeEach(o1.store, env, name, subs[1..], m, []);
      assert o == SafeEach(s, env, name, subs, m, pending);
      SafeEachCompletes(o1.store, env, name, subs[1..], m, []);
      SafeEachKeepsFirst(o1.store, env, name, subs, m);
      forall i | 0 <= i < |subs|
        ensures FinalKey(name, subs[i], m[subs[i]], env.txid) in o.store
        ensures BackupKey(name, subs[i]) !in o.store
      {
        if i > 0 {
          assert subs[i] == subs[1..][i - 1];
        }
      }
    }
  }

  /** The rest of the loop keeps the final row the first entry wrote and
      writes no backup for the first sub-key. */
  lemma SafeEachKeepsFirst(t: Store, env: Env, name: string, subs: seq<string>, m: Totals)
    requires subs != []
    requires forall i :: 0 <= i < |subs| ==> subs[i] in m
    requires forall i, j :: 0 <= i < j < |subs| ==> subs[i] != subs[j]
    requires FinalKey(name, subs[0], m[subs[0]], env.txid) in t
    requires BackupKey(name, subs[0]) !in t
    ensures var o := SafeEach(t, env, name, subs[1..], m, []);
            && FinalKey(name, subs[0], m[subs[0]], env.txid) in o.store
            && BackupKey(name, subs[0]) !in o.store
  {
    var sub := subs[0];
    BackupSubOfBackupKey(name, sub);
    var none: seq<Key> := [];
    assert Elems(none) == {};
    assert !IsBackupAmong(BackupKey(name, sub), name, subs[1..]);
    SafeEachFrame(t, env, name, subs[1..], m, none);
  }

  /** The arguments PRUNE_SAFE hands to Get: the name, and the sub-key
      when one was given. */
  function SafeQueryArgs(name: string, prefix: Option<string>): (args: seq<string>)
    ensures |args| >= 1 && args[0] == name && QueryPrefix(args) == prefix
  {
    if prefix.Some? then [name, prefix.value] else [name]
  }

  /** A sub-key of the rows under a prefix is the prefix's sub-key, if it
      has one. */
  lemma SubKeysUnderPrefix(s: Store, name: string, prefix: Option<string>, sub: string)
    requires sub in Aggregates.SubKeys(Matching(s, name, prefix))
    ensures prefix.None? || prefix == Some(sub)
  {
  }

  /** Every sub-key Get answers for lies under the prefix, and so does
      every scanned row. */
  lemma SafePrefix(s: Store, env: Env, rule: Rule, name: string, prefix: Option<string>, rows: seq<Key>)
    requires Scan(s, env.faults, name, prefix) == Ok(rows)
    requires Query(s, env, rule, SafeQueryArgs(name, prefix)).Ok?
    ensures forall sub :: sub in Query(s, env, rule, SafeQueryArgs(name, prefix)).value ==>
              prefix.None? || prefix == Some(sub)
    ensures Elems(rows) == Matching(s, name, prefix)
    ensures forall k :: k in Elems(rows) ==> Under(k, name, prefix)
  {
    ScanElems(s, env.faults, name, prefix);
    forall sub | sub in Query(s, env, rule, SafeQueryArgs(name, prefix)).value
      ensures prefix.None? || prefix == Some(sub)
    {
      SubKeysUnderPrefix(s, name, prefix, sub);
    }
  }

  /** What PRUNE_SAFE's loop leaves alone: every key outside the prefix
      that is no backup key of the name. */
  lemma SafeOutside(s: Store, t: Store, name: string, prefix: Option<string>, subs: seq<string>,
                    m: Totals, txid: string, rows: seq<Key>)
    requires forall k :: k in Elems(rows) ==> Under(k, name, prefix)
    requires forall sub :: sub in m ==> prefix.None? || prefix == Some(sub)
    requires forall k :: (k in t && !IsFinal(k, name, m, txid) && !IsBackupAmong(k, name, subs))
                           ==> k in s && t[k] == s[k]
    requires forall k :: (k in s && k !in Elems(rows) && !IsBackupAmong(k, name, subs)) ==> k in t
    ensures forall k :: !Under(k, name, prefix) && BackupSub(k, name).None? ==>
              (k in s <==> k in t) && (k in t ==> t[k] == s[k])
  {
    forall k | !Under(k, name, prefix) && BackupSub(k, name).None?
      ensures (k in s <==> k in t) && (k in t ==> t[k] == s[k])
    {
      assert !IsFinal(k, name, m, txid);
    }
  }

  /** Once PRUNE_SAFE's loop completes, each sub-key holds its final row
      and no backup, and nothing else lies under the prefix. */
  lemma SafeRowsOnly(s: Store, t: Store, name: string, prefix: Option<string>, subs: seq<string>,
                     m: Totals, txid: string, rows: seq<Key>)
    requires Elems(rows) == Matching(s, name, prefix)
    requires forall sub :: sub in m ==> prefix.None? || prefix == Some(sub)
    requires forall sub :: sub in m ==> sub in subs
    requires forall i :: 0 <= i < |subs| ==> subs[i] in m
    requires forall i :: 0 <= i < |subs| ==>
               && FinalKey(name, subs[i], m[subs[i]], txid) in t
               && BackupKey(name, subs[i]) !in t
    requires forall k :: k in Elems(rows) && !IsFinal(k, name, m, txid) ==> k !in t
    requires forall k :: (k in t && !IsFinal(k, name, m, txid) && !IsBackupAmong(k, name, subs))
                           ==> k in s && t[k] == s[k]
    ensures forall sub :: sub in m ==>
              && Matching(t, name, Some(sub)) == {FinalKey(name, sub, m[sub], txid)}
              && BackupKey(name, sub) !in t
    ensures forall k :: k in t && Under(k, name, prefix) ==> k.sub in m
  {
    assert forall k :: k in t && Under(k, name, prefix) ==> IsFinal(k, name, m, txid);
    forall sub | sub in m
      ensures Matching(t, name, Some(sub)) == {FinalKey(name, sub, m[sub], txid)}
      ensures BackupKey(name, sub) !in t
    {
      var i :| 0 <= i < |subs| && subs[i] == sub;
      forall k | k in Matching(t, name, Some(sub)) ensures k == FinalKey(name, sub, m[sub], txid) {
        assert Under(k, name, prefix);
      }
    }
  }

  /** The loop of PRUNE_SAFE over the response map `m` of Get, its
      sub-keys taken in ascending order. */
  function SafeLoop(s: Store, env: Env, name: string, prefix: Option<string>, rows: seq<Key>, m: Totals): (o: Outcome<Totals>)
    requires Elems(rows) == Matching(s, name, prefix)
    requires forall i :: 0 <= i < |rows| ==> rows[i].Delta?
    requires forall sub :: sub in m ==> prefix.None? || prefix == Some(sub)
    requires rows != [] ==> m != map[]
    ensures o.result.Ok? ==>
              && o.result.value == m
              && (forall sub :: sub in m ==>
                    && Matching(o.store, name, Some(sub)) == {FinalKey(name, sub, m[sub], env.txid)}
                    && BackupKey(name, sub) !in o.store)
              && (forall k :: k in o.store && Under(k, name, prefix) ==> k.sub in m)
    ensures forall k :: !Under(k, name, prefix) && BackupSub(k, name).None? ==>
              (k in s <==> k in o.store) && (k in o.store ==> o.store[k] == s[k])
  {
    SortedSubsNonEmpty(m, rows);
    var o := SafeEach(s, env, name, SortedSubs(m), m, rows);
    SafeEachOverMap(s, env, name, prefix, rows, m);
    if o.result.Err? then Outcome(o.store, Err(o.result.error))
    else Outcome(o.store, Ok(m))
  }

  /** A non-empty map has sub-keys to visit. */
  lemma SortedSubsNonEmpty(m: Totals, rows: seq<Key>)
    requires rows != [] ==> m != map[]
    ensures rows != [] ==> SortedSubs(m) != []
  {
    if rows != [] {
      var sub :| sub in m;
      assert sub in SortedSubs(m);
    }
  }

  /** PRUNE_SAFE's loop over the sub-keys of the map, in ascending order,
      leaves alone what lies outside the prefix; when it completes, every
      sub-key holds only its final row and no backup. */
  lemma SafeEachOverMap(s: Store, env: Env, name: string, prefix: Option<string>, rows: seq<Key>, m: Totals)
    requires Elems(rows) == Matching(s, name, prefix)
    requires forall i :: 0 <= i < |rows| ==> rows[i].Delta?
    requires forall sub :: sub in m ==> prefix.None? || prefix == Some(sub)
    requires rows != [] ==> SortedSubs(m) != []
    ensures var o := SafeEach(s, env, name, SortedSubs(m), m, rows);
            && (o.result.Ok? ==>
                  && (forall sub :: sub in m ==>
                        && Matching(o.store, name, Some(sub)) == {FinalKey(name, sub, m[sub], env.txid)}
                        && BackupKey(name, sub) !in o.store)
                  && (forall k :: k in o.store && Under(k, name, prefix) ==> k.sub in m))
            && (forall k :: !Under(k, name, prefix) && BackupSub(k, name).None? ==>
                  (k in s <==> k in o.store) && (k in o.store ==> o.store[k] == s[k]))
  {
    var subs := SortedSubs(m);
    forall k | k in Elems(rows) ensures Under(k, name, prefix) { }
    var o := SafeEach(s, env, name, subs, m, rows);
    SafeEachFrame(s, env, name, subs, m, rows);
    SafeOutside(s, o.store, name, prefix, subs, m, env.txid, rows);
    if o.result.Ok? {
      SafeEachCompletes(s, env, name, subs, m, rows);
      SafeRowsOnly(s, o.store, name, prefix, subs, m, env.txid, rows);
    }
  }

  /** PRUNE_SAFE over the scanned rows: Get reads the variable first (a
      failure aborts with the store untouched, except for the panic of Get
      itself); then each sub-key, in ascending order, is backed up, the
      scanned rows are deleted, the final row is written and the backup is
      deleted. The answer is Get's own. */
  function PruneSafe(s: Store, env: Env, name: string, prefix: Option<string>, rows: seq<Key>): (o: Outcome<Totals>)
    requires Scan(s, env.faults, name, prefix) == Ok(rows)
    ensures rows == [] ==>
              o == Outcome(s, Err(ReadBeforePruneFailed(name, PrefixText(prefix))))
    ensures Query(s, env, GetRule, SafeQueryArgs(name, prefix)).Err? ==> o.store == s && o.result.Err?
    ensures o.result.Ok? ==>
              && o.result == Query(s, env, GetRule, SafeQueryArgs(name, prefix))
              && o.result.value.Keys == Aggregates.SubKeys(Matching(s, name, prefix))
              && (forall sub :: sub in o.result.value ==>
                    && Matching(o.store, name, Some(sub)) == {FinalKey(name, sub, o.result.value[sub], env.txid)}
                    && BackupKey(name, sub) !in o.store)
              && (forall k :: k in o.store && Under(k, name, prefix) ==> k.sub in o.result.value)
    ensures forall k :: !Under(k, name, prefix) && BackupSub(k, name).None? ==>
              (k in s <==> k in o.store) && (k in o.store ==> o.store[k] == s[k])
  {
    match Query(s, env, GetRule, SafeQueryArgs(name, prefix))
    case Err(e) =>
      if e == NilSliceIndex then Outcome(s, Err(NilSliceIndex))
      else Outcome(s, Err(ReadBeforePruneFailed(name, PrefixText(prefix))))
    case Ok(m) =>
      SafePrefix(s, env, GetRule, name, prefix, rows);
      SafeLoop(s, env, name, prefix, rows, m)
  }

  /** The writes of one entry of PRUNE_SAFE's loop other than the
      deletions are accepted: the backup row, the final row and the
      removal of the backup row. */
  predicate SafeWritable(env: Env, name: string, sub: string, text: string) {
    && BackupKey(name, sub) !in env.faults.unwritable
    && FinalAccepted(env, name, sub, text)
    && BackupKey(name, sub) !in env.faults.undeletable
  }

  /** One entry of the loop succeeds exactly when its rows can be deleted
      and its other writes are accepted. */
  lemma SafeOneSucceeds(s: Store, env: Env, name: string, sub: string, text: string, doomed: seq<Key>)
    requires forall i :: 0 <= i < |doomed| ==> doomed[i].Delta?
    ensures SafeOne(s, env, name, sub, text, doomed).result.Ok? <==>
              Elems(doomed) !! env.faults.undeletable && SafeWritable(env, name, sub, text)
  {
    var backup := BackupKey(name, sub);
    if backup !in env.faults.unwritable {
      DeleteRowsOk(s[backup := Text(BackupText(env.num, text))], env.faults, doomed);
    }
  }

  /** PRUNE_SAFE's loop as written completes exactly when the rows the
      first entry deletes can be deleted and every entry's other writes
      are accepted. */
  lemma {:induction false} SafeEachSucceeds(s: Store, env: Env, name: string, subs: seq<string>, m: Totals, pending: seq<Key>)
    requires forall i :: 0 <= i < |subs| ==> subs[i] in m
    requires forall i :: 0 <= i < |pending| ==> pending[i].Delta?
    requires pending != [] ==> subs != []
    ensures SafeEach(s, env, name, subs, m, pending).result.Ok? <==>
              && Elems(pending) !! env.faults.undeletable
              && forall i :: 0 <= i < |subs| ==> SafeWritable(env, name, subs[i], m[subs[i]])
    decreases |subs|
  {
    if subs == [] {
      assert Elems(pending) == {};
    } else {
      var t := SafeEachStep(s, env, name, subs, m, pending);
      var none: seq<Key> := [];
      assert Elems(none) == {};
      SafeEachSucceeds(t, env, name, subs[1..], m, none);
      assert forall i :: 1 <= i < |subs| ==> subs[i] == subs[1..][i - 1];
    }
  }

  /** The loop as written completes exactly when its first entry succeeds
      and the rest of the loop, from the store that entry leaves, completes. */
  lemma SafeEachStep(s: Store, env: Env, name: string, subs: seq<string>, m: Totals, pending: seq<Key>)
    returns (t: Store)
    requires subs != []
    requires forall i :: 0 <= i < |subs| ==> subs[i] in m
    requires forall i :: 0 <= i < |pending| ==> pending[i].Delta?
    ensures t == SafeOne(s, env, name, subs[0], m[subs[0]], pending).store
    ensures SafeEach(s, env, name, subs, m, pending).result.Ok? <==>
              && Elems(pending) !! env.faults.undeletable
              && SafeWritable(env, name, subs[0], m[subs[0]])
              && SafeEach(t, env, name, subs[1..], m, []).result.Ok?
  {
    SafeOneSucceeds(s, env, name, subs[0], m[subs[0]], pending);
    t := SafeOne(s, env, name, subs[0], m[subs[0]], pending).store;
  }

  /** Once Get answers `m`, PRUNE_SAFE answers `m` exactly when every row
      under the prefix can be deleted and, for every sub-key of `m`, the
      backup row, the final row and the removal of the backup are
      accepted. */
  lemma PruneSafeSucceeds(s: Store, env: Env, name: string, prefix: Option<string>, rows: seq<Key>, m: Totals)
    requires Scan(s, env.faults, name, prefix) == Ok(rows)
    requires Query(s, env, GetRule, SafeQueryArgs(name, prefix)) == Ok(m)
    ensures PruneSafe(s, env, name, prefix, rows).result == Ok(m) <==>
              && Matching(s, name, prefix) !! env.faults.undeletable
              && forall sub :: sub in m ==> SafeWritable(env, name, sub, m[sub])
  {
    PruneSafeIsLoop(s, env, name, prefix, rows, m);
    SortedSubsNonEmpty(m, rows);
    var subs := SortedSubs(m);
    SafeEachSucceeds(s, env, name, subs, m, rows);
    forall sub | sub in m ensures exists i :: 0 <= i < |subs| && subs[i] == sub {
      assert sub in subs;
    }
  }

  /** Every text that reads as a number is a valid composite-key
      attribute. */
  ghost predicate NumeralsAreAttributes(num: Numerals) {
    forall text :: num.parse(text).Some? ==> CompositeKeys.ValidAttribute(text)
  }

  /** The store accepts every write and deletion a prune of the prefix
      makes: the rows under the prefix and the name's backup rows. */
  ghost predicate PruneAccepted(f: Faults, name: string, prefix: Option<string>) {
    && (forall k :: Under(k, name, prefix) ==> k !in f.unwritable && k !in f.undeletable)
    && (forall sub :: BackupKey(name, sub) !in f.unwritable && BackupKey(name, sub) !in f.undeletable)
  }

  /** Get as written answers a variable whose rows are all well formed and
      have no "" sub-key, with one readable text per sub-key. */
  lemma GetAnswersWellFormed(s: Store, env: Env, name: string, prefix: Option<string>)
    requires !env.faults.scanBroken && GeneralReadsBack(env.num)
    requires CompositeKeys.ValidAttributes(PrefixAttributes(name, prefix))
    requires Matching(s, name, prefix) != {}
    requires "" !in Aggregates.SubKeys(Matching(s, name, prefix))
    requires Aggregates.WellFormedUnder(s, env.num, Ops, name, prefix)
    ensures var r := Query(s, env, GetRule, SafeQueryArgs(name, prefix));
            && r.Ok? && r.value.Keys == Aggregates.SubKeys(Matching(s, name, prefix)) && Readable(env.num, r.value)
  {
    var args := SafeQueryArgs(name, prefix);
    GetAgreesWithoutEmptySubKey(s, env, args);
    QueryIntendedGivesAggregates(s, env, args);
  }

  /** The store accepts every write of PRUNE_SAFE's loop over a readable
      map of sub-keys of well-formed rows under the prefix. */
  lemma SafeWritesAccepted(s: Store, env: Env, name: string, prefix: Option<string>, m: Totals)
    requires m.Keys == Aggregates.SubKeys(Matching(s, name, prefix)) && Readable(env.num, m)
    requires NumeralsAreAttributes(env.num)
    requires forall k :: k in s && Under(k, name, prefix) ==> CompositeKeys.ValidAttributes(Fields(k))
    requires CompositeKeys.ValidAttribute(env.txid)
    requires PruneAccepted(env.faults, name, prefix)
    ensures forall sub :: sub in m ==> SafeWritable(env, name, sub, m[sub])
  {
    assert CompositeKeys.ValidAttribute("OP_ADD");
    forall sub | sub in m ensures SafeWritable(env, name, sub, m[sub]) {
      var k :| k in Matching(s, name, prefix) && k.Delta? && k.sub == sub;
      assert CompositeKeys.ValidAttributes(Fields(k));
      assert Fields(k)[0] == name && Fields(k)[1] == sub;
      var fk := FinalKey(name, sub, m[sub], env.txid);
      assert Fields(fk) == [name, sub, "OP_ADD", m[sub], env.txid];
      assert Under(fk, name, prefix);
    }
  }

  /** PRUNE_SAFE succeeds on a variable whose rows are all well formed and
      have no "" sub-key, when the store accepts each of its writes, and
      answers every sub-key under the prefix. */
  lemma PruneSafeCompletes(s: Store, env: Env, name: string, prefix: Option<string>, rows: seq<Key>)
    requires Scan(s, env.faults, name, prefix) == Ok(rows)
    requires GeneralReadsBack(env.num) && NumeralsAreAttributes(env.num)
    requires Matching(s, name, prefix) != {}
    requires "" !in Aggregates.SubKeys(Matching(s, name, prefix))
    requires Aggregates.WellFormedUnder(s, env.num, Ops, name, prefix)
    requires forall k :: k in s && Under(k, name, prefix) ==> CompositeKeys.ValidAttributes(Fields(k))
    requires CompositeKeys.ValidAttribute(env.txid)
    requires PruneAccepted(env.faults, name, prefix)
    ensures var o := PruneSafe(s, env, name, prefix, rows);
            o.result.Ok? && o.result.value.Keys == Aggregates.SubKeys(Matching(s, name, prefix))
  {
    GetAnswersWellFormed(s, env, name, prefix);
    var m := Query(s, env, GetRule, SafeQueryArgs(name, prefix)).value;
    SafeWritesAccepted(s, env, name, prefix, m);
    PruneSafeSucceeds(s, env, name, prefix, rows, m);
  }

  /** Whenever Get as written answers, it answers like the intended fold. */
  lemma QueryGetOkAgrees(s: Store, env: Env, args: seq<string>)
    requires Query(s, env, GetRule, args).Ok?
    ensures Query(s, env, GetRule, args) == Query(s, env, IntendedRule, args)
  {
    var rows := Scan(s, env.faults, args[0], QueryPrefix(args)).value;
    GetFoldOkAgrees(env.num, rows, map[]);
  }

  /** A successful PRUNE_SAFE keeps the value of every variable it
      prunes, when "%v" text reads back. */
  lemma PruneSafeKeepsValues(s: Store, env: Env, name: string, prefix: Option<string>)
    requires Scan(s, env.faults, name, prefix).Ok?
    requires GeneralReadsBack(env.num)
    requires PruneSafe(s, env, name, prefix, Scan(s, env.faults, name, prefix).value).result.Ok?
    ensures var o := PruneSafe(s, env, name, prefix, Scan(s, env.faults, name, prefix).value);
            forall sub :: sub in o.result.value ==>
              Aggregates.Aggregate(o.store, env.num, Ops, name, sub) == Aggregates.Aggregate(s, env.num, Ops, name, sub)
  {
    var o := PruneSafe(s, env, name, prefix, Scan(s, env.faults, name, prefix).value);
    var args := SafeQueryArgs(name, prefix);
    QueryGetOkAgrees(s, env, args);
    QueryIntendedGivesAggregates(s, env, args);
    forall sub | sub in o.result.value
      ensures Aggregates.Aggregate(o.store, env.num, Ops, name, sub) == Aggregates.Aggregate(s, env.num, Ops, name, sub)
    {
      ValueOfFinalRow(o.store, env.num, name, sub, o.result.value[sub], env.txid);
    }
  }

  /** The ascending order starts with the least sub-key. */
  lemma SortedSubsFirst(m: Totals, a: string)
    requires Orders.IsLeast(a, m.Keys, Orders.StringLt)
    ensures SortedSubs(m) != [] && SortedSubs(m)[0] == a
  {
    Orders.StringOrder();
    var subs := SortedSubs(m);
    assert a in subs;
    var c := subs[0];
    assert Orders.IsLeast(c, m.Keys, Orders.StringLt) by {
      forall y | y in m.Keys && y != c ensures Orders.StringLt(c, y) {
        var j :| 0 <= j < |subs| && subs[j] == y;
      }
    }
    Orders.LeastUnique(m.Keys, Orders.StringLt);
  }


  /** One entry of PRUNE_SAFE's loop whose backup is written and whose rows
      are all deleted, but whose final row is refused, fails with
      FinalInsertFailed. */
  lemma SafeOneFinalRefused(s: Store, env: Env, name: string, sub: string, text: string, doomed: seq<Key>)
    requires forall i :: 0 <= i < |doomed| ==> doomed[i].Delta? && doomed[i] !in env.faults.undeletable
    requires BackupKey(name, sub) !in env.faults.unwritable
    requires FinalKey(name, sub, text, env.txid) in env.faults.unwritable
    ensures SafeOne(s, env, name, sub, text, doomed).result == Err(FinalInsertFailed(name, sub))
  {
    assert FirstUndeletable(doomed, env.faults) == |doomed|;
    assert DeltaKey([name, sub, text, "OP_ADD"], env.txid) == FinalKey(name, sub, text, env.txid);
  }

  /** When the least sub-key's final row is refused, PRUNE_SAFE's loop
      stops right after its first entry. */
  lemma SafeLoopFirstRefused(s: Store, env: Env, name: string, prefix: Option<string>, rows: seq<Key>, m: Totals, a: string)
    requires Elems(rows) == Matching(s, name, prefix)
    requires forall i :: 0 <= i < |rows| ==> rows[i].Delta? && rows[i] !in env.faults.undeletable
    requires forall sub :: sub in m ==> prefix.None? || prefix == Some(sub)
    requires rows != [] ==> m != map[]
    requires Orders.IsLeast(a, m.Keys, Orders.StringLt)
    requires BackupKey(name, a) !in env.faults.unwritable
    requires FinalKey(name, a, m[a], env.txid) in env.faults.unwritable
    ensures SafeLoop(s, env, name, prefix, rows, m)
            == Outcome(SafeOne(s, env, name, a, m[a], rows).store, Err(FinalInsertFailed(name, a)))
  {
    SortedSubsFirst(m, a);
    SafeOneFinalRefused(s, env, name, a, m[a], rows);
  }

  /** A store that lost the given rows and gained at most sub-key `a`'s
      backup and final row holds nothing of another sub-key `b` whose rows
      were among them. */
  lemma NothingLeftOf(s: Store, t: Store, name: string, a: string, b: string, text: string, txid: string, rows: seq<Key>)
    requires Matching(s, name, Some(b)) <= Elems(rows)
    requires Elems(rows) !! t.Keys
    requires forall k :: (k in t && k != BackupKey(name, a) && k != FinalKey(name, a, text, txid)) ==> k in s && t[k] == s[k]
    requires a != b && BackupKey(name, b) !in s
    ensures Matching(t, name, Some(b)) == {} && BackupKey(name, b) !in t
  {
    assert Matching(t, name, Some(b)) <= Matching(s, name, Some(b));
    BackupSubOfBackupKey(name, b);
  }

  /** As written, the first entry of PRUNE_SAFE's loop drains the rows of
      every sub-key. When its final row is then refused, every other
      sub-key is left with no row and no backup: its value is lost. */
  lemma PruneSafeLosesOtherSubKeys(s: Store, env: Env, name: string, rows: seq<Key>, m: Totals, a: string, b: string)
    requires Scan(s, env.faults, name, None) == Ok(rows)
    requires Query(s, env, GetRule, [name]) == Ok(m)
    requires Orders.IsLeast(a, m.Keys, Orders.StringLt)
    requires b in m && b != a
    requires BackupKey(name, a) !in env.faults.unwritable
    requires forall k :: k in Matching(s, name, None) ==> k !in env.faults.undeletable
    requires FinalKey(name, a, m[a], env.txid) in env.faults.unwritable
    requires BackupKey(name, b) !in s
    ensures var o := PruneSafe(s, env, name, None, rows);
            && o.result == Err(FinalInsertFailed(name, a))
            && Matching(s, name, Some(b)) != {}
            && Matching(o.store, name, Some(b)) == {}
            && BackupKey(name, b) !in o.store
            && Aggregates.Aggregate(o.store, env.num, Ops, name, b) == 0.0
  {
    assert SafeQueryArgs(name, None) == [name];
    PruneSafeIsLoop(s, env, name, None, rows, m);
    SafeLoopLosesOtherSubKeys(s, env, name, rows, m, a, b);
  }

  /** Once Get answers `m`, PRUNE_SAFE is its loop over `m`, whose
      preconditions then hold. */
  lemma PruneSafeIsLoop(s: Store, env: Env, name: string, prefix: Option<string>, rows: seq<Key>, m: Totals)
    requires Scan(s, env.faults, name, prefix) == Ok(rows)
    requires Query(s, env, GetRule, SafeQueryArgs(name, prefix)) == Ok(m)
    ensures Elems(rows) == Matching(s, name, prefix)
    ensures forall i :: 0 <= i < |rows| ==> rows[i].Delta?
    ensures forall sub :: sub in m ==> prefix.None? || prefix == Some(sub)
    ensures m.Keys == Aggregates.SubKeys(Matching(s, name, prefix))
    ensures rows != [] ==> m != map[]
    ensures PruneSafe(s, env, name, prefix, rows) == SafeLoop(s, env, name, prefix, rows, m)
  {
    SafePrefix(s, env, GetRule, name, prefix, rows);
  }

  /** The loop over a map whose least sub-key's final row is refused:
      every other sub-key of the map loses its rows and has no backup. */
  lemma SafeLoopLosesOtherSubKeys(s: Store, env: Env, name: string, rows: seq<Key>, m: Totals, a: string, b: string)
    requires Elems(rows) == Matching(s, name, None)
    requires forall i :: 0 <= i < |rows| ==> rows[i].Delta?
    requires m.Keys == Aggregates.SubKeys(Matching(s, name, None))
    requires Orders.IsLeast(a, m.Keys, Orders.StringLt)
    requires b in m && b != a
    requires BackupKey(name, a) !in env.faults.unwritable
    requires forall k :: k in Matching(s, name, None) ==> k !in env.faults.undeletable
    requires FinalKey(name, a, m[a], env.txid) in env.faults.unwritable
    requires BackupKey(name, b) !in s
    ensures var o := SafeLoop(s, env, name, None, rows, m);
            && o.result == Err(FinalInsertFailed(name, a))
            && Matching(s, name, Some(b)) != {}
            && Matching(o.store, name, Some(b)) == {}
            && BackupKey(name, b) !in o.store
            && Aggregates.Aggregate(o.store, env.num, Ops, name, b) == 0.0
  {
    SafeLoopFirstRefused(s, env, name, None, rows, m, a);
    var o1 := SafeOne(s, env, name, a, m[a], rows);
    SafeOneFinalRefused(s, env, name, a, m[a], rows);
    NothingLeftOf(s, o1.store, name, a, b, m[a], env.txid, rows);
  }

  // ----- PRUNE_SAFE as intended -----

  /** After a prune step, the value of (name, sub) can still be found:
      its rows are as they were, or only its final row is left, or its
      backup holds the value's text. */
  ghost predicate Recoverable(s: Store, t: Store, num: Numerals, name: string, sub: string, text: string, txid: string) {
    || Matching(t, name, Some(sub)) == Matching(s, name, Some(sub))
    || Matching(t, name, Some(sub)) == {FinalKey(name, sub, text, txid)}
    || (BackupKey(name, sub) in t && t[BackupKey(name, sub)] == Text(BackupText(num, text)))
  }

  /** The entry of one sub-key, draining only that sub-key's rows, leaves
      every other sub-key's rows and backup as they were. */
  lemma SafeOneOthers(s: Store, env: Env, name: string, sub: string, text: string, doomed: seq<Key>, other: string)
    requires forall i :: 0 <= i < |doomed| ==> doomed[i].Delta? && doomed[i].sub == sub
    requires other != sub
    ensures var t := SafeOne(s, env, name, sub, text, doomed).store;
            && Matching(t, name, Some(other)) == Matching(s, name, Some(other))
            && (BackupKey(name, other) in t <==> BackupKey(name, other) in s)
            && (BackupKey(name, other) in t ==> t[BackupKey(name, other)] == s[BackupKey(name, other)])
  {
    BackupSubOfBackupKey(name, other);
    var t := SafeOne(s, env, name, sub, text, doomed).store;
    forall k | k in Matching(s, name, Some(other)) ensures k in t {
      assert k !in Elems(doomed);
    }
  }

  /** The entry of one sub-key whose rows are all among the doomed ones
      leaves that sub-key recoverable, and on success only its final row. */
  lemma SafeOneRecoverable(s: Store, env: Env, name: string, sub: string, text: string, doomed: seq<Key>)
    requires forall i :: 0 <= i < |doomed| ==> doomed[i].Delta?
    requires Matching(s, name, Some(sub)) <= Elems(doomed)
    ensures var o := SafeOne(s, env, name, sub, text, doomed);
            Recoverable(s, o.store, env.num, name, sub, text, env.txid)
    ensures var o := SafeOne(s, env, name, sub, text, doomed);
            o.result.Ok? ==> && Matching(o.store, name, Some(sub)) == {FinalKey(name, sub, text, env.txid)}
                             && BackupKey(name, sub) !in o.store
  {
    var o := SafeOne(s, env, name, sub, text, doomed);
    if o.result.Ok? {
      assert forall k :: k in Matching(o.store, name, Some(sub)) ==> k == FinalKey(name, sub, text, env.txid);
    }
  }

  /** PRUNE_SAFE's loop as evidently intended: each entry drains only the
      rows of its own sub-key. */
  function SafeEachIntended(s: Store, env: Env, name: string, subs: seq<string>, m: Totals, rows: seq<Key>): (o: Outcome<()>)
    requires forall i :: 0 <= i < |subs| ==> subs[i] in m
    requires forall i :: 0 <= i < |rows| ==> rows[i].Delta?
    decreases |subs|
  {
    if subs == [] then Outcome(s, Ok(()))
    else
      var sub := subs[0];
      Aggregates.OfSubRows(rows, sub);
      var o1 := SafeOne(s, env, name, sub, m[sub], Aggregates.OfSub(rows, sub));
      match o1.result
      case Err(e) => Outcome(o1.store, Err(e))
      case Ok(_) => SafeEachIntended(o1.store, env, name, subs[1..], m, rows)
  }

  /** The intended loop writes only final rows of the map and backups of
      the sub-keys it visits, and removes only rows it was given and those
      backups. */
  lemma {:induction false} SafeEachIntendedFrame(s: Store, env: Env, name: string, subs: seq<string>, m: Totals,
                                                 rows: seq<Key>)
    requires forall i :: 0 <= i < |subs| ==> subs[i] in m
    requires forall i :: 0 <= i < |rows| ==> rows[i].Delta?
    ensures var o := SafeEachIntended(s, env, name, subs, m, rows);
            forall k :: (k in o.store && !IsFinal(k, name, m, env.txid) && !IsBackupAmong(k, name, subs))
                          ==> k in s && o.store[k] == s[k]
    ensures var o := SafeEachIntended(s, env, name, subs, m, rows);
            forall k :: (k in s && k !in Elems(rows) && !IsBackupAmong(k, name, subs)) ==> k in o.store
    decreases |subs|
  {
    if subs != [] {
      var sub := subs[0];
      BackupSubOfBackupKey(name, sub);
      assert IsFinal(FinalKey(name, sub, m[sub], env.txid), name, m, env.txid);
      assert IsBackupAmong(BackupKey(name, sub), name, subs);
      assert forall x :: x in subs[1..] ==> x in subs;
      Aggregates.OfSubRows(rows, sub);
      var doomed := Aggregates.OfSub(rows, sub);
      assert forall k :: k in Elems(doomed) ==> k in Elems(rows);
      var o1 := SafeOne(s, env, name, sub, m[sub], doomed);
      if o1.result.Ok? {
        SafeEachIntendedFrame(o1.store, env, name, subs[1..], m, rows);
      }
    }
  }

  /** The intended loop leaves the rows and backup of a sub-key it does
      not visit as they were. */
  lemma {:induction false} SafeEachIntendedOthers(s: Store, env: Env, name: string, subs: seq<string>, m: Totals,
                                                  rows: seq<Key>, other: string)
    requires forall i :: 0 <= i < |subs| ==> subs[i] in m
    requires forall i :: 0 <= i < |rows| ==> rows[i].Delta?
    requires other !in subs
    ensures var t := SafeEachIntended(s, env, name, subs, m, rows).store;
            && Matching(t, name, Some(other)) == Matching(s, name, Some(other))
            && (BackupKey(name, other) in t <==> BackupKey(name, other) in s)
            && (BackupKey(name, other) in t ==> t[BackupKey(name, other)] == s[BackupKey(name, other)])
    decreases |subs|
  {
    if subs != [] {
      var sub := subs[0];
      Aggregates.OfSubRows(rows, sub);
      var doomed := Aggregates.OfSub(rows, sub);
      SafeOneOthers(s, env, name, sub, m[sub], doomed, other);
      var o1 := SafeOne(s, env, name, sub, m[sub], doomed);
      if o1.result.Ok? {
        assert other !in subs[1..];
        SafeEachIntendedOthers(o1.store, env, name, subs[1..], m, rows, other);
      }
    }
  }

  /** Recoverability depends only on the sub-key's rows and backup. */
  lemma RecoverableKept(s: Store, t: Store, u: Store, num: Numerals, name: string, sub: string, text: string, txid: string)
    requires Recoverable(s, t, num, name, sub, text, txid)
    requires Matching(u, name, Some(sub)) == Matching(t, name, Some(sub))
    requires BackupKey(name, sub) in u <==> BackupKey(name, sub) in t
    requires BackupKey(name, sub) in u ==> u[BackupKey(name, sub)] == t[BackupKey(name, sub)]
    ensures Recoverable(s, u, num, name, sub, text, txid)
  {
  }

  /** A step that starts from a store with the same rows of the sub-key
      stays recoverable relative to the original store. */
  lemma RecoverableFrom(s: Store, t: Store, u: Store, num: Numerals, name: string, sub: string, text: string, txid: string)
    requires Matching(t, name, Some(sub)) == Matching(s, name, Some(sub))
    requires Recoverable(t, u, num, name, sub, text, txid)
    ensures Recoverable(s, u, num, name, sub, text, txid)
  {
  }

  /** Whatever the store refuses, the intended loop leaves every sub-key it
      visits recoverable; when it completes, each holds only its final row
      and no backup. */
  lemma {:induction false} SafeEachIntendedRecoverable(s: Store, env: Env, name: string, subs: seq<string>, m: Totals,
                                                       rows: seq<Key>)
    requires forall i :: 0 <= i < |subs| ==> subs[i] in m
    requires forall i, j :: 0 <= i < j < |subs| ==> subs[i] != subs[j]
    requires forall i :: 0 <= i < |rows| ==> rows[i].Delta?
    requires forall i :: 0 <= i < |subs| ==> Matching(s, name, Some(subs[i])) <= Elems(rows)
    ensures var o := SafeEachIntended(s, env, name, subs, m, rows);
            forall i :: 0 <= i < |subs| ==> Recoverable(s, o.store, env.num, name, subs[i], m[subs[i]], env.txid)
    ensures var o := SafeEachIntended(s, env, name, subs, m, rows);
            o.result.Ok? ==> forall i :: 0 <= i < |subs| ==>
              && Matching(o.store, name, Some(subs[i])) == {FinalKey(name, subs[i], m[subs[i]], env.txid)}
              && BackupKey(name, subs[i]) !in o.store
    decreases |subs|, 1
  {
    if subs != [] {
      var sub := subs[0];
      Aggregates.OfSubRows(rows, sub);
      var doomed := Aggregates.OfSub(rows, sub);
      assert Matching(s, name, Some(sub)) <= Elems(doomed);
      SafeOneRecoverable(s, env, name, sub, m[sub], doomed);
      var o1 := SafeOne(s, env, name, sub, m[sub], doomed);
      var o := SafeEachIntended(s, env, name, subs, m, rows);
      forall i | 1 <= i < |subs|
        ensures Matching(o1.store, name, Some(subs[i])) == Matching(s, name, Some(subs[i]))
      {
        SafeOneOthers(s, env, name, sub, m[sub], doomed, subs[i]);
      }
      if o1.result.Err? {
        assert o.store == o1.store;
      } else {
        assert o == SafeEachIntended(o1.store, env, name, subs[1..], m, rows);
        SafeEachIntendedRest(s, o1.store, env, name, subs, m, rows);
      }
    }
  }

  /** The rest of the intended loop, after the entry of the first sub-key
      succeeded in the store `t`, keeps that sub-key's final row and makes
      the other sub-keys recoverable relative to `s`. */
  lemma {:induction false} SafeEachIntendedRest(s: Store, t: Store, env: Env, name: string, subs: seq<string>, m: Totals,
                                                rows: seq<Key>)
    requires subs != []
    requires forall i :: 0 <= i < |subs| ==> subs[i] in m
    requires forall i, j :: 0 <= i < j < |subs| ==> subs[i] != subs[j]
    requires forall i :: 0 <= i < |rows| ==> rows[i].Delta?
    requires forall i :: 0 <= i < |subs| ==> Matching(s, name, Some(subs[i])) <= Elems(rows)
    requires Matching(t, name, Some(subs[0])) == {FinalKey(name, subs[0], m[subs[0]], env.txid)}
    requires BackupKey(name, subs[0]) !in t
    requires forall i :: 1 <= i < |subs| ==> Matching(t, name, Some(subs[i])) == Matching(s, name, Some(subs[i]))
    ensures var o := SafeEachIntended(t, env, name, subs[1..], m, rows);
            forall i :: 0 <= i < |subs| ==> Recoverable(s, o.store, env.num, name, subs[i], m[subs[i]], env.txid)
    ensures var o := SafeEachIntended(t, env, name, subs[1..], m, rows);
            o.result.Ok? ==> forall i :: 0 <= i < |subs| ==>
              && Matching(o.store, name, Some(subs[i])) == {FinalKey(name, subs[i], m[subs[i]], env.txid)}
              && BackupKey(name, subs[i]) !in o.store
    decreases |subs|, 0
  {
    var sub := subs[0];
    var rest := subs[1..];
    var o := SafeEachIntended(t, env, name, rest, m, rows);
    assert forall i :: 0 <= i < |rest| ==> rest[i] == subs[i + 1];
    assert sub !in rest;
    SafeEachIntendedOthers(t, env, name, rest, m, rows, sub);
    SafeEachIntendedRecoverable(t, env, name, rest, m, rows);
    forall i | 1 <= i < |subs|
      ensures Recoverable(s, o.store, env.num, name, subs[i], m[subs[i]], env.txid)
    {
      assert subs[i] == rest[i - 1];
      RecoverableFrom(s, t, o.store, env.num, name, subs[i], m[subs[i]], env.txid);
    }
    if o.result.Ok? {
      forall i | 1 <= i < |subs|
        ensures Matching(o.store, name, Some(subs[i])) == {FinalKey(name, subs[i], m[subs[i]], env.txid)}
        ensures BackupKey(name, subs[i]) !in o.store
      {
        assert subs[i] == rest[i - 1];
      }
    }
  }

  /** The intended loop over a response map leaves every key outside the
      prefix that is no backup key of the name as it was. */
  lemma SafeEachIntendedOutside(s: Store, env: Env, name: string, prefix: Option<string>, rows: seq<Key>, m: Totals)
    requires forall i :: 0 <= i < |rows| ==> rows[i].Delta?
    requires forall k :: k in Elems(rows) ==> Under(k, name, prefix)
    requires forall sub :: sub in m ==> prefix.None? || prefix == Some(sub)
    ensures var t := SafeEachIntended(s, env, name, SortedSubs(m), m, rows).store;
            forall k :: !Under(k, name, prefix) && BackupSub(k, name).None? ==>
              (k in s <==> k in t) && (k in t ==> t[k] == s[k])
  {
    var subs := SortedSubs(m);
    SafeEachIntendedFrame(s, env, name, subs, m, rows);
    SafeOutside(s, SafeEachIntended(s, env, name, subs, m, rows).store, name, prefix, subs, m, env.txid, rows);
  }

  /** PRUNE_SAFE as evidently intended: Get with the intended fold, then
      the loop in which each entry drains only its own sub-key's rows. */
  function PruneSafeIntended(s: Store, env: Env, name: string, prefix: Option<string>, rows: seq<Key>): (o: Outcome<Totals>)
    requires Scan(s, env.faults, name, prefix) == Ok(rows)
    ensures o.result.Ok? ==> o.result == Query(s, env, IntendedRule, SafeQueryArgs(name, prefix))
  {
    match Query(s, env, IntendedRule, SafeQueryArgs(name, prefix))
    case Err(_) => Outcome(s, Err(ReadBeforePruneFailed(name, PrefixText(prefix))))
    case Ok(m) => SafeIntendedLoop(s, env, name, m, rows)
  }

  /** The part of the intended PRUNE_SAFE after Get has answered `m`: the
      loop over its sub-keys in ascending order, answering `m` itself. */
  function SafeIntendedLoop(s: Store, env: Env, name: string, m: Totals, rows: seq<Key>): (o: Outcome<Totals>)
    requires forall i :: 0 <= i < |rows| ==> rows[i].Delta?
    ensures var e := SafeEachIntended(s, env, name, SortedSubs(m), m, rows);
            o.store == e.store && (o.result.Ok? <==> e.result.Ok?)
    ensures o.result.Ok? ==> o.result == Ok(m)
  {
    var o := SafeEachIntended(s, env, name, SortedSubs(m), m, rows);
    match o.result
    case Err(e) => Outcome(o.store, Err(e))
    case Ok(_) => Outcome(o.store, Ok(m))
  }

  /** The intended PRUNE_SAFE refuses a variable with no rows under the
      prefix, and it fails without writing when Get fails. */
  lemma PruneSafeIntendedFails(s: Store, env: Env, name: string, prefix: Option<string>, rows: seq<Key>)
    requires Scan(s, env.faults, name, prefix) == Ok(rows)
    ensures var o := PruneSafeIntended(s, env, name, prefix, rows);
            rows == [] ==> o == Outcome(s, Err(ReadBeforePruneFailed(name, PrefixText(prefix))))
    ensures var o := PruneSafeIntended(s, env, name, prefix, rows);
            Query(s, env, IntendedRule, SafeQueryArgs(name, prefix)).Err? ==> o.store == s && o.result.Err?
  {
  }

  /** The intended PRUNE_SAFE leaves every key outside the prefix that is
      no backup key of the name as it was. */
  lemma PruneSafeIntendedOutside(s: Store, env: Env, name: string, prefix: Option<string>, rows: seq<Key>)
    requires Scan(s, env.faults, name, prefix) == Ok(rows)
    ensures var o := PruneSafeIntended(s, env, name, prefix, rows);
            forall k :: !Under(k, name, prefix) && BackupSub(k, name).None? ==>
              (k in s <==> k in o.store) && (k in o.store ==> o.store[k] == s[k])
  {
    var q := Query(s, env, IntendedRule, SafeQueryArgs(name, prefix));
    if q.Ok? {
      SafePrefix(s, env, IntendedRule, name, prefix, rows);
      SafeEachIntendedOutside(s, env, name, prefix, rows, q.value);
      PruneSafeIntendedIsLoop(s, env, name, prefix, rows, q.value);
    }
  }

  /** The intended loop over the sub-keys of a response map, in ascending
      order, stated per sub-key. */
  lemma SafeEachIntendedOverMap(s: Store, env: Env, name: string, m: Totals, rows: seq<Key>)
    requires forall i :: 0 <= i < |rows| ==> rows[i].Delta?
    requires forall sub :: sub in m ==> Matching(s, name, Some(sub)) <= Elems(rows)
    ensures var o := SafeEachIntended(s, env, name, SortedSubs(m), m, rows);
            forall sub :: sub in m ==> Recoverable(s, o.store, env.num, name, sub, m[sub], env.txid)
    ensures var o := SafeEachIntended(s, env, name, SortedSubs(m), m, rows);
            o.result.Ok? ==> forall sub :: sub in m ==>
              && Matching(o.store, name, Some(sub)) == {FinalKey(name, sub, m[sub], env.txid)}
              && BackupKey(name, sub) !in o.store
  {
    var subs := SortedSubs(m);
    SafeEachIntendedRecoverable(s, env, name, subs, m, rows);
    forall sub | sub in m ensures exists i :: 0 <= i < |subs| && subs[i] == sub {
      assert sub in subs;
    }
  }

  /** Once Get answers, the intended PRUNE_SAFE is its loop. */
  lemma PruneSafeIntendedIsLoop(s: Store, env: Env, name: string, prefix: Option<string>, rows: seq<Key>, m: Totals)
    requires Scan(s, env.faults, name, prefix) == Ok(rows)
    requires forall i :: 0 <= i < |rows| ==> rows[i].Delta?
    requires Query(s, env, IntendedRule, SafeQueryArgs(name, prefix)) == Ok(m)
    ensures PruneSafeIntended(s, env, name, prefix, rows) == SafeIntendedLoop(s, env, name, m, rows)
  {
  }

  /** The intended loop completes exactly when, for every sub-key it
      visits, that sub-key's rows can be deleted and the entry's other
      writes are accepted. */
  lemma {:induction false} SafeEachIntendedSucceeds(s: Store, env: Env, name: string, subs: seq<string>, m: Totals,
                                                    rows: seq<Key>)
    requires forall i :: 0 <= i < |subs| ==> subs[i] in m
    requires forall i :: 0 <= i < |rows| ==> rows[i].Delta?
    ensures SafeEachIntended(s, env, name, subs, m, rows).result.Ok? <==>
              forall i :: 0 <= i < |subs| ==>
                && Elems(Aggregates.OfSub(rows, subs[i])) !! env.faults.undeletable
                && SafeWritable(env, name, subs[i], m[subs[i]])
    decreases |subs|
  {
    if subs != [] {
      var t := SafeEachIntendedStep(s, env, name, subs, m, rows);
      SafeEachIntendedSucceeds(t, env, name, subs[1..], m, rows);
      assert forall i :: 1 <= i < |subs| ==> subs[i] == subs[1..][i - 1];
    }
  }

  /** The intended loop completes exactly when its first entry succeeds
      and the rest of the loop, from the store that entry leaves, completes. */
  lemma SafeEachIntendedStep(s: Store, env: Env, name: string, subs: seq<string>, m: Totals, rows: seq<Key>)
    returns (t: Store)
    requires subs != []
    requires forall i :: 0 <= i < |subs| ==> subs[i] in m
    requires forall i :: 0 <= i < |rows| ==> rows[i].Delta?
    ensures SafeEachIntended(s, env, name, subs, m, rows).result.Ok? <==>
              && Elems(Aggregates.OfSub(rows, subs[0])) !! env.faults.undeletable
              && SafeWritable(env, name, subs[0], m[subs[0]])
              && SafeEachIntended(t, env, name, subs[1..], m, rows).result.Ok?
  {
    Aggregates.OfSubRows(rows, subs[0]);
    SafeOneSucceeds(s, env, name, subs[0], m[subs[0]], Aggregates.OfSub(rows, subs[0]));
    t := SafeOne(s, env, name, subs[0], m[subs[0]], Aggregates.OfSub(rows, subs[0])).store;
  }

  /** No row under the prefix is undeletable exactly when, for every
      sub-key of the rows, none of that sub-key's rows is. */
  lemma DeletableBySub(s: Store, name: string, prefix: Option<string>, rows: seq<Key>, m: Totals, undeletable: set<Key>)
    requires Elems(rows) == Matching(s, name, prefix)
    requires m.Keys == Aggregates.SubKeys(Matching(s, name, prefix))
    ensures Matching(s, name, prefix) !! undeletable <==>
              forall sub :: sub in m ==> Elems(Aggregates.OfSub(rows, sub)) !! undeletable
  {
    forall sub | sub in m ensures Elems(Aggregates.OfSub(rows, sub)) <= Elems(rows) {
      Aggregates.OfSubRows(rows, sub);
    }
    if !(Matching(s, name, prefix) !! undeletable) {
      var k :| k in Matching(s, name, prefix) && k in undeletable;
      assert k.sub in m;
      Aggregates.OfSubRows(rows, k.sub);
      assert k in Elems(Aggregates.OfSub(rows, k.sub));
    }
  }

  /** Once Get answers `m`, the intended PRUNE_SAFE answers `m` exactly
      when every row under the prefix can be deleted and, for every
      sub-key of `m`, the backup row, the final row and the removal of
      the backup are accepted. */
  lemma PruneSafeIntendedSucceeds(s: Store, env: Env, name: string, prefix: Option<string>, rows: seq<Key>, m: Totals)
    requires Scan(s, env.faults, name, prefix) == Ok(rows)
    requires Query(s, env, IntendedRule, SafeQueryArgs(name, prefix)) == Ok(m)
    ensures PruneSafeIntended(s, env, name, prefix, rows).result == Ok(m) <==>
              && Matching(s, name, prefix) !! env.faults.undeletable
              && forall sub :: sub in m ==> SafeWritable(env, name, sub, m[sub])
  {
    SafePrefix(s, env, IntendedRule, name, prefix, rows);
    PruneSafeIntendedIsLoop(s, env, name, prefix, rows, m);
    var subs := SortedSubs(m);
    SafeEachIntendedSucceeds(s, env, name, subs, m, rows);
    DeletableBySub(s, name, prefix, rows, m, env.faults.undeletable);
    forall sub | sub in m ensures exists i :: 0 <= i < |subs| && subs[i] == sub {
      assert sub in subs;
    }
  }

  /** Whatever the store refuses, the intended PRUNE_SAFE leaves every
      sub-key of the variable recoverable; when it succeeds, each sub-key
      holds only its final row and no backup. */
  lemma PruneSafeIntendedRecoverable(s: Store, env: Env, name: string, prefix: Option<string>)
    requires Scan(s, env.faults, name, prefix).Ok?
    requires Query(s, env, IntendedRule, SafeQueryArgs(name, prefix)).Ok?
    ensures var m := Query(s, env, IntendedRule, SafeQueryArgs(name, prefix)).value;
            var o := PruneSafeIntended(s, env, name, prefix, Scan(s, env.faults, name, prefix).value);
            forall sub :: sub in m ==> Recoverable(s, o.store, env.num, name, sub, m[sub], env.txid)
    ensures var m := Query(s, env, IntendedRule, SafeQueryArgs(name, prefix)).value;
            var o := PruneSafeIntended(s, env, name, prefix, Scan(s, env.faults, name, prefix).value);
            o.result.Ok? ==> forall sub :: sub in m ==>
              && Matching(o.store, name, Some(sub)) == {FinalKey(name, sub, m[sub], env.txid)}
              && BackupKey(name, sub) !in o.store
  {
    var rows := Scan(s, env.faults, name, prefix).value;
    var m := Query(s, env, IntendedRule, SafeQueryArgs(name, prefix)).value;
    ScanElems(s, env.faults, name, prefix);
    forall sub | sub in m ensures Matching(s, name, Some(sub)) <= Elems(rows) {
      SubKeysUnderPrefix(s, name, prefix, sub);
    }
    SafeEachIntendedOverMap(s, env, name, m, rows);
    PruneSafeIntendedIsLoop(s, env, name, prefix, rows, m);
  }

  /** A successful intended PRUNE_SAFE keeps the value of every variable
      it prunes, when "%v" text reads back. */
  lemma PruneSafeIntendedKeepsValues(s: Store, env: Env, name: string, prefix: Option<string>)
    requires Scan(s, env.faults, name, prefix).Ok?
    requires GeneralReadsBack(env.num)
    requires PruneSafeIntended(s, env, name, prefix, Scan(s, env.faults, name, prefix).value).result.Ok?
    ensures var o := PruneSafeIntended(s, env, name, prefix, Scan(s, env.faults, name, prefix).value);
            forall sub :: sub in o.result.value ==>
              Aggregates.Aggregate(o.store, env.num, Ops, name, sub) == Aggregates.Aggregate(s, env.num, Ops, name, sub)
  {
    var o := PruneSafeIntended(s, env, name, prefix, Scan(s, env.faults, name, prefix).value);
    PruneSafeIntendedRecoverable(s, env, name, prefix);
    QueryIntendedGivesAggregates(s, env, SafeQueryArgs(name, prefix));
    forall sub | sub in o.result.value
      ensures Aggregates.Aggregate(o.store, env.num, Ops, name, sub) == Aggregates.Aggregate(s, env.num, Ops, name, sub)
    {
      ValueOfFinalRow(o.store, env.num, name, sub, o.result.value[sub], env.txid);
    }
  }

  // ----- entry points -----

  /** Insert(name, key, value, op). */
  function Insert(s: Store, env: Env, args: seq<string>): (o: Outcome<()>)
    ensures o.result.Ok? <==>
              && |args| == 4
              && env.num.parse(args[2]).Some?
              && (args[3] == "OP_ADD" || args[3] == "OP_SUB")
              && CompositeKeys.ValidAttributes([args[0], args[1], args[3], args[2], env.txid])
              && Delta(args[0], args[1], args[3], args[2], env.txid) !in env.faults.unwritable
    ensures o.result.Ok? ==> o.store == s[Delta(args[0], args[1], args[3], args[2], env.txid) := Sentinel]
    ensures o.result.Err? ==> o.store == s
  {
    InsertRow(s, env, Ops, args)
  }

  /** Delete(name, key). */
  function Delete(s: Store, env: Env, args: seq<string>): (o: Outcome<bool>)
    ensures |args| != 2 ==> o == Outcome(s, Err(WrongArgumentCount(2)))
    ensures |args| == 2 ==>
              var name, sub := args[0], args[1];
              && (o.result.Ok? <==> && !env.faults.scanBroken && CompositeKeys.ValidAttributes([name, sub])
                                    && Matching(s, name, Some(sub)) != {}
                                    && Matching(s, name, Some(sub)) !! env.faults.undeletable)
              && (o.result.Ok? ==> o.result.value && o.store == s - Matching(s, name, Some(sub)))
              && ((!env.faults.scanBroken && CompositeKeys.ValidAttributes([name, sub])
                   && Matching(s, name, Some(sub)) == {}) ==> o == Outcome(s, Err(NoSuchVariable(name))))
              && SameOutside(s, o.store, name, Some(sub), {})
  {
    DeleteVariable(s, env, args)
  }

  /** After a successful Delete the sub-key is gone: Get on (name, key)
      answers that there is no such variable, under either fold rule. */
  lemma DeleteThenGet(s: Store, env: Env, rule: Rule, name: string, sub: string)
    requires Delete(s, env, [name, sub]).result.Ok?
    ensures Query(Delete(s, env, [name, sub]).store, env, rule, [name, sub]) == Err(NoSuchVariable(name))
  {
    var gone := Matching(s, name, Some(sub));
    MatchingAfterDelete(s, gone, name, Some(sub));
    assert Matching(s - gone, name, Some(sub)) == {};
  }

  /** Prune(name[, key], type): checks the arguments and the type before
      the scan, then runs PRUNE_FAST or PRUNE_SAFE over the scanned rows. */
  function Prune(s: Store, env: Env, args: seq<string>): (o: Outcome<Totals>)
    ensures |args| < 2 ==> o == Outcome(s, Err(WrongArgumentCount(2)))
    ensures (|args| >= 2 && PruneType(args) != "PRUNE_FAST" && PruneType(args) != "PRUNE_SAFE")
              ==> o == Outcome(s, Err(UnsupportedPruneType(PruneType(args))))
    ensures (|args| >= 2 && Scan(s, env.faults, args[0], PrunePrefix(args)).Err?) ==> o.store == s && o.result.Err?
    ensures (|args| >= 2 && Scan(s, env.faults, args[0], PrunePrefix(args)).Ok? && PruneType(args) == "PRUNE_FAST")
              ==> o == PruneFast(s, env, FastRule, args[0], PrunePrefix(args), Scan(s, env.faults, args[0], PrunePrefix(args)).value)
    ensures (|args| >= 2 && Scan(s, env.faults, args[0], PrunePrefix(args)).Ok? && PruneType(args) == "PRUNE_SAFE")
              ==> o == PruneSafe(s, env, args[0], PrunePrefix(args), Scan(s, env.faults, args[0], PrunePrefix(args)).value)
  {
    if |args| < 2 then Outcome(s, Err(WrongArgumentCount(2)))
    else
      var name, prefix, pruneType := args[0], PrunePrefix(args), PruneType(args);
      if pruneType != "PRUNE_FAST" && pruneType != "PRUNE_SAFE" then Outcome(s, Err(UnsupportedPruneType(pruneType)))
      else
        match Scan(s, env.faults, name, prefix)
        case Err(e) => Outcome(s, Err(e))
        case Ok(rows) =>
          if pruneType == "PRUNE_FAST" then PruneFast(s, env, FastRule, name, prefix, rows)
          else PruneSafe(s, env, name, prefix, rows)
  }

  /** Prune with every correction applied: the intended fold in both
      types and, in PRUNE_SAFE, each entry draining only its own rows. */
  function PruneIntended(s: Store, env: Env, args: seq<string>): (o: Outcome<Totals>)
    ensures |args| < 2 ==> o == Outcome(s, Err(WrongArgumentCount(2)))
    ensures (|args| >= 2 && PruneType(args) != "PRUNE_FAST" && PruneType(args) != "PRUNE_SAFE")
              ==> o == Outcome(s, Err(UnsupportedPruneType(PruneType(args))))
    ensures (|args| >= 2 && Scan(s, env.faults, args[0], PrunePrefix(args)).Ok? && PruneType(args) == "PRUNE_FAST")
              ==> o == PruneFast(s, env, IntendedRule, args[0], PrunePrefix(args), Scan(s, env.faults, args[0], PrunePrefix(args)).value)
    ensures (|args| >= 2 && Scan(s, env.faults, args[0], PrunePrefix(args)).Ok? && PruneType(args) == "PRUNE_SAFE")
              ==> o == PruneSafeIntended(s, env, args[0], PrunePrefix(args), Scan(s, env.faults, args[0], PrunePrefix(args)).value)
  {
    if |args| < 2 then Outcome(s, Err(WrongArgumentCount(2)))
    else
      var name, prefix, pruneType := args[0], PrunePrefix(args), PruneType(args);
      if pruneType != "PRUNE_FAST" && pruneType != "PRUNE_SAFE" then Outcome(s, Err(UnsupportedPruneType(pruneType)))
      else
        match Scan(s, env.faults, name, prefix)
        case Err(e) => Outcome(s, Err(e))
        case Ok(rows) =>
          if pruneType == "PRUNE_FAST" then PruneFast(s, env, IntendedRule, name, prefix, rows)
          else PruneSafeIntended(s, env, name, prefix, rows)
  }

  /** A successful insertion with a fresh transaction id moves the
      variable's value by the signed delta. */
  lemma InsertMovesAggregate(s: Store, env: Env, name: string, sub: string, text: string, op: string, v: real)
    requires env.num.parse(text) == Some(v)
    requires Delta(name, sub, op, text, env.txid) !in s
    requires Insert(s, env, [name, sub, text, op]).result.Ok?
    ensures Aggregates.Aggregate(Insert(s, env, [name, sub, text, op]).store, env.num, Ops, name, sub)
            == Aggregates.Aggregate(s, env.num, Ops, name, sub) + Aggregates.Signed(Ops, op, v)
  {
    var k := Delta(name, sub, op, text, env.txid);
    MatchingAfterPut(s, k, Sentinel, name, Some(sub));
    Aggregates.SumOverAdd(env.num, Ops, Matching(s, name, Some(sub)), k);
  }

  /** The first insertion of a variable with a non-empty sub-key creates it
      with the inserted value, as Get reports it. */
  lemma InsertThenGet(s: Store, env: Env, name: string, sub: string, text: string, v: real)
    requires env.num.parse(text) == Some(v) && GeneralReadsBack(env.num)
    requires Matching(s, name, Some(sub)) == {} && sub != ""
    requires !env.faults.scanBroken
    requires Insert(s, env, [name, sub, text, "OP_ADD"]).result.Ok?
    ensures var r := Query(Insert(s, env, [name, sub, text, "OP_ADD"]).store, env, GetRule, [name, sub]);
            r.Ok? && r.value.Keys == {sub} && env.num.parse(r.value[sub]) == Some(v)
  {
    var k := Delta(name, sub, "OP_ADD", text, env.txid);
    var t := Insert(s, env, [name, sub, text, "OP_ADD"]).store;
    MatchingAfterPut(s, k, Sentinel, name, Some(sub));
    assert Matching(t, name, Some(sub)) == {k};
    Aggregates.AggregateOfOneRow(t, env.num, Ops, name, sub, k);
    assert CompositeKeys.ValidAttributes([name, sub]) by {
      assert CompositeKeys.ValidAttributes([name, sub, "OP_ADD", text, env.txid]);
      assert [name, sub, "OP_ADD", text, env.txid][0] == name;
      assert [name, sub, "OP_ADD", text, env.txid][1] == sub;
    }
    assert Aggregates.SubKeys({k}) == {sub};
    GetAgreesWithoutEmptySubKey(t, env, [name, sub]);
    QueryIntendedGivesAggregates(t, env, [name, sub]);
  }

  /** Two identical insertions in one transaction build the same row key,
      so the second only rewrites the first's row: the variable moves
      once. */
  lemma SameTransactionInsertsOnce(s: Store, env: Env, args: seq<string>)
    requires Insert(s, env, args).result.Ok?
    ensures var once := Insert(s, env, args).store;
            Insert(once, env, args) == Outcome(once, Ok(()))
  {
  }

  /** The store after a transfer in one transaction: the prefix gains the
      two rows of the transfer, which are well formed and valid keys. */
  lemma TransferRows(s: Store, env: Env, name: string, a: string, b: string, text: string)
    requires a != "" && b != ""
    requires Insert(s, env, [name, a, text, "OP_SUB"]).result.Ok?
    requires Insert(Insert(s, env, [name, a, text, "OP_SUB"]).store, env, [name, b, text, "OP_ADD"]).result.Ok?
    requires "" !in Aggregates.SubKeys(Matching(s, name, None))
    requires Aggregates.WellFormedUnder(s, env.num, Ops, name, None)
    requires forall k :: k in s && Under(k, name, None) ==> CompositeKeys.ValidAttributes(Fields(k))
    ensures var t := Insert(Insert(s, env, [name, a, text, "OP_SUB"]).store, env, [name, b, text, "OP_ADD"]).store;
            var ka, kb := Delta(name, a, "OP_SUB", text, env.txid), Delta(name, b, "OP_ADD", text, env.txid);
            && Matching(t, name, None) == Matching(s, name, None) + {ka, kb}
            && "" !in Aggregates.SubKeys(Matching(t, name, None))
            && Aggregates.WellFormedUnder(t, env.num, Ops, name, None)
            && (forall k :: k in t && Under(k, name, None) ==> CompositeKeys.ValidAttributes(Fields(k)))
            && CompositeKeys.ValidAttributes([name])
            && CompositeKeys.ValidAttribute(env.txid)
  {
    var ka, kb := Delta(name, a, "OP_SUB", text, env.txid), Delta(name, b, "OP_ADD", text, env.txid);
    assert CompositeKeys.ValidAttributes(Fields(ka));
    assert Fields(ka)[0] == name && Fields(ka)[4] == env.txid;
  }

  /** A transfer of v from sub-key a to sub-key b, made in one transaction
      as a subtraction from a and an addition to b, followed by a
      namespace-wide PRUNE_SAFE in a later transaction `later` (its own
      txid and its own refusals) on a store that accepts its writes: the
      prune succeeds, answers both sub-keys, and leaves a v lower and b v
      higher than before the transfer. With balances of 100 and a transfer
      of 10 this gives 90 and 110. */
  lemma TransferThenPruneSafe(s: Store, env: Env, later: Env, name: string, a: string, b: string, text: string, v: real)
    requires a != b && a != "" && b != ""
    requires env.num.parse(text) == Some(v) && GeneralReadsBack(env.num) && NumeralsAreAttributes(env.num)
    requires Delta(name, a, "OP_SUB", text, env.txid) !in s && Delta(name, b, "OP_ADD", text, env.txid) !in s
    requires Insert(s, env, [name, a, text, "OP_SUB"]).result.Ok?
    requires Insert(Insert(s, env, [name, a, text, "OP_SUB"]).store, env, [name, b, text, "OP_ADD"]).result.Ok?
    requires "" !in Aggregates.SubKeys(Matching(s, name, None))
    requires Aggregates.WellFormedUnder(s, env.num, Ops, name, None)
    requires forall k :: k in s && Under(k, name, None) ==> CompositeKeys.ValidAttributes(Fields(k))
    requires later.num == env.num && CompositeKeys.ValidAttribute(later.txid)
    requires !later.faults.scanBroken && PruneAccepted(later.faults, name, None)
    ensures var t := Insert(Insert(s, env, [name, a, text, "OP_SUB"]).store, env, [name, b, text, "OP_ADD"]).store;
            && Scan(t, later.faults, name, None).Ok?
            && var o := PruneSafe(t, later, name, None, Scan(t, later.faults, name, None).value);
               && o.result.Ok? && a in o.result.value && b in o.result.value
               && Aggregates.Aggregate(o.store, env.num, Ops, name, a) == Aggregates.Aggregate(s, env.num, Ops, name, a) - v
               && Aggregates.Aggregate(o.store, env.num, Ops, name, b) == Aggregates.Aggregate(s, env.num, Ops, name, b) + v
  {
    var t := Insert(Insert(s, env, [name, a, text, "OP_SUB"]).store, env, [name, b, text, "OP_ADD"]).store;
    TransferMovesValues(s, env, name, a, b, text, v);
    TransferRows(s, env, name, a, b, text);
    PruneSafeCompletes(t, later, name, None, Scan(t, later.faults, name, None).value);
    PruneSafeKeepsValues(t, later, name, None);
  }

  /** A transfer in one transaction moves v from a to b. */
  lemma TransferMovesValues(s: Store, env: Env, name: string, a: string, b: string, text: string, v: real)
    requires a != b
    requires env.num.parse(text) == Some(v)
    requires Delta(name, a, "OP_SUB", text, env.txid) !in s && Delta(name, b, "OP_ADD", text, env.txid) !in s
    requires Insert(s, env, [name, a, text, "OP_SUB"]).result.Ok?
    requires Insert(Insert(s, env, [name, a, text, "OP_SUB"]).store, env, [name, b, text, "OP_ADD"]).result.Ok?
    ensures var t := Insert(Insert(s, env, [name, a, text, "OP_SUB"]).store, env, [name, b, text, "OP_ADD"]).store;
            && Delta(name, a, "OP_SUB", text, env.txid) in Matching(t, name, None)
            && Delta(name, b, "OP_ADD", text, env.txid) in Matching(t, name, None)
            && Aggregates.Aggregate(t, env.num, Ops, name, a) == Aggregates.Aggregate(s, env.num, Ops, name, a) - v
            && Aggregates.Aggregate(t, env.num, Ops, name, b) == Aggregates.Aggregate(s, env.num, Ops, name, b) + v
  {
    var u := Insert(s, env, [name, a, text, "OP_SUB"]).store;
    var ka, kb := Delta(name, a, "OP_SUB", text, env.txid), Delta(name, b, "OP_ADD", text, env.txid);
    InsertMovesAggregate(s, env, name, a, text, "OP_SUB", v);
    InsertMovesAggregate(u, env, name, b, text, "OP_ADD", v);
    MatchingAfterPut(s, ka, Sentinel, name, Some(b));
    MatchingAfterPut(u, kb, Sentinel, name, Some(a));
  }
}
