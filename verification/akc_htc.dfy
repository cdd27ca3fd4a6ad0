/** The pair counter of akc-htc/main.go: every call names one exact
    (name, key) variable, operators are "+" and "-", and Get returns a
    scalar. */
module AkcHtc {
  import opened Wrappers
  import opened Ledger
  import Aggregates
  import CompositeKeys

  const Ops := Dialect("+", "-")

  /** Insert(name, key, value, op). */
  function Insert(s: Store, env: Env, args: seq<string>): (o: Outcome<()>)
    ensures o.result.Ok? <==>
              && |args| == 4
              && env.num.parse(args[2]).Some?
              && (args[3] == "+" || args[3] == "-")
              && CompositeKeys.ValidAttributes([args[0], args[1], args[3], args[2], env.txid])
              && Delta(args[0], args[1], args[3], args[2], env.txid) !in env.faults.unwritable
    ensures o.result.Ok? ==> o.store == s[Delta(args[0], args[1], args[3], args[2], env.txid) := Sentinel]
    ensures o.result.Err? ==> o.store == s
  {
    InsertRow(s, env, Ops, args)
  }

  /** Folds rows into `acc` in scan order: "+" adds the row's value, "-"
      subtracts it; a value that is not a number or an unknown operator
      stops the fold. */
  function Fold(num: Numerals, rows: seq<Key>, acc: real): (r: Result<real, Error>)
    requires forall i :: 0 <= i < |rows| ==> rows[i].Delta?
    ensures r.Ok? <==> forall i :: 0 <= i < |rows| ==> Aggregates.WellFormedRow(num, Ops, rows[i])
    ensures r.Ok? ==> r.value == acc + Aggregates.Sum(num, Ops, rows)
    decreases |rows|
  {
    if rows == [] then Ok(acc)
    else
      var k := rows[0];
      match num.parse(k.val)
      case None => Err(NotANumber(k.val))
      case Some(v) =>
        if k.op == "+" then Fold(num, rows[1..], acc + v)
        else if k.op == "-" then Fold(num, rows[1..], acc - v)
        else Err(UnknownOperator(k.op))
  }

  /** Get(name, key): the value of the variable. */
  function Get(s: Store, env: Env, args: seq<string>): (r: Result<real, Error>)
    ensures |args| != 2 ==> r == Err(WrongArgumentCount(2))
    ensures r.Ok? ==> && |args| == 2
                      && Matching(s, args[0], Some(args[1])) != {}
                      && r.value == Aggregates.Aggregate(s, env.num, Ops, args[0], args[1])
    ensures (&& |args| == 2 && Scan(s, env.faults, args[0], Some(args[1])).Ok?
             && Matching(s, args[0], Some(args[1])) == {})
              ==> r == Err(NoSuchVariable(args[0]))
    ensures r.Ok? <==> && |args| == 2 && Scan(s, env.faults, args[0], Some(args[1])).Ok?
                       && Matching(s, args[0], Some(args[1])) != {}
                       && Aggregates.WellFormedUnder(s, env.num, Ops, args[0], Some(args[1]))
  {
    if |args| != 2 then Err(WrongArgumentCount(2))
    else
      var name, sub := args[0], args[1];
      match Scan(s, env.faults, name, Some(sub))
      case Err(e) => Err(e)
      case Ok(rows) =>
        if rows == [] then Err(NoSuchVariable(name))
        else
          Aggregates.ScanSumIsAggregate(s, env.faults, env.num, Ops, name, sub);
          Fold(env.num, rows, 0.0)
  }

  /** First pass of PRUNE_FAST: per row, parse its value, delete it, then
      apply its operator. */
  function DrainAndFold(s: Store, env: Env, rows: seq<Key>, acc: real): (o: Outcome<real>)
    requires forall i :: 0 <= i < |rows| ==> rows[i].Delta?
    ensures o.result.Ok? <==> forall i :: 0 <= i < |rows| ==>
              Aggregates.WellFormedRow(env.num, Ops, rows[i]) && rows[i] !in env.faults.undeletable
    ensures o.result.Ok? ==> o.store == s - Elems(rows)
                             && o.result.value == acc + Aggregates.Sum(env.num, Ops, rows)
    ensures o.result.Err? ==> o.result.error.NotANumber? || o.result.error.DeleteFailed?
                              || o.result.error.UnknownOperator?
    ensures forall k :: k in o.store ==> k in s && o.store[k] == s[k]
    ensures forall k :: k in s && k !in Elems(rows) ==> k in o.store
    decreases |rows|
  {
    if rows == [] then Outcome(s, Ok(acc))
    else
      var k := rows[0];
      match env.num.parse(k.val)
      case None => Outcome(s, Err(NotANumber(k.val)))
      case Some(v) =>
        match Del(s, env.faults, k)
        case Err(e) => Outcome(s, Err(e))
        case Ok(s') =>
          assert Elems(rows) == {k} + Elems(rows[1..]);
          if k.op == "+" then DrainAndFold(s', env, rows[1..], acc + v)
          else if k.op == "-" then DrainAndFold(s', env, rows[1..], acc - v)
          else Outcome(s', Err(UnknownOperator(k.op)))
  }

  /** How the first FAST loop stopped at row `i`: every earlier row was
      parsed, deleted and folded; a value that is not a number stops it
      before row `i` is deleted, a refused deletion stops it there, and an
      unknown operator stops it only after row `i` is deleted, since the
      deletion comes before the operator is looked at. */
  predicate StoppedAt(s: Store, env: Env, rows: seq<Key>, i: nat, o: Outcome<real>)
    requires forall j :: 0 <= j < |rows| ==> rows[j].Delta?
  {
    && i < |rows|
    && (forall j :: 0 <= j < i ==>
          Aggregates.WellFormedRow(env.num, Ops, rows[j]) && rows[j] !in env.faults.undeletable)
    && o.result.Err?
    && match o.result.error
       case NotANumber(text) =>
         env.num.parse(rows[i].val).None? && text == rows[i].val && o.store == s - Elems(rows[..i])
       case DeleteFailed(k) =>
         env.num.parse(rows[i].val).Some? && k == rows[i] && k in env.faults.undeletable
         && o.store == s - Elems(rows[..i])
       case UnknownOperator(op) =>
         && env.num.parse(rows[i].val).Some? && rows[i] !in env.faults.undeletable
         && op == rows[i].op && op != "+" && op != "-"
         && o.store == s - Elems(rows[..i + 1])
       case _ => false
  }

  /** A failing first FAST loop names the row it stopped at, and the rows
      before it (and that row itself for an unknown operator) are gone. */
  lemma {:induction false} DrainAndFoldStops(s: Store, env: Env, rows: seq<Key>, acc: real)
    requires forall i :: 0 <= i < |rows| ==> rows[i].Delta?
    requires DrainAndFold(s, env, rows, acc).result.Err?
    ensures exists i: nat :: StoppedAt(s, env, rows, i, DrainAndFold(s, env, rows, acc))
    decreases |rows|
  {
    var o := DrainAndFold(s, env, rows, acc);
    var k := rows[0];
    if env.num.parse(k.val).None? || k in env.faults.undeletable || (k.op != "+" && k.op != "-") {
      assert rows[..0] == [] && rows[..1] == [k];
      assert StoppedAt(s, env, rows, 0, o);
    } else {
      var v := env.num.parse(k.val).value;
      var acc' := if k.op == "+" then acc + v else acc - v;
      assert o == DrainAndFold(s - {k}, env, rows[1..], acc');
      DrainAndFoldStops(s - {k}, env, rows[1..], acc');
      var j: nat :| StoppedAt(s - {k}, env, rows[1..], j, o);
      StoppedAtCons(s, env, rows, j, o);
    }
  }

  /** Stopping at row `j` of the tail after the first row was deleted is
      stopping at row `j + 1` of the whole sequence. */
  lemma StoppedAtCons(s: Store, env: Env, rows: seq<Key>, j: nat, o: Outcome<real>)
    requires forall i :: 0 <= i < |rows| ==> rows[i].Delta?
    requires rows != [] && Aggregates.WellFormedRow(env.num, Ops, rows[0])
    requires rows[0] !in env.faults.undeletable
    requires StoppedAt(s - {rows[0]}, env, rows[1..], j, o)
    ensures StoppedAt(s, env, rows, j + 1, o)
  {
    var k := rows[0];
    assert rows[..j + 1] == [k] + rows[1..][..j];
    assert Elems(rows[..j + 1]) == {k} + Elems(rows[1..][..j]);
    if j + 2 <= |rows| {
      assert rows[..j + 2] == [k] + rows[1..][..j + 1];
      assert Elems(rows[..j + 2]) == {k} + Elems(rows[1..][..j + 1]);
    }
  }

  /** The row a prune writes back for the pair. */
  function FinalRow(name: string, sub: string, text: string, txid: string): Key {
    Delta(name, sub, "+", text, txid)
  }

  /** The fold-and-delete pass of PRUNE_FAST over the scanned rows of a
      pair: on success no row of the pair is left and the total is their sum. */
  function FastDrain(s: Store, env: Env, name: string, sub: string, rows: seq<Key>): (o: Outcome<real>)
    requires Scan(s, env.faults, name, Some(sub)) == Ok(rows)
    ensures o.result.Ok? ==>
              && o.result.value == Aggregates.Sum(env.num, Ops, rows)
              && o.store == s - Elems(rows)
              && Matching(o.store, name, Some(sub)) == {}
    ensures o.result.Err? ==> !o.result.error.PruneLostVariable?
    ensures SameOutside(s, o.store, name, Some(sub), {})
  {
    var drained := DrainAndFold(s, env, rows, 0.0);
    assert Elems(rows) == Matching(s, name, Some(sub));
    ShrunkUnderSameOutside(s, drained.store, name, Some(sub));
    MatchingAfterDelete(s, Elems(rows), name, Some(sub));
    drained
  }

  /** PRUNE_FAST as written: every scanned row is deleted while the total
      is folded, then one "+" row carrying the total is inserted. The test
      on the insertion's error is inverted: a successful prune reports an
      error, and a failed re-insertion (which loses the variable) reports
      success. */
  function PruneFast(s: Store, env: Env, name: string, sub: string, rows: seq<Key>): (o: Outcome<bool>)
    requires Scan(s, env.faults, name, Some(sub)) == Ok(rows)
    ensures rows == [] ==> o == Outcome(s, Err(NoSuchVariable(name)))
    ensures o.result.Ok? ==> o.result.value && rows != [] && o.store == s - Elems(rows)
    ensures o.result.Err? && o.result.error.PruneLostVariable? ==>
              && o.result.error.total == Aggregates.Sum(env.num, Ops, rows)
              && o.store == (s - Elems(rows))[FinalRow(name, sub, env.num.shortest(o.result.error.total), env.txid) := Sentinel]
    ensures SameOutside(s, o.store, name, Some(sub), {})
  {
    if rows == [] then Outcome(s, Err(NoSuchVariable(name)))
    else
      var drained := FastDrain(s, env, name, sub, rows);
      if drained.result.Err? then Outcome(drained.store, Err(drained.result.error))
      else
        var total := drained.result.value;
        var ins := Insert(drained.store, env, [name, sub, env.num.shortest(total), "+"]);
        if ins.result.Err? then Outcome(ins.store, Ok(true))
        else
          PutUnderSameOutside(drained.store, FinalRow(name, sub, env.num.shortest(total), env.txid), Sentinel, name, Some(sub), {});
          Outcome(ins.store, Err(PruneLostVariable(total)))
  }

  /** Last two writes of PRUNE_SAFE: insert the final row, then remove
      the backup. */
  function SafeFinish(s: Store, env: Env, name: string, sub: string, total: real): (o: Outcome<bool>)
    requires Matching(s, name, Some(sub)) == {}
    ensures o.result.Ok? ==>
              && o.result.value
              && Matching(o.store, name, Some(sub)) == {FinalRow(name, sub, env.num.fixed(total), env.txid)}
              && BackupKey(name, sub) !in o.store
    ensures o.result == Err(FinalInsertFailed(name, sub)) ==> o.store == s
    ensures SameOutside(s, o.store, name, Some(sub), {BackupKey(name, sub)})
  {
    var ins := Insert(s, env, [name, sub, env.num.fixed(total), "+"]);
    if ins.result.Err? then Outcome(ins.store, Err(FinalInsertFailed(name, sub)))
    else
      var row := FinalRow(name, sub, env.num.fixed(total), env.txid);
      MatchingAfterPut(s, row, Sentinel, name, Some(sub));
      var backup := BackupKey(name, sub);
      match Del(ins.store, env.faults, backup)
      case Err(_) => Outcome(ins.store, Err(BackupNotRemoved(name)))
      case Ok(s4) =>
        MatchingAfterDelete(ins.store, {backup}, name, Some(sub));
        Outcome(s4, Ok(true))
  }

  /** The writes of PRUNE_SAFE once the value `total` is known: store it
      under the backup key, delete the scanned rows, then finish. */
  function SafeSteps(s: Store, env: Env, name: string, sub: string, rows: seq<Key>, total: real): (o: Outcome<bool>)
    requires Scan(s, env.faults, name, Some(sub)) == Ok(rows)
    ensures o.result.Ok? ==>
              && o.result.value
              && Matching(o.store, name, Some(sub)) == {FinalRow(name, sub, env.num.fixed(total), env.txid)}
              && BackupKey(name, sub) !in o.store
    ensures o.result == Err(FinalInsertFailed(name, sub)) ==>
              && Matching(o.store, name, Some(sub)) == {}
              && BackupKey(name, sub) in o.store
              && o.store[BackupKey(name, sub)] == Text(env.num.shortest(total))
    ensures SameOutside(s, o.store, name, Some(sub), {BackupKey(name, sub)})
  {
    var backup := BackupKey(name, sub);
    match Put(s, env.faults, backup, Text(env.num.shortest(total)))
    case Err(_) => Outcome(s, Err(BackupWriteFailed(name)))
    case Ok(s1) =>
      MatchingAfterPut(s, backup, Text(env.num.shortest(total)), name, Some(sub));
      PutUnderSameOutside(s, backup, Text(env.num.shortest(total)), name, Some(sub), {backup});
      var o := SafeDrain(s1, env, name, sub, rows, total);
      SameOutsideTrans(s, s1, o.store, name, Some(sub), {backup});
      o
  }

  /** The writes of PRUNE_SAFE after the backup row: delete the scanned
      rows, then finish. A refused final row leaves the backup row as it
      was. */
  function SafeDrain(s: Store, env: Env, name: string, sub: string, rows: seq<Key>, total: real): (o: Outcome<bool>)
    requires Elems(rows) == Matching(s, name, Some(sub))
    ensures o.result.Ok? ==>
              && o.result.value
              && Matching(o.store, name, Some(sub)) == {FinalRow(name, sub, env.num.fixed(total), env.txid)}
              && BackupKey(name, sub) !in o.store
    ensures o.result == Err(FinalInsertFailed(name, sub)) ==>
              && Matching(o.store, name, Some(sub)) == {}
              && (BackupKey(name, sub) in s ==>
                    BackupKey(name, sub) in o.store && o.store[BackupKey(name, sub)] == s[BackupKey(name, sub)])
    ensures SameOutside(s, o.store, name, Some(sub), {BackupKey(name, sub)})
  {
    var drained := DeleteRows(s, env.faults, rows);
    match drained.result
    case Err(e) => Outcome(drained.store, Err(e))
    case Ok(_) =>
      assert rows[..|rows|] == rows;
      MatchingAfterDelete(s, Elems(rows), name, Some(sub));
      var o := SafeFinish(drained.store, env, name, sub, total);
      SameOutsideTrans(s, drained.store, o.store, name, Some(sub), {BackupKey(name, sub)});
      o
  }

  /** PRUNE_SAFE: read the value with Get and hand it to the write steps;
      a failed read aborts before any write. A failed re-insertion leaves
      the pre-prune value in the backup row. */
  function PruneSafe(s: Store, env: Env, name: string, sub: string, rows: seq<Key>): (o: Outcome<bool>)
    requires Scan(s, env.faults, name, Some(sub)) == Ok(rows)
    ensures Get(s, env, [name, sub]).Err? ==> o == Outcome(s, Err(ReadBeforePruneFailed(name, sub)))
    ensures o.result.Ok? ==>
              && o.result.value
              && Get(s, env, [name, sub]).Ok?
              && Matching(o.store, name, Some(sub))
                 == {FinalRow(name, sub, env.num.fixed(Aggregates.Aggregate(s, env.num, Ops, name, sub)), env.txid)}
              && BackupKey(name, sub) !in o.store
    ensures o.result == Err(FinalInsertFailed(name, sub)) ==>
              && Matching(o.store, name, Some(sub)) == {}
              && BackupKey(name, sub) in o.store
              && o.store[BackupKey(name, sub)] == Text(env.num.shortest(Aggregates.Aggregate(s, env.num, Ops, name, sub)))
    ensures SameOutside(s, o.store, name, Some(sub), {BackupKey(name, sub)})
  {
    match Get(s, env, [name, sub])
    case Err(_) => Outcome(s, Err(ReadBeforePruneFailed(name, sub)))
    case Ok(total) => SafeSteps(s, env, name, sub, rows, total)
  }

  /** Prune(name, key, type): exactly three arguments; the scan is opened
      before the type is examined, and an unknown type writes nothing. */
  function Prune(s: Store, env: Env, args: seq<string>): (o: Outcome<bool>)
    ensures |args| != 3 ==> o == Outcome(s, Err(WrongArgumentCount(3)))
    ensures (|args| == 3 && args[2] != "PRUNE_FAST" && args[2] != "PRUNE_SAFE") ==> o.store == s && o.result.Err?
    ensures (|args| == 3 && Scan(s, env.faults, args[0], Some(args[1])).Ok? && args[2] == "PRUNE_FAST")
              ==> o == PruneFast(s, env, args[0], args[1], Scan(s, env.faults, args[0], Some(args[1])).value)
    ensures (|args| == 3 && Scan(s, env.faults, args[0], Some(args[1])).Ok? && args[2] == "PRUNE_SAFE")
              ==> o == PruneSafe(s, env, args[0], args[1], Scan(s, env.faults, args[0], Some(args[1])).value)
    ensures (|args| == 3 && Scan(s, env.faults, args[0], Some(args[1])).Err?) ==> o.store == s && o.result.Err?
  {
    if |args| != 3 then Outcome(s, Err(WrongArgumentCount(3)))
    else
      var name, sub, pruneType := args[0], args[1], args[2];
      match Scan(s, env.faults, name, Some(sub))
      case Err(e) => Outcome(s, Err(e))
      case Ok(rows) =>
        if pruneType == "PRUNE_FAST" then PruneFast(s, env, name, sub, rows)
        else if pruneType == "PRUNE_SAFE" then PruneSafe(s, env, name, sub, rows)
        else Outcome(s, Err(UnsupportedPruneType(pruneType)))
  }

  /** Delete(name, key). */
  function Delete(s: Store, env: Env, args: seq<string>): (o: Outcome<bool>)
    ensures |args| != 2 ==> o == Outcome(s, Err(WrongArgumentCount(2)))
    ensures |args| == 2 ==>
              var name, sub := args[0], args[1];
              && (o.result.Ok? <==> && !env.faults.scanBroken && CompositeKeys.ValidAttributes([name, sub])
                                    && Matching(s, name, Some(sub)) != {}
                                    && Matching(s, name, Some(sub)) !! env.faults.undeletable)
              && (o.result.Ok? ==> o.result.value && o.store == s - Matching(s, name, Some(sub)))
              && ((!env.faults.scanBroken && CompositeKeys.ValidAttributes([name, sub])
                   && Matching(s, name, Some(sub)) == {}) ==> o == Outcome(s, Err(NoSuchVariable(name))))
              && SameOutside(s, o.store, name, Some(sub), {})
  {
    DeleteVariable(s, env, args)
  }

  /** After a successful Delete the variable is gone: Get answers that
      there is no such variable. */
  lemma DeleteThenGet(s: Store, env: Env, name: string, sub: string)
    requires Delete(s, env, [name, sub]).result.Ok?
    ensures Get(Delete(s, env, [name, sub]).store, env, [name, sub]) == Err(NoSuchVariable(name))
  {
    var gone := Matching(s, name, Some(sub));
    MatchingAfterDelete(s, gone, name, Some(sub));
    assert Matching(s - gone, name, Some(sub)) == {};
  }

  // ----- properties -----

  /** A successful insertion with a fresh transaction id moves the
      variable's value by the signed delta. */
  lemma InsertMovesAggregate(s: Store, env: Env, name: string, sub: string, text: string, op: string, v: real)
    requires env.num.parse(text) == Some(v)
    requires Delta(name, sub, op, text, env.txid) !in s
    requires Insert(s, env, [name, sub, text, op]).result.Ok?
    ensures Aggregates.Aggregate(Insert(s, env, [name, sub, text, op]).store, env.num, Ops, name, sub)
            == Aggregates.Aggregate(s, env.num, Ops, name, sub) + Aggregates.Signed(Ops, op, v)
  {
    var k := Delta(name, sub, op, text, env.txid);
    MatchingAfterPut(s, k, Sentinel, name, Some(sub));
    Aggregates.SumOverAdd(env.num, Ops, Matching(s, name, Some(sub)), k);
  }

  /** Two insertions of the same update in one transaction write the same
      key, so the second one changes nothing: the delta counts once. */
  lemma SameTransactionInsertsOnce(s: Store, env: Env, args: seq<string>)
    requires Insert(s, env, args).result.Ok?
    ensures var once := Insert(s, env, args).store;
            Insert(once, env, args) == Outcome(once, Ok(()))
  {
  }

  /** The first insertion of a variable creates it with the inserted value. */
  lemma InsertThenGet(s: Store, env: Env, name: string, sub: string, text: string, v: real)
    requires env.num.parse(text) == Some(v)
    requires Matching(s, name, Some(sub)) == {}
    requires !env.faults.scanBroken
    requires Insert(s, env, [name, sub, text, "+"]).result.Ok?
    ensures Get(Insert(s, env, [name, sub, text, "+"]).store, env, [name, sub]) == Ok(v)
  {
    var k := Delta(name, sub, "+", text, env.txid);
    var t := Insert(s, env, [name, sub, text, "+"]).store;
    MatchingAfterPut(s, k, Sentinel, name, Some(sub));
    assert Matching(t, name, Some(sub)) == {k};
    Aggregates.AggregateOfOneRow(t, env.num, Ops, name, sub, k);
    assert CompositeKeys.ValidAttributes([name, sub]) by {
      assert CompositeKeys.ValidAttributes([name, sub, "+", text, env.txid]);
      assert [name, sub, "+", text, env.txid][0] == name;
      assert [name, sub, "+", text, env.txid][1] == sub;
    }
  }

  /** The variable left by a prune that wrote `row` as its only row. */
  lemma ValueAfterPrune(t: Store, env: Env, name: string, sub: string, row: Key, total: real)
    requires row.Delta? && row.op == "+" && env.num.parse(row.val) == Some(total)
    requires Matching(t, name, Some(sub)) == {row}
    requires Scan(t, env.faults, name, Some(sub)).Ok?
    ensures Get(t, env, [name, sub]) == Ok(total)
  {
    Aggregates.AggregateOfOneRow(t, env.num, Ops, name, sub, row);
  }

  /** When Get answers and no row of the variable is undeletable, FAST's
      first loop deletes every scanned row and folds them into Get's
      answer. */
  lemma FastDrainsAll(s: Store, env: Env, name: string, sub: string, rows: seq<Key>, total: real)
    requires Scan(s, env.faults, name, Some(sub)) == Ok(rows)
    requires Get(s, env, [name, sub]) == Ok(total)
    requires Matching(s, name, Some(sub)) !! env.faults.undeletable
    ensures rows != []
    ensures FastDrain(s, env, name, sub, rows) == Outcome(s - Elems(rows), Ok(total))
    ensures Matching(s - Elems(rows), name, Some(sub)) == {}
  {
    Aggregates.ScanSumIsAggregate(s, env.faults, env.num, Ops, name, sub);
    assert Elems(rows) == Matching(s, name, Some(sub));
    MatchingAfterDelete(s, Elems(rows), name, Some(sub));
  }

  /** As written, a PRUNE_FAST that did its job -- the rows are folded into
      one row that carries the same value -- reports the error meant for a
      lost variable, naming the very total it kept. */
  lemma PruneFastReportsSuccessAsError(s: Store, env: Env, name: string, sub: string, rows: seq<Key>, total: real)
    requires Scan(s, env.faults, name, Some(sub)) == Ok(rows)
    requires Get(s, env, [name, sub]) == Ok(total)
    requires env.num.parse(env.num.shortest(total)) == Some(total)
    requires Matching(s, name, Some(sub)) !! env.faults.undeletable
    requires && CompositeKeys.ValidAttributes([name, sub, "+", env.num.shortest(total), env.txid])
             && Delta(name, sub, "+", env.num.shortest(total), env.txid) !in env.faults.unwritable
    ensures var o := PruneFast(s, env, name, sub, rows);
            && o.result == Err(PruneLostVariable(total))
            && Get(o.store, env, [name, sub]) == Ok(total)
  {
    FastDrainsAll(s, env, name, sub, rows, total);
    var text := env.num.shortest(total);
    var row := FinalRow(name, sub, text, env.txid);
    var ins := Insert(s - Elems(rows), env, [name, sub, text, "+"]);
    assert ins.result.Ok?;
    MatchingAfterPut(s - Elems(rows), row, Sentinel, name, Some(sub));
    ValueAfterPrune(ins.store, env, name, sub, row, total);
  }

  /** As written, a PRUNE_FAST whose final insertion is refused deletes
      every row of the variable and still reports success. */
  lemma PruneFastReportsLossAsSuccess(s: Store, env: Env, name: string, sub: string, rows: seq<Key>, total: real)
    requires Scan(s, env.faults, name, Some(sub)) == Ok(rows)
    requires Get(s, env, [name, sub]) == Ok(total)
    requires Matching(s, name, Some(sub)) !! env.faults.undeletable
    requires Delta(name, sub, "+", env.num.shortest(total), env.txid) in env.faults.unwritable
    ensures var o := PruneFast(s, env, name, sub, rows);
            && o.result == Ok(true)
            && Get(o.store, env, [name, sub]) == Err(NoSuchVariable(name))
  {
    FastDrainsAll(s, env, name, sub, rows, total);
  }

  /** PRUNE_FAST with the test on the final insertion the right way round:
      success when the row carrying the total is written, an error saying
      the variable is lost when it is not. */
  function PruneFastIntended(s: Store, env: Env, name: string, sub: string, rows: seq<Key>): (o: Outcome<bool>)
    requires Scan(s, env.faults, name, Some(sub)) == Ok(rows)
    ensures rows == [] ==> o == Outcome(s, Err(NoSuchVariable(name)))
    ensures o.result.Ok? ==>
              && o.result.value
              && Matching(o.store, name, Some(sub))
                 == {FinalRow(name, sub, env.num.shortest(Aggregates.Sum(env.num, Ops, rows)), env.txid)}
    ensures o.result.Err? && o.result.error.PruneLostVariable? ==>
              && o.result.error.total == Aggregates.Sum(env.num, Ops, rows)
              && Matching(o.store, name, Some(sub)) == {}
    ensures SameOutside(s, o.store, name, Some(sub), {})
  {
    if rows == [] then Outcome(s, Err(NoSuchVariable(name)))
    else
      var drained := FastDrain(s, env, name, sub, rows);
      if drained.result.Err? then Outcome(drained.store, Err(drained.result.error))
      else
        var total := drained.result.value;
        var ins := Insert(drained.store, env, [name, sub, env.num.shortest(total), "+"]);
        if ins.result.Err? then Outcome(ins.store, Err(PruneLostVariable(total)))
        else
          var row := FinalRow(name, sub, env.num.shortest(total), env.txid);
          PutUnderSameOutside(drained.store, row, Sentinel, name, Some(sub), {});
          MatchingAfterPut(drained.store, row, Sentinel, name, Some(sub));
          SameOutsideTrans(s, drained.store, ins.store, name, Some(sub), {});
          Outcome(ins.store, Ok(true))
  }

  /** The corrected PRUNE_FAST keeps the variable's value when it reports
      success, provided the shortest decimal text of the total reads back
      as the total. */
  lemma PruneFastIntendedKeepsValue(s: Store, env: Env, name: string, sub: string)
    requires Scan(s, env.faults, name, Some(sub)).Ok?
    requires Get(s, env, [name, sub]).Ok?
    requires var total := Get(s, env, [name, sub]).value;
             env.num.parse(env.num.shortest(total)) == Some(total)
    requires PruneFastIntended(s, env, name, sub, Scan(s, env.faults, name, Some(sub)).value).result.Ok?
    ensures var o := PruneFastIntended(s, env, name, sub, Scan(s, env.faults, name, Some(sub)).value);
            Get(o.store, env, [name, sub]) == Get(s, env, [name, sub])
  {
    var rows := Scan(s, env.faults, name, Some(sub)).value;
    var total := Get(s, env, [name, sub]).value;
    Aggregates.ScanSumIsAggregate(s, env.faults, env.num, Ops, name, sub);
    var o := PruneFastIntended(s, env, name, sub, rows);
    ValueAfterPrune(o.store, env, name, sub, FinalRow(name, sub, env.num.shortest(total), env.txid), total);
  }

  /** PRUNE_SAFE keeps the variable's value when it reports success,
      provided the "%f" text of the value reads back as the value. */
  lemma PruneSafeKeepsValue(s: Store, env: Env, name: string, sub: string)
    requires Scan(s, env.faults, name, Some(sub)).Ok?
    requires Get(s, env, [name, sub]).Ok?
    requires var total := Get(s, env, [name, sub]).value;
             env.num.parse(env.num.fixed(total)) == Some(total)
    requires PruneSafe(s, env, name, sub, Scan(s, env.faults, name, Some(sub)).value).result.Ok?
    ensures var o := PruneSafe(s, env, name, sub, Scan(s, env.faults, name, Some(sub)).value);
            Get(o.store, env, [name, sub]) == Get(s, env, [name, sub])
  {
    var rows := Scan(s, env.faults, name, Some(sub)).value;
    var total := Get(s, env, [name, sub]).value;
    var o := PruneSafe(s, env, name, sub, rows);
    ValueAfterPrune(o.store, env, name, sub, FinalRow(name, sub, env.num.fixed(total), env.txid), total);
  }

  /** When PRUNE_SAFE fails to write the final row, the backup row still
      holds the value, readable whenever the shortest decimal text of the
      value reads back as the value. */
  lemma PruneSafeFailureKeepsBackup(s: Store, env: Env, name: string, sub: string)
    requires Scan(s, env.faults, name, Some(sub)).Ok?
    requires Get(s, env, [name, sub]).Ok?
    requires var total := Get(s, env, [name, sub]).value;
             env.num.parse(env.num.shortest(total)) == Some(total)
    requires PruneSafe(s, env, name, sub, Scan(s, env.faults, name, Some(sub)).value).result
             == Err(FinalInsertFailed(name, sub))
    ensures var o := PruneSafe(s, env, name, sub, Scan(s, env.faults, name, Some(sub)).value);
            && BackupKey(name, sub) in o.store
            && o.store[BackupKey(name, sub)].Text?
            && env.num.parse(o.store[BackupKey(name, sub)].text) == Some(Get(s, env, [name, sub]).value)
  {
  }

  /** The final row of a prune is accepted: its text reads as a number, its
      key is well formed, and the store takes the write. */
  predicate FinalAccepted(env: Env, name: string, sub: string, text: string) {
    && env.num.parse(text).Some?
    && CompositeKeys.ValidAttributes([name, sub, "+", text, env.txid])
    && FinalRow(name, sub, text, env.txid) !in env.faults.unwritable
  }

  /** The last two writes succeed exactly when the final row is accepted
      and the backup row can be removed. */
  lemma SafeFinishSucceeds(s: Store, env: Env, name: string, sub: string, total: real)
    requires Matching(s, name, Some(sub)) == {}
    ensures SafeFinish(s, env, name, sub, total).result == Ok(true) <==>
              FinalAccepted(env, name, sub, env.num.fixed(total)) && BackupKey(name, sub) !in env.faults.undeletable
  {
  }

  /** After the backup row, PRUNE_SAFE succeeds exactly when every row of
      the pair can be deleted and the last two writes succeed. */
  lemma SafeDrainSucceeds(s: Store, env: Env, name: string, sub: string, rows: seq<Key>, total: real)
    requires Elems(rows) == Matching(s, name, Some(sub))
    ensures SafeDrain(s, env, name, sub, rows, total).result == Ok(true) <==>
              && Matching(s, name, Some(sub)) !! env.faults.undeletable
              && FinalAccepted(env, name, sub, env.num.fixed(total))
              && BackupKey(name, sub) !in env.faults.undeletable
  {
    DeleteRowsOk(s, env.faults, rows);
    var drained := DeleteRows(s, env.faults, rows);
    if drained.result.Ok? {
      assert rows[..|rows|] == rows;
      MatchingAfterDelete(s, Elems(rows), name, Some(sub));
      SafeFinishSucceeds(drained.store, env, name, sub, total);
    }
  }

  /** Once Get answers, PRUNE_SAFE reports success exactly when each of
      its writes is accepted: the backup row, the deletion of every row of
      the pair, the final row and the removal of the backup row. */
  lemma PruneSafeSucceeds(s: Store, env: Env, name: string, sub: string, rows: seq<Key>, total: real)
    requires Scan(s, env.faults, name, Some(sub)) == Ok(rows)
    requires Get(s, env, [name, sub]) == Ok(total)
    ensures PruneSafe(s, env, name, sub, rows).result == Ok(true) <==>
              && BackupKey(name, sub) !in env.faults.unwritable
              && Matching(s, name, Some(sub)) !! env.faults.undeletable
              && FinalAccepted(env, name, sub, env.num.fixed(total))
              && BackupKey(name, sub) !in env.faults.undeletable
  {
    var backup := BackupKey(name, sub);
    if backup !in env.faults.unwritable {
      var s1 := s[backup := Text(env.num.shortest(total))];
      MatchingAfterPut(s, backup, Text(env.num.shortest(total)), name, Some(sub));
      assert Elems(rows) == Matching(s1, name, Some(sub));
      SafeDrainSucceeds(s1, env, name, sub, rows, total);
    }
  }

  /** Once Get answers and every row of the pair can be deleted, the
      corrected PRUNE_FAST reports success exactly when the final row is
      accepted, and reports the variable lost with its total exactly when
      it is refused. */
  lemma PruneFastIntendedSucceeds(s: Store, env: Env, name: string, sub: string, rows: seq<Key>, total: real)
    requires Scan(s, env.faults, name, Some(sub)) == Ok(rows)
    requires Get(s, env, [name, sub]) == Ok(total)
    requires Matching(s, name, Some(sub)) !! env.faults.undeletable
    ensures var o := PruneFastIntended(s, env, name, sub, rows);
            && (o.result == Ok(true) <==> FinalAccepted(env, name, sub, env.num.shortest(total)))
            && (o.result == Err(PruneLostVariable(total)) <==> !FinalAccepted(env, name, sub, env.num.shortest(total)))
  {
    FastDrainsAll(s, env, name, sub, rows, total);
  }
}
