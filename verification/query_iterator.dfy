/** The array-backed query iterator of util/akcqueryiterator.go, which hands
    rich-query results to chaincode the way a peer does: the state
    database's results are first collected into an array, then read back one
    by one with HasNext and Next. */
module QueryIterator {
  import opened Wrappers

  /** A row as the state database's results iterator yields it. */
  datatype VersionedKV = VersionedKV(key: string, value: string)

  /** A rich-query row: the document id and its JSON value. */
  datatype QueryResult = QueryResult(id: string, value: string)

  /** A key/value pair as chaincode receives it. */
  datatype KV = KV(key: string, value: string)

  /** The rows, None standing for a nil entry, and the position of the next
      one to hand out. */
  datatype AkcQueryIterator = AkcQueryIterator(data: seq<Option<QueryResult>>, currentLoc: nat)

  datatype IteratorError =
    | NoMoreItems       // "there is no other item in the iterator"
    | EmptyQueryResult  // "empty query result"

  /** An iterator after one call of Next, and what that call returned. */
  datatype Step = Step(it: AkcQueryIterator, result: Result<KV, IteratorError>)

  predicate HasNext(it: AkcQueryIterator) {
    it.currentLoc < |it.data|
  }

  function Length(it: AkcQueryIterator): nat {
    |it.data|
  }

  /** Hands out the next row's value under an empty key. An exhausted
      iterator reports an error and stays where it is; otherwise the
      position moves on by one, also past a nil entry, which is reported as
      an error. */
  function Next(it: AkcQueryIterator): (r: Step)
    ensures !HasNext(it) ==> r == Step(it, Err(NoMoreItems))
    ensures HasNext(it) ==> r.it == it.(currentLoc := it.currentLoc + 1)
    ensures HasNext(it) ==> (r.result.Ok? <==> it.data[it.currentLoc].Some?)
    ensures HasNext(it) && r.result.Ok? ==>
              r.result.value == KV("", it.data[it.currentLoc].value.value)
    ensures HasNext(it) && r.result.Err? ==> r.result.error == EmptyQueryResult
    ensures Length(r.it) == Length(it)
  {
    if !HasNext(it) then Step(it, Err(NoMoreItems))
    else
      var item := it.data[it.currentLoc];
      var moved := it.(currentLoc := it.currentLoc + 1);
      match item
      case None => Step(moved, Err(EmptyQueryResult))
      case Some(q) => Step(moved, Ok(KV("", q.value)))
  }

  /** Closing never fails. */
  function Close(it: AkcQueryIterator): (r: Result<(), IteratorError>)
    ensures r.Ok?
  {
    Ok(())
  }

  /** What the usual `for it.HasNext() { it.Next() }` loop sees, call by
      call. */
  function Drain(it: AkcQueryIterator): (r: seq<Result<KV, IteratorError>>)
    decreases |it.data| - it.currentLoc
  {
    if !HasNext(it) then []
    else
      var step := Next(it);
      [step.result] + Drain(step.it)
  }

  /** Draining makes one call per remaining row, each handing out that row
      in order; Length stays the number of rows throughout. */
  lemma {:induction false} DrainRemaining(it: AkcQueryIterator)
    requires it.currentLoc <= |it.data|
    ensures |Drain(it)| == Length(it) - it.currentLoc
    ensures forall i :: 0 <= i < |Drain(it)| ==>
              Drain(it)[i] == match it.data[it.currentLoc + i]
                              case None => Err(EmptyQueryResult)
                              case Some(q) => Ok(KV("", q.value))
    decreases |it.data| - it.currentLoc
  {
    if HasNext(it) {
      var step := Next(it);
      DrainRemaining(step.it);
      forall i | 0 < i < |Drain(it)|
        ensures Drain(it)[i] == Drain(step.it)[i - 1]
      {
      }
    }
  }

  // ---------------------------------------------------------------------
  // Building an iterator from the state database's results
  // ---------------------------------------------------------------------

  /** The state database's answers to successive Next calls; past the end
      of the sequence it answers nil. */
  function Answer<E>(rit: seq<Result<Option<VersionedKV>, E>>, i: nat): Result<Option<VersionedKV>, E> {
    if i < |rit| then rit[i] else Ok(None)
  }

  /** The rows collected from the results: every member up to the first nil,
      converted in order, or the first error. */
  function Collect<E>(rit: seq<Result<Option<VersionedKV>, E>>): (r: Result<seq<Option<QueryResult>>, E>)
    ensures r.Ok? ==> |r.value| <= |rit|
    ensures r.Ok? ==> forall i :: 0 <= i < |r.value| ==>
              r.value[i].Some? && rit[i] == Ok(Some(VersionedKV(r.value[i].value.id, r.value[i].value.value)))
    ensures r.Ok? ==> Answer(rit, |r.value|) == Ok(None)
    ensures r.Err? ==> exists i :: 0 <= i < |rit| && rit[i] == Err(r.error)
  {
    if rit == [] then Ok([])
    else
      match rit[0]
      case Err(e) => Err(e)
      case Ok(None) => Ok([])
      case Ok(Some(z)) =>
        match Collect(rit[1..])
        case Err(e) => assert rit[1..][0] == rit[1]; Err(e)
        case Ok(rows) => Ok([Some(QueryResult(z.key, z.value))] + rows)
  }

  /** Rows already collected in front of a collection's outcome. */
  function Prepend<E>(rows: seq<Option<QueryResult>>, r: Result<seq<Option<QueryResult>>, E>): Result<seq<Option<QueryResult>>, E> {
    match r
    case Ok(more) => Ok(rows + more)
    case Err(e) => Err(e)
  }

  /** Collecting from position `i` on looks at the member there first. */
  lemma CollectFrom<E>(rit: seq<Result<Option<VersionedKV>, E>>, i: nat)
    requires i <= |rit|
    ensures Answer(rit, i).Err? ==> Collect(rit[i..]) == Err(Answer(rit, i).error)
    ensures Answer(rit, i) == Ok(None) ==> Collect(rit[i..]) == Ok([])
    ensures Answer(rit, i).Ok? && Answer(rit, i).value.Some? ==>
              var z := Answer(rit, i).value.value;
              Collect(rit[i..]) == Prepend([Some(QueryResult(z.key, z.value))], Collect(rit[i + 1..]))
  {
    if i < |rit| {
      assert rit[i..][0] == rit[i];
      assert rit[i..][1..] == rit[i + 1..];
    }
  }

  /** Prepending in two steps is prepending the joined rows. */
  lemma PrependTwice<E>(rows: seq<Option<QueryResult>>, row: Option<QueryResult>, r: Result<seq<Option<QueryResult>>, E>)
    ensures Prepend(rows, Prepend([row], r)) == Prepend(rows + [row], r)
  {
    if r.Ok? {
      assert rows + ([row] + r.value) == (rows + [row]) + r.value;
    }
  }

  /** Reads the results until the first nil, converting every member to a
      query row; the first error is returned instead of an iterator. */
  method FromResultsIterator<E>(rit: seq<Result<Option<VersionedKV>, E>>) returns (r: Result<AkcQueryIterator, E>)
    ensures r.Err? <==> Collect(rit).Err?
    ensures r.Err? ==> r.error == Collect(rit).error
    ensures r.Ok? ==> r.value == AkcQueryIterator(Collect(rit).value, 0)
  {
    var rawData: seq<Option<QueryResult>> := [];
    var i := 0;
    assert rit[0..] == rit;
    if Collect(rit).Ok? {
      assert [] + Collect(rit).value == Collect(rit).value;
    }
    while true
      invariant 0 <= i <= |rit|
      invariant Collect(rit) == Prepend(rawData, Collect(rit[i..]))
      decreases |rit| - i
    {
      var member := Answer(rit, i);
      CollectFrom(rit, i);
      if member.Err? {
        return Err(member.error);
      }
      if member.value.None? {
        break;
      }
      var z := member.value.value;
      var row := Some(QueryResult(z.key, z.value));
      PrependTwice(rawData, row, Collect(rit[i + 1..]));
      rawData := rawData + [row];
      i := i + 1;
    }
    assert rawData + [] == rawData;
    return Ok(AkcQueryIterator(rawData, 0));
  }

  /** An iterator built from the results hands out every member's value,
      in the order the database produced them, and never a nil entry. */
  lemma FromResultsRoundTrip<E>(rit: seq<Result<Option<VersionedKV>, E>>)
    requires Collect(rit).Ok?
    ensures var d := Drain(AkcQueryIterator(Collect(rit).value, 0));
            |d| == |Collect(rit).value|
            && forall i :: 0 <= i < |d| ==> d[i] == Ok(KV("", rit[i].value.value.value))
  {
    DrainRemaining(AkcQueryIterator(Collect(rit).value, 0));
  }
}
