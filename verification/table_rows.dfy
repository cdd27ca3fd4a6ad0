/** The keyed table rows of util/util.go. A row of a table lives in the
    ledger state under the composite key built from the table name and the
    row's keys, and holds the JSON text of the row's value. Reads, inserts,
    updates and deletes each take a failure option saying whether a missing
    or an existing row is an error. */
module TableRows {
  import opened Wrappers
  import CompositeKeys

  /** The composite key of a row: table name and row keys. */
  datatype RowKey = RowKey(table: string, keys: seq<string>)

  /** The ledger state as the table functions see it: the JSON text stored
      under each composite key; an absent key reads as nil. */
  type State = map<RowKey, string>

  /** How the chaincode's values travel to and from the stored text: whether
      a value is nil or the zero value of its type, its JSON encoding (None
      when it cannot be encoded) and the decoding of a text (None when it
      does not decode). */
  datatype Codec<!V> = Codec(isZero: V -> bool, marshal: V -> Option<string>, unmarshal: string -> Option<V>)

  /** The keys at which the state store fails to read, write or delete. */
  datatype StoreFaults = StoreFaults(unreadable: set<RowKey>, unwritable: set<RowKey>, undeletable: set<RowKey>)

  datatype TableError =
    | WrongArgumentCount(expected: int, got: nat)
    | BadCompositeKey
    | ReadFailed(key: RowKey)
    | RowMissing(keys: seq<string>)
    | DecodeFailed
    | NilValue
    | RowExists
    | RowAbsent
    | EncodeFailed
    | WriteFailed(key: RowKey)
    | DeleteFailed(key: RowKey)
    | DataExists
    | DataMissing(keys: seq<string>)

  datatype MissingOption = DontFailIfMissing | FailIfMissing

  datatype OverwriteOption = DontFailUponOverwrite | FailBeforeOverwrite | FailUnlessOverwrite

  /** The state after an operation and what it returned. */
  datatype Outcome<T> = Outcome(state: State, result: Result<T, TableError>)

  /** What a read of a row saw: the composite key, whether the row exists
      and, when asked for, its decoded value. */
  datatype Found<V> = Found(key: RowKey, found: bool, value: Option<V>)

  /** A row as GetTableRow reports it. */
  datatype Row<V> = Row(found: bool, value: Option<V>)

  /** A call is well formed when it has exactly the expected number of
      arguments. */
  function CheckChaincodeFunctionCallWellFormedness(args: seq<string>, expected: int): (r: Result<(), TableError>)
    ensures r.Ok? <==> |args| == expected
    ensures r.Err? ==> r.error == WrongArgumentCount(expected, |args|)
  {
    if |args| == expected then Ok(()) else Err(WrongArgumentCount(expected, |args|))
  }

  /** The store builds a composite key only from valid attributes; the
      table name is the key's object type and is checked like them. */
  predicate ValidKey(k: RowKey) {
    CompositeKeys.ValidAttributes([k.table] + k.keys)
  }

  /** The read of the row's key succeeds and returns bytes. */
  predicate RowFound(s: State, f: StoreFaults, k: RowKey) {
    k in s && k !in f.unreadable
  }

  /** Reads the row of a table, decoding it when asked. A row is found
      exactly when its key holds a value that could be read. A missing
      row is an error only with FailIfMissing, and so is a failed read:
      without it the read error is dropped and the row reported missing. */
  function GetTableRowAndCompositeKey<V(==)>(s: State, f: StoreFaults, c: Codec<V>, table: string, keys: seq<string>,
                                         decode: bool, option: MissingOption): (r: Result<Found<V>, TableError>)
    ensures var k := RowKey(table, keys);
            && (!ValidKey(k) ==> r == Err(BadCompositeKey))
            && (r.Ok? ==> r.value.key == k)
            && (r.Ok? ==> (r.value.found <==> RowFound(s, f, k)))
            && (r.Ok? && r.value.found && decode ==> r.value.value.Some? && c.unmarshal(s[k]) == r.value.value)
            && (r.Ok? && !(r.value.found && decode) ==> r.value.value == None)
            && (ValidKey(k) && option == FailIfMissing && k in f.unreadable ==> r == Err(ReadFailed(k)))
            && (ValidKey(k) && option == FailIfMissing && k !in s && k !in f.unreadable ==> r == Err(RowMissing(keys)))
            && (ValidKey(k) ==>
                  (r.Ok? <==> (option == FailIfMissing ==> RowFound(s, f, k))
                              && (RowFound(s, f, k) && decode ==> c.unmarshal(s[k]).Some?)))
  {
    var k := RowKey(table, keys);
    if !ValidKey(k) then Err(BadCompositeKey)
    else if k in f.unreadable then
      if option == FailIfMissing then Err(ReadFailed(k)) else Ok(Found(k, false, None))
    else if k !in s then
      if option == FailIfMissing then Err(RowMissing(keys)) else Ok(Found(k, false, None))
    else if decode then
      match c.unmarshal(s[k])
      case None => Err(DecodeFailed)
      case Some(v) => Ok(Found(k, true, Some(v)))
    else Ok(Found(k, true, None))
  }

  /** Reads the row of a table, as GetTableRowAndCompositeKey does, without
      the key. */
  function GetTableRow<V(==)>(s: State, f: StoreFaults, c: Codec<V>, table: string, keys: seq<string>,
                          decode: bool, option: MissingOption): (r: Result<Row<V>, TableError>)
    ensures var k := RowKey(table, keys);
            && (r.Ok? ==> (r.value.found <==> RowFound(s, f, k)))
            && (r.Ok? && option == FailIfMissing ==> r.value.found)
            && (r.Ok? && r.value.found && decode ==> r.value.value.Some? && c.unmarshal(s[k]) == r.value.value)
            && (ValidKey(k) && option == DontFailIfMissing && !RowFound(s, f, k) ==> r == Ok(Row(false, None)))
  {
    match GetTableRowAndCompositeKey(s, f, c, table, keys, decode, option)
    case Err(e) => Err(e)
    case Ok(found) => Ok(Row(found.found, found.value))
  }

  /** Writes a row, first reading whatever is there (decoding it when asked)
      with DontFailIfMissing. FailBeforeOverwrite refuses a row that was
      found, FailUnlessOverwrite one that was not. On success exactly the
      row's key changes, to the new value's encoding, and the result says
      whether the row was found; on failure nothing changes. */
  function InsertTableRow<V(==)>(s: State, f: StoreFaults, c: Codec<V>, table: string, keys: seq<string>,
                             value: V, option: OverwriteOption, decodeOld: bool): (o: Outcome<bool>)
    ensures var k := RowKey(table, keys);
            && (o.result.Err? ==> o.state == s)
            && (o.result.Ok? ==> c.marshal(value).Some? && o.state == s[k := c.marshal(value).value])
            && (o.result.Ok? ==> o.result.value == RowFound(s, f, k))
            && (c.isZero(value) ==> o.result == Err(NilValue))
            && (o.result.Ok? <==>
                  && !c.isZero(value)
                  && ValidKey(k)
                  && (RowFound(s, f, k) && decodeOld ==> c.unmarshal(s[k]).Some?)
                  && !(option == FailBeforeOverwrite && RowFound(s, f, k))
                  && !(option == FailUnlessOverwrite && !RowFound(s, f, k))
                  && c.marshal(value).Some?
                  && k !in f.unwritable)
  {
    if c.isZero(value) then Outcome(s, Err(NilValue))
    else
      match GetTableRowAndCompositeKey(s, f, c, table, keys, decodeOld, DontFailIfMissing)
      case Err(e) => Outcome(s, Err(e))
      case Ok(prior) =>
        if option == FailBeforeOverwrite && prior.found then Outcome(s, Err(RowExists))
        else if option == FailUnlessOverwrite && !prior.found then Outcome(s, Err(RowAbsent))
        else
          match c.marshal(value)
          case None => Outcome(s, Err(EncodeFailed))
          case Some(text) =>
            if prior.key in f.unwritable then Outcome(s, Err(WriteFailed(prior.key)))
            else Outcome(s[prior.key := text], Ok(prior.found))
  }

  /** Writes a row without reading it first. */
  function UpdateTableRow<V(==)>(s: State, f: StoreFaults, c: Codec<V>, table: string, keys: seq<string>,
                             value: V): (o: Outcome<()>)
    ensures var k := RowKey(table, keys);
            && (o.result.Err? ==> o.state == s)
            && (o.result.Ok? ==> c.marshal(value).Some? && o.state == s[k := c.marshal(value).value])
            && (c.isZero(value) ==> o.result == Err(NilValue))
            && (o.result.Ok? <==> !c.isZero(value) && ValidKey(k) && c.marshal(value).Some? && k !in f.unwritable)
  {
    var k := RowKey(table, keys);
    if c.isZero(value) then Outcome(s, Err(NilValue))
    else if !ValidKey(k) then Outcome(s, Err(BadCompositeKey))
    else
      match c.marshal(value)
      case None => Outcome(s, Err(EncodeFailed))
      case Some(text) =>
        if k in f.unwritable then Outcome(s, Err(WriteFailed(k)))
        else Outcome(s[k := text], Ok(()))
  }

  /** Deletes a row, first reading it (decoding it when asked) with
      DontFailIfMissing. FailIfMissing refuses a row that was not found;
      otherwise the key is deleted, which does nothing when it is absent,
      and the result says whether the row was found. */
  function DeleteTableRow<V(==)>(s: State, f: StoreFaults, c: Codec<V>, table: string, keys: seq<string>,
                             decodeOld: bool, option: MissingOption): (o: Outcome<bool>)
    ensures var k := RowKey(table, keys);
            && (o.result.Err? ==> o.state == s)
            && (o.result.Ok? ==> o.state == s - {k} && o.result.value == RowFound(s, f, k))
            && (o.result.Ok? <==>
                  && ValidKey(k)
                  && (RowFound(s, f, k) && decodeOld ==> c.unmarshal(s[k]).Some?)
                  && !(option == FailIfMissing && !RowFound(s, f, k))
                  && k !in f.undeletable)
  {
    match GetTableRowAndCompositeKey(s, f, c, table, keys, decodeOld, DontFailIfMissing)
    case Err(e) => Outcome(s, Err(e))
    case Ok(prior) =>
      if option == FailIfMissing && !prior.found then Outcome(s, Err(RowAbsent))
      else if prior.key in f.undeletable then Outcome(s, Err(DeleteFailed(prior.key)))
      else Outcome(s - {prior.key}, Ok(prior.found))
  }

  // ---------------------------------------------------------------------
  // How the operations compose
  // ---------------------------------------------------------------------

  /** A value the codec reads back as itself. */
  predicate RoundTrips<V(==)>(c: Codec<V>, value: V) {
    c.marshal(value).Some? && c.unmarshal(c.marshal(value).value) == Some(value)
  }

  /** A row read right after it was inserted is found and holds the
      inserted value. */
  lemma InsertThenGet<V>(s: State, f: StoreFaults, c: Codec<V>, table: string, keys: seq<string>,
                         value: V, option: OverwriteOption, decodeOld: bool)
    requires InsertTableRow(s, f, c, table, keys, value, option, decodeOld).result.Ok?
    requires RowKey(table, keys) !in f.unreadable
    requires RoundTrips(c, value)
    ensures GetTableRow(InsertTableRow(s, f, c, table, keys, value, option, decodeOld).state,
                        f, c, table, keys, true, FailIfMissing) == Ok(Row(true, Some(value)))
  {
  }

  /** A row read right after it was deleted is missing: an error with
      FailIfMissing, not found without. */
  lemma DeleteThenGet<V>(s: State, f: StoreFaults, c: Codec<V>, table: string, keys: seq<string>,
                         decodeOld: bool, option: MissingOption, decode: bool)
    requires DeleteTableRow(s, f, c, table, keys, decodeOld, option).result.Ok?
    ensures var t := DeleteTableRow(s, f, c, table, keys, decodeOld, option).state;
            && GetTableRow(t, f, c, table, keys, decode, FailIfMissing).Err?
            && GetTableRow(t, f, c, table, keys, decode, DontFailIfMissing) == Ok(Row(false, None))
  {
  }

  /** Inserting the same key twice with FailBeforeOverwrite: the second
      insert fails and the first value stays. */
  lemma InsertTwiceKeepsFirst<V>(s: State, f: StoreFaults, c: Codec<V>, table: string, keys: seq<string>,
                                 first: V, second: V, decodeOld: bool)
    requires InsertTableRow(s, f, c, table, keys, first, FailBeforeOverwrite, decodeOld).result.Ok?
    requires RowKey(table, keys) !in f.unreadable
    ensures var o := InsertTableRow(s, f, c, table, keys, first, FailBeforeOverwrite, decodeOld);
            var p := InsertTableRow(o.state, f, c, table, keys, second, FailBeforeOverwrite, false);
            && p.result.Err?
            && p.state == o.state
            && p.state[RowKey(table, keys)] == c.marshal(first).value
  {
  }

  /** An update is an insert that neither reads the old row nor cares
      whether it exists: both leave the same state, and both succeed or
      both fail. */
  lemma UpdateIsUncheckedInsert<V>(s: State, f: StoreFaults, c: Codec<V>, table: string, keys: seq<string>, value: V)
    ensures var o := InsertTableRow(s, f, c, table, keys, value, DontFailUponOverwrite, false);
            var u := UpdateTableRow(s, f, c, table, keys, value);
            o.state == u.state && o.result.Ok? == u.result.Ok?
  {
  }

  /** With FailBeforeOverwrite an existing row whose read fails is
      overwritten, and the insert reports that no row was there: the read
      error is dropped by the DontFailIfMissing lookup. */
  lemma InsertOverwritesUnreadableRow<V>(s: State, f: StoreFaults, c: Codec<V>, table: string, keys: seq<string>, value: V)
    requires var k := RowKey(table, keys);
             && k in s && k in f.unreadable && k !in f.unwritable && ValidKey(k)
             && !c.isZero(value) && c.marshal(value).Some? && c.marshal(value).value != s[k]
    ensures var o := InsertTableRow(s, f, c, table, keys, value, FailBeforeOverwrite, false);
            o.result == Ok(false) && o.state[RowKey(table, keys)] != s[RowKey(table, keys)]
  {
  }

  /** InsertTableRow with a failed read reported as an error whatever the
      failure option: FailBeforeOverwrite then never replaces a row that is
      there, FailUnlessOverwrite never creates one, and success reports
      truthfully whether the row existed. */
  function InsertTableRowChecked<V(==)>(s: State, f: StoreFaults, c: Codec<V>, table: string, keys: seq<string>,
                                    value: V, option: OverwriteOption, decodeOld: bool): (o: Outcome<bool>)
    ensures var k := RowKey(table, keys);
            && (o.result.Err? ==> o.state == s)
            && (o.result.Ok? ==> c.marshal(value).Some? && o.state == s[k := c.marshal(value).value])
            && (o.result.Ok? ==> o.result.value == (k in s))
            && (option == FailBeforeOverwrite && k in s ==> o.state == s && o.result.Err?)
            && (option == FailUnlessOverwrite && k !in s ==> o.state == s && o.result.Err?)
  {
    var k := RowKey(table, keys);
    if !c.isZero(value) && ValidKey(k) && k in f.unreadable then Outcome(s, Err(ReadFailed(k)))
    else InsertTableRow(s, f, c, table, keys, value, option, decodeOld)
  }
}
