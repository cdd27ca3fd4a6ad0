/** The data-access helpers of util/daoHandle.go: create, change and read a
    record stored as a one-table row, and answer a read as a peer
    response. */
module Dao {
  import opened Wrappers
  import opened TableRows
  import MsgResponse

  /** The texts an error response carries besides its code: a description
      of a table error, the description of a failed JSON encoding, and the
      caller's source position. */
  datatype Texts = Texts(describe: TableError -> string, encodeFailure: string, line: string)

  /** Changes a record that must already exist. */
  function Changeinfo<V(==)>(s: State, f: StoreFaults, c: Codec<V>, table: string, rowKey: seq<string>, data: V): (o: Outcome<()>)
    ensures var k := RowKey(table, rowKey);
            && (o.result.Err? ==> o.state == s)
            && (o.result.Ok? ==> RowFound(s, f, k) && c.marshal(data).Some? && o.state == s[k := c.marshal(data).value])
            && (o.result.Ok? <==>
                  RowFound(s, f, k) && !c.isZero(data) && ValidKey(k) && c.marshal(data).Some? && k !in f.unwritable)
  {
    var o := InsertTableRow(s, f, c, table, rowKey, data, FailUnlessOverwrite, false);
    Outcome(o.state, if o.result.Ok? then Ok(()) else Err(o.result.error))
  }

  /** Writes a record whether or not it exists. */
  function UpdateExistingData<V(==)>(s: State, f: StoreFaults, c: Codec<V>, table: string, rowKey: seq<string>, data: V): (o: Outcome<()>)
    ensures var k := RowKey(table, rowKey);
            && (o.result.Err? ==> o.state == s)
            && (o.result.Ok? ==> c.marshal(data).Some? && o.state == s[k := c.marshal(data).value])
            && (o.result.Ok? <==> !c.isZero(data) && ValidKey(k) && c.marshal(data).Some? && k !in f.unwritable)
  {
    UpdateTableRow(s, f, c, table, rowKey, data)
  }

  /** Creates a record that must not exist yet. The old row is read and
      decoded first; a found row already fails the insert, so the
      "already exists" error of the wrapper is never the one returned. */
  function Createdata<V(==)>(s: State, f: StoreFaults, c: Codec<V>, table: string, rowKey: seq<string>, data: V): (o: Outcome<()>)
    ensures var k := RowKey(table, rowKey);
            && (o.result.Err? ==> o.state == s)
            && (o.result.Ok? ==> !RowFound(s, f, k) && c.marshal(data).Some? && o.state == s[k := c.marshal(data).value])
            && (o.result.Ok? <==>
                  !RowFound(s, f, k) && !c.isZero(data) && ValidKey(k) && c.marshal(data).Some? && k !in f.unwritable)
            && o.result != Err(DataExists)
  {
    var o := InsertTableRow(s, f, c, table, rowKey, data, FailBeforeOverwrite, true);
    match o.result
    case Err(e) => Outcome(s, Err(e))
    case Ok(found) => if found then Outcome(s, Err(DataExists)) else Outcome(o.state, Ok(()))
  }

  /** Reads a record by its row keys; a missing row is an error. */
  function Getdatabyrowkeys<V(==)>(s: State, f: StoreFaults, c: Codec<V>, rowKeys: seq<string>, table: string): (r: Result<V, TableError>)
    ensures var k := RowKey(table, rowKeys);
            && (r.Ok? <==> ValidKey(k) && RowFound(s, f, k) && c.unmarshal(s[k]).Some?)
            && (r.Ok? ==> c.unmarshal(s[k]) == Some(r.value))
  {
    match GetTableRow(s, f, c, table, rowKeys, true, FailIfMissing)
    case Err(e) => Err(e)
    case Ok(row) =>
      if !row.found then Err(DataMissing(rowKeys))
      else Ok(row.value.value)
  }

  /** Reads a record whose only row key is its id. */
  function Getdatabyid<V(==)>(s: State, f: StoreFaults, c: Codec<V>, id: string, table: string): (r: Result<V, TableError>)
    ensures var k := RowKey(table, [id]);
            && (r.Ok? <==> ValidKey(k) && RowFound(s, f, k) && c.unmarshal(s[k]).Some?)
            && (r.Ok? ==> c.unmarshal(s[k]) == Some(r.value))
  {
    Getdatabyrowkeys(s, f, c, [id], table)
  }

  /** The error response for a code: the code's description, the detail
      and the caller's position. */
  function Failure(code: string, detail: string, texts: Texts): (r: MsgResponse.Response)
    requires code in MsgResponse.ResCodeDict
    ensures r.status == MsgResponse.ERROR
    ensures MsgResponse.Open + code + MsgResponse.Between <= r.message
  {
    var msg := MsgResponse.ResCodeDict[code] + " " + detail + " " + texts.line;
    var r := MsgResponse.RespondError(MsgResponse.ResponseError(code, msg));
    assert r.message == (MsgResponse.Open + code + MsgResponse.Between) + (msg + MsgResponse.Close);
    r
  }

  /** The response to a read: AKC0004 when the read failed, AKC0003 when
      the record does not encode, and otherwise status 200 with the
      record's JSON as payload. */
  function Respond<V>(read: Result<V, TableError>, c: Codec<V>, texts: Texts): (r: MsgResponse.Response)
    ensures read.Err? ==> r.status == MsgResponse.ERROR
                          && MsgResponse.Open + MsgResponse.ERR4 + MsgResponse.Between <= r.message
    ensures read.Ok? && c.marshal(read.value).None? ==>
              r.status == MsgResponse.ERROR && MsgResponse.Open + MsgResponse.ERR3 + MsgResponse.Between <= r.message
    ensures r.status == MsgResponse.OK <==> read.Ok? && c.marshal(read.value).Some?
    ensures r.status == MsgResponse.OK && c.marshal(read.value).value != "" ==> r.payload == c.marshal(read.value).value
  {
    match read
    case Err(e) => Failure(MsgResponse.ERR4, texts.describe(e), texts)
    case Ok(data) =>
      match c.marshal(data)
      case None => Failure(MsgResponse.ERR3, texts.encodeFailure, texts)
      case Some(bytes) =>
        MsgResponse.RespondSuccess(MsgResponse.ResponseSuccess(MsgResponse.SUCCESS, MsgResponse.ResCodeDict[MsgResponse.SUCCESS], bytes))
  }

  /** Answers a read of a record by id. */
  function GetDataByID<V(==)>(s: State, f: StoreFaults, c: Codec<V>, dataID: string, table: string, texts: Texts): (r: MsgResponse.Response)
    ensures var k := RowKey(table, [dataID]);
            && (!RowFound(s, f, k) ==> r.status == MsgResponse.ERROR
                                       && MsgResponse.Open + MsgResponse.ERR4 + MsgResponse.Between <= r.message)
            && (r.status == MsgResponse.OK <==>
                  ValidKey(k) && RowFound(s, f, k) && c.unmarshal(s[k]).Some? && c.marshal(c.unmarshal(s[k]).value).Some?)
  {
    Respond(Getdatabyid(s, f, c, dataID, table), c, texts)
  }

  /** Answers a read of a record by row keys. */
  function GetDataByRowKeys<V(==)>(s: State, f: StoreFaults, c: Codec<V>, rowKeys: seq<string>, table: string, texts: Texts): (r: MsgResponse.Response)
    ensures var k := RowKey(table, rowKeys);
            && (!RowFound(s, f, k) ==> r.status == MsgResponse.ERROR
                                       && MsgResponse.Open + MsgResponse.ERR4 + MsgResponse.Between <= r.message)
            && (r.status == MsgResponse.OK <==>
                  ValidKey(k) && RowFound(s, f, k) && c.unmarshal(s[k]).Some? && c.marshal(c.unmarshal(s[k]).value).Some?)
  {
    Respond(Getdatabyrowkeys(s, f, c, rowKeys, table), c, texts)
  }

  /** Creating a record twice: the second call fails and the first value
      stays. */
  lemma CreateTwiceKeepsFirst<V>(s: State, f: StoreFaults, c: Codec<V>, table: string, rowKey: seq<string>, first: V, second: V)
    requires Createdata(s, f, c, table, rowKey, first).result.Ok?
    requires RowKey(table, rowKey) !in f.unreadable
    ensures var o := Createdata(s, f, c, table, rowKey, first);
            var p := Createdata(o.state, f, c, table, rowKey, second);
            && p.result.Err?
            && p.state == o.state
            && p.state[RowKey(table, rowKey)] == c.marshal(first).value
  {
  }

  /** A record read back after it was created is the created value. */
  lemma CreateThenRead<V>(s: State, f: StoreFaults, c: Codec<V>, table: string, id: string, data: V)
    requires Createdata(s, f, c, table, [id], data).result.Ok?
    requires RowKey(table, [id]) !in f.unreadable
    requires RoundTrips(c, data)
    ensures Getdatabyid(Createdata(s, f, c, table, [id], data).state, f, c, id, table) == Ok(data)
  {
  }

  /** A record changed after it was created reads back as the change;
      change needs the record, create refuses it. */
  lemma CreateThenChange<V>(s: State, f: StoreFaults, c: Codec<V>, table: string, id: string, data: V, update: V)
    requires Createdata(s, f, c, table, [id], data).result.Ok?
    requires RowKey(table, [id]) !in f.unreadable && RowKey(table, [id]) !in f.unwritable
    requires !c.isZero(update) && RoundTrips(c, update)
    ensures var o := Createdata(s, f, c, table, [id], data);
            var p := Changeinfo(o.state, f, c, table, [id], update);
            p.result.Ok? && Getdatabyid(p.state, f, c, id, table) == Ok(update)
  {
  }
}

/** The older copy of the data-access helpers (util/dao_Handle.go). Its
    create, change and read functions are those of Dao; its GetDataByID
    differs: it ignores the read's error. */
module LegacyDao {
  import opened Wrappers
  import opened TableRows
  import MsgResponse
  import Dao

  /** Answers a read of a record by id. A failed read leaves the record
      nil, which encodes as "null" and is answered with status 200. */
  function GetDataByID<V(==)>(s: State, f: StoreFaults, c: Codec<V>, dataID: string, table: string, texts: Dao.Texts): (r: MsgResponse.Response)
    ensures var k := RowKey(table, [dataID]);
            && (!RowFound(s, f, k) ==> r == MsgResponse.Response(MsgResponse.OK, "null", "null"))
            && (r.status == MsgResponse.ERROR <==>
                  ValidKey(k) && RowFound(s, f, k) && c.unmarshal(s[k]).Some? && c.marshal(c.unmarshal(s[k]).value).None?)
  {
    var bytes := match Dao.Getdatabyid(s, f, c, dataID, table)
                 case Err(_) => Some("null")
                 case Ok(data) => c.marshal(data);
    match bytes
    case None => Dao.Failure(MsgResponse.ERR3, texts.encodeFailure, texts)
    case Some(text) =>
      MsgResponse.RespondSuccess(MsgResponse.ResponseSuccess(MsgResponse.SUCCESS, MsgResponse.ResCodeDict[MsgResponse.SUCCESS], text))
  }

  /** A missing record: the older helper answers success with "null",
      while Dao.GetDataByID answers the error AKC0004. */
  lemma MissingRowAnswersNull<V>(s: State, f: StoreFaults, c: Codec<V>, dataID: string, table: string, texts: Dao.Texts)
    requires RowKey(table, [dataID]) !in s
    ensures GetDataByID(s, f, c, dataID, table, texts).status == MsgResponse.OK
    ensures GetDataByID(s, f, c, dataID, table, texts).payload == "null"
    ensures Dao.GetDataByID(s, f, c, dataID, table, texts).status == MsgResponse.ERROR
  {
  }
}
