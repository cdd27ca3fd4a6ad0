/** The delta ledger shared by both counter packages: the keys it writes,
    the store it writes them to, the prefix scan, and the operations whose
    code is identical in the two packages (insertion of one delta row and
    deletion of a whole variable).

    Every update of a variable is a write-once row whose composite key
    `varName~key~op~value~txID` carries the whole update; the stored
    payload is the single byte 0x00. Writes are applied one at a time, so
    an error part-way through an operation returns the store as it was at
    that point. */
module Ledger {
  import opened Wrappers
  import Orders
  import CompositeKeys

  /** Object type of every delta row's composite key. */
  const DeltaIndex := "varName~key~op~value~txID"

  datatype Key =
    | Delta(name: string, sub: string, op: string, val: string, txid: string)
    | Plain(text: string)

  /** The payload of a delta row is the byte 0x00; a backup row holds the
      text of a number. */
  datatype Payload = Sentinel | Text(text: string)

  type Store = map<Key, Payload>

  /** The operator names of one package: "OP_ADD"/"OP_SUB" or "+"/"-". */
  datatype Dialect = Dialect(add: string, sub: string)

  /** Numeric text, which the model does not interpret itself:
      `parse` is strconv.ParseFloat, `general` is the "%v" verb,
      `shortest` is strconv.FormatFloat(f, 'f', -1, 64) and `fixed` is the
      "%f" verb (six decimals). */
  datatype Numerals = Numerals(
    parse: string -> Option<real>,
    general: real -> string,
    shortest: real -> string,
    fixed: real -> string)

  /** Store failures: a scan that cannot be opened, keys whose write or
      deletion the store refuses. */
  datatype Faults = Faults(scanBroken: bool, unwritable: set<Key>, undeletable: set<Key>)

  /** What an invocation sees of its surroundings: the transaction id, the
      numeric text functions and the store's failures. */
  datatype Env = Env(txid: string, num: Numerals, faults: Faults)

  datatype Error =
    | WrongArgumentCount(expected: nat)
    | NotANumber(text: string)
    | UnknownOperator(op: string)
    | UnsupportedPruneType(pruneType: string)
    | NoSuchVariable(name: string)
    | BadCompositeKey(name: string)
    | ScanFailed(name: string)
    | WriteFailed(key: Key)
    | DeleteFailed(key: Key)
    | NilSliceIndex
    | ReadBeforePruneFailed(name: string, sub: string)
    | BackupWriteFailed(name: string)
    | FinalInsertFailed(name: string, sub: string)
    | BackupNotRemoved(name: string)
    | PruneLostVariable(total: real)

  /** The store after an invocation, with what the invocation returned. */
  datatype Outcome<+T> = Outcome(store: Store, result: Result<T, Error>)

  /** Key of the temporary backup row of a safe prune. */
  function BackupKey(name: string, sub: string): Key {
    Plain(name + "_" + sub + "_PRUNE_BACKUP")
  }

  /** The sub-key a plain key is the backup key of, for the given name. */
  function BackupSub(k: Key, name: string): (r: Option<string>)
    ensures r.Some? ==> k == BackupKey(name, r.value)
  {
    var suffix := "_PRUNE_BACKUP";
    if k.Plain? && |k.text| >= |name| + 1 + |suffix|
       && k.text[..|name| + 1] == name + "_" && k.text[|k.text| - |suffix|..] == suffix
    then
      var sub := k.text[|name| + 1..|k.text| - |suffix|];
      assert k.text == k.text[..|name| + 1] + sub + k.text[|k.text| - |suffix|..];
      Some(sub)
    else None
  }

  /** Within one name, the backup key names its sub-key. */
  lemma BackupSubOfBackupKey(name: string, sub: string)
    ensures BackupSub(BackupKey(name, sub), name) == Some(sub)
  {
    var t := BackupKey(name, sub).text;
    assert t == name + "_" + sub + "_PRUNE_BACKUP";
    assert t[..|name| + 1] == name + "_";
    assert t[|t| - |"_PRUNE_BACKUP"|..] == "_PRUNE_BACKUP";
    assert t[|name| + 1..|t| - |"_PRUNE_BACKUP"|] == sub;
  }

  // ----- key order -----

  function Fields(k: Key): seq<string>
    requires k.Delta?
  {
    [k.name, k.sub, k.op, k.val, k.txid]
  }

  /** Order of keys in the store: composite keys (which start with U+0000)
      before plain keys, composite keys attribute by attribute. */
  function KeyLt(a: Key, b: Key): bool {
    match (a, b)
    case (Delta(_, _, _, _, _), Delta(_, _, _, _, _)) => Orders.FieldsLt(Fields(a), Fields(b))
    case (Delta(_, _, _, _, _), Plain(_)) => true
    case (Plain(_), Delta(_, _, _, _, _)) => false
    case (Plain(x), Plain(y)) => Orders.StringLt(x, y)
  }

  lemma FieldsInjective(a: Key, b: Key)
    requires a.Delta? && b.Delta? && Fields(a) == Fields(b)
    ensures a == b
  {
    assert Fields(a)[0] == Fields(b)[0] && Fields(a)[1] == Fields(b)[1];
    assert Fields(a)[2] == Fields(b)[2] && Fields(a)[3] == Fields(b)[3];
    assert Fields(a)[4] == Fields(b)[4];
  }

  lemma KeyOrder()
    ensures Orders.StrictTotalOrder(KeyLt)
  {
    Orders.FieldsOrder();
    Orders.StringOrder();
    forall a, b | a != b ensures KeyLt(a, b) || KeyLt(b, a) {
      if a.Delta? && b.Delta? {
        if Fields(a) == Fields(b) {
          FieldsInjective(a, b);
        }
      }
    }
  }

  // ----- store primitives -----

  function Put(s: Store, f: Faults, k: Key, p: Payload): (r: Result<Store, Error>)
    ensures r.Ok? <==> k !in f.unwritable
    ensures r.Ok? ==> r.value == s[k := p]
  {
    if k in f.unwritable then Err(WriteFailed(k)) else Ok(s[k := p])
  }

  function Del(s: Store, f: Faults, k: Key): (r: Result<Store, Error>)
    ensures r.Ok? <==> k !in f.undeletable
    ensures r.Ok? ==> r.value == s - {k}
  {
    if k in f.undeletable then Err(DeleteFailed(k)) else Ok(s - {k})
  }

  /** A key lies under the scanned prefix (name) or (name, sub). */
  predicate Under(k: Key, name: string, sub: Option<string>) {
    k.Delta? && k.name == name && (sub.Some? ==> k.sub == sub.value)
  }

  function Matching(s: Store, name: string, sub: Option<string>): (m: set<Key>)
    ensures forall k :: k in m <==> k in s && Under(k, name, sub)
  {
    set k | k in s && Under(k, name, sub)
  }

  function PrefixAttributes(name: string, sub: Option<string>): seq<string> {
    if sub.Some? then [name, sub.value] else [name]
  }

  /** GetStateByPartialCompositeKey: the delta rows under the prefix, in
      key order, taken as a snapshot when the scan is opened. */
  function Scan(s: Store, f: Faults, name: string, sub: Option<string>): (r: Result<seq<Key>, Error>)
    ensures r.Ok? <==> !f.scanBroken && CompositeKeys.ValidAttributes(PrefixAttributes(name, sub))
    ensures r.Ok? ==> forall k :: k in r.value <==> k in s && Under(k, name, sub)
    ensures r.Ok? ==> forall i :: 0 <= i < |r.value| ==> Under(r.value[i], name, sub)
    ensures r.Ok? ==> Orders.StrictlySorted(r.value, KeyLt)
    ensures r.Ok? ==> |r.value| == |Matching(s, name, sub)|
  {
    if f.scanBroken || !CompositeKeys.ValidAttributes(PrefixAttributes(name, sub)) then
      Err(ScanFailed(name))
    else
      KeyOrder();
      Ok(Orders.Enumerate(Matching(s, name, sub), KeyLt))
  }

  /** A scan yields exactly the rows under its prefix. */
  lemma ScanElems(s: Store, f: Faults, name: string, sub: Option<string>)
    requires Scan(s, f, name, sub).Ok?
    ensures Elems(Scan(s, f, name, sub).value) == Matching(s, name, sub)
  {
  }

  /** Scanned rows repeat no key. */
  lemma ScanDistinct(rows: seq<Key>)
    requires Orders.StrictlySorted(rows, KeyLt)
    ensures forall i, j :: 0 <= i < j < |rows| ==> rows[i] != rows[j]
  {
    KeyOrder();
    Orders.SortedDistinct(rows, KeyLt);
  }

  function Elems(rows: seq<Key>): set<Key> {
    set k | k in rows
  }

  /** Index of the first row the store refuses to delete, |rows| if none. */
  function FirstUndeletable(rows: seq<Key>, f: Faults): (i: nat)
    ensures i <= |rows|
    ensures forall j :: 0 <= j < i ==> rows[j] !in f.undeletable
    ensures i < |rows| ==> rows[i] in f.undeletable
  {
    if rows == [] || rows[0] in f.undeletable then 0
    else 1 + FirstUndeletable(rows[1..], f)
  }

  /** Deletes the rows one after the other, stopping at the first failure. */
  function DeleteRows(s: Store, f: Faults, rows: seq<Key>): (o: Outcome<()>)
    ensures o.store == s - Elems(rows[..FirstUndeletable(rows, f)])
    ensures o.result.Ok? <==> FirstUndeletable(rows, f) == |rows|
    ensures o.result.Err? ==> o.result.error == DeleteFailed(rows[FirstUndeletable(rows, f)])
    decreases |rows|
  {
    if rows == [] then Outcome(s, Ok(()))
    else
      match Del(s, f, rows[0])
      case Err(e) =>
        assert rows[..0] == [];
        Outcome(s, Err(e))
      case Ok(s') =>
        var o := DeleteRows(s', f, rows[1..]);
        var i := FirstUndeletable(rows[1..], f);
        assert rows[..i + 1] == [rows[0]] + rows[1..][..i];
        assert Elems(rows[..i + 1]) == {rows[0]} + Elems(rows[1..][..i]);
        o
  }

  /** Deleting the rows succeeds exactly when none of them is undeletable. */
  lemma DeleteRowsOk(s: Store, f: Faults, rows: seq<Key>)
    ensures DeleteRows(s, f, rows).result.Ok? <==> Elems(rows) !! f.undeletable
  {
    var i := FirstUndeletable(rows, f);
    if i < |rows| {
      assert rows[i] in Elems(rows) * f.undeletable;
    }
  }

  /** Outside the prefix (name[, sub]) and the given backup keys, `t` holds
      exactly what `s` holds. */
  ghost predicate SameOutside(s: Store, t: Store, name: string, sub: Option<string>, backups: set<Key>) {
    forall k :: !Under(k, name, sub) && k !in backups ==> (k in s <==> k in t) && (k in t ==> t[k] == s[k])
  }

  lemma SameOutsideTrans(s: Store, t: Store, u: Store, name: string, sub: Option<string>, backups: set<Key>)
    requires SameOutside(s, t, name, sub, backups) && SameOutside(t, u, name, sub, backups)
    ensures SameOutside(s, u, name, sub, backups)
  {
  }

  /** Writing a key under the prefix changes nothing outside it. */
  lemma PutUnderSameOutside(s: Store, k: Key, p: Payload, name: string, sub: Option<string>, backups: set<Key>)
    requires Under(k, name, sub) || k in backups
    ensures SameOutside(s, s[k := p], name, sub, backups)
  {
  }

  /** A store that only lost keys under the prefix is the same outside it. */
  lemma ShrunkUnderSameOutside(s: Store, t: Store, name: string, sub: Option<string>)
    requires forall k :: k in t ==> k in s && t[k] == s[k]
    requires forall k :: k in s && !Under(k, name, sub) ==> k in t
    ensures SameOutside(s, t, name, sub, {})
  {
  }

  /** Writing or deleting a key outside the prefix leaves the prefix's rows alone. */
  lemma MatchingAfterPut(s: Store, k: Key, p: Payload, name: string, sub: Option<string>)
    ensures Under(k, name, sub) ==> Matching(s[k := p], name, sub) == Matching(s, name, sub) + {k}
    ensures !Under(k, name, sub) ==> Matching(s[k := p], name, sub) == Matching(s, name, sub)
  {
  }

  lemma MatchingAfterDelete(s: Store, gone: set<Key>, name: string, sub: Option<string>)
    ensures Matching(s - gone, name, sub) == Matching(s, name, sub) - gone
  {
  }

  // ----- operations common to both packages -----

  /** The key a successful insertion writes. */
  function DeltaKey(args: seq<string>, txid: string): Key
    requires |args| == 4
  {
    Delta(args[0], args[1], args[3], args[2], txid)
  }

  /** Insert(name, key, value, op): validates the arguments, then writes one
      delta row with payload 0x00 under (name, key, op, value, txID). */
  function InsertRow(s: Store, env: Env, d: Dialect, args: seq<string>): (o: Outcome<()>)
    ensures o.result.Ok? <==>
              && |args| == 4
              && env.num.parse(args[2]).Some?
              && (args[3] == d.add || args[3] == d.sub)
              && CompositeKeys.ValidAttributes(Fields(DeltaKey(args, env.txid)))
              && DeltaKey(args, env.txid) !in env.faults.unwritable
    ensures o.result.Ok? ==> o.store == s[DeltaKey(args, env.txid) := Sentinel]
    ensures o.result.Err? ==> o.store == s
    ensures |args| != 4 ==> o.result == Err(WrongArgumentCount(4))
    ensures |args| == 4 && env.num.parse(args[2]).None? ==> o.result == Err(NotANumber(args[2]))
    ensures (|args| == 4 && env.num.parse(args[2]).Some? && args[3] != d.add && args[3] != d.sub)
              ==> o.result == Err(UnknownOperator(args[3]))
  {
    if |args| != 4 then Outcome(s, Err(WrongArgumentCount(4)))
    else
      var name, sub, val, op := args[0], args[1], args[2], args[3];
      if env.num.parse(val).None? then Outcome(s, Err(NotANumber(val)))
      else if op != d.add && op != d.sub then Outcome(s, Err(UnknownOperator(op)))
      else
        var k := Delta(name, sub, op, val, env.txid);
        if !CompositeKeys.ValidAttributes(Fields(k)) then Outcome(s, Err(BadCompositeKey(name)))
        else
          match Put(s, env.faults, k, Sentinel)
          case Err(e) => Outcome(s, Err(e))
          case Ok(s') => Outcome(s', Ok(()))
  }

  /** Delete(name, key): removes every delta row of the pair. */
  function DeleteVariable(s: Store, env: Env, args: seq<string>): (o: Outcome<bool>)
    ensures |args| != 2 ==> o == Outcome(s, Err(WrongArgumentCount(2)))
    ensures o.result.Ok? <==> && |args| == 2 && !env.faults.scanBroken
                              && CompositeKeys.ValidAttributes([args[0], args[1]])
                              && Matching(s, args[0], Some(args[1])) != {}
                              && Matching(s, args[0], Some(args[1])) !! env.faults.undeletable
    ensures o.result.Ok? ==> o.result.value
    ensures o.result.Ok? ==>
              && |args| == 2
              && Matching(s, args[0], Some(args[1])) != {}
              && o.store == s - Matching(s, args[0], Some(args[1]))
    ensures (&& |args| == 2 && !env.faults.scanBroken
             && CompositeKeys.ValidAttributes([args[0], args[1]])
             && Matching(s, args[0], Some(args[1])) == {})
              ==> o == Outcome(s, Err(NoSuchVariable(args[0])))
    ensures |args| == 2 ==> forall k :: k in s && !Under(k, args[0], Some(args[1])) ==> k in o.store && o.store[k] == s[k]
    ensures forall k :: k in o.store ==> k in s && o.store[k] == s[k]
  {
    if |args| != 2 then Outcome(s, Err(WrongArgumentCount(2)))
    else
      var name, sub := args[0], args[1];
      match Scan(s, env.faults, name, Some(sub))
      case Err(e) => Outcome(s, Err(e))
      case Ok(rows) =>
        if rows == [] then Outcome(s, Err(NoSuchVariable(name)))
        else
          var o := DeleteRows(s, env.faults, rows);
          assert rows[..|rows|] == rows;
          assert Elems(rows) == Matching(s, name, Some(sub));
          if o.result.Err? then Outcome(o.store, Err(o.result.error))
          else Outcome(o.store, Ok(true))
  }
}
