/**
 * The DHCP lease table (dhcp_lease_db.py): a store of lease rows, searched by
 * MAC address with a first-match scan, and changed by insert, update (an
 * upsert keyed by MAC address) and delete, each in a transaction whose commit
 * outcome is an input of the model.
 */
module LeaseDb {
  import opened Wrappers

  /** The outcomes a blocking transaction commit can report. */
  datatype Status = Unchanged | Incomplete | Aborted | Success | TryAgain | NotLocked | Error

  /**
   * One DHCP_Lease row. expiry_time, mac_address and ip_address hold one
   * string each; client_hostname and client_id are optional columns that hold
   * zero or one string.
   */
  datatype Row = Row(expiryTime: string, macAddress: string, ipAddress: string,
                     clientHostname: Option<string>, clientId: Option<string>)

  /**
   * The lease entry dictionary handed to the store; None is Python's None,
   * which means "leave this column alone".
   */
  datatype Entry = Entry(expiryTime: Option<string>, macAddr: Option<string>, ipAddr: Option<string>,
                         clientHostname: Option<string>, clientId: Option<string>)

  /** The five columns, in the order the store writes them. */
  datatype Column = ExpiryTime | MacAddress | IpAddress | ClientHostname | ClientId

  /** True for the columns that may hold no value at all. */
  predicate IsOptional(c: Column) {
    c == ClientHostname || c == ClientId
  }

  /** What column `c` of `row` holds; a one-value column always holds Some. */
  function Get(row: Row, c: Column): (v: Option<string>)
    ensures !IsOptional(c) ==> v.Some?
  {
    match c
    case ExpiryTime => Some(row.expiryTime)
    case MacAddress => Some(row.macAddress)
    case IpAddress => Some(row.ipAddress)
    case ClientHostname => row.clientHostname
    case ClientId => row.clientId
  }

  /** The entry's value for column `c` (the entry keys map one to one onto the columns). */
  function Field(e: Entry, c: Column): Option<string> {
    match c
    case ExpiryTime => e.expiryTime
    case MacAddress => e.macAddr
    case IpAddress => e.ipAddr
    case ClientHostname => e.clientHostname
    case ClientId => e.clientId
  }

  /** A row freshly inserted by a transaction: every column at its default. */
  const DefaultRow := Row("", "", "", None, None)

  /**
   * Writes every entry field that is not None into its column and keeps the
   * other columns; the status it reports is always success.
   */
  function SetColumnValue(row: Row, e: Entry): (r: (Row, Status))
    ensures r.1 == Success
    ensures forall c :: Field(e, c).Some? ==> Get(r.0, c) == Field(e, c)
    ensures forall c :: Field(e, c).None? ==> Get(r.0, c) == Get(row, c)
  {
    var written := Row(
      if e.expiryTime.Some? then e.expiryTime.value else row.expiryTime,
      if e.macAddr.Some? then e.macAddr.value else row.macAddress,
      if e.ipAddr.Some? then e.ipAddr.value else row.ipAddress,
      if e.clientHostname.Some? then e.clientHostname else row.clientHostname,
      if e.clientId.Some? then e.clientId else row.clientId);
    (written, Success)
  }

  /** The row an insert of `e` creates. */
  function NewRow(e: Entry): Row {
    SetColumnValue(DefaultRow, e).0
  }

  /** Writing the same entry twice is the same as writing it once. */
  lemma SetColumnValueIdempotent(row: Row, e: Entry)
    ensures SetColumnValue(SetColumnValue(row, e).0, e).0 == SetColumnValue(row, e).0
  {
  }

  /** An entry with every field present overwrites the whole row: the old row does not matter. */
  lemma FullEntryOverwrites(row1: Row, row2: Row, e: Entry)
    requires forall c :: Field(e, c).Some?
    ensures SetColumnValue(row1, e).0 == SetColumnValue(row2, e).0
  {
    var r1, r2 := SetColumnValue(row1, e).0, SetColumnValue(row2, e).0;
    forall c ensures Get(r1, c) == Get(r2, c) {
    }
    assert Get(r1, ExpiryTime) == Get(r2, ExpiryTime);
    assert Get(r1, MacAddress) == Get(r2, MacAddress);
    assert Get(r1, IpAddress) == Get(r2, IpAddress);
    assert Get(r1, ClientHostname) == Get(r2, ClientHostname);
    assert Get(r1, ClientId) == Get(r2, ClientId);
  }

  /** Position of the first row, in iteration order, whose MAC address is `mac`. */
  function FirstMatch(rows: seq<Row>, mac: string): (r: Option<nat>)
    ensures r.Some? ==> r.value < |rows| && rows[r.value].macAddress == mac
    ensures r.Some? ==> forall j :: 0 <= j < r.value ==> rows[j].macAddress != mac
    ensures r.None? <==> forall j :: 0 <= j < |rows| ==> rows[j].macAddress != mac
  {
    if rows == [] then None
    else if rows[0].macAddress == mac then Some(0)
    else match FirstMatch(rows[1..], mac)
      case None => None
      case Some(i) => Some(i + 1)
  }

  /** Number of rows whose MAC address is `mac`. */
  function CountMac(rows: seq<Row>, mac: string): nat {
    if rows == [] then 0
    else (if rows[0].macAddress == mac then 1 else 0) + CountMac(rows[1..], mac)
  }

  lemma {:induction false} CountMacAppend(a: seq<Row>, b: seq<Row>, mac: string)
    ensures CountMac(a + b, mac) == CountMac(a, mac) + CountMac(b, mac)
  {
    if a == [] {
      assert a + b == b;
    } else {
      assert (a + b)[1..] == a[1..] + b;
      CountMacAppend(a[1..], b, mac);
    }
  }

  /** The table is found by MAC address exactly when some row carries it. */
  lemma {:induction false} CountMacPositive(rows: seq<Row>, mac: string)
    ensures CountMac(rows, mac) > 0 <==> FirstMatch(rows, mac).Some?
  {
    if rows != [] {
      CountMacPositive(rows[1..], mac);
    }
  }

  /** The rows an insert stages: one new row at the end, no check for an existing MAC. */
  function Inserted(rows: seq<Row>, e: Entry): (r: seq<Row>)
    ensures |r| == |rows| + 1 && r[..|rows|] == rows && r[|rows|] == NewRow(e)
  {
    rows + [NewRow(e)]
  }

  /**
   * The rows an update stages: the first row with MAC `mac` gets the entry's
   * fields written; with no such row it stages an insert.
   */
  function Updated(rows: seq<Row>, mac: string, e: Entry): (r: seq<Row>)
    ensures FirstMatch(rows, mac).Some? ==> |r| == |rows|
    ensures FirstMatch(rows, mac).Some? ==>
      var i := FirstMatch(rows, mac).value;
      r[i] == SetColumnValue(rows[i], e).0 && forall j :: 0 <= j < |rows| && j != i ==> r[j] == rows[j]
    ensures FirstMatch(rows, mac).None? ==> r == Inserted(rows, e)
  {
    match FirstMatch(rows, mac)
    case Some(i) => rows[i := SetColumnValue(rows[i], e).0]
    case None => Inserted(rows, e)
  }

  /** The rows a delete stages: the first row with MAC `mac` removed, the rest kept in order. */
  function Deleted(rows: seq<Row>, mac: string): (r: seq<Row>)
    ensures FirstMatch(rows, mac).None? ==> r == rows
    ensures FirstMatch(rows, mac).Some? ==>
      var i := FirstMatch(rows, mac).value;
      && |r| == |rows| - 1
      && multiset(r) + multiset{rows[i]} == multiset(rows)
      && (forall j :: 0 <= j < i ==> r[j] == rows[j])
      && (forall j :: i <= j < |r| ==> r[j] == rows[j + 1])
  {
    match FirstMatch(rows, mac)
    case None => rows
    case Some(i) =>
      assert rows == rows[..i] + [rows[i]] + rows[i + 1..];
      rows[..i] + rows[i + 1..]
  }

  /**
   * The table after a commit: the staged rows are seen exactly when the
   * commit succeeded (or staged nothing new), the old ones otherwise.
   */
  function Committed(before: seq<Row>, staged: seq<Row>, status: Status): (r: seq<Row>)
    ensures r == staged <==> status == Success || staged == before
    ensures r == before <==> status != Success || staged == before
  {
    if status == Success then staged else before
  }

  /** Deleting a present MAC removes exactly one row carrying it. */
  lemma DeleteRemovesOne(rows: seq<Row>, mac: string)
    requires FirstMatch(rows, mac).Some?
    ensures CountMac(Deleted(rows, mac), mac) == CountMac(rows, mac) - 1
  {
    var i := FirstMatch(rows, mac).value;
    assert rows == rows[..i] + ([rows[i]] + rows[i + 1..]);
    CountMacAppend(rows[..i], [rows[i]] + rows[i + 1..], mac);
    CountMacAppend([rows[i]], rows[i + 1..], mac);
    CountMacAppend(rows[..i], rows[i + 1..], mac);
  }

  /** An insert never replaces: a MAC already present is then present once more. */
  lemma InsertDuplicates(rows: seq<Row>, e: Entry)
    requires e.macAddr.Some?
    ensures CountMac(Inserted(rows, e), e.macAddr.value) == CountMac(rows, e.macAddr.value) + 1
  {
    CountMacAppend(rows, [NewRow(e)], e.macAddr.value);
    assert Get(NewRow(e), MacAddress) == e.macAddr;
  }

  /** After an update the table has a row for the entry's MAC, whether it was stored before or not. */
  lemma UpdateFindsMac(rows: seq<Row>, e: Entry)
    requires e.macAddr.Some?
    ensures FirstMatch(Updated(rows, e.macAddr.value, e), e.macAddr.value).Some?
    ensures |rows| <= |Updated(rows, e.macAddr.value, e)| <= |rows| + 1
  {
    var mac := e.macAddr.value;
    var r := Updated(rows, mac, e);
    match FirstMatch(rows, mac)
    case Some(i) =>
      assert Get(r[i], MacAddress) == Some(mac);
    case None =>
      assert Get(r[|rows|], MacAddress) == Some(mac);
  }

  /**
   * Insert of a new MAC followed by an update of the same MAC leaves exactly
   * one row for it, carrying the update's IP address.
   */
  lemma InsertThenUpdate(rows: seq<Row>, mac: string, e1: Entry, e2: Entry)
    requires CountMac(rows, mac) == 0
    requires e1.macAddr == Some(mac) && e2.macAddr == Some(mac) && e2.ipAddr.Some?
    ensures var t := Updated(Inserted(rows, e1), mac, e2);
      && CountMac(t, mac) == 1
      && |t| == |rows| + 1
      && t[|rows|].ipAddress == e2.ipAddr.value
  {
    var t1 := Inserted(rows, e1);
    InsertDuplicates(rows, e1);
    CountMacPositive(rows, mac);
    CountMacPositive(t1, mac);
    var i := FirstMatch(t1, mac).value;
    assert i == |rows|;
    var t2 := Updated(t1, mac, e2);
    var r := SetColumnValue(t1[i], e2).0;
    assert Get(r, MacAddress) == Some(mac) && Get(r, IpAddress) == e2.ipAddr;
    assert t2 == rows + [r];
    CountMacAppend(rows, [r], mac);
  }

  /**
   * The lease table, as the store's client sees it after each transaction.
   * Rows are listed in iteration order.
   */
  class LeaseTable {
    var rows: seq<Row>

    constructor (initial: seq<Row>)
      ensures rows == initial
    {
      rows := initial;
    }

    /**
     * Linear first-match scan. `rec` is the row the scan variable ends on:
     * the first match when found, otherwise the last row visited (None when
     * the table is empty).
     */
    method FindRowByMacAddr(mac: string) returns (rec: Option<nat>, found: bool)
      ensures found <==> exists j :: 0 <= j < |rows| && rows[j].macAddress == mac
      ensures found ==> rec == FirstMatch(rows, mac)
      ensures !found ==> rec == if rows == [] then None else Some(|rows| - 1)
    {
      found := false;
      rec := None;
      var i := 0;
      while i < |rows|
        invariant 0 <= i <= |rows|
        invariant forall j :: 0 <= j < i ==> rows[j].macAddress != mac
        invariant rec == if i == 0 then None else Some(i - 1)
      {
        rec := Some(i);
        if rows[i].macAddress == mac {
          found := true;
          break;
        }
        i := i + 1;
      }
    }

    /** Inserts one row holding the entry's fields; returns the row and the commit outcome. */
    method InsertRow(e: Entry, commit: Status) returns (row: Row, status: Status)
      modifies this
      ensures row == NewRow(e) && status == commit
      ensures rows == Committed(old(rows), Inserted(old(rows), e), commit)
    {
      var (r, _) := SetColumnValue(DefaultRow, e);
      row := r;
      if commit == Success {
        rows := rows + [row];
      }
      status := commit;
    }

    /** Upsert keyed by `mac`: writes the entry into the first matching row, or inserts. */
    method UpdateRow(mac: string, e: Entry, commit: Status) returns (row: Row, status: Status)
      modifies this
      ensures status == commit
      ensures rows == Committed(old(rows), Updated(old(rows), mac, e), commit)
      ensures FirstMatch(old(rows), mac).Some? ==>
        row == SetColumnValue(old(rows)[FirstMatch(old(rows), mac).value], e).0
      ensures FirstMatch(old(rows), mac).None? ==> row == NewRow(e)
    {
      var rec, found := FindRowByMacAddr(mac);
      if found {
        var i := rec.value;
        var (r, _) := SetColumnValue(rows[i], e);
        row := r;
        if commit == Success {
          rows := rows[i := row];
        }
        status := commit;
      } else {
        row, status := InsertRow(e, commit);
      }
    }

    /** Deletes the first row with MAC `mac`; with none, reports Unchanged and changes nothing. */
    method DeleteRow(mac: string, commit: Status) returns (found: bool, status: Status)
      modifies this
      ensures found <==> FirstMatch(old(rows), mac).Some?
      ensures !found ==> status == Unchanged && rows == old(rows)
      ensures found ==> status == commit && rows == Committed(old(rows), Deleted(old(rows), mac), commit)
    {
      var rec;
      rec, found := FindRowByMacAddr(mac);
      status := Unchanged;
      if found {
        var i := rec.value;
        if commit == Success {
          rows := rows[..i] + rows[i + 1..];
        }
        status := commit;
      }
    }
  }
}
