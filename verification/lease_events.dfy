/**
 * The lease-event hook (dhcp_leases.py) that dnsmasq runs as its
 * --dhcp-script: `<prog> <command> [mac] [ip] [hostname] [client_id]`, with
 * the lease expiry in the environment variable DNSMASQ_LEASE_EXPIRES. It
 * turns the call into a lease entry and one lease-table action, or lists
 * the table.
 */
module LeaseEvents {
  import opened Wrappers
  import opened LeaseDb

  /** The value every entry field starts with. */
  const Placeholder := "*"

  /** The entry before any argument is read. */
  const PlaceholderEntry := Entry(Some(Placeholder), Some(Placeholder), Some(Placeholder),
                                  Some(Placeholder), Some(Placeholder))

  /** What the hook does for a command word. */
  datatype Command = ShowLeases | AddLease | DeleteLease | UpdateLease | TftpEvent | UnknownCommand(word: string)

  /** How a call of the hook is read. */
  datatype Invocation =
    | TooFewArguments          // fewer than two argv entries: logged, exit
    | UnrecognizedArguments    // more than six argv entries: the argument parser exits
    | MissingLeaseExpiry       // a MAC is given but DNSMASQ_LEASE_EXPIRES is unset: KeyError
    | Call(command: Command, entry: Entry)

  /** Dispatch on the command word: total, and each word selects one action. */
  function ParseCommand(word: string): (c: Command)
    ensures c == ShowLeases <==> word == "init" || word == "show"
    ensures c == AddLease <==> word == "add"
    ensures c == DeleteLease <==> word == "del"
    ensures c == UpdateLease <==> word == "old"
    ensures c == TftpEvent <==> word == "tftp"
    ensures c.UnknownCommand? <==> word !in ["init", "show", "add", "del", "old", "tftp"]
    ensures c.UnknownCommand? ==> c.word == word
  {
    if word == "init" || word == "show" then ShowLeases
    else if word == "add" then AddLease
    else if word == "del" then DeleteLease
    else if word == "old" then UpdateLease
    else if word == "tftp" then TftpEvent
    else UnknownCommand(word)
  }

  /** The column filled by the positional argument at argv index `k` (2 to 5). */
  function PositionalColumn(k: int): Column
    requires 2 <= k <= 5
  {
    if k == 2 then MacAddress else if k == 3 then IpAddress else if k == 4 then ClientHostname else ClientId
  }

  /**
   * Reads argv (program name first) and the expiry variable. argv[k] for
   * 2 <= k <= 5 fills its positional column when present; the expiry is read
   * exactly when a MAC is given; every field not filled keeps "*".
   */
  function ParseInvocation(argv: seq<string>, leaseExpires: Option<string>): (inv: Invocation)
    ensures inv == TooFewArguments <==> |argv| < 2
    ensures inv == UnrecognizedArguments <==> |argv| > 6
    ensures inv == MissingLeaseExpiry <==> 2 < |argv| <= 6 && leaseExpires.None?
    ensures inv.Call? ==> inv.command == ParseCommand(argv[1])
    ensures inv.Call? ==> forall c :: Field(inv.entry, c).Some?
    ensures inv.Call? ==>
      Field(inv.entry, ExpiryTime) == if |argv| > 2 then leaseExpires else Some(Placeholder)
    ensures inv.Call? ==> forall k :: 2 <= k <= 5 ==>
      Field(inv.entry, PositionalColumn(k)) == if k < |argv| then Some(argv[k]) else Some(Placeholder)
  {
    var n := |argv|;
    if n < 2 then TooFewArguments
    else if n > 6 then UnrecognizedArguments
    else if n > 2 && leaseExpires.None? then MissingLeaseExpiry
    else
      var e0 := PlaceholderEntry;
      var e1 := if n > 2 then e0.(macAddr := Some(argv[2]), expiryTime := leaseExpires) else e0;
      var e2 := if n > 3 then e1.(ipAddr := Some(argv[3])) else e1;
      var e3 := if n > 4 then e2.(clientHostname := Some(argv[4])) else e2;
      var e4 := if n > 5 then e3.(clientId := Some(argv[5])) else e3;
      Call(ParseCommand(argv[1]), e4)
  }

  /**
   * Because every field is filled (by an argument or by "*"), an add or old
   * event writes every column: the row it writes does not depend on the row
   * it overwrites.
   */
  lemma PlaceholderWritesEveryColumn(argv: seq<string>, leaseExpires: Option<string>, row: Row)
    requires ParseInvocation(argv, leaseExpires).Call?
    ensures var e := ParseInvocation(argv, leaseExpires).entry;
      SetColumnValue(row, e).0 == NewRow(e)
      && (|argv| <= 3 ==> NewRow(e).ipAddress == Placeholder)
      && (|argv| <= 5 ==> NewRow(e).clientId == Some(Placeholder))
  {
    var e := ParseInvocation(argv, leaseExpires).entry;
    FullEntryOverwrites(row, DefaultRow, e);
    assert Field(e, PositionalColumn(3)) == Get(NewRow(e), IpAddress);
    assert Field(e, PositionalColumn(5)) == Get(NewRow(e), ClientId);
  }

  /** Python's "%s" of an entry value. */
  function Text(v: Option<string>): string {
    match v
    case Some(s) => s
    case None => "None"
  }

  /** A column value is truthy when present and, for a one-value column, non-empty. */
  predicate Truthy(c: Column, v: Option<string>) {
    v.Some? && (IsOptional(c) || v.value != "")
  }

  /**
   * The entry shown for a row: "*" for each falsy column, otherwise the
   * column's value (for the optional columns, their single element).
   */
  function ShowEntry(row: Row): (e: Entry)
    ensures forall c :: Field(e, c) == if Truthy(c, Get(row, c)) then Get(row, c) else Some(Placeholder)
  {
    Entry(
      Some(if row.expiryTime != "" then row.expiryTime else Placeholder),
      Some(if row.macAddress != "" then row.macAddress else Placeholder),
      Some(if row.ipAddress != "" then row.ipAddress else Placeholder),
      Some(if row.clientHostname.Some? then row.clientHostname.value else Placeholder),
      Some(if row.clientId.Some? then row.clientId.value else Placeholder))
  }

  /** Strings joined by single spaces. */
  function Join(fields: seq<string>): string
    requires fields != []
  {
    if |fields| == 1 then fields[0] else fields[0] + " " + Join(fields[1..])
  }

  /** Splits at every single space, as Python's str.split(" ") does. */
  function Split(s: string): (parts: seq<string>)
    ensures parts != []
  {
    if s == [] then [""]
    else if s[0] == ' ' then [""] + Split(s[1..])
    else var rest := Split(s[1..]); [[s[0]] + rest[0]] + rest[1..]
  }

  lemma {:induction false} SplitNoSpace(a: string, b: string)
    requires ' ' !in a
    ensures Split(a + b) == [a + Split(b)[0]] + Split(b)[1..]
  {
    if a != [] {
      assert (a + b)[0] == a[0];
      assert (a + b)[1..] == a[1..] + b;
      SplitNoSpace(a[1..], b);
      assert [a[0]] + (a[1..] + Split(b)[0]) == a + Split(b)[0];
    } else {
      var parts := Split(b);
      assert a + b == b && a + parts[0] == parts[0];
      assert [parts[0]] + parts[1..] == parts;
    }
  }

  /** Splitting a space-joined line gives back its fields when none holds a space. */
  lemma {:induction false} SplitJoin(fields: seq<string>)
    requires fields != []
    requires forall i :: 0 <= i < |fields| ==> ' ' !in fields[i]
    ensures Split(Join(fields)) == fields
  {
    if |fields| == 1 {
      SplitNoSpace(fields[0], "");
      assert fields[0] + "" == fields[0];
    } else {
      var tail := " " + Join(fields[1..]);
      SplitNoSpace(fields[0], tail);
      assert tail[0] == ' ' && tail[1..] == Join(fields[1..]);
      SplitJoin(fields[1..]);
      assert Split(tail) == [""] + fields[1..];
      assert fields[0] + "" == fields[0];
      assert fields[0] + " " + Join(fields[1..]) == fields[0] + tail;
    }
  }

  /** The five fields of an entry in output order: expiry, MAC, IP, hostname, client id. */
  function LineFields(e: Entry): seq<string> {
    [Text(e.expiryTime), Text(e.macAddr), Text(e.ipAddr), Text(e.clientHostname), Text(e.clientId)]
  }

  /**
   * One output line: the five fields separated by single spaces, so that it
   * splits back into them, in order, when no field holds a space.
   */
  function FormatLine(e: Entry): (line: string)
    ensures (forall i :: 0 <= i < 5 ==> ' ' !in LineFields(e)[i]) ==> Split(line) == LineFields(e)
  {
    var fields := LineFields(e);
    if forall i :: 0 <= i < 5 ==> ' ' !in fields[i] then
      SplitJoin(fields);
      Join(fields)
    else
      Join(fields)
  }

  /** The listing printed for the table: one line per row, in iteration order. */
  function Listing(rows: seq<Row>): (lines: seq<string>)
    ensures |lines| == |rows|
    ensures forall i :: 0 <= i < |rows| ==> lines[i] == FormatLine(ShowEntry(rows[i]))
  {
    if rows == [] then [] else [FormatLine(ShowEntry(rows[0]))] + Listing(rows[1..])
  }

  /**
   * The table after the store call a command makes: add inserts (another row
   * even for a stored MAC), old upserts, del removes the first row with the
   * MAC; nothing changes for the other commands or when the commit fails.
   */
  function CommandEffect(rows: seq<Row>, command: Command, e: Entry, commit: Status): (r: seq<Row>)
    requires e.macAddr.Some?
    ensures r == rows || commit == Success
    ensures command !in {AddLease, UpdateLease, DeleteLease} ==> r == rows
    ensures commit == Success && command == AddLease ==>
      |r| == |rows| + 1 && CountMac(r, e.macAddr.value) == CountMac(rows, e.macAddr.value) + 1
    ensures commit == Success && command == UpdateLease ==>
      FirstMatch(r, e.macAddr.value).Some? && |rows| <= |r| <= |rows| + 1
    ensures commit == Success && command == DeleteLease ==>
      CountMac(r, e.macAddr.value) == if CountMac(rows, e.macAddr.value) == 0 then 0 else CountMac(rows, e.macAddr.value) - 1
  {
    var mac := e.macAddr.value;
    match command
    case AddLease =>
      InsertDuplicates(rows, e);
      Committed(rows, Inserted(rows, e), commit)
    case UpdateLease =>
      UpdateFindsMac(rows, e);
      Committed(rows, Updated(rows, mac, e), commit)
    case DeleteLease =>
      CountMacPositive(rows, mac);
      if FirstMatch(rows, mac).Some? then
        DeleteRemovesOne(rows, mac);
        Committed(rows, Deleted(rows, mac), commit)
      else
        Committed(rows, Deleted(rows, mac), commit)
    case _ => rows
  }

  /** The table after a whole call of the hook. */
  function EventEffect(rows: seq<Row>, argv: seq<string>, leaseExpires: Option<string>, commit: Status): (r: seq<Row>)
    ensures !ParseInvocation(argv, leaseExpires).Call? ==> r == rows
    ensures var inv := ParseInvocation(argv, leaseExpires);
      inv.Call? && inv.command !in {AddLease, UpdateLease, DeleteLease} ==> r == rows
    ensures commit != Success ==> r == rows
    ensures var inv := ParseInvocation(argv, leaseExpires);
      inv.Call? && inv.command == AddLease ==> r == Committed(rows, Inserted(rows, inv.entry), commit)
    ensures var inv := ParseInvocation(argv, leaseExpires);
      inv.Call? && inv.command == UpdateLease ==> r == Committed(rows, Updated(rows, inv.entry.macAddr.value, inv.entry), commit)
    ensures var inv := ParseInvocation(argv, leaseExpires);
      inv.Call? && inv.command == DeleteLease ==> r == Committed(rows, Deleted(rows, inv.entry.macAddr.value), commit)
  {
    match ParseInvocation(argv, leaseExpires)
    case Call(command, e) => CommandEffect(rows, command, e, commit)
    case _ => rows
  }

  /** What a call of the hook reports. */
  datatype Outcome =
    | Exited(invocation: Invocation)       // an argument error, or the tftp / unknown command
    | Listed(lines: seq<string>)           // init or show
    | Stored(failureLogged: bool)          // add, del or old

  /** Add event: insert, log a failure on any status but success. */
  method LeasesAdd(db: LeaseTable, e: Entry, commit: Status) returns (failureLogged: bool)
    modifies db
    ensures failureLogged <==> commit != Success
    ensures db.rows == Committed(old(db.rows), Inserted(old(db.rows), e), commit)
  {
    var _, status := db.InsertRow(e, commit);
    failureLogged := status != Success;
  }

  /** Renewal event: upsert keyed by the entry's MAC. */
  method LeasesUpdate(db: LeaseTable, e: Entry, commit: Status) returns (failureLogged: bool)
    requires e.macAddr.Some?
    modifies db
    ensures failureLogged <==> commit != Success
    ensures db.rows == Committed(old(db.rows), Updated(old(db.rows), e.macAddr.value, e), commit)
  {
    var _, status := db.UpdateRow(e.macAddr.value, e, commit);
    failureLogged := status != Success;
  }

  /** Release event: delete by the entry's MAC; a MAC with no row is logged as a failure. */
  method LeasesDelete(db: LeaseTable, e: Entry, commit: Status) returns (failureLogged: bool)
    requires e.macAddr.Some?
    modifies db
    ensures FirstMatch(old(db.rows), e.macAddr.value).None? ==> failureLogged && db.rows == old(db.rows)
    ensures FirstMatch(old(db.rows), e.macAddr.value).Some? ==> (failureLogged <==> commit != Success)
    ensures db.rows == Committed(old(db.rows), Deleted(old(db.rows), e.macAddr.value), commit)
  {
    var _, status := db.DeleteRow(e.macAddr.value, commit);
    failureLogged := status != Success;
  }

  /** One call of the hook against the lease table. */
  method HandleLeaseEvent(db: LeaseTable, argv: seq<string>, leaseExpires: Option<string>, commit: Status)
    returns (outcome: Outcome)
    modifies db
    ensures db.rows == EventEffect(old(db.rows), argv, leaseExpires, commit)
    ensures var inv := ParseInvocation(argv, leaseExpires);
      && (!inv.Call? || inv.command in {TftpEvent} || inv.command.UnknownCommand? <==> outcome.Exited?)
      && (inv.Call? && inv.command == ShowLeases <==> outcome == Listed(Listing(old(db.rows))))
      && (inv.Call? && inv.command in {AddLease, DeleteLease, UpdateLease} <==> outcome.Stored?)
      && (outcome.Exited? ==> outcome.invocation == inv)
      && (outcome.Stored? ==> (outcome.failureLogged <==>
            commit != Success || (inv.command == DeleteLease && FirstMatch(old(db.rows), inv.entry.macAddr.value).None?)))
  {
    var inv := ParseInvocation(argv, leaseExpires);
    if !inv.Call? {
      return Exited(inv);
    }
    var e := inv.entry;
    assert Field(e, MacAddress).Some?;
    match inv.command {
      case ShowLeases =>
        outcome := Listed(Listing(db.rows));
      case AddLease =>
        var failed := LeasesAdd(db, e, commit);
        outcome := Stored(failed);
      case DeleteLease =>
        var failed := LeasesDelete(db, e, commit);
        outcome := Stored(failed);
      case UpdateLease =>
        var failed := LeasesUpdate(db, e, commit);
        outcome := Stored(failed);
      case TftpEvent =>
        outcome := Exited(inv);
      case UnknownCommand(_) =>
        outcome := Exited(inv);
    }
  }

  /**
   * An add event for a new MAC stores one row with the event's values (and
   * "*" for the client id it did not receive); a following del event for the
   * same MAC leaves no row for it.
   */
  lemma AddThenDelete(rows: seq<Row>)
    requires CountMac(rows, "aa:bb:cc:dd:ee:ff") == 0
    ensures var add := ["dhcp_leases", "add", "aa:bb:cc:dd:ee:ff", "10.0.0.5", "host1"];
      var t1 := EventEffect(rows, add, Some("1700000000"), Success);
      && t1 == rows + [Row("1700000000", "aa:bb:cc:dd:ee:ff", "10.0.0.5", Some("host1"), Some("*"))]
      && CountMac(t1, "aa:bb:cc:dd:ee:ff") == 1
      && CountMac(EventEffect(t1, ["dhcp_leases", "del", "aa:bb:cc:dd:ee:ff"], Some("1700000000"), Success),
                  "aa:bb:cc:dd:ee:ff") == 0
  {
    var mac := "aa:bb:cc:dd:ee:ff";
    var add := ["dhcp_leases", "add", mac, "10.0.0.5", "host1"];
    var inv := ParseInvocation(add, Some("1700000000"));
    assert add[1] == "add";
    assert inv.command == AddLease;
    assert Field(inv.entry, PositionalColumn(2)) == Some(mac);
    assert Field(inv.entry, PositionalColumn(3)) == Some("10.0.0.5");
    assert Field(inv.entry, PositionalColumn(4)) == Some("host1");
    assert Field(inv.entry, PositionalColumn(5)) == Some("*");
    var t1 := EventEffect(rows, add, Some("1700000000"), Success);
    assert t1 == Inserted(rows, inv.entry);
    InsertDuplicates(rows, inv.entry);
    var del := ["dhcp_leases", "del", mac];
    assert del[1] == "del";
    var inv2 := ParseInvocation(del, Some("1700000000"));
    assert Field(inv2.entry, PositionalColumn(2)) == Some(mac);
    CountMacPositive(t1, mac);
    DeleteRemovesOne(t1, mac);
  }
}
