# DHCP-TFTP helper daemon and lease store — a Dafny model

This project models the core of the OpenSwitch DHCP-TFTP helper:

- **Lease table** (`lease_db.dfy`, module `LeaseDb`): the DHCP_Lease table as a
  sequence of rows in iteration order, with the first-match scan by MAC address,
  insert (no uniqueness check), update (an upsert keyed by MAC address) and delete.
  Only entry fields that are not None are written. The transaction commit outcome
  is an input: the table takes the staged rows only when the commit reports success.
- **Lease-event hook** (`lease_events.dfy`, module `LeaseEvents`): the script dnsmasq
  runs as `--dhcp-script`. It reads argv and `DNSMASQ_LEASE_EXPIRES` into a lease entry
  whose fields default to `"*"`. It dispatches `init`/`show`, `add`, `del`, `old`,
  `tftp` and unknown commands. It also holds the listing projection, the output line
  format, and the add/update/delete handlers that log a failure on any status but success.
- **Supervisor** (`dhcp_tftp.dfy`, module `DhcpTftp`): the bring-up check on `cur_cfg`
  and the rendering of the dnsmasq command line. It also holds the daemon's globals
  (`seqno`, `dnsmasq_started`, `exiting`, the command, the process handle) as the
  class `Daemon`, with the bring-up loop, the main loop and the `exit` control command.
  Store reads are inputs: each run of the store client yields an `Observation`, its
  change counter and the tables. Starting and killing dnsmasq are recorded as events
  in a trace. `Daemon.Valid()` keeps, at every point of that trace, at most one dnsmasq
  instance alive.
- **Range validator** (`range_validator.dfy`, module `RangeValidator`): the
  lease-duration predicate and the ordered checks of start address, end address
  (when present) and lease duration (when present). IP address syntax is a
  predicate parameter.

`wrappers.dfy` holds the `Option` type shared by the modules.

The model follows the code as written, including these behaviours one might expect
to be otherwise:

- `add` inserts; it is not an upsert. An `add` for a MAC already stored creates a
  second row (`LeaseDb.InsertDuplicates`). Only `old` is an upsert.
- The main loop restarts dnsmasq on every move of the store's change counter. It does
  not compare a snapshot of the rendered configuration with the previous one, and it
  does not re-check `cur_cfg`. It kills at once (SIGKILL) with no graceful stop first.
- Bring-up is complete when some `cur_cfg` is nonzero (truthy), not only when it is
  positive as the function's own comment says.
- The expiry is read from the environment exactly when a MAC argument is given, for
  every command.
- On exit the daemon only closes the control server and the store connection
  (dhcp_tftp.py:331-333). It does not stop dnsmasq, so `Daemon.MainLoop` ends with one
  instance alive.
- The first start at bring-up (dhcp_tftp.py:232-236) does not sweep for other dnsmasq
  processes; only a restart does. "Never two alive" (`Daemon.Valid`) therefore assumes
  that no dnsmasq runs when the daemon starts: the trace begins empty.

## Model

| member | source | states |
|---|---|---|
| `LeaseDb.FirstMatch` | dhcp_lease_db.py:86-93 | the position found is a row carrying the MAC, and no earlier row carries it; None exactly when no row carries it |
| `LeaseDb.LeaseTable.FindRowByMacAddr` | dhcp_lease_db.py:78-93 | found iff some row has the MAC; when found, the first such row; when not found, the scan variable is left on the last row (None for an empty table) |
| `LeaseDb.SetColumnValue` | dhcp_lease_db.py:95-113 | every column whose entry field is not None takes that value, every other column keeps its old value, status is always success |
| `LeaseDb.SetColumnValueIdempotent` | dhcp_lease_db.py:95-113 | writing the same entry twice equals writing it once |
| `LeaseDb.FullEntryOverwrites` | dhcp_lease_db.py:95-113 | an entry with no None field yields the same row whatever row it is written over |
| `LeaseDb.Committed` | dhcp_lease_db.py:129-131 | the staged rows become the table exactly when the commit succeeds (or staged nothing new); otherwise the table is the one before |
| `LeaseDb.Inserted` | dhcp_lease_db.py:121-124 | an insert stages exactly one new row after the unchanged old rows |
| `LeaseDb.LeaseTable.InsertRow` | dhcp_lease_db.py:115-131 | returns the new row and the commit status; the table gains that row only when the commit succeeds |
| `LeaseDb.InsertDuplicates` | dhcp_lease_db.py:115-131 | insert does not check for the MAC: the number of rows with that MAC grows by one |
| `LeaseDb.Updated` | dhcp_lease_db.py:137-151 | on a present MAC: same size, only the first matching row rewritten, all other rows equal; on an absent MAC: exactly the insert |
| `LeaseDb.LeaseTable.UpdateRow` | dhcp_lease_db.py:133-151 | the table becomes the staged upsert when the commit succeeds; status is the commit status; the returned row is the rewritten or inserted one |
| `LeaseDb.UpdateFindsMac` | dhcp_lease_db.py:133-151 | after an update the MAC is always found, and the table grew by at most one row |
| `LeaseDb.InsertThenUpdate` | dhcp_lease_db.py:133-151 | insert of a new MAC then update of it leaves exactly one row for it, with the update's IP address |
| `LeaseDb.Deleted` | dhcp_lease_db.py:161-169 | on an absent MAC the rows are unchanged; on a present one exactly the first matching row is removed (one fewer row, multiset loses that row, the others keep their order) |
| `LeaseDb.LeaseTable.DeleteRow` | dhcp_lease_db.py:153-169 | absent MAC: (false, unchanged) and the table untouched; present MAC: true, the commit status, and the row removed when the commit succeeds |
| `LeaseDb.DeleteRemovesOne` | dhcp_lease_db.py:165-169 | deleting a present MAC lowers the number of rows carrying it by exactly one |
| `LeaseEvents.ParseCommand` | dhcp_leases.py:140-155 | dispatch is total and exclusive: init/show, add, del, old, tftp, anything else |
| `LeaseEvents.ParseInvocation` | dhcp_leases.py:104-138 | fewer than two argv entries is an error; more than six is rejected by the argument parser; argv[k] fills its positional column (MAC, IP, hostname, client id) iff present; the expiry comes from the environment iff a MAC is given; every other field stays "*"; no field is None |
| `LeaseEvents.PlaceholderWritesEveryColumn` | dhcp_leases.py:106-138 | since every field is filled, add/old write every column; columns not supplied get "*" |
| `LeaseEvents.ShowEntry` | dhcp_leases.py:46-59 | each falsy column shows as "*", any other column shows its value (the single element for hostname and client id) |
| `LeaseEvents.Listing` | dhcp_leases.py:46-61 | one line per row, in iteration order, each the formatted projection of its row |
| `LeaseEvents.SplitJoin` | dhcp_leases.py:30-36 | fields joined by single spaces split back into the same fields when none holds a space |
| `LeaseEvents.FormatLine` | dhcp_leases.py:30-36 | an output line splits back at single spaces into the five fields expiry, MAC, IP, hostname, client id, in that order, when no field holds a space |
| `LeaseEvents.CommandEffect` | dhcp_leases.py:142-155 | only a successful commit changes the table, and only add, del and old do; a successful add adds a row and one more row for the MAC; a successful old leaves the MAC found and at most one row more; a successful del leaves one row fewer for a stored MAC |
| `LeaseEvents.EventEffect` | dhcp_leases.py:104-155 | argument errors, show, tftp and unknown commands leave the table unchanged, and so does a failed commit; add stages an insert, old an update by the entry's MAC, del a delete by it |
| `LeaseEvents.LeasesAdd` | dhcp_leases.py:65-74 | inserts the entry; a failure is logged iff the status is not success |
| `LeaseEvents.LeasesUpdate` | dhcp_leases.py:76-86 | upserts by the entry's MAC; a failure is logged iff the status is not success |
| `LeaseEvents.LeasesDelete` | dhcp_leases.py:88-97 | deletes by the entry's MAC; a MAC with no row is logged as a failure and leaves the table unchanged |
| `LeaseEvents.HandleLeaseEvent` | dhcp_leases.py:104-155 | the table ends as EventEffect says; exit outcomes exactly for argument errors, tftp and unknown commands, carrying the parsed invocation; show lists the table; add, del and old always give a stored outcome, which logs failure iff the commit failed or a del found no row |
| `LeaseEvents.AddThenDelete` | dhcp_leases.py:104-155 | an add event for a new MAC stores one row with the event's values ("*" for the missing client id); a del of the same MAC leaves none |
| `DhcpTftp.DbGetSystemStatus` | dhcp_tftp.py:99-114 | true iff some Open_vSwitch row has a nonzero cur_cfg; false for an empty table |
| `DhcpTftp.SystemIsConfigured` | dhcp_tftp.py:117-124 | the same answer as the status check |
| `DhcpTftp.OptionsAppend` | dhcp_tftp.py:169-181 | the options of two row sequences one after the other are the two option strings concatenated |
| `DhcpTftp.OptionsSkipEmpty` | dhcp_tftp.py:169-181 | rows with an empty value contribute nothing: the options equal those of the non-empty rows only |
| `DhcpTftp.OptionAt` | dhcp_tftp.py:169-181 | each non-empty row contributes flag + value at its own place in table order |
| `DhcpTftp.RenderCommand` | dhcp_tftp.py:165-181 | the command is the default command, then the options of the non-empty range rows, then those of the non-empty host rows |
| `DhcpTftp.RenderCommandIgnores` | dhcp_tftp.py:156-194 | the option and interface tables do not affect the command |
| `DhcpTftp.Daemon.GetConfig` | dhcp_tftp.py:156-194 | the command becomes the rendering of the tables, whatever command was rendered before |
| `DhcpTftp.Daemon.AppendOptions` | dhcp_tftp.py:169-181 | the loop appends exactly the options of its rows to the command |
| `DhcpTftp.Daemon.StartProcess` | dhcp_tftp.py:198-210 | the handle is set to the started process and a start with the current command is recorded |
| `DhcpTftp.Daemon.UnixctlExit` | dhcp_tftp.py:93-96 | sets exiting |
| `DhcpTftp.Daemon.constructor` | dhcp_tftp.py:80-85 | seqno 0, not started, not exiting, no process, empty trace |
| `DhcpTftp.Daemon.DnsmasqRun` | dhcp_tftp.py:214-237 | seqno ends equal to the observed counter; dnsmasq is started (one start event, with the rendered command) iff the counter moved and bring-up is complete; the command and the handle then are the rendering of the observed tables; otherwise the command and trace do not change |
| `DhcpTftp.Daemon.DnsmasqRestart` | dhcp_tftp.py:240-264 | records kill own process, kill all dnsmasq, start with the freshly rendered command; the command and the handle become that rendering; at most one instance alive at every point, and the handle is the last start's |
| `DhcpTftp.Daemon.MainLoopStep` | dhcp_tftp.py:310-329 | a pending exit stops the loop before any restart; otherwise a restart happens iff the counter moved, and seqno then equals the counter; the command changes only on a restart, to the rendering of the observed tables |
| `DhcpTftp.Daemon.MainLoop` | dhcp_tftp.py:309-329 | the trace grows by the loop's events up to the first exit request; exiting iff some exit was requested; never two dnsmasq instances alive at any point, exactly one at the end |
| `DhcpTftp.FirstStart` | dhcp_tftp.py:303-305 | the observation that starts dnsmasq is the first whose counter moved while bring-up is complete |
| `DhcpTftp.Daemon.BringUp` | dhcp_tftp.py:303-305 | bring-up polls stop exactly at the first triggering observation, with a single start event and the command rendered from it; with none, nothing is started and the command is unchanged; seqno is the last consumed counter, unchanged when nothing was consumed |
| `DhcpTftp.RunDaemon` | dhcp_tftp.py:292-333 | the whole trace is one start at bring-up followed by the main loop's restarts; no process is ever started when bring-up never completes |
| `DhcpTftp.BringUpGating` | dhcp_tftp.py:222-237 | while cur_cfg is zero in every observation, dnsmasq is never started |
| `DhcpTftp.BringUpScenario` | dhcp_tftp.py:222-237 | cur_cfg 0 and then 1 with one range row: the second observation starts dnsmasq with exactly that one range option |
| `DhcpTftp.NoChangeNoRestart` | dhcp_tftp.py:317-329 | wake-ups whose counter equals the last processed one cause no restart |
| `DhcpTftp.ExitEndsLoop` | dhcp_tftp.py:310-315 | nothing observed after an exit request causes a restart or moves seqno |
| `DhcpTftp.AtMostOneStartPerWakeUp` | dhcp_tftp.py:317-329 | the loop starts no more processes than it has wake-ups, however many store changes each wake-up coalesces |
| `RangeValidator.IsValidLeaseDuration` | opsplugins/DHCPSrv_Range.py:39-43 | valid iff the duration is at most 0 or between 2 and 65535 |
| `RangeValidator.Check` | opsplugins/DHCPSrv_Range.py:11-37 | accepted iff every present field passes; an invalid start is always the error; an invalid present end is the error when the start passes; the duration error only when both addresses pass |
| `RangeValidator.ValidateModificationAsWritten` | opsplugins/DHCPSrv_Range.py:33-37 | a row failing only on its duration gets the truncated details text |
| `RangeValidator.ValidateModification` | opsplugins/DHCPSrv_Range.py:11-37 | same acceptance as the code; a row failing only on its duration gets the whole sentence; every other verdict equals the code's |
| `RangeValidator.DurationDetailsTruncated` | opsplugins/DHCPSrv_Range.py:35-36 | the text the code raises is a proper prefix of the intended sentence, shown on a row with duration 1 |

## Findings

| source | as written | input that shows it | evidently intended | confidence | as-written member | corrected member |
|---|---|---|---|---|---|---|
| opsplugins/DHCPSrv_Range.py:35-36 | the second string literal stands on its own line without a continuation, so it is a separate statement; the error details hold only "Lease duration should be 0 for infinite or" | a range row with valid addresses and lease_duration 1 | details holding both literals, "Lease duration should be 0 for infinite or" and "between 2-65535."; joining them as written gives "...orbetween 2-65535.", and the model assumes a separating space was meant | high, not executed | `RangeValidator.ValidateModificationAsWritten` (shown by `RangeValidator.DurationDetailsTruncated`) | `RangeValidator.ValidateModification` |

## Left out

- The store client machinery is not modelled: schema registration, the connection, `idl.run()`, transactions and `commit_block`, the poller and `block()`, and `close()`. Tables and the change counter are inputs; the commit outcome is a parameter.
- The constructor's wait for the lease data (dhcp_lease_db.py:73-76) and the `sleep` between bring-up polls (dhcp_tftp.py:305) are timing only and not modelled.
- Row iteration order is hash order of row identifiers in the store client. The model uses insertion order, so a new row is appended and a deleted row keeps the others in order.
- The `txn` field of the lease store is not modelled. Neither is the first transaction that `update_row` abandons when it falls back to `insert_row` (dhcp_lease_db.py:137, 149, 121): the model assumes the store client allows the second transaction to open and commit while the first is still pending. The store client library is not part of this model.
- The failure branches after `__set_column_value` (dhcp_lease_db.py:126-127, 143-144) are unreachable, since that function always reports success. The inner `cur_cfg == 0` branch (dhcp_tftp.py:109-110) is unreachable too. Neither is modelled as a branch.
- The expiry_time column is modelled as a string, the value the hook writes. Hostname and client id are optional columns holding at most one string.
- Process control is recorded as trace events and not performed: `subprocess.Popen`, `kill()`, and the `ps -A` scan that SIGKILLs every process whose line contains "dnsmasq". The scan is modelled as killing every dnsmasq instance. Launch failures are not modelled.
- The argument parser's handling of arguments that begin with `-` (options, `-h`) is not modelled: every argument is read as positional.
- Logging is not modelled beyond the `failureLogged` flag and the exit outcomes. The printing of the listing is reduced to the list of lines.
- The unixctl server, daemonization, command-line options of the daemon, `dnsmasq_init` and the never-called `terminate()` (dhcp_tftp.py:127-130) are left out. So is the commented-out block at dhcp_tftp.py:183-191.
- `ipaddress.is_valid_ip_address` belongs to a library that is not part of this model; it is the parameter `isValidIp`.
- The validator reads columns through `hasattr` and `utils.get_column_data_from_row` (opsplugins/DHCPSrv_Range.py:15-23); the utils module is not part of this model. `RangeRow` assumes that an absent end address or lease duration reads as None, and a present one as its bare value; the start address is always read.
- opsplugins/DHCPSrv_Static_Host.py is not modelled. It uses names that are never defined, so every call raises before validating anything.
- DhcpTftp.Daemon.BringUp: runs over a finite list of observations; when none triggers it stops with dnsmasq not started, whereas the daemon would keep polling.
- DhcpTftp.Daemon.MainLoop: runs over a finite list of wake-ups; when no exit is requested it stops at the end of the list, whereas the daemon would keep waiting.
- DhcpTftp.Daemon.DnsmasqRun: requires that dnsmasq is not started yet, which is the only situation in which the daemon calls it.
- LeaseEvents.LeasesUpdate: requires the entry to carry a MAC, which every entry built from the hook's arguments does; the same holds for LeaseEvents.LeasesDelete.
