# Verified models of the modem tools and driver algorithms

This Dafny project models the parts of the repository whose correctness is hard to see from reading
the code, and proves what the code promises about them, over all inputs, all runs and all interleavings.

| files | what they model |
|---|---|
| `TimeDaemon`, `TimeDaemonRuns`, `AtsClock`, `AtsStore`, `AtsRecordText` | the QMI time daemon: its re-entrant transactions and handshake, the synchronisation marker, the clock arithmetic, the persistent record and its atomic replacement |
| `Crc16`, `HdlcFraming`, `ReplyReader` | DIAG framing: the CRC, octet stuffing, and finding a reply in arbitrarily cut reads |
| `EfsTransfer`, `EfsListing`, `EfsTree` | the EFS tool: transfers against a server that may answer short or not at all, `put` with backup and read-back, the recursive listing |
| `StatsCallback`, `BatchScan`, `BatchReader`, `InterfaceAddresses`, `ChannelAvoidance`, `SoftApChannels` | algorithms of the WLAN driver sources under `Docs/WiFi/reference`; `BatchReader` reads the batch-scan text back |
| `Words`, `Numerals` | machine words, decimal numbers |

Everything is checked with `dafny verify dfyconfig.toml`. Nothing was executed: the claims below are proofs about the
models, and the models are compared with the sources by reading.

## How to read the models

Code that works by changing state is a class or a method with loops, proved against a specification
function; code that must survive concurrency or crashes is a state machine or keeps a history of every
moment. The environment (the modem, the flash, the disk, other processes) appears as arbitrary choices inside a few
methods that stand for system calls and requests; every claim holds whatever they choose.

- **Time daemon.** The socket is any finite script of timed packets, signals and errors. A ghost trace records what
  became of each packet, every offset sent and every verdict reported; `TraceOk` says what is always true of it.
  Four assumptions appear as premises, and each claim names the ones it needs: *orderly* (one TIME server at a
  time on a nonzero port, no reply from a withdrawn one), *steady* (readings arrive in the order they were taken, and
  the counter grows within a modem boot), *honest* (a reply to a reading is of the base asked for, which
  the code never checks, and was taken after it was asked for), and marker writes that succeed. `markerFault` and `stray`
  record when the marker could not be written, or was written by a refresh while not synchronised. A ghost counter of
  failed calls (`Faults`) says when something that should happen may not: every claim that something is sent, saved or
  loaded holds unless it grew.
- **Clocks.** Every reading carries the instant at which it was taken. All clocks and the modem's counter are taken to
  run at one rate, so an offset has one error for good, and the claims give that error exactly.
- **Flash.** The power may fail at any system call. A file not synchronised may read as anything afterwards; a rename not
  synchronised may be lost.
- **EFS modem.** Any request or reply may be lost and any read or write may be short, but never longer than asked for;
  data written is committed when the handle is closed. `silent` names the files whose stat is refused or never
  answered, and `faulty` records that anything else but a short count went wrong. The local disk has
  room for so many more bytes, and drops without a word what does not fit.
- **Callback protocol.** Each memory access of the caller and of any number of callbacks is one step. The memory of a
  returned stack frame may take any values except the magic word; `ReusedMagicIsCompleted` shows why that is needed.

## What the code does that its documentation does not say

- The comment in `hdd_format_batch_scan_rsp` lists a `scancount` and a `trunc` line, which the code never writes, and an
  address as `XX:XX`, where the code prints `0x` and as few digits as will do (`BatchReader.RecordOfText` reads what is
  written; an ssid with a newline in it cannot be read back, since it is printed as it is).
- According to its comment `hdd_format_batch_scan_rsp` ends a full buffer at a complete scan and with `%%%%`. The code
  ends it after any complete record, and snprintf makes two percent signs of the four (`BatchScan.Adapter.Format`).
- `hdd_return_batch_scan_rsp_to_user` subtracts the used length from the room twice. With more than half of the user
  buffer in use the drain drops every queued record without writing any
  (`BatchScan.Adapter.ReturnCached`, `BatchScan.DrainsAccountForAll`).
- An ssid of 256 to 288 characters passes the driver's length check, because the length is taken in 8 bits
  (`BatchScan.Adapter.Populate`).
- `log_modem_uptime` is documented to have no effect on the state and never to revoke synchronisation. Its transactions
  hand other packets to the handler. Nothing the daemon has decided changes if no TIME server was announced and the one in
  use was not withdrawn meanwhile (`TimeDaemon.Daemon.LogModemUptime`); with a withdrawal the daemon is left
  unsynchronised (`TimeDaemonRuns.UptimeLogDisconnects`).
- Packets that are not the awaited reply are said not to be discarded. A reply that comes while its transaction waits for
  a nested one is: the handler ignores it, and the outer transaction ends without a result unless the modem answers again
  (`TimeDaemon.OuterReplyIsLost`).
- `ats_state_save` promises the old or the new record after a power loss, but does not look at the result of fsync. If
  the synchronisation of the data fails, it returns 0 all the same and a power loss may leave any text;
  `AtsStore.Store.Save` says that this is exactly when the promise fails.
- The main loop compares its timers with the time taken before a retry that may last seconds. A retry that succeeds
  sets the refresh timer to a later second, the unsigned difference wraps, and the refresh runs at once
  (`TimeDaemon.DueMeans`, `TimeDaemon.Daemon.RetryHandshake`, `TimeDaemon.Daemon.Refresh`).
- The offset from a network TOD is not exact: TOD and RTC are read one after the other, and the counter plus the offset
  stays behind TOD by the time between them (`AtsClock.NetworkOffsetIsExactWhen`, `TimeDaemonRuns.ReadingsApart`); by the
  AP clock it is ahead (`AtsClock.ApClockOffsetIsExactWhen`). In every run whose readings are honest the error has that
  sign (`TimeDaemon.SignOfError`, `TimeDaemon.Daemon.Run`).
- A wait looks at its deadline only when no handshake is nested in it. If 21845 announcements come in one wait, a waiting
  request and a new one share their id (`TimeDaemonRuns.IdsCollide`); fewer never do (`TimeDaemon.WaitingDiffer`).
- A SURVIVED verdict after a restart that lies further back than the stored uptime is wrong; `SurvivedIsWrongWhen` says
  exactly when.
- `read_reply` keeps its promise up to its trim threshold and for no longer stream
  (`ReplyReader.PromiseHoldsUpToThreshold`): past it, it can return the end of a frame as if it were a reply.
- `cmd_put` refuses to write when the backup failed, but a backup on a full disk does not fail: nobody looks at the
  results of fwrite and fclose. The target is then overwritten and its old content lost
  (`EfsTransfer.FullDiskLosesTarget`); `EfsTransfer.Put` says exactly when.
- `cmd_put` takes a refused or unanswered stat for a missing file and then overwrites the target without a backup
  (`EfsTransfer.SilentStatLosesTarget`); the backup claim of `EfsTransfer.Put` is about a target that stat reported.
- `hdd_generate_iface_mac_addr_auto` from index 1 can repeat the platform's own address;
  `GeneratedBehindOneIsDistinct` says exactly when.
- The unsafe-channel list is built by a loop that does not stop at the first match; that it is free of duplicates
  depends on the table being so, which it is (`SafeChannelsAreDistinct`).

## Model

| member | source | states |
|---|---|---|
| TimeDaemon.Reboots | packages/qcom-time-daemon/src/qcom-time-daemon.c:356-390 | over any number of AP boots, modem restarts, server changes and power losses (at any system call of a save too), with readings delivered in order, honest replies and no failed data synchronisation before a power loss: a reading below the stored one is always reported RESTARTED, with exactly the difference lost; every RESTARTED report is about a modem that really restarted after the stored reading; and without a restart the report is SURVIVED with exactly the modem time in between |
| TimeDaemon.Daemon.Run | packages/qcom-time-daemon/src/qcom-time-daemon.c:1054-1161 | for any script of packets and time-outs, nested handshakes included: at every head of the main loop the state is not SYNCING; SYNCHRONIZED implies fewer than 3 failed readings, the marker present unless writing it has failed, and (for an orderly script) a connected server on a nonzero port; with the refresh off no marker exists without SYNCHRONIZED; once the loop has ended there is no marker; in every round time passes or something leaves the socket, and a round at whose head a retry, a refresh or telemetry is due asks the modem for TOD before it polls; every packet was disposed of rightly, and the transactions waiting when it was taken had different ids if fewer than 21845 announcements had come since the outermost began; every offset sent comes from the network, the AP clock or the record exactly as the readings, the clock and the record decide, and has exactly the error of its branch; a restored one is trusted, and with honest replies a network offset is never ahead of TOD, nor one from AP clock and RTC behind GPS time |
| TimeDaemon.Daemon.Transact | packages/qcom-time-daemon/src/qcom-time-daemon.c:478-583 | the result is the reply this transaction took, from the port asked, with its transaction and message id; without a result it took none or one that does not decode, and it gave up only for a reply that does not decode, at its deadline, because it was told to stop, or because a system call failed; every other packet taken meanwhile went to the handler once, in order; whatever nested handshakes do, a settled daemon stays settled |
| TimeDaemon.WaitingDiffer | packages/qcom-time-daemon/src/qcom-time-daemon.c:478-583 | transactions waiting at one time all have different ids as long as fewer than 21845 announcements have been taken since the outermost began |
| TimeDaemonRuns.IdsCollide | packages/qcom-time-daemon/src/qcom-time-daemon.c:489-494 | the bound is exact: in a run put together from Begin, Connect and Finish, 21845 announcements are taken while a SET request waits, and a second SET request gets its id, so that a reply to either answers both |
| TimeDaemon.OuterReplyIsLost | packages/qcom-time-daemon/src/qcom-time-daemon.c:474-578 | against the comment: with different ids, a reply to a transaction that is not the innermost is handed to the handler and never accepted, and the transaction ends without a result unless a later packet answers it again |
| TimeDaemon.Daemon.LogModemUptime | packages/qcom-time-daemon/src/qcom-time-daemon.c:829-855 | state, marker, server, failure count, timers, record, offsets sent and reports stay exactly as they were unless a TIME server was announced or the one in use withdrawn meanwhile; the daemon stays settled in any case |
| TimeDaemonRuns.UptimeLogDisconnects | packages/qcom-time-daemon/src/qcom-time-daemon.c:829-855 | for every synchronised daemon whose next packet withdraws its server, the first reading of the uptime log ends DISCOVERING, disconnected and without marker |
| AtsClock.SourceIsChosen | packages/qcom-time-daemon/src/qcom-time-daemon.c:400-417 | an offset comes from the network exactly if TOD and RTC were both read and TOD is nonzero and not behind RTC; else from the AP clock exactly if that is in 2020 or later and not before a recorded time in 2020 or later; else from the record exactly if there is one of base USER; and none is sent exactly if none of these holds |
| AtsClock.DerivedOffsetIsSound | packages/qcom-time-daemon/src/qcom-time-daemon.c:633-686 | no subtraction wraps, and the error is known exactly at every instant: with a network TOD the modem counter plus the offset lags behind TOD by the time between the two readings; by the AP clock it is ahead of GPS time by the time between the RTC and the wall-clock reading, or by the whole uptime where RTC was not usable; that offset never exceeds wall time less the GPS epoch; a restored one is the record's |
| AtsClock.NetworkOffsetIsExactWhen | packages/qcom-time-daemon/src/qcom-time-daemon.c:633-651 | it shows TOD at every later instant exactly if no time passed between the two readings |
| AtsClock.ApClockOffsetIsExactWhen | packages/qcom-time-daemon/src/qcom-time-daemon.c:634-683 | it shows GPS time at every later instant exactly if RTC and wall clock were read at one instant, or, without a usable RTC, the counter stood at zero |
| TimeDaemonRuns.ReadingsApart | packages/qcom-time-daemon/src/qcom-time-daemon.c:630-651 | in an orderly and honest run of the daemon's own steps, with its clock moved to each arrival, the second reading is taken 200 ms after the first with a nested handshake in between, and the counter plus the offset sent lags 200 ms behind TOD at every instant |
| AtsStore.Store.Save | packages/qcom-time-daemon/src/qcom-time-daemon.c:291-350 | at every system call, and when it returns either way, the record file reads as the complete old or the complete new text; a power loss at any of them leaves a text it could have left before, or the new one, as long as no data synchronisation failed, and after 0 with the directory synchronised too nothing but the new one; if it fails, 0 is returned all the same and any text may be left, so on a file of the program's own the promise fails exactly then; 0 is returned only after the rename, -1 leaves everything as it was, and -1 is returned only if the record is switched off, its path too long or a call failed |
| AtsStore.Store.AfterLoss | packages/qcom-time-daemon/src/qcom-time-daemon.c:294-350 | after a power loss the record file reads as one of the texts flash may have kept; all of them are of records the program has written, if every data synchronisation worked |
| AtsRecordText.LoadOfSaved | packages/qcom-time-daemon/src/qcom-time-daemon.c:227-318 | loading a saved record gives it back for all 64-bit fields, exactly if its base is USER and its offset at or above the floor, and fails otherwise |
| AtsRecordText.LoadOfTorn | packages/qcom-time-daemon/src/qcom-time-daemon.c:227-318 | loading any prefix of the saved text fails or gives the same offset, rtc, wall and delta |
| Crc16.CrcIsTheRemainder | packages/diag-logtool/src/diag_logtool.c:211-219 | it is the remainder of the message times x^16 modulo x^16 + 0x1021: a division with it exists, and no other remainder is possible; the generator's value is 0x1021 |
| Crc16.BurstIsDetected | packages/diag-logtool/src/diag_logtool.c:211-219 | two different messages of one length that differ only within 16 consecutive bits never share a CRC |
| HdlcFraming.HdlcFrame | packages/diag-logtool/src/diag_logtool.c:227-258 | writes exactly the frame of the payload and returns its length; a receiver of section 4.2 of RFC 1662 reads from the buffer the payload and behind it, the low octet first, 0xffff less the CRC of the payload from a seed of sixteen ones; -1 exactly for an invalid n or a frame longer than outsz; nothing beyond the room is written |
| HdlcFraming.FrameCarries | packages/diag-logtool/src/diag_logtool.c:227-258 | the same about the frame as an octet string: a flag at its end, a leading one as asked, and between them what un-stuffs to the payload and two octets whose value, the low one first, is 0xffff less the CRC |
| HdlcFraming.ReceiveTransmit | packages/diag-logtool/src/diag_logtool.c:227-258 | a receiver that checks the two octets as a number against the CRC gets exactly the payloads of any sequence of frames, in order, with or without leading flags |
| ReplyReader.ReadReply | packages/diag-logtool/src/diag_logtool.c:273-317 | the loop over reads returns what the reference definition says: the first matching message cut to outsz, 0 on time-out, -1 on a failed read |
| ReplyReader.PromiseHoldsUpToThreshold | packages/diag-logtool/src/diag_logtool.c:273-317 | for streams of n bytes, all payloads, all codes and all ways of cutting the stream, the promise is kept exactly if n does not pass the trim threshold |
| ReplyReader.TrimmingForgesReply | packages/diag-logtool/src/diag_logtool.c:306-310 | for every greater n a stream of ordinary frames, none beginning with the code, for which the end of a frame is returned |
| EfsTransfer.Put | packages/diag-efs/src/diag_efs.c:466-530 | 0 only if the modem's file equals the local file; once stat has reported a target, either nothing but the backup's read was opened and no file changed, or the backup has as much of the old content as the local disk had room for, so it is the old content exactly if that fits; without that report no backup is made; with truncation the target is at any outcome the old content or a prefix of the new; other files never change; calibration paths are refused without --force; and with flags that create and truncate, 0 is returned unless a request failed, the payload was unreadable or the backup could not be created |
| EfsTransfer.FullDiskLosesTarget | packages/diag-efs/src/diag_efs.c:375-402 | a run without any failed request in which put returns 0 and the old content of the target is nowhere any more, because the disk was too full for the backup |
| EfsTransfer.SilentStatLosesTarget | packages/diag-efs/src/diag_efs.c:488-517 | a run in which only stat is not answered: put returns 0, the target is overwritten, and no backup was tried |
| EfsListing.Session.ListRec | packages/diag-efs/src/diag_efs.c:536-570 | on any graph and under any faults it ends, passes each directory handle to closedir before the next request that opens one and holds none at the end, prints only lines of the undisturbed listing in that order, and all of them if nothing fails |
| EfsTree.TreeIsListed | packages/diag-efs/src/diag_efs.c:536-570 | on a tree of 13 levels, empty directories below them included, within entry and name limits: every entry printed exactly once, none after something inside it |
| StatsCallback.SuccessIsAWholeAnswer | Docs/WiFi/reference/wlan_hdd_main.c:4435-4571 | in every interleaving complete() happens at most once, and success is reported only with the fields of one callback that has finished, untorn |
| StatsCallback.ClearIsFinal | Docs/WiFi/reference/wlan_hdd_main.c:4538-4555 | after the locked clear of the magic word no callback writes a statistic or completes the context, in any continuation |
| BatchScan.Adapter.PopulateUser | Docs/WiFi/reference/wlan_hdd_main.c:1465-1510 | emits the longest prefix of the queue that fits, as text with a NUL, leaves the rest in the queue, never writes or accounts beyond the room, and reports truncation exactly when records remain; entered with more used than room it empties the queue and writes nothing |
| BatchReader.RecordsOfTexts | Docs/WiFi/reference/wlan_hdd_main.c:1357-1426 | the same reader gets back every record of any queue, in order and nothing else, from the text the drain writes for it |
| BatchScan.DrainsAccountForAll | Docs/WiFi/reference/wlan_hdd_main.c:1465-1510 | over any run of arrivals and drains, what has left the queue followed by what is in it is what was given, and the text is that of one walk over the records written; those that left unwritten are exactly the ones queued when a drain was entered without room |
| BatchScan.DrainsConserve | Docs/WiFi/reference/wlan_hdd_main.c:1465-1510 | a run without such a drain writes every record that left the queue, in order, as the text of one uninterrupted listing |
| InterfaceAddresses.OutIsDistinctIffTableIs | Docs/WiFi/reference/wlan_hdd_main.c:5748-5776 | addresses handed out and not released are pairwise different in every run of calls exactly if the table's are |
| InterfaceAddresses.GeneratedBehindOneIsDistinct | Docs/WiFi/reference/wlan_hdd_main.c:8937-8949 | started at index 1 it does so exactly if the platform's address does not end in one of the numbers used |
| ChannelAvoidance.HddContext.ChAvoidCb | Docs/WiFi/reference/wlan_hdd_hostapd.c:1448-1512 | the list holds the table's channels inside some range, each as often as the table, and fits the table; with a table of distinct channels it is free of duplicates and exactly those channels are marked unsafe |
| SoftApChannels.RemoveIndoor | Docs/WiFi/reference/wlan_hdd_hostapd.c:2439-2456 | ends although the 8-bit index steps back through 255, and leaves the channels outside 36..48 in order; needs two bytes of room beyond the list |
| TimeDaemon.Daemon.Begin | packages/qcom-time-daemon/src/qcom-time-daemon.c:489-494 | the k-th transaction of a run gets the id 1 + k mod 65535, joins those waiting, and nobody has answered it yet |
| TimeDaemon.TxnIdsDiffer | packages/qcom-time-daemon/src/qcom-time-daemon.c:489-494 | ids are in 1..65535, and two transactions share one exactly if their distance is a multiple of 65535 |
| TimeDaemon.Daemon.Accept | packages/qcom-time-daemon/src/qcom-time-daemon.c:552-573 | taking the reply uses it up for this transaction only; a reply that does not decode gives no result |
| TimeDaemon.TookIsOk | packages/qcom-time-daemon/src/qcom-time-daemon.c:478-583 | one packet leaving the socket keeps every claim about the run: accounted once and in order, the right disposition, one reply per transaction, ids different, the server known, readings in order |
| TimeDaemon.Daemon.Query | packages/qcom-time-daemon/src/qcom-time-daemon.c:588-604 | it asks for the base given and gives a value exactly when the transaction brought a successful reply, and then it is that reply's; a reading of the uptime counter is the latest one taken off the socket; no reply within 3 s unless stopped or a call failed |
| TimeDaemon.Daemon.LogBootVerdict | packages/qcom-time-daemon/src/qcom-time-daemon.c:356-390 | the first time after boot or a withdrawal, and only with a stored nonzero uptime, one report is added: RESTARTED with the difference if the reading is below the stored one, else SURVIVED with the difference; nothing else changes |
| TimeDaemon.Daemon.ReadModem | packages/qcom-time-daemon/src/qcom-time-daemon.c:630-645 | the same, and an RTC value is reported on as `LogBootVerdict` says; nothing else is decided unless a TIME server was announced or the one in use withdrawn meanwhile |
| TimeDaemon.Daemon.SendAtsUser | packages/qcom-time-daemon/src/qcom-time-daemon.c:620-743 | without a server nothing happens; otherwise both bases are asked for, an offset is sent exactly if one follows from the readings, the clock and the record, it is that offset, and success is exactly a successful reply to the request that carried it; then the marker exists and the offset and its readings are on record, unless a call failed; server, failure count and timers stay as they were without a disturbance |
| TimeDaemon.SentIsOk | packages/qcom-time-daemon/src/qcom-time-daemon.c:636-686 | every offset put on the wire has exactly the error its branch has for the instants at which its values were read; a restored one is the in-memory record's, loaded at boot or confirmed by the modem in this run |
| TimeDaemon.Daemon.SetAndPersist | packages/qcom-time-daemon/src/qcom-time-daemon.c:688-743 | the offset goes out in a SET request, which is waited for 5 s; it succeeds exactly with a successful reply to it, and then the offset is trusted, the marker exists and the record holds the offset, and after a handshake its RTC and wall time too, unless a call failed; without one a handshake ends FAILED without a marker, and a refresh changes nothing but what other packets taken meanwhile do |
| TimeDaemon.Daemon.WriteMarker | packages/qcom-time-daemon/src/qcom-time-daemon.c:729-734 | the marker exists afterwards unless it could not be opened; only a refresh can make it exist outside SYNCHRONIZED |
| TimeDaemon.Daemon.Persist | packages/qcom-time-daemon/src/qcom-time-daemon.c:736-740 | memory and file hold the record of this handshake, or both keep the old one; a refresh with the offset already on record leaves both; required: the offset was sent and the modem consented to it |
| TimeDaemon.Daemon.Handshake | packages/qcom-time-daemon/src/qcom-time-daemon.c:745-760 | from any state, re-entrantly: SYNCHRONIZED with no failed readings exactly if the modem confirmed the offset that follows from what it was asked, with that offset on record unless a call failed, or FAILED without a marker; undisturbed, only the time of the handshake and the state move |
| TimeDaemon.Daemon.Handle | packages/qcom-time-daemon/src/qcom-time-daemon.c:857-959 | a new TIME server (not a repetition within 3 s) on a nonzero port leads to a handshake with it, which ends SYNCHRONIZED exactly if the modem confirmed its offset, else FAILED without a marker; the withdrawal of the server in use ends DISCOVERING, disconnected, the port forgotten, without marker, with the next restart report due; anything else changes nothing but the socket and the log of packets |
| TimeDaemon.Daemon.HandleNewServer | packages/qcom-time-daemon/src/qcom-time-daemon.c:867-892 | a repeated announcement changes nothing but the socket and the log of packets; any other makes its server the one in use and runs the handshake with it |
| TimeDaemon.Daemon.HandleDelServer | packages/qcom-time-daemon/src/qcom-time-daemon.c:893-912 | withdrawal: DISCOVERING, port forgotten, marker removed, verdict due again |
| TimeDaemon.Daemon.Validate | packages/qcom-time-daemon/src/qcom-time-daemon.c:767-808 | it asks for TOD exactly when synchronised with a server; success is a successful reply and clears the failure count, anything else raises it by one, and at 3 the state is FAILED and the marker gone |
| TimeDaemon.Daemon.Housekeeping | packages/qcom-time-daemon/src/qcom-time-daemon.c:1082-1139 | a retry due five seconds after the last handshake, or a due refresh, derives an offset from a new TOD and RTC reading; due telemetry makes three transactions and sets its timer; each starts by asking for TOD; a lookup is sent exactly when one is due; it starts and ends settled, and does nothing else when none is due |
| TimeDaemon.Daemon.Poll | packages/qcom-time-daemon/src/qcom-time-daemon.c:1141-1157 | with nothing due within a second the clock moves on by that second and nothing else changes; otherwise the next arrival is dealt with, a packet by the handler with the outcome `Handle` gives it, and only an error ends the loop |
| TimeDaemon.Daemon.Start | packages/qcom-time-daemon/src/qcom-time-daemon.c:1054-1080 | a marker left behind by an earlier run is removed, the three timers are set to the present, the daemon is settled, and a record that can be loaded is loaded unless a call failed |
| TimeDaemon.Daemon.LoadRecord | packages/qcom-time-daemon/src/qcom-time-daemon.c:1054-1056 | a record that can be loaded is, unless a call failed; its offset counts as trusted; for a steady run that record is one the program has written |
| TimeDaemon.Daemon.Connect | packages/qcom-time-daemon/src/qcom-time-daemon.c:886-888 | the announced server becomes the one to talk to, and its three transactions are accounted for |
| TimeDaemon.Daemon.Refresh | packages/qcom-time-daemon/src/qcom-time-daemon.c:1112-1121 | sends a refresh exactly when its timer is due by unsigned difference from the time given, and sets the timer to that time |
| TimeDaemon.DueMeans | packages/qcom-time-daemon/src/qcom-time-daemon.c:1098-1135 | a timer is due when its interval has passed or when it was set after the time it is compared with, by less than a wrapped interval |
| TimeDaemon.SignOfError | packages/qcom-time-daemon/src/qcom-time-daemon.c:630-686 | with TOD read before RTC and RTC before the wall clock, a network offset never makes the counter run ahead of TOD, and one from AP clock and RTC never behind GPS time |
| TimeDaemon.Daemon.OneRound | packages/qcom-time-daemon/src/qcom-time-daemon.c:1082-1157 | one round as it enters the list of rounds: what the head showed, whether it had to act, and the requests made before and after the poll |
| TimeDaemon.Daemon.ReadBoth | packages/qcom-time-daemon/src/qcom-time-daemon.c:630-645 | TOD is asked for first and RTC by a later transaction, the values are those of the replies, and the RTC value is the latest reading of the uptime counter |
| TimeDaemon.Daemon.AskToSet | packages/qcom-time-daemon/src/qcom-time-daemon.c:688-714 | the offset is noted as sent, its SET request is the next one, and the result is the reply that request took |
| TimeDaemon.Daemon.RetryHandshake | packages/qcom-time-daemon/src/qcom-time-daemon.c:1098-1104 | exactly when due a handshake with the server runs; it ends SYNCHRONIZED with the other timers set to the present, or FAILED without a marker |
| TimeDaemon.Daemon.Telemetry | packages/qcom-time-daemon/src/qcom-time-daemon.c:1124-1139 | synchronised, three transactions, the first of which asks for TOD |
| AtsClock.RunningClockIsPreferred | packages/qcom-time-daemon/src/qcom-time-daemon.c:400-417 | a clock at or after the record's is never overridden by the record |
| AtsClock.DeltaIsSignedDifference | packages/qcom-time-daemon/src/qcom-time-daemon.c:440-447 | the stored delta is the signed difference whenever that fits 63 bits |
| AtsClock.VerdictIsRight | packages/qcom-time-daemon/src/qcom-time-daemon.c:356-390 | a reading below the stored one is reported RESTARTED with the difference, RESTARTED is never a false alarm, and without a restart SURVIVED carries the exact modem time |
| AtsClock.SurvivedIsWrongWhen | packages/qcom-time-daemon/src/qcom-time-daemon.c:356-390 | SURVIVED is wrong exactly when the modem restarted and its new uptime has already passed the stored one |
| AtsClock.VerdictIs | packages/qcom-time-daemon/src/qcom-time-daemon.c:356-390 | unknown exactly without a record or with an uptime of 0 in it; else RESTARTED exactly if the reading is below the stored one; and the milliseconds reported are the difference |
| AtsRecordText.KvGet | packages/qcom-time-daemon/src/qcom-time-daemon.c:175-198 | the pointer-scanning loop finds the value of the first line that begins with key and equals sign, cut to the buffer |
| AtsRecordText.FormatFits | packages/qcom-time-daemon/src/qcom-time-daemon.c:307-318 | the text is never empty and always fits the 512-byte buffer |
| AtsRecordText.StrtoullOfDecimal | packages/qcom-time-daemon/src/qcom-time-daemon.c:200-209 | every 64-bit number survives printing and strtoull |
| AtsRecordText.StrtollOfDecimal | packages/qcom-time-daemon/src/qcom-time-daemon.c:211-221 | every signed 64-bit number survives printing and strtoll |
| AtsRecordText.LookupIsFirst | packages/qcom-time-daemon/src/qcom-time-daemon.c:175-198 | a key has a value exactly if that is what stands behind key and equals sign on the first line that begins with them |
| AtsRecordText.LoadIsWhatFileSays | packages/qcom-time-daemon/src/qcom-time-daemon.c:227-288 | a file loads as a record exactly if its first 1023 bytes say so, field by field: the magic word, version 1, base 2, an offset not below the floor and every field a number without a minus sign in its first line; no other file loads |
| AtsRecordText.FormatIs | packages/qcom-time-daemon/src/qcom-time-daemon.c:307-318 | the text written, line by line |
| AtsStore.Store.Replace | packages/qcom-time-daemon/src/qcom-time-daemon.c:322-350 | the same for write, fsync, rename and directory fsync, in both cases of the synchronisation, success without a failed call included; no temporary file is left unless the power failed |
| AtsStore.Store.Load | packages/qcom-time-daemon/src/qcom-time-daemon.c:227-288 | success gives exactly the record the file holds, with base USER; a file that holds one loads unless a call failed |
| AtsStore.Store.NoteHandshake | packages/qcom-time-daemon/src/qcom-time-daemon.c:419-462 | the in-memory record changes exactly when the file was replaced; a refresh with an unchanged offset touches neither, and anything else saves unless the record is switched off, its path too long or a call failed |
| AtsStore.OutcomesWithoutSync | packages/qcom-time-daemon/src/qcom-time-daemon.c:322-345 | renaming an unsynchronised one lets a power loss leave any text: why the fsync is there |
| Crc16.ComputeCrc | packages/diag-logtool/src/diag_logtool.c:211-219 | both loops compute the bit-serial register over the first n bytes |
| Crc16.CrcComposes | packages/diag-logtool/src/diag_logtool.c:211-219 | the CRC of a concatenation is the CRC of the second part resumed from that of the first |
| Crc16.CrcLinear | packages/diag-logtool/src/diag_logtool.c:211-219 | linear over XOR in seed and message together |
| Crc16.ByteBurstIsDetected | packages/diag-logtool/src/diag_logtool.c:211-219 | the same for byte strings |
| Crc16.BitOfMessage | packages/diag-logtool/src/diag_logtool.c:211-219 | the message polynomial is made of the bytes in order, each from its most significant bit down |
| HdlcFraming.EmitFrame | packages/diag-logtool/src/diag_logtool.c:240-257 | the escaping loop with its bounds, flags included |
| HdlcFraming.FrameDecodes | packages/diag-logtool/src/diag_logtool.c:227-258 | un-stuffing per section 4.2 of RFC 1662 gives back payload and trailer, with no flag inside |
| HdlcFraming.FrameLength | packages/diag-logtool/src/diag_logtool.c:227-258 | between n + 3 + lead and 2 (n + 2) + 1 + lead octets |
| HdlcFraming.UnstuffStuff | packages/diag-logtool/src/diag_logtool.c:244-254 | un-stuffing undoes stuffing for every octet string |
| HdlcFraming.StuffHasNoFlag | packages/diag-logtool/src/diag_logtool.c:244-254 | no flag octet in stuffed data |
| HdlcFraming.AlteredPayloadIsRejected | packages/diag-logtool/src/diag_logtool.c:227-258 | a payload altered within 16 consecutive bits is never accepted with the original CRC |
| HdlcFraming.TrailerChecks | packages/diag-logtool/src/diag_logtool.c:232-238 | the two octets behind the payload, as a number with the low one first, are 0xffff less the CRC of the payload |
| ReplyReader.FindReply | packages/diag-logtool/src/diag_logtool.c:280-301 | the two scanning loops find the first complete message whose first byte matches |
| ReplyReader.MakeRoom | packages/diag-logtool/src/diag_logtool.c:306-310 | the buffer is kept whole, or moved to its tail when less than one read of room is left |
| ReplyReader.AnswerIgnoresPieces | packages/diag-logtool/src/diag_logtool.c:273-317 | below the trim threshold the answer depends on the bytes delivered only, not on how the reads cut them |
| ReplyReader.ScanFindsFirstFrame | packages/diag-logtool/src/diag_logtool.c:280-301 | in any prefix of a stream of frames the scan finds exactly the first frame with the wanted first byte once it is whole |
| ReplyReader.ReplyIsFirstFrame | packages/diag-logtool/src/diag_logtool.c:273-317 | read_reply on any chunking of a stream of non-empty payloads: the first frame whose first byte is the code, or a time-out |
| ReplyReader.AnswerMeans | packages/diag-logtool/src/diag_logtool.c:280-317 | what an answer is: 0 for a time-out, -1 for a failed read, else the first complete message whose first octet is wanted, cut to outsz |
| EfsTransfer.WriteFile | packages/diag-efs/src/diag_efs.c:501-517 | with truncation the target is at any outcome unchanged or a prefix of the data, and the data itself after success without a failed request; a lost close shows only in the read-back |
| EfsTransfer.WriteAll | packages/diag-efs/src/diag_efs.c:505-515 | under any short counts the handle holds exactly the prefix sent, all of it on success; only a failed or empty write stops it |
| EfsTransfer.ReadAll | packages/diag-efs/src/diag_efs.c:405-422 | success exactly with the whole file; failure only for a missing file or a failed request |
| EfsTransfer.CmdRead | packages/diag-efs/src/diag_efs.c:375-402 | 0 as soon as every byte has been read; the local file then has as many of them as the disk had room for, and the modem's files are untouched |
| EfsTransfer.CopyToDisk | packages/diag-efs/src/diag_efs.c:391-398 | short reads never end the loop: it stops short only when a read fails |
| EfsTransfer.SafeName | packages/diag-efs/src/diag_efs.c:454-463 | the backup name has no directory part and is never empty or too long |
| EfsTransfer.CalibrationPaths | packages/diag-efs/src/diag_efs.c:449-451 | refused without --force are exactly the paths with /rfnv/ or /mcs/ somewhere in them |
| EfsListing.Session.ReadEntries | packages/diag-efs/src/diag_efs.c:540-556 | prints and remembers the entries up to the first nameless one, a fault or the limit of 2048 |
| EfsListing.Session.ReadDir | packages/diag-efs/src/diag_efs.c:224-250 | an entry with its name cut to the buffer, or the end of the directory for an empty name |
| EfsListing.DirectoryBits | packages/diag-efs/src/diag_efs.c:548 | descended into are exactly the entries whose mode has 0x4 in bits 12 to 15 |
| EfsTree.ListsEachEntryOnce | packages/diag-efs/src/diag_efs.c:536-570 | the printed lines are, with multiplicity, those of an ordinary walk over the tree |
| EfsTree.ListingIsOrderly | packages/diag-efs/src/diag_efs.c:536-570 | no line repeats an earlier one or comes after a line for something inside it |
| StatsCallback.RunKeepsInv | Docs/WiFi/reference/wlan_hdd_main.c:4435-4571 | the invariant of lock, magic word, winner and fields holds in every reachable state |
| StatsCallback.TurnedAwayOnlyThen | Docs/WiFi/reference/wlan_hdd_main.c:4456-4464 | a callback under the lock is turned away exactly if another was admitted or the caller has cleared |
| StatsCallback.NoDeadlock | Docs/WiFi/reference/wlan_hdd_main.c:4531-4555 | until the caller has returned, somebody can take a step |
| StatsCallback.ReusedMagicIsCompleted | Docs/WiFi/reference/wlan_hdd_main.c:7859-7876 | a run in which the returned frame shows the magic word again and a late callback completes it: the assumption is needed |
| StatsCallback.SuccessIffWoken | Docs/WiFi/reference/wlan_hdd_main.c:4531-4571 | a caller that has returned reports success exactly if it was woken, and it can be woken only by a callback that has completed |
| BatchScan.Adapter.Format | Docs/WiFi/reference/wlan_hdd_main.c:1305-1449 | the record's text if it fits with its NUL, else two percent signs if four bytes are left, else nothing |
| BatchScan.Adapter.Populate | Docs/WiFi/reference/wlan_hdd_main.c:1071-1129 | appended at the end, or dropped for an ssid over 32 characters by its length modulo 256; nothing else is dropped unless memory is short |
| BatchScan.Adapter.ReturnCached | Docs/WiFi/reference/wlan_hdd_main.c:1549-1570 | the caller counts the used bytes twice: with at most half the buffer used nothing is lost, with more the queue is emptied unwritten |
| BatchScan.RoomForOne | Docs/WiFi/reference/wlan_hdd_main.c:1428-1433 | room for the longest record always lets one out |
| BatchScan.TextIsShort | Docs/WiFi/reference/wlan_hdd_main.c:1315-1426 | a record's text is at most 162 characters, so the 8-bit counters never wrap |
| BatchScan.Serve | Docs/WiFi/reference/wlan_hdd_main.c:1071-1129 | the driver's own enqueue and drain, called for any sequence of arrivals and buffers, make these steps, and the text of the run is what the buffers of the drains begin with, one behind the other |
| BatchScan.TakenIsMost | Docs/WiFi/reference/wlan_hdd_main.c:1428-1433 | a drain takes as many records as fit with a NUL each: one more would not |
| InterfaceAddresses.RunKeepsConsistent | Docs/WiFi/reference/wlan_hdd_main.c:5748-5776 | with a distinct table the addresses out are, once each, those whose bit is set |
| InterfaceAddresses.Config.GetIntfAddr | Docs/WiFi/reference/wlan_hdd_main.c:5748-5762 | the lowest clear bit is set and its address returned; none exactly when all are set |
| InterfaceAddresses.Config.ReleaseIntfAddr | Docs/WiFi/reference/wlan_hdd_main.c:5764-5776 | the bit of the first match is cleared, all others kept |
| InterfaceAddresses.Config.GenerateIfaceMacAddrAuto | Docs/WiFi/reference/wlan_hdd_main.c:8545-8588 | consecutive serial numbers in the last three bytes from the start index on; nothing without a serial number |
| InterfaceAddresses.GeneratedFromZeroIsDistinct | Docs/WiFi/reference/wlan_hdd_main.c:8545-8588 | started at index 0 it makes the table pairwise different |
| InterfaceAddresses.NoWrapUpTo256 | Docs/WiFi/reference/wlan_hdd_main.c:8554-8562 | the 32-bit multiplication never wraps exactly up to 256 personas |
| ChannelAvoidance.HddContext.UpdateUnsafeChannelList | Docs/WiFi/reference/wlan_hdd_hostapd.c:1315-1365 | marks cleared first, then the first table entry of each listed channel unsafe; list copied, capped at the table's size and zero-filled |
| ChannelAvoidance.AddRange | Docs/WiFi/reference/wlan_hdd_hostapd.c:1461-1500 | one range adds its channels; a start behind the end adds nothing; the 16-bit loop ends for every channel below 65535 |
| ChannelAvoidance.AddMatches | Docs/WiFi/reference/wlan_hdd_hostapd.c:1477-1492 | the inner loop does not stop at the first match, and the list still never outgrows the table |
| ChannelAvoidance.ListsOfDistinct | Docs/WiFi/reference/wlan_hdd_hostapd.c:1461-1500 | for a table of distinct channels: duplicate-free, no longer than the table, and exactly the channels inside a span |
| ChannelAvoidance.SafeChannelsAreDistinct | Docs/WiFi/reference/wlan_hdd_hostapd.c:107-155 | the driver's table has 45 distinct channels |
| ChannelAvoidance.HostapdFreqToChn | Docs/WiFi/reference/wlan_hdd_hostapd.c:1280-1296 | the channel of the first matching frequency, 0 for an unknown one |
| ChannelAvoidance.FreqToChnMeans | Docs/WiFi/reference/wlan_hdd_hostapd.c:1280-1296 | the channel of a frequency is the one in the first entry with it, 0 without an entry |
| ChannelAvoidance.InMeans | Docs/WiFi/reference/wlan_hdd_hostapd.c:1461-1476 | avoided are exactly the channels between those of the two frequencies of some range, both included |
| SoftApChannels.GetChannelList | Docs/WiFi/reference/wlan_hdd_hostapd.c:2381-2469 | the enabled channels of the band, less the indoor ones under strict FCC rules, capped; fails exactly when band or domain is unknown |
| SoftApChannels.Collect | Docs/WiFi/reference/wlan_hdd_hostapd.c:2420-2427 | the enabled channels of the band in table order |
| SoftApChannels.OutdoorMeans | Docs/WiFi/reference/wlan_hdd_hostapd.c:2445-2454 | no channel 36..48 is left, every other occurs as often as before |
| SoftApChannels.OutdoorKeepsOrder | Docs/WiFi/reference/wlan_hdd_hostapd.c:2445-2454 | every channel kept stands behind exactly the kept ones before it |
| SoftApChannels.EnabledMeans | Docs/WiFi/reference/wlan_hdd_hostapd.c:2420-2427 | each enabled entry is listed once, at the place given by the number of enabled entries before it, and nothing else is |
| BatchReader.RecordOfText | Docs/WiFi/reference/wlan_hdd_main.c:1315-1426 | a reader of the documented lines gets back from the text of a record, whatever follows it (after a record that is not the last, anything but end markers): whether its scan is another one than its predecessor's, the six address bytes, ssid, frequency, level, the age as a signed 32-bit number, and whether it was the last of the response; for every ssid without a newline |

## Left out

- QRTR and QMI encoding, sockets, poll, select, signals, syslog, getopt: a packet is modelled as already decoded, a poll as the next timed arrival.
- Byte layout of the EFS requests and replies, matching a reply to its request, stale replies after a time-out: a request is a call that may fail.
- TimeDaemon: the refresh path is modelled, but a refresh may write the marker after a nested handshake has failed; `stray` records that, and the marker claim is about runs with the refresh off.
- TimeDaemon.Daemon.Run: covers any number of rounds of the main loop up to a given budget; that the loop goes on until it is told to stop is not a claim.
- TimeDaemon.Reboots: after a failed data synchronisation and a power loss the record file may hold anything (`AtsStore.Store.Save`), so no report is claimed to be right from then on.
- TimeDaemonRuns: the three runs are made of the daemon's own steps (`Begin`, `Accept`, `Connect`, `Handle`, `Finish`); the environment's choices inside `Transact` and `Handle` cannot be fixed from outside.
- AtsStore.Store.Load: a failed load leaves the fields parsed so far in memory; the model leaves arbitrary values, which nothing reads because the record does not count as loaded.
- AtsStore.Store.Save: creating the directory, and closing files, are not modelled; fsync of the directory may fail without notice, as in the code.
- ReplyReader.ReplyIsFirstFrame: streams longer than the trim threshold are not covered, since the claim is false there for every length (`PromiseHoldsUpToThreshold`).
- HdlcFraming: the receiver is written from section 4.2 of RFC 1662; octets outside the transparency rules (the abort sequence, control characters) do not occur.
- EfsTransfer.Put: local files of 4 GiB and more are excluded; above that the length is cut to 32 bits and the comparison would read past the buffer.
- EfsTransfer: `get`, `stat`, `detect` and `dump` print or repeat what is modelled; memory exhaustion is part of an unreadable payload. A full disk is the only reason for a short local write; errors of the medium are not modelled.
- EfsListing.Session.ListRec: names are those up to the first NUL; an empty path, for which the code reads before the string, is excluded.
- EfsTree.TreeIsListed: trees with anything below the thirteenth level, with directories of more than 2048 entries or with paths over 1023 characters are not printed completely by the code; for those only `ListRec` speaks.
- StatsCallback: one request at a time for an adapter; the histogram fields are left out because the length passed is an element count.
- StatsCallback: the log message after a rejected callback reads the context outside the lock; it writes nothing and is not a step.
- BatchScan: the linked list of the queue is a sequence; the firmware indication that fills it and the request sent when the cache is empty are not modelled.
- BatchScan: the record buffer's size is not shown in the sources; it is taken to hold the longest record, 162 characters and the NUL.
- InterfaceAddresses: the mask is a sequence of bits, one for each persona; addresses read from NV or the configuration file are not modelled.
- ChannelAvoidance: the range counter is 8 bits wide, so at most 255 ranges, and the channel loop 16 bits, so no channel 65535, at which it would not end; the vendor event and the restart of the access point that follow are not modelled.
- AtsClock.DerivedOffsetIsSound: the drift of one clock against another is not modelled, nor a modem restart after the RTC reading.
- SoftApChannels: for lists of 256 channels and more the 8-bit index could not end the loop; the driver's tables are shorter.
- The static QMI descriptor tables, ats-probe, the remaining packages, the web interface and the other driver code: plumbing, drawing, or kernel calls without an algorithm of their own.
