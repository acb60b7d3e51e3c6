# qrzlogger in Dafny

qrzlogger listens for the "Logged ADIF" messages that WSJT-X broadcasts over
UDP and uploads each record to the QRZ logbook. If an upload fails, the record
is kept in a pending store and uploaded again later. This project models the
program's sequential logic as pure Dafny functions, plus three small methods
for the loops (`Entries`, `Remove` and `Save` of the backlog), and proves what
that logic promises.

The model has seven modules in six files:

- `Common` (common.dfy): `Option`, plus Go's `strings.HasPrefix` and
  `strings.Contains`. `Contains` is proved equal to "occurs at some index".
  This module also defines the filter "drop every entry equal to x" that both
  stores apply on delivery.
- `Http` (common.dfy): the abstract `Response` of one POST, which is a
  transport error, a read error or a body. It also builds the insert form.
- `Frame` (frame.dfy): the datagram decoder of `listen` in main.go, in two
  versions:
  - a fail-closed decoder with unbounded offsets, used by the rest of the model;
  - the decoder as written, with `uint32` offsets that wrap around.

  The module also has an encoder for broadcast frames and a round-trip lemma.
- `BacklogFile` (backlog.dfy): the file-backed backlog of backlog.go. It covers `NewBacklog`,
  `Add`, `Entries` and `Remove`, and `Save` and `Load` on file contents. It
  proves an exact round trip for single-line records and a precise lossy round
  trip for multi-line ones.
- `QrzClient` (qrz_client.dfy): `Client.Upload` of qrz/qrz.go and its four-way outcome
  classifier: delivered, already logged, rejected, or transient.
- `QrzLegacy` (qrz_legacy.dfy): the earlier two-way `upload` of qrz.go. It is proved to be the
  client's classifier with "already logged" folded into the failures.
- `Relay` (relay.dfy): main.go's own `upload`; `send`, which stores a record only when
  its upload fails; the start-up drain (`uploadNextPending` / `uploadPending`);
  and a sequential run of the whole program.

The four source files (main.go, backlog.go, qrz.go and qrz/qrz.go) come from
different versions of the program, so each is modelled on its own. The SQLite table of main.go is a `seq<string>`. An
upload is an oracle from a record to its status, so an upload's answer depends
only on the record.

Bytes of a datagram are the newtype `byte`. `listen` reads every datagram into
a 2048-byte buffer, so a read delivers at most 2048 bytes (`Frame.Payload`). A Go byte string is a `string`
whose characters are all below 256: byte `b` is the character with code `b`.

`send` in main.go uploads a record first and calls `addPending` only after the
upload has failed (main.go:75-77). The model follows that order, so a record
reaches the pending table only through a failed upload.

## Model

| member | source | states |
|---|---|---|
| `Frame.Decode` | main.go:184-198 | Wrong magic (`0xadbccbda`) or message type ≠ 12 gives no record. A record exists exactly when the identifier length (read at byte 12) and the ADIF length (read at byte 16+idlen) both fit in the datagram. The record is exactly the adifLen bytes starting at 20+idlen. |
| `Frame.SchemaIgnored` | main.go:189-191 | Bytes 4..8 are never consulted: two datagrams that differ only there decode alike. |
| `Frame.DecodeEncode` | main.go:192-198 | Decoding a frame built from any schema, identifier and ADIF text returns exactly that text. The identifier is skipped, not returned. |
| `Frame.Accept` | main.go:171-198 | A read delivers at most 2048 bytes. A read error or an empty datagram yields no record. Otherwise a record comes out exactly when the bytes read form a well-formed frame, and it is the record `Decode` gives for them, a byte string. |
| `Frame.ListenAccepted` | main.go:172-201 | A record is forwarded exactly when some read of the stream is accepted with it. |
| `Frame.ListenOne` | main.go:172-201 | One read yields its accepted record or nothing. With `ListenAppend` this fixes the output of every stream: the accepted records of its reads, in read order. |
| `Frame.ListenAppend` | main.go:172-201 | The records of two streams of reads, one after the other, are the records of each in order. A skipped read never affects the reads that follow. |
| `Frame.DecodeAsWritten` | main.go:189-198 | The decoder with `uint32` offsets that wrap modulo 2^32. It still yields a record only after the magic and type 12 checks. |
| `Frame.AsWrittenAgreesWithoutWrap` | main.go:189-198 | When no offset can wrap, the decoder as written and the fail-closed decoder return the same result. |
| `Frame.WrapRelaysHeaderBytes` | main.go:193-198 | A 20-byte frame with identifier length 0xFFFFFFF4 makes the decoder as written relay two header bytes as a record. The fail-closed decoder rejects the same frame. |
| `BacklogFile.NewBacklog` | backlog.go:56-57 | A new backlog has no entries and is not dirty. |
| `BacklogFile.Add` | backlog.go:60-63 | The record is appended at the end, earlier entries are unchanged, and the backlog becomes dirty. |
| `BacklogFile.Entries` | backlog.go:65-71 | The copy equals the current entries. |
| `BacklogFile.Remove` | backlog.go:74-84 | Every entry equal to the argument is deleted and the rest keep their order. The result is dirty exactly when it was dirty before or something was deleted. Removing an absent value changes nothing. |
| `BacklogFile.RemoveUndoesAdd` | backlog.go:74-84 | Removing a record just added gives the same entries as removing it before the addition. |
| `BacklogFile.Serialize` | backlog.go:98-103 | The file is empty exactly when there are no entries, and otherwise ends with a newline. |
| `BacklogFile.SerializeSnoc` | backlog.go:98-103 | Writing one more entry extends the file by that entry and a newline. |
| `BacklogFile.Save` | backlog.go:86-106 | A clean backlog writes nothing and returns no error. If the file cannot be opened, the backlog is kept and an error is returned. If every write succeeds, the file is each entry followed by `"\n"`, in order, and dirty is cleared. If a write fails, only the entries before it are written and the backlog stays dirty. |
| `BacklogFile.SplitLinesAppend` | backlog.go:116-121 | The lines the scanner yields for a file of whole lines followed by more text are the lines of each part. |
| `BacklogFile.ConcatSplitLines` | backlog.go:120-132 | Joining the scanned lines gives the text without its line breaks. |
| `BacklogFile.Load` | backlog.go:109-141 | When the file cannot be opened, the backlog is kept and an error is returned. Otherwise the backlog is clean and every record starts with `<adif_ver`. |
| `BacklogFile.ParseSkipsEmpty` | backlog.go:122-124 | Empty lines have no effect on what is loaded. |
| `BacklogFile.ParseDropsPreamble` | backlog.go:125-133 | Lines before the first `<adif_ver` line are dropped. |
| `BacklogFile.ParseBlock` | backlog.go:125-137 | A header line followed by non-header lines becomes one record: those lines joined with no separator. The next header line starts the next record, and the last record is flushed at the end. |
| `BacklogFile.LoadSavedFramed` | backlog.go:120-137 | Saving and then loading entries without `\r` whose first line starts with `<adif_ver`, and whose later lines do not, gives back the same entries in order with their line breaks and empty lines removed. |
| `BacklogFile.LoadSave` | backlog.go:98-137 | Single-line entries without `\r` that start with `<adif_ver` come back exactly from the saved file, and the loaded backlog is clean. |
| `Common.ContainsMeansOccurs` | qrz/qrz.go:49-50 | The substring test used by every classifier holds exactly when the pattern occurs at some index. |
| `Common.RemoveAllCounts` | main.go:128-132 | Deleting every copy of a record leaves every other record's count unchanged and leaves no copy of it. |
| `Http.InsertForm` | qrz/qrz.go:24-27 | The form has exactly the fields `ACTION=INSERT`, `KEY` and `ADIF`. |
| `QrzClient.NewClient` | qrz/qrz.go:19-21 | The client keeps the key it was given. |
| `QrzClient.Classify` | qrz/qrz.go:38-58 | A body containing `LOGID` is delivered. A body without it that contains the duplicate reason is already logged. Any other body is rejected and carries the whole body. Transport and read errors are returned as they are. Each of these holds in both directions. |
| `QrzClient.Upload` | qrz/qrz.go:23-59 | The insert form carries the client's key and the record, and the outcome is the classification of the transport's answer to that form. |
| `QrzClient.LogIdWins` | qrz/qrz.go:50-58 | A body with `LOGID` inside it is delivered, whatever text comes before or after that part, the duplicate reason included. |
| `QrzClient.DuplicateIsAlreadyLogged` | qrz/qrz.go:50-52 | Appending the duplicate reason to a body without `LOGID` makes it "already logged". |
| `QrzLegacy.Classify` | qrz.go:27-43 | Success exactly when the body contains `LOGID`. Otherwise the error carries the body, and transport and read errors are returned unchanged. |
| `QrzLegacy.Upload` | qrz.go:12-44 | The form carries the given key and the record, and the status is the classification of the answer. |
| `QrzLegacy.CoarsensClient` | qrz.go:38-40 | The two-way classifier succeeds exactly when the client's classifier reports delivered. It reports an "already logged" body as an ordinary failure carrying that body, and agrees with the client in every other case. |
| `Relay.Upload` | main.go:31-60 | Success exactly when the body contains `LOGID`. Otherwise the error carries the body, and a read error is returned unchanged. The form is `ACTION=INSERT`, the key and the record. |
| `Relay.UploadMatchesLegacy` | main.go:31-60 | On every answer except a transport error, main.go's `upload` posts the same form as the one in qrz.go and reaches the same status. |
| `Relay.Send` | main.go:72-85 | A failed upload appends the record to the pending table. A successful upload stores nothing. |
| `Relay.Undelivered` | main.go:73-83 | A record is among those stored by a sequence of sends exactly when it was sent and its upload fails. |
| `Relay.SendAll` | main.go:73-83 | Sending records one after another leaves the table followed by exactly the records whose upload failed, in order. |
| `Relay.UploadNextPending` | main.go:111-138 | An empty table gives nil and no upload. Otherwise the first record is uploaded. On failure the table is unchanged and the error is returned. On success every copy of that record is deleted, every other record's count is unchanged, and the table strictly shrinks. |
| `Relay.DrainLoop` | main.go:149-158 | The loop begins with the first record. It stops with an error exactly when records remain, and that error is the failure of its last attempt. Every other attempt succeeded. No record is attempted twice, and only pending records are attempted. The table left is the original with exactly the delivered records deleted. |
| `Relay.UploadPending` | main.go:140-160 | An empty table returns at once with no upload. Otherwise the drain contract of `DrainLoop` holds. |
| `Relay.DrainLosesNothing` | main.go:123-132 | After a drain, every record that was pending is still pending or was delivered by a successful upload. |
| `Relay.DrainIdempotent` | main.go:145-147 | Draining again a table that a drain has emptied makes no upload and changes nothing. |
| `Relay.DrainDeliversAll` | main.go:140-160 | When every pending record uploads successfully, the drain uploads each of them, empties the table and returns no error. |
| `Relay.Run` | main.go:239-262 | A sequential run leaves the table remaining after the start-up drain, followed by every decoded record whose upload failed, in order. |
| `Relay.RunLosesNothing` | main.go:239-262 | A record whose upload fails, whether it was pending at start-up or decoded from a datagram, is in the table after the run. |
| `Relay.FailedRecordIsStored` | main.go:72-82 | On an empty table, a broadcast frame of at most 2048 bytes whose record fails to upload leaves exactly that record in the table. |

## Left out

- HTTP and form encoding (`http.Client`, `NewRequest`, `url.Values.Encode`, the headers) are library calls. They are reduced to the `Response` a transport returns for a form. An error from building the request is folded into `TransportErr`.
- The SQLite layer is left out: `createTable`, `countPending`, `addPending` and the `Query`/`Scan`/`Prepare`/`Exec` errors. The table is a sequence. `LIMIT 1` has no order, and the model takes the first entry. A failed `addPending` or `DELETE` is not modelled.
- Goroutines, channels and the wait group are left out. The program is modelled as the drain followed by `send` applied to each decoded record in turn.
- File system and environment are left out: `create`, `ensureFile`, `~/` expansion, `os.Stat`, flag parsing and `QRZ_KEY`. `Save` receives the outcome of opening and writing as a `Disk` value, and `Load` receives the file's contents, or `None` when it cannot be opened.
- The `bufio.Scanner` details are left out: stripping a trailing `\r` and the 64 KiB line limit. The round-trip lemmas `BacklogFile.LoadSave` and `BacklogFile.LoadSavedFramed` therefore require records without `\r`.
- `BacklogFile.Save`: a failing write is modelled as writing none of its line, so a partly written line is not modelled.
- Logging output is left out everywhere.
- `Frame.Decode`: every read must lie inside the bytes received, otherwise no record is produced. The Go code never compares offsets to `n`, so a frame whose lengths reach past `n` but stay inside the buffer is decoded from stale bytes of an earlier read.
- `Frame.Accept`: if a frame's declared lengths reach past byte 2048, the length read or the slice at main.go:196-198 goes past the buffer and panics. Nothing recovers the panic, so the program ends and the record is neither uploaded nor stored. The model gives no record for such a frame and does not model the crash.
- `Relay.Upload`: in main.go, `defer res.Body.Close()` comes before the error check, so a transport error is a nil dereference. The model does not state that case; its body treats it as a failure carrying the error.
- An unchecked `Query` error in `uploadNextPending` and the ignored `Exec` error in `createTable` are Go crashes or no-ops, and are not modelled.
- The caller of `QrzClient.Upload` that treats "already logged" as delivered is not part of this model: no caller of `Client.Upload` appears in main.go, which uses its own `upload`. The end-to-end case where a duplicate empties the backlog is therefore not stated.
- The upload oracle is a pure function, so repeated uploads of the same record get the same answer. Time-varying outcomes across retries are not modelled.

## Findings

| source | as written | input that shows it | evidently intended | confidence | as-written member | corrected member |
|---|---|---|---|---|---|---|
| main.go:189-198 | `offset` is a `uint32`, so `offset += idlen` wraps around modulo 2^32 and can move the read position back into the header | A 20-byte datagram: magic, schema 2, type 12, idlen `0xFFFFFFF4`, then four zero bytes. The offset wraps to 4, the schema (2) is read as the ADIF length, and bytes 8..10 (two zero bytes of the type field) are relayed as a record | The identifier and record lie after byte 16 inside the datagram, and any other frame is rejected | medium, not executed | `Frame.DecodeAsWritten` (exhibited by `Frame.WrapRelaysHeaderBytes`) | `Frame.Decode` (its contract: a record exists exactly when both lengths fit after byte 16; agreement without wrap-around in `Frame.AsWrittenAgreesWithoutWrap`) |
