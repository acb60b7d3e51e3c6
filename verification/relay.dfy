/** The relay program of main.go: its own two-outcome `upload`, the
    store-on-failure `send` step, the start-up drain of the pending table
    (`uploadNextPending` / `uploadPending`), and a sequential run of the
    whole program. The SQLite table is a sequence of records; the upload is
    an oracle from a record to its status, so every attempt at the same
    record gets the same answer. */
module Relay {
  import opened Common
  import opened Http
  import Frame
  import QrzClient
  import QrzLegacy

  /** The result of `upload`, the same two outcomes as in qrz.go: a nil
      error, or an error with its text. */
  type Status = QrzLegacy.Status

  /** One upload: the form that was posted and its status. */
  type Attempt = QrzLegacy.Attempt

  /** `upload` of main.go: success exactly when the body mentions an insert
      id; otherwise the error carries the body, or the read error. */
  function Upload(key: string, adif: string, transport: Form -> Response): (a: Attempt)
    ensures a.form.Keys == {"ACTION", "KEY", "ADIF"}
    ensures a.form["ACTION"] == "INSERT" && a.form["KEY"] == key && a.form["ADIF"] == adif
    ensures a.status.Ok? <==> transport(a.form).Body? && Contains(transport(a.form).text, QrzClient.LogIdField)
    ensures transport(a.form).Body? && a.status.Failed? ==> a.status.reason == transport(a.form).text
    ensures transport(a.form).ReadErr? ==> a.status == QrzLegacy.Failed(transport(a.form).err)
  {
    var form := InsertForm(key, adif);
    var status :=
      match transport(form)
      case TransportErr(e) => QrzLegacy.Failed(e)
      case ReadErr(e) => QrzLegacy.Failed(e)
      case Body(text) => if !Contains(text, QrzClient.LogIdField) then QrzLegacy.Failed(text) else QrzLegacy.Ok;
    QrzLegacy.Attempt(form, status)
  }

  /** The `upload` of main.go and the one of qrz.go post the same form and
      reach the same status on every answer main.go survives: they differ
      only on a transport error, where main.go closes a nil response. */
  lemma UploadMatchesLegacy(key: string, adif: string, transport: Form -> Response)
    requires !transport(InsertForm(key, adif)).TransportErr?
    ensures Upload(key, adif, transport) == QrzLegacy.Upload(key, adif, transport)
  {
  }

  /** `send` for one record taken from the channel: a failed upload stores
      the record in the pending table, a successful one stores nothing. */
  function Send(table: seq<string>, adif: string, up: string -> Status): (t: seq<string>)
    ensures up(adif).Ok? ==> t == table
    ensures up(adif).Failed? ==> |t| == |table| + 1 && t[..|table|] == table && t[|table|] == adif
  {
    if up(adif).Failed? then table + [adif] else table
  }

  /** The records of `rs` whose upload fails, in order. */
  function Undelivered(rs: seq<string>, up: string -> Status): (u: seq<string>)
    ensures forall x :: x in u <==> x in rs && up(x).Failed?
    decreases |rs|
  {
    if |rs| == 0 then []
    else if up(rs[0]).Failed? then [rs[0]] + Undelivered(rs[1..], up)
    else Undelivered(rs[1..], up)
  }

  /** `send` applied to each record in turn. */
  function SendAll(table: seq<string>, rs: seq<string>, up: string -> Status): (t: seq<string>)
    ensures t == table + Undelivered(rs, up)
    decreases |rs|
  {
    if |rs| == 0 then table
    else
      var next := Send(table, rs[0], up);
      assert next == table + (if up(rs[0]).Failed? then [rs[0]] else []);
      assert Undelivered(rs, up) == (if up(rs[0]).Failed? then [rs[0]] else []) + Undelivered(rs[1..], up);
      SendAll(next, rs[1..], up)
  }

  /** One step of the drain: the table afterwards, the error returned, and
      the record handed to `upload`, if any. */
  datatype Next = Next(table: seq<string>, err: Option<string>, attempted: Option<string>)

  /** `uploadNextPending`: the first pending record (the query has no order,
      the model takes the first) is uploaded; on success every equal record
      is deleted, on failure the table is untouched and the error returned. */
  function UploadNextPending(t: seq<string>, up: string -> Status): (n: Next)
    ensures |t| == 0 ==> n == Next(t, None, None)
    ensures |t| > 0 ==> n.attempted == Some(t[0])
    ensures |t| > 0 && up(t[0]).Failed? ==> n.table == t && n.err == Some(up(t[0]).reason)
    ensures |t| > 0 && up(t[0]).Ok? ==>
              && n.err == None
              && t[0] !in n.table
              && multiset(n.table) == multiset(t)[t[0] := 0]
              && n.table == RemoveAll(t, t[0])
    ensures |t| > 0 && n.err.None? ==> |n.table| < |t|
  {
    if |t| == 0 then Next(t, None, None)
    else
      var adif := t[0];
      match up(adif)
      case Failed(e) => Next(t, Some(e), Some(adif))
      case Ok =>
        RemoveAllCounts(t, adif);
        Next(RemoveAll(t, adif), None, Some(adif))
  }

  /** What a drain did: the table left, the error it stopped on, and the
      records it handed to `upload`, in order. */
  datatype Drained = Drained(table: seq<string>, err: Option<string>, attempts: seq<string>)

  /** The table with every copy of each of `ds` deleted. */
  function RemoveEvery(t: seq<string>, ds: seq<string>): seq<string>
    decreases |ds|
  {
    if |ds| == 0 then t else RemoveEvery(RemoveAll(t, ds[0]), ds[1..])
  }

  /** The attempts of a drain that succeeded: all but a failing last one. */
  function Delivered(d: Drained): seq<string>
  {
    if d.err.Some? && |d.attempts| > 0 then d.attempts[..|d.attempts| - 1] else d.attempts
  }

  /** A drain stops with an error exactly when records remain, and that
      error is the failure of its last attempt. */
  ghost predicate StopsOnFailure(up: string -> Status, d: Drained)
  {
    && (d.err.None? <==> |d.table| == 0)
    && (d.err.Some? ==> |d.attempts| > 0 && up(d.attempts[|d.attempts| - 1]) == QrzLegacy.Failed(d.err.value))
  }

  /** Every delivered attempt was a successful upload. */
  ghost predicate DeliveredSucceeded(up: string -> Status, d: Drained)
  {
    forall i :: 0 <= i < |Delivered(d)| ==> up(Delivered(d)[i]).Ok?
  }

  /** Each record is attempted at most once, and only pending ones are. */
  ghost predicate AttemptsOncePending(t: seq<string>, d: Drained)
  {
    && (forall i, j :: 0 <= i < j < |d.attempts| ==> d.attempts[i] != d.attempts[j])
    && (forall x :: x in d.attempts ==> x in t)
  }

  /** What a drain of `t` promises: it stops on the first failure and only
      then; every attempt but a failing last one succeeded; each record is
      attempted at most once; and the table left is `t` with exactly the
      delivered records deleted, the rest in their order. */
  ghost predicate DrainSpec(t: seq<string>, up: string -> Status, d: Drained)
  {
    && StopsOnFailure(up, d)
    && DeliveredSucceeded(up, d)
    && AttemptsOncePending(t, d)
    && d.table == RemoveEvery(t, Delivered(d))
  }

  /** The loop of `uploadPending` once the table is known to be non-empty:
      one `uploadNextPending` per iteration until an error or an empty
      table. Each success shrinks the table, so the loop ends. */
  function DrainLoop(t: seq<string>, up: string -> Status): (d: Drained)
    requires |t| > 0
    ensures |d.attempts| > 0 && d.attempts[0] == t[0]
    ensures DrainSpec(t, up, d)
    decreases |t|
  {
    var n := UploadNextPending(t, up);
    if n.err.Some? then Drained(n.table, n.err, [t[0]])
    else if |n.table| == 0 then
      assert RemoveEvery(t, [t[0]]) == RemoveAll(t, t[0]);
      Drained([], None, [t[0]])
    else
      var rest := DrainLoop(n.table, up);
      DrainExtends(t, up, rest);
      Drained(rest.table, rest.err, [t[0]] + rest.attempts)
  }

  /** A successful first upload followed by a drain of the remaining table
      is a drain of the whole table. */
  lemma DrainExtends(t: seq<string>, up: string -> Status, rest: Drained)
    requires |t| > 0 && up(t[0]).Ok?
    requires |rest.attempts| > 0
    requires DrainSpec(RemoveAll(t, t[0]), up, rest)
    ensures DrainSpec(t, up, Drained(rest.table, rest.err, [t[0]] + rest.attempts))
  {
    var d := Drained(rest.table, rest.err, [t[0]] + rest.attempts);
    var del := Delivered(rest);
    assert Delivered(d) == [t[0]] + del;
    assert ([t[0]] + del)[1..] == del;
    assert d.table == RemoveEvery(t, Delivered(d));
    assert d.attempts[|d.attempts| - 1] == rest.attempts[|rest.attempts| - 1];
    assert StopsOnFailure(up, d);
    DrainExtendsSucceeded(t[0], up, rest);
    DrainExtendsOnce(t, rest);
  }

  lemma DrainExtendsSucceeded(x: string, up: string -> Status, rest: Drained)
    requires up(x).Ok? && |rest.attempts| > 0
    requires DeliveredSucceeded(up, rest)
    ensures DeliveredSucceeded(up, Drained(rest.table, rest.err, [x] + rest.attempts))
  {
    var d := Drained(rest.table, rest.err, [x] + rest.attempts);
    var del := Delivered(rest);
    assert Delivered(d) == [x] + del;
    forall i | 0 <= i < |Delivered(d)|
      ensures up(Delivered(d)[i]).Ok?
    {
      if i > 0 {
        assert Delivered(d)[i] == del[i - 1];
      }
    }
  }

  lemma DrainExtendsOnce(t: seq<string>, rest: Drained)
    requires |t| > 0
    requires AttemptsOncePending(RemoveAll(t, t[0]), rest)
    ensures AttemptsOncePending(t, Drained(rest.table, rest.err, [t[0]] + rest.attempts))
  {
    var t' := RemoveAll(t, t[0]);
    var d := Drained(rest.table, rest.err, [t[0]] + rest.attempts);
    forall x | x in rest.attempts
      ensures x in t && x != t[0]
    {
      assert x in t';
      RemoveAllFrom(t, t[0], x);
    }
    forall i, j | 0 <= i < j < |d.attempts|
      ensures d.attempts[i] != d.attempts[j]
    {
      assert d.attempts[j] == rest.attempts[j - 1];
      if i > 0 {
        assert d.attempts[i] == rest.attempts[i - 1];
      } else {
        assert d.attempts[j] in rest.attempts;
      }
    }
  }

  /** `uploadPending`: nothing to do on an empty table, otherwise drain. */
  function UploadPending(t: seq<string>, up: string -> Status): (d: Drained)
    ensures |t| == 0 ==> d == Drained([], None, [])
    ensures DrainSpec(t, up, d)
  {
    if |t| < 1 then Drained(t, None, []) else DrainLoop(t, up)
  }

  /** Deleting other records keeps a record in the table. */
  lemma {:induction false} RemoveEveryKeeps(t: seq<string>, ds: seq<string>, x: string)
    requires x in t && x !in ds
    ensures x in RemoveEvery(t, ds)
    decreases |ds|
  {
    if |ds| > 0 {
      RemoveAllKeeps(t, ds[0], x);
      RemoveEveryKeeps(RemoveAll(t, ds[0]), ds[1..], x);
    }
  }

  /** A drain loses nothing: every record that was pending is still pending
      or was delivered. */
  lemma DrainLosesNothing(t: seq<string>, up: string -> Status, x: string)
    requires x in t
    ensures var d := UploadPending(t, up);
            x in d.table || (x in Delivered(d) && up(x).Ok?)
  {
    var d := UploadPending(t, up);
    if x !in Delivered(d) {
      RemoveEveryKeeps(t, Delivered(d), x);
    }
  }

  /** Draining an empty table, or a table a drain has just emptied, makes
      no upload and changes nothing. */
  lemma DrainIdempotent(t: seq<string>, up: string -> Status)
    ensures var d := UploadPending(t, up);
            d.err.None? ==> UploadPending(d.table, up) == Drained([], None, [])
  {
  }

  /** When every pending record uploads successfully, the drain uploads
      each of them and empties the table without an error. */
  lemma DrainDeliversAll(t: seq<string>, up: string -> Status)
    requires forall x :: x in t ==> up(x).Ok?
    ensures UploadPending(t, up).table == [] && UploadPending(t, up).err == None
    ensures forall x :: x in t ==> x in UploadPending(t, up).attempts
  {
    var d := UploadPending(t, up);
    if |d.attempts| > 0 {
      var last := d.attempts[|d.attempts| - 1];
      assert last in d.attempts;
      assert up(last).Ok?;
    }
    forall x | x in t
      ensures x in d.attempts
    {
      if x !in Delivered(d) {
        RemoveEveryKeeps(t, Delivered(d), x);
      }
    }
  }

  /** The whole program, sequentially: drain the pending table at start-up
      (an error there is only logged), then hand every record `listen`
      decodes from the datagrams to `send`. */
  function Run(table: seq<string>, ds: seq<Frame.Datagram>, up: string -> Status): (t: seq<string>)
    ensures t == UploadPending(table, up).table + Undelivered(Frame.Listen(ds), up)
  {
    SendAll(UploadPending(table, up).table, Frame.Listen(ds), up)
  }

  /** No record is lost by a run: every record that was pending, and every
      record decoded from a datagram, ends up in the table unless its
      upload succeeded. */
  lemma RunLosesNothing(table: seq<string>, ds: seq<Frame.Datagram>, up: string -> Status, x: string)
    requires x in table || x in Frame.Listen(ds)
    requires up(x).Failed?
    ensures x in Run(table, ds, up)
  {
    if x in table {
      DrainLosesNothing(table, up, x);
    }
  }

  /** A broadcast record whose upload fails is stored in the table, for any
      frame that fits the read buffer. */
  lemma FailedRecordIsStored(schema: int, id: seq<Frame.byte>, adif: string, up: string -> Status)
    requires 0 <= schema < Frame.Two32 && 20 + |id| + |adif| <= Frame.BufferSize
    requires Frame.IsByteString(adif)
    requires up(adif).Failed?
    ensures Run([], [Frame.Received(Frame.EncodeFrame(schema, id, adif))], up) == [adif]
  {
    var ds := [Frame.Received(Frame.EncodeFrame(schema, id, adif))];
    Frame.DecodeEncode(schema, id, adif);
    assert ds[1..] == [];
    assert Frame.Listen(ds) == [adif];
  }
}
