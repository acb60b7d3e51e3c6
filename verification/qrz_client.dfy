/** The logbook client of qrz/qrz.go: one POST per record, whose response
    body is classified by substring search into delivered, already logged
    (the service reports a duplicate), or rejected; transport and read
    errors are passed through unchanged. */
module QrzClient {
  import opened Common
  import opened Http

  /** The field of a response that reports a successful insert. */
  const LogIdField: string := "LOGID"
  /** The exact reason text the service gives for a duplicate record. */
  const DuplicateReason: string := "&REASON=Unable to add QSO to database: duplicate"

  /** A client holds the API key it was created with. */
  datatype Client = Client(key: string)

  /** What `Upload` returns: nil, `ErrAlreadyExists`, an error carrying the
      body, or the transport or read error itself. */
  datatype Outcome = Delivered | AlreadyLogged | Rejected(body: string) | Transient(err: string)

  /** One upload: the form that was posted and the classified outcome. */
  datatype Attempt = Attempt(form: Form, outcome: Outcome)

  /** `NewClient`. */
  function NewClient(key: string): (c: Client)
    ensures c.key == key
  {
    Client(key)
  }

  /** The classification of `Upload`'s response handling. */
  function Classify(resp: Response): (o: Outcome)
    ensures o.Delivered? <==> resp.Body? && Contains(resp.text, LogIdField)
    ensures o.AlreadyLogged? <==>
              resp.Body? && !Contains(resp.text, LogIdField) && Contains(resp.text, DuplicateReason)
    ensures o.Rejected? <==>
              resp.Body? && !Contains(resp.text, LogIdField) && !Contains(resp.text, DuplicateReason)
    ensures o.Rejected? ==> o.body == resp.text
    ensures o.Transient? <==> !resp.Body?
    ensures o.Transient? ==> o.err == resp.err
  {
    match resp
    case TransportErr(e) => Transient(e)
    case ReadErr(e) => Transient(e)
    case Body(text) =>
      if !Contains(text, LogIdField) then
        if Contains(text, DuplicateReason) then AlreadyLogged else Rejected(text)
      else Delivered
  }

  /** `Client.Upload`: posts the insert form carrying the client's key and
      the record, and classifies whatever the transport answered. */
  function Upload(c: Client, adif: string, transport: Form -> Response): (a: Attempt)
    ensures a.form.Keys == {"ACTION", "KEY", "ADIF"}
    ensures a.form["ACTION"] == "INSERT" && a.form["KEY"] == c.key && a.form["ADIF"] == adif
    ensures a.outcome == Classify(transport(a.form))
  {
    var form := InsertForm(c.key, adif);
    Attempt(form, Classify(transport(form)))
  }

  /** A body reporting an insert is a delivery, whatever text (the duplicate
      reason included) comes before or after the insert id. */
  lemma LogIdWins(before: string, text: string, after: string)
    requires Contains(text, LogIdField)
    ensures Classify(Body(before + text + after)) == Delivered
  {
    ContainsAppendRight(text, after, LogIdField);
    ContainsAppendLeft(before, text + after, LogIdField);
    assert before + text + after == before + (text + after);
  }

  /** The duplicate reason appended to a body without an insert id turns a
      rejection into `AlreadyLogged`. */
  lemma DuplicateIsAlreadyLogged(text: string)
    requires !Contains(text + DuplicateReason, LogIdField)
    ensures Classify(Body(text + DuplicateReason)) == AlreadyLogged
  {
    assert HasPrefix(DuplicateReason, DuplicateReason);
    ContainsAppendLeft(text, DuplicateReason, DuplicateReason);
  }
}
