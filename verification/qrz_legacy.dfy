/** The earlier upload routine of qrz.go: a two-outcome classifier that only
    looks for the insert id, with the API key taken from a package-level
    variable (here a parameter). */
module QrzLegacy {
  import opened Common
  import opened Http
  import QrzClient

  /** The result of `upload`: a nil error, or an error with its text. */
  datatype Status = Ok | Failed(reason: string)

  /** One upload: the form that was posted and its status. */
  datatype Attempt = Attempt(form: Form, status: Status)

  /** The response handling of `upload`. */
  function Classify(resp: Response): (s: Status)
    ensures s.Ok? <==> resp.Body? && Contains(resp.text, QrzClient.LogIdField)
    ensures s.Failed? && resp.Body? ==> s.reason == resp.text
    ensures !resp.Body? ==> s == Failed(resp.err)
  {
    match resp
    case TransportErr(e) => Failed(e)
    case ReadErr(e) => Failed(e)
    case Body(text) => if !Contains(text, QrzClient.LogIdField) then Failed(text) else Ok
  }

  /** `upload`: posts the insert form with the key and the record. */
  function Upload(key: string, adif: string, transport: Form -> Response): (a: Attempt)
    ensures a.form.Keys == {"ACTION", "KEY", "ADIF"}
    ensures a.form["ACTION"] == "INSERT" && a.form["KEY"] == key && a.form["ADIF"] == adif
    ensures a.status == Classify(transport(a.form))
  {
    var form := InsertForm(key, adif);
    Attempt(form, Classify(transport(form)))
  }

  /** The two-outcome classifier is the four-outcome one of the client with
      `AlreadyLogged` folded into the rejections: a duplicate is reported as
      an ordinary failure carrying the body, and every other case agrees. */
  lemma CoarsensClient(resp: Response)
    ensures Classify(resp).Ok? <==> QrzClient.Classify(resp).Delivered?
    ensures QrzClient.Classify(resp).AlreadyLogged? ==> Classify(resp) == Failed(resp.text)
    ensures QrzClient.Classify(resp).Rejected? ==> Classify(resp) == Failed(QrzClient.Classify(resp).body)
    ensures QrzClient.Classify(resp).Transient? ==> Classify(resp) == Failed(QrzClient.Classify(resp).err)
  {
  }
}
