/** What a handler leaves behind once the page plumbing is taken away: the
    diagnostic `console.log` record, the blocking `alert` message, and the
    value assigned to `window.location.href`. */
module Feedback {

  /** One `console.log(heading, { ... })` call: the heading and the properties of
      the logged object, in order. */
  datatype LogRecord = LogRecord(heading: string, fields: seq<(string, string)>)

  /** Either the handler logs, alerts `message` and navigates to `url`, or it
      alerts `message` and stays on the page. */
  datatype Outcome =
    | Navigate(log: LogRecord, message: string, url: string)
    | Reject(message: string)

  /** The property names of a logged object. */
  function FieldNames(fields: seq<(string, string)>): seq<string> {
    seq(|fields|, k requires 0 <= k < |fields| => fields[k].0)
  }
}
