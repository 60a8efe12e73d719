/** Definition records as they travel between the INI loader, the document store and the
    dispatcher: a dictionary from field name to either one string or a list of strings. */
module Records {

  datatype Option<T> = None | Some(value: T)

  datatype Result<T, E> = Ok(value: T) | Err(error: E)

  /** A field value: options written `~key` hold one string, all others a list of strings. */
  datatype Value = Str(s: string) | StrList(items: seq<string>)

  /** One definition record (a parameter dictionary / stored document). */
  type Params = map<string, Value>

  /** The two kinds of definitions, with the word used for them in the `type` field. */
  datatype Kind = Alert | Report {
    function Name(): string {
      match this
      case Alert => "alert"
      case Report => "report"
    }
  }

  /** The kind a record is stamped with, read back from its `type` field. */
  function KindOf(p: Params): (k: Option<Kind>)
    ensures k.Some? <==> "type" in p && (p["type"] == Str("alert") || p["type"] == Str("report"))
    ensures k.Some? ==> p["type"] == Str(k.value.Name())
  {
    if "type" in p && p["type"] == Str("alert") then Some(Alert)
    else if "type" in p && p["type"] == Str("report") then Some(Report)
    else None
  }
}
