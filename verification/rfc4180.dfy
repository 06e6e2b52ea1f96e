/**
 * A strict reader for the comma-separated format of RFC 4180, section 2: fields separated by
 * commas, records by line breaks, a field holding a comma, a quote or a line break enclosed in
 * double quotes with each inner quote doubled (items 5-7), and no quote inside an unquoted
 * field. Records end at a line feed, the terminator the analyser writes, where the RFC writes
 * CRLF; a carriage return is ordinary field data.
 */
module Rfc4180 {
  import opened Wrappers

  /** A field ends at the end of input, at a comma, or at a line break. */
  predicate AtFieldEnd(s: string) {
    s == [] || s[0] == ',' || s[0] == '\n'
  }

  /** Body of a quoted field after its opening quote: `""` reads as one quote, a lone `"`
      closes the field. Input that ends inside the quotes is malformed. */
  function ParseQuoted(s: string, acc: string): (r: Option<(string, string)>)
    ensures r.Some? ==> |r.value.1| < |s|
    decreases |s|
  {
    if s == [] then None
    else if s[0] == '"' then
      if |s| > 1 && s[1] == '"' then ParseQuoted(s[2..], acc + ['"']) else Some((acc, s[1..]))
    else ParseQuoted(s[1..], acc + [s[0]])
  }

  /** An unquoted field runs to the next comma or line break and may not contain a quote. */
  function ParseUnquoted(s: string, acc: string): (r: Option<(string, string)>)
    ensures r.Some? ==> |r.value.1| <= |s| && AtFieldEnd(r.value.1)
    decreases |s|
  {
    if AtFieldEnd(s) then Some((acc, s))
    else if s[0] == '"' then None
    else ParseUnquoted(s[1..], acc + [s[0]])
  }

  /** One field and the input after it; a closing quote must be followed by a field end. */
  function ParseField(s: string): (r: Option<(string, string)>)
    ensures r.Some? ==> |r.value.1| <= |s| && AtFieldEnd(r.value.1)
  {
    if |s| > 0 && s[0] == '"' then
      match ParseQuoted(s[1..], "")
      case None => None
      case Some((field, rest)) => if AtFieldEnd(rest) then Some((field, rest)) else None
    else ParseUnquoted(s, "")
  }

  /** One record (at least one field) and the input after it, which is empty or a line break. */
  function ParseRecord(s: string): (r: Option<(seq<string>, string)>)
    ensures r.Some? ==> |r.value.0| > 0 && |r.value.1| <= |s| && (r.value.1 == [] || r.value.1[0] == '\n')
    decreases |s|
  {
    match ParseField(s)
    case None => None
    case Some((field, rest)) =>
      if |rest| > 0 && rest[0] == ',' then
        match ParseRecord(rest[1..])
        case None => None
        case Some((fields, after)) => Some(([field] + fields, after))
      else Some(([field], rest))
  }

  /** A whole document: records separated by line breaks, the last one optionally terminated. */
  function ParseDocument(s: string): Option<seq<seq<string>>>
    decreases |s|
  {
    if s == [] then Some([])
    else
      match ParseRecord(s)
      case None => None
      case Some((fields, rest)) =>
        if rest == [] then Some([fields])
        else
          match ParseDocument(rest[1..])
          case None => None
          case Some(more) => Some([fields] + more)
  }
}
