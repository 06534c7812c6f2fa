/** HTTP responses: the object that handlers fill, and what it prints. */
module HttpResponse {
  import opened Decimals
  import opened Text
  import opened SortedMap
  import opened HttpRequest

  datatype Resp = Resp(code: nat, reason: string, fields: Pairs, body: string)

  // ---- Printing ----

  function StatusLine(r: Resp): string {
    "HTTP/1.1" + " " + Decimal(r.code) + " " + r.reason
  }

  function PrintResponse(r: Resp): string {
    StatusLine(r) + CRLF + HeaderText(r.fields) + CRLF + r.body
  }

  class Response {
    /** The default reason phrases, a table that is a parameter here. */
    const reasons: nat -> string
    var statusCode: nat
    var reasonPhrase: string
    var fields: Pairs
    var body: string

    constructor (reasons: nat -> string, code: nat)
      ensures this.reasons == reasons && Value() == Resp(code, "", [], "")
    {
      this.reasons := reasons;
      statusCode, reasonPhrase, fields, body := code, "", [], "";
    }

    function Value(): Resp
      reads this
    {
      Resp(statusCode, reasonPhrase, fields, body)
    }

    method SetStatus(code: nat)
      modifies this
      ensures Value() == old(Value()).(code := code, reason := reasons(code))
    {
      statusCode := code;
      reasonPhrase := reasons(code);
    }

    method AddHeader(name: string, value: string)
      modifies this
      ensures Value() == old(Value()).(fields := Put(old(fields), name, value))
      ensures Ascending(old(fields)) ==>
        Ascending(fields) && MapOf(fields) == MapOf(old(fields))[name := value]
    {
      if Ascending(fields) {
        PutSorted(fields, name, value);
        SortedExactly(fields);
        PutMap(fields, name, value);
      }
      fields := Put(fields, name, value);
    }

    method SetBody(text: string)
      modifies this
      ensures Value() == old(Value()).(body := text)
    {
      body := text;
    }

    method ToString() returns (s: string)
      ensures s == PrintResponse(Value())
      ensures s == "HTTP/1.1 " + Decimal(statusCode) + " " + reasonPhrase + "\r\n" + HeaderText(fields) + "\r\n" + body
    {
      s := "HTTP/1.1" + " " + Decimal(statusCode) + " " + reasonPhrase + CRLF;
      ghost var line := s;
      for i := 0 to |fields|
        invariant s == line + HeaderText(fields[..i])
      {
        assert fields[..i + 1][..i] == fields[..i];
        s := s + (fields[i].0 + ": " + fields[i].1 + CRLF);
      }
      assert fields[..|fields|] == fields;
      s := s + CRLF;
      s := s + body;
    }
  }
}
