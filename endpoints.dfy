/**
 * An endpoint record and `_collect_form`, which reads the five form fields,
 * trims and validates them, normalises the method and parses the header
 * block into the payload that is saved and sent.
 */
module Endpoints {
  import opened Wrappers
  import opened PyText
  import opened Json
  import opened HeaderBlock

  /** A saved endpoint. A record read from the endpoints file may lack a name (`ep.get("name")` is `None`). */
  datatype Endpoint = Endpoint(name: Option<string>, url: string, httpMethod: string, headers: Headers, body: string)

  const DefaultMethod: string := "GET"

  const Methods: seq<string> := ["GET", "POST", "PUT", "PATCH", "DELETE", "HEAD", "OPTIONS"]

  /**
   * `method_var.get().strip().upper() or DEFAULT_METHOD`, then
   * `method if method in METHODS else DEFAULT_METHOD`.
   */
  function NormalizeMethod(m: string): (r: string)
    ensures r in Methods
    ensures Upper(Strip(m)) in Methods ==> r == Upper(Strip(m))
    ensures Upper(Strip(m)) !in Methods ==> r == DefaultMethod
  {
    var upper := Upper(Strip(m));
    var chosen := if upper == [] then DefaultMethod else upper;
    if chosen in Methods then chosen else DefaultMethod
  }

  lemma UpperBlank(m: string)
    requires IsBlank(m)
    ensures Upper(Strip(m)) == []
  {
  }

  /** An empty or whitespace-only method field selects GET. */
  lemma BlankMethodIsGet(m: string)
    requires IsBlank(m)
    ensures NormalizeMethod(m) == DefaultMethod
  {
    UpperBlank(m);
  }

  predicate Capitals(s: string) {
    forall i :: 0 <= i < |s| ==> 'A' <= s[i] <= 'Z'
  }

  lemma {:induction false} UpperOfCapitals(s: string)
    requires Capitals(s)
    ensures Upper(s) == s
  {
    if s != [] {
      UpperOfCapitals(s[1..]);
      assert s == [s[0]] + s[1..];
    }
  }

  lemma UpperMethodName(m: string)
    requires m in Methods
    ensures Strip(m) == m && Upper(m) == m
  {
    assert m != [] && Capitals(m);
    StripFixed(m);
    UpperOfCapitals(m);
  }

  /** A normalised method is normalised already: saving an endpoint twice does not change its method. */
  lemma NormalizeMethodIdempotent(m: string)
    ensures NormalizeMethod(NormalizeMethod(m)) == NormalizeMethod(m)
  {
    UpperMethodName(NormalizeMethod(m));
  }

  /** The `ValueError`s `_collect_form` raises, in the order it checks for them. */
  datatype FormError = NameMissing | UrlMissing | BadHeaderLine(line: string)

  /** The text of the raised `ValueError`, shown in the error dialog and the status bar. */
  function Message(e: FormError): (msg: string)
    ensures msg != []
    ensures e.BadHeaderLine? ==> |msg| > |e.line| && msg[|msg| - |e.line|..] == e.line
  {
    match e
    case NameMissing => "Informe um nome para salvar o endpoint."
    case UrlMissing => "Informe a URL."
    case BadHeaderLine(line) => "Linha de header invalida: " + line
  }

  /** Different errors give different messages, so the message tells the user which check failed and on which line. */
  lemma MessageInjective(a: FormError, b: FormError)
    requires Message(a) == Message(b)
    ensures a == b
  {
    var prefix := "Linha de header invalida: ";
    if a.BadHeaderLine? && b.BadHeaderLine? {
      assert Message(a)[|prefix|..] == a.line;
      assert Message(b)[|prefix|..] == b.line;
    } else {
      assert Message(a)[0] != Message(b)[0] || |Message(a)| != |Message(b)| || a == b;
    }
  }

  /** The widget contents `_collect_form` reads; a Tk text widget's contents end with the newline Tk adds. */
  datatype FormFields = FormFields(name: string, url: string, httpMethod: string, headers: string, body: string)

  /** The payload `_collect_form` returns, or the error it raises. */
  function FormOf(f: FormFields, parse: string -> Option<Json>, renderOther: Json -> string): (r: Result<Endpoint, FormError>)
    ensures r == Err(NameMissing) <==> IsBlank(f.name)
    ensures r == Err(UrlMissing) <==> !IsBlank(f.name) && IsBlank(f.url)
    ensures (r.Err? && r.error.BadHeaderLine?)
        <==> !IsBlank(f.name) && !IsBlank(f.url) && HeadersOf(Strip(f.headers), parse, renderOther).Err?
    ensures r.Err? && r.error.BadHeaderLine? ==> r.error.line == HeadersOf(Strip(f.headers), parse, renderOther).error
    ensures r.Ok? ==> r.value == Endpoint(Some(Strip(f.name)), Strip(f.url), NormalizeMethod(f.httpMethod),
                                          HeadersOf(Strip(f.headers), parse, renderOther).value, RStripNewlines(f.body))
  {
    var name := Strip(f.name);
    var url := Strip(f.url);
    if name == [] then Err(NameMissing)
    else if url == [] then Err(UrlMissing)
    else
      var headers := HeadersOf(Strip(f.headers), parse, renderOther);
      if headers.Err? then Err(BadHeaderLine(headers.error))
      else Ok(Endpoint(Some(name), url, NormalizeMethod(f.httpMethod), headers.value, RStripNewlines(f.body)))
  }

  /** Every accepted payload is named, has a url, a listed method, distinct header keys and a body without trailing newlines. */
  lemma FormPayloadValid(f: FormFields, parse: string -> Option<Json>, renderOther: Json -> string)
    requires FormOf(f, parse, renderOther).Ok?
    ensures var e := FormOf(f, parse, renderOther).value;
      e.name.Some? && e.name.value != [] && NoEdgeSpace(e.name.value)
      && e.url != [] && NoEdgeSpace(e.url)
      && e.httpMethod in Methods && DistinctKeys(e.headers)
      && (e.body == [] || e.body[|e.body| - 1] != '\n')
  {
  }

  /** Trimming the header field before `_parse_headers` trims it again changes nothing. */
  lemma HeaderFieldStripped(text: string, parse: string -> Option<Json>, renderOther: Json -> string)
    ensures HeadersOf(Strip(text), parse, renderOther) == HeadersOf(text, parse, renderOther)
  {
    StripIdempotent(text);
  }

  /** `_collect_form`: read, trim and validate the fields, then parse the header block. */
  method CollectForm(f: FormFields, parse: string -> Option<Json>, renderOther: Json -> string)
    returns (r: Result<Endpoint, FormError>)
    ensures r == FormOf(f, parse, renderOther)
  {
    var name := Strip(f.name);
    var url := Strip(f.url);
    var headersText := Strip(f.headers);
    var body := RStripNewlines(f.body);
    if name == [] {
      return Err(NameMissing);
    }
    if url == [] {
      return Err(UrlMissing);
    }
    var headers := ParseHeaders(headersText, parse, renderOther);
    if headers.Err? {
      return Err(BadHeaderLine(headers.error));
    }
    return Ok(Endpoint(Some(name), url, NormalizeMethod(f.httpMethod), headers.value, body));
  }
}
