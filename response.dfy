/**
 * `_format_response_text` and its helpers: curl's raw `-i` output is split
 * into the HTTP envelope (status line and headers) and the body, an appended
 * stderr block is set aside, and a JSON body is pretty-printed.
 * `parse` stands for `json.loads` (`None` when it raises `JSONDecodeError`)
 * and `pretty` for `json.dumps(parsed, indent=2, ensure_ascii=False)`.
 */
module ResponseFormat {
  import opened Wrappers
  import opened PyText
  import opened Json

  const CrLfGap: string := "\r\n\r\n"
  const LfGap: string := "\n\n"
  const StderrMarker: string := "\n[stderr]"

  /** The separator `_split_headers_body` looks for: `\r\n\r\n` whenever the text holds one, else `\n\n`. */
  function Separator(text: string): (sep: string)
    ensures sep == CrLfGap || sep == LfGap
    ensures sep == CrLfGap <==> Contains(text, CrLfGap)
  {
    if Contains(text, CrLfGap) then CrLfGap else LfGap
  }

  lemma HttpHeaderNotEmpty(header: string)
    requires StartsWith(Strip(header), "HTTP/")
    ensures |header| >= 5
  {
  }

  /**
   * `_split_headers_body(text)`: the text before and after the first
   * separator, accepted only when the part before it, trimmed, starts with
   * `HTTP/`; `None` stands for `(None, None)`.
   */
  function SplitHeadersBody(text: string): (r: Option<(string, string)>)
    ensures text == [] ==> r.None?
    ensures !Contains(text, CrLfGap) && !Contains(text, LfGap) ==> r.None?
    ensures r.Some? ==> r.value.0 + Separator(text) + r.value.1 == text
    ensures r.Some? ==> forall j :: 0 <= j < |r.value.0| ==> !IsAt(text, Separator(text), j)
    ensures r.Some? ==> StartsWith(Strip(r.value.0), "HTTP/") && r.value.0 != []
  {
    if text == [] then None
    else
      var sep := Separator(text);
      var idx := Find(text, sep);
      if idx < 0 then None
      else
        var header := text[..idx];
        var body := text[idx + |sep|..];
        assert text[idx..idx + |sep|] == sep;
        assert header + sep + body == text;
        if StartsWith(Strip(header), "HTTP/") then
          HttpHeaderNotEmpty(header);
          Some((header, body))
        else None
  }

  /**
   * The split is made at the first occurrence `i` of the separator, and is an
   * envelope exactly when the text before it, trimmed, starts with `HTTP/`.
   */
  lemma SplitAtFirstSeparator(text: string, i: int)
    requires text != [] && IsAt(text, Separator(text), i)
    requires forall j :: 0 <= j < i ==> !IsAt(text, Separator(text), j)
    ensures SplitHeadersBody(text).Some? <==> StartsWith(Strip(text[..i]), "HTTP/")
    ensures SplitHeadersBody(text).Some? ==> SplitHeadersBody(text).value == (text[..i], text[i + |Separator(text)|..])
  {
    var f := Find(text, Separator(text));
    assert f != -1;
    assert f <= i;
    assert f == i;
  }

  /** `_split_stderr(text)`: the text before the first `\n[stderr]`, right-trimmed, and the text from the marker on. */
  function SplitStderr(text: string): (r: (string, string))
    ensures !Contains(text, StderrMarker) ==> r == (text, [])
    ensures Contains(text, StderrMarker) ==>
      r.1 == text[Find(text, StderrMarker)..] && r.0 == RStrip(text[..Find(text, StderrMarker)])
  {
    var idx := Find(text, StderrMarker);
    if idx == -1 then (text, []) else (RStrip(text[..idx]), text[idx..])
  }

  /** `pat` at `j` in a prefix of `s` is `pat` at `j` in `s`. */
  lemma IsAtPrefix(s: string, n: nat, pat: string, j: int)
    requires n <= |s| && IsAt(s[..n], pat, j)
    ensures IsAt(s, pat, j)
  {
    assert s[..n][j..j + |pat|] == s[j..j + |pat|];
  }

  /**
   * What `_split_stderr` returns: a suffix that is empty exactly when the text
   * holds no marker and otherwise starts at the first marker, and a main part
   * that is the text before it with only whitespace dropped, none left at its
   * end when a marker was found, and no marker inside.
   */
  lemma SplitStderrParts(text: string)
    ensures var (main, suffix) := SplitStderr(text);
      |main| + |suffix| <= |text| && text[..|main|] == main && text[|text| - |suffix|..] == suffix
      && AllSpace(text[|main|..|text| - |suffix|])
      && (suffix == [] <==> !Contains(text, StderrMarker))
      && (forall j :: 0 <= j < |text| - |suffix| ==> !IsAt(text, StderrMarker, j))
      && (suffix != [] ==> StartsWith(suffix, StderrMarker) && (main == [] || !IsSpace(main[|main| - 1])))
      && !Contains(main, StderrMarker)
  {
    var (main, suffix) := SplitStderr(text);
    if Contains(text, StderrMarker) {
      var idx := Find(text, StderrMarker);
      MarkerSplit(text, idx, main);
      assert suffix[..|StderrMarker|] == text[idx..idx + |StderrMarker|];
    } else {
      assert AllSpace(text[|text|..|text|]);
    }
  }

  /** The text before a first marker at `idx`, right-trimmed, is a prefix followed by whitespace, with no marker in it. */
  lemma MarkerSplit(text: string, idx: int, main: string)
    requires 0 <= idx <= |text| && forall j :: 0 <= j < idx ==> !IsAt(text, StderrMarker, j)
    requires main == RStrip(text[..idx])
    ensures |main| <= idx && text[..|main|] == main && AllSpace(text[|main|..idx]) && !Contains(main, StderrMarker)
  {
    RStripSuffixSpace(text[..idx]);
    assert text[..idx][|main|..] == text[|main|..idx];
    assert text[..idx][..|main|] == text[..|main|];
    forall j | 0 <= j <= |main| ensures !IsAt(main, StderrMarker, j) {
      if IsAt(main, StderrMarker, j) {
        IsAtPrefix(text[..idx], |main|, StderrMarker, j);
        IsAtPrefix(text, idx, StderrMarker, j);
      }
    }
  }

  /**
   * Splitting the stderr block off curl's raw output gives back stdout, right-trimmed,
   * and the block `_run_curl` appended, provided stdout itself holds no marker.
   */
  lemma StderrRoundTrip(stdout: string, stderr: string)
    requires !Contains(stdout, StderrMarker)
    ensures SplitStderr(stdout + ("\n[stderr]\n" + stderr)) == (RStrip(stdout), "\n[stderr]\n" + stderr)
  {
    var block := "\n[stderr]\n" + stderr;
    var text := stdout + block;
    var n := |stdout|;
    assert text[n..n + 9] == StderrMarker;
    assert IsAt(text, StderrMarker, n);
    forall j | 0 <= j < n ensures !IsAt(text, StderrMarker, j) {
      if j + 9 <= n {
        assert text[j..j + 9] == stdout[j..j + 9];
        assert !IsAt(stdout, StderrMarker, j);
      } else if j + 9 <= |text| {
        assert text[j..j + 9][n - j] == text[n];
        assert StderrMarker[n - j] != '\n';
      }
    }
    var f := Find(text, StderrMarker);
    assert f != -1;
    assert f <= n;
    assert f == n;
    assert text[..n] == stdout;
    assert text[n..] == block;
  }

  /**
   * `_try_pretty_json(text)` for a string: a blank text comes back as it is,
   * otherwise the trimmed text is decoded and re-encoded, or `None` when it is not JSON.
   */
  function TryPrettyJson(text: string, parse: string -> Option<Json>, pretty: Json -> string): (r: Option<string>)
    ensures IsBlank(text) ==> r == Some(text)
    ensures !IsBlank(text) ==> (r.Some? <==> parse(Strip(text)).Some?)
    ensures !IsBlank(text) && r.Some? ==> r.value == pretty(parse(Strip(text)).value)
  {
    var candidate := Strip(text);
    if candidate == [] then Some(text)
    else
      var parsed := parse(candidate);
      if parsed.None? then None else Some(pretty(parsed.value))
  }

  /** A non-blank text and any text with the same strip are pretty-printed alike: only the trimmed candidate matters. */
  lemma TryPrettyJsonSeesStrip(text: string, other: string, parse: string -> Option<Json>, pretty: Json -> string)
    requires !IsBlank(text) && Strip(other) == Strip(text)
    ensures TryPrettyJson(other, parse, pretty) == TryPrettyJson(text, parse, pretty)
  {
  }

  /**
   * When the encoder's output is never blank, has no whitespace at its ends
   * and decodes back to the value, pretty-printing a pretty-printed text
   * changes nothing.
   */
  lemma TryPrettyJsonIdempotent(text: string, parse: string -> Option<Json>, pretty: Json -> string)
    requires forall v :: pretty(v) != [] && NoEdgeSpace(pretty(v)) && parse(pretty(v)) == Some(v)
    requires TryPrettyJson(text, parse, pretty).Some?
    ensures TryPrettyJson(TryPrettyJson(text, parse, pretty).value, parse, pretty) == TryPrettyJson(text, parse, pretty)
  {
    if !IsBlank(text) {
      var v := parse(Strip(text)).value;
      StripFixed(pretty(v));
    }
  }

  /** `_format_response_text(raw)`. */
  function FormatResponse(raw: string, parse: string -> Option<Json>, pretty: Json -> string): string {
    var split := SplitHeadersBody(raw);
    if split.None? then
      var prettyFull := TryPrettyJson(raw, parse, pretty);
      if prettyFull.Some? then prettyFull.value else raw
    else
      var (header, body) := split.value;
      var (bodyMain, suffix) := SplitStderr(body);
      var prettyBody := TryPrettyJson(bodyMain, parse, pretty);
      if prettyBody.None? then raw
      else
        var formattedBody := prettyBody.value + suffix;
        if header != [] then header + "\n\n" + formattedBody else formattedBody
  }

  /**
   * With an envelope, a result other than the raw text is the header and a
   * blank line followed by the formatted body, which ends with the stderr
   * block exactly as `_split_stderr` set it aside.
   */
  lemma FormatKeepsStderrBlock(raw: string, header: string, body: string, main: string, suffix: string,
                               parse: string -> Option<Json>, pretty: Json -> string)
    requires SplitHeadersBody(raw) == Some((header, body)) && SplitStderr(body) == (main, suffix)
    requires FormatResponse(raw, parse, pretty) != raw
    ensures Framed(FormatResponse(raw, parse, pretty), header, suffix)
  {
    if IsBlank(main) {
      FormatBlankEnvelope(raw, header, body, main, suffix, parse, pretty);
      FramedBody(header, main, suffix);
    } else if parse(Strip(main)).None? {
      FormatNonJsonEnvelope(raw, header, body, main, suffix, parse, pretty);
      assert false;
    } else {
      FormatJsonEnvelope(raw, header, body, main, suffix, parse, pretty);
      FramedBody(header, pretty(parse(Strip(main)).value), suffix);
    }
  }

  /** `r` is `header`, a blank line, and a body ending in `suffix`. */
  predicate Framed(r: string, header: string, suffix: string) {
    StartsWith(r, header + "\n\n") && |r| >= |header| + 2 + |suffix| && r[|r| - |suffix|..] == suffix
  }

  lemma FramedBody(header: string, main: string, suffix: string)
    ensures Framed(header + "\n\n" + (main + suffix), header, suffix)
  {
    var out := header + "\n\n" + (main + suffix);
    assert out[..|header| + 2] == header + "\n\n";
    assert out[|out| - |suffix|..] == suffix;
  }

  /** Without an envelope, the whole raw text, stderr block included, is pretty-printed when it is JSON and returned as it is otherwise. */
  lemma FormatWithoutEnvelope(raw: string, parse: string -> Option<Json>, pretty: Json -> string)
    requires SplitHeadersBody(raw).None?
    ensures FormatResponse(raw, parse, pretty)
         == if !IsBlank(raw) && parse(Strip(raw)).Some? then pretty(parse(Strip(raw)).value) else raw
  {
  }

  /**
   * With an envelope, all or nothing: a body (stderr block set aside) that is
   * not JSON leaves the raw text as it is; a JSON body is pretty-printed between
   * the header and the stderr block; a blank main part is kept as
   * `_split_stderr` returned it, which is right-trimmed only when the body
   * held a stderr marker.
   */
  lemma FormatWithEnvelope(raw: string, parse: string -> Option<Json>, pretty: Json -> string)
    requires SplitHeadersBody(raw).Some?
    ensures var header := SplitHeadersBody(raw).value.0;
      var main := SplitStderr(SplitHeadersBody(raw).value.1).0;
      var suffix := SplitStderr(SplitHeadersBody(raw).value.1).1;
      FormatResponse(raw, parse, pretty)
      == if IsBlank(main) then header + "\n\n" + (main + suffix)
         else if parse(Strip(main)).None? then raw
         else header + "\n\n" + (pretty(parse(Strip(main)).value) + suffix)
  {
    var (header, body) := SplitHeadersBody(raw).value;
    var (main, suffix) := SplitStderr(body);
    var p := TryPrettyJson(main, parse, pretty);
    assert header != [];
    assert FormatResponse(raw, parse, pretty) == if p.None? then raw else header + "\n\n" + (p.value + suffix);
  }

  /** The `return formatted_body` after `if header:` is never reached: an accepted envelope always has a header. */
  lemma EnvelopeHeaderNonEmpty(raw: string)
    requires SplitHeadersBody(raw).Some?
    ensures SplitHeadersBody(raw).value.0 != []
  {
  }

  /** No `\n\n` starts inside a header that holds none and does not end in `\n`. */
  lemma NoLfGapInHeader(header: string, body: string)
    requires header != [] && !Contains(header, LfGap) && header[|header| - 1] != '\n'
    ensures forall j :: 0 <= j < |header| ==> !IsAt(header + LfGap + body, LfGap, j)
  {
    var text := header + LfGap + body;
    var n := |header|;
    forall j | 0 <= j < n ensures !IsAt(text, LfGap, j) {
      if j + 2 <= n {
        assert text[j..j + 2] == header[j..j + 2];
        assert !IsAt(header, LfGap, j);
      } else {
        assert text[j..j + 2][0] == text[j] == header[n - 1];
      }
    }
  }

  /** An `HTTP/` status line and headers followed by `\n\n`, with no `\r\n\r\n` anywhere, split at that blank line. */
  lemma LfEnvelope(header: string, body: string)
    requires StartsWith(Strip(header), "HTTP/")
    requires !Contains(header, LfGap) && header[|header| - 1] != '\n'
    requires !Contains(header + LfGap + body, CrLfGap)
    ensures SplitHeadersBody(header + LfGap + body) == Some((header, body))
  {
    HttpHeaderNotEmpty(header);
    var text := header + LfGap + body;
    var n := |header|;
    assert Separator(text) == LfGap;
    assert text[n..n + 2] == LfGap;
    NoLfGapInHeader(header, body);
    SplitAtFirstSeparator(text, n);
    assert text[..n] == header;
    assert text[n + 2..] == body;
  }

  lemma ConcatAssoc(a: string, b: string, c: string, d: string)
    ensures a + (b + (c + d)) == a + b + c + d
  {
  }

  lemma FormatBlankEnvelope(raw: string, header: string, body: string, main: string, suffix: string,
                            parse: string -> Option<Json>, pretty: Json -> string)
    requires SplitHeadersBody(raw) == Some((header, body)) && SplitStderr(body) == (main, suffix)
    requires IsBlank(main)
    ensures FormatResponse(raw, parse, pretty) == header + "\n\n" + (main + suffix)
  {
    FormatWithEnvelope(raw, parse, pretty);
  }

  lemma FormatNonJsonEnvelope(raw: string, header: string, body: string, main: string, suffix: string,
                              parse: string -> Option<Json>, pretty: Json -> string)
    requires SplitHeadersBody(raw) == Some((header, body)) && SplitStderr(body) == (main, suffix)
    requires !IsBlank(main) && parse(Strip(main)).None?
    ensures FormatResponse(raw, parse, pretty) == raw
  {
    FormatWithEnvelope(raw, parse, pretty);
  }

  lemma FormatJsonEnvelope(raw: string, header: string, body: string, main: string, suffix: string,
                           parse: string -> Option<Json>, pretty: Json -> string)
    requires SplitHeadersBody(raw) == Some((header, body)) && SplitStderr(body) == (main, suffix)
    requires !IsBlank(main) && parse(Strip(main)).Some?
    ensures FormatResponse(raw, parse, pretty) == header + "\n\n" + (pretty(parse(Strip(main)).value) + suffix)
  {
    FormatWithEnvelope(raw, parse, pretty);
  }

  /** A curl response with an envelope and a stderr block parts into the header, the body and the block. */
  lemma EnvelopeWithStderrParts(header: string, body: string, stderr: string)
    requires StartsWith(Strip(header), "HTTP/")
    requires !Contains(header, LfGap) && header[|header| - 1] != '\n'
    requires !Contains(header + LfGap + (body + ("\n[stderr]\n" + stderr)), CrLfGap)
    requires !Contains(body, StderrMarker)
    ensures SplitHeadersBody(header + LfGap + (body + ("\n[stderr]\n" + stderr)))
         == Some((header, body + ("\n[stderr]\n" + stderr)))
    ensures SplitStderr(body + ("\n[stderr]\n" + stderr)) == (RStrip(body), "\n[stderr]\n" + stderr)
  {
    LfEnvelope(header, body + ("\n[stderr]\n" + stderr));
    StderrRoundTrip(body, stderr);
  }

  /**
   * The whole chain on a curl response: an `HTTP/` envelope with a JSON body
   * and a stderr block appended by `_run_curl` is shown as the envelope, the
   * pretty-printed body and the stderr block unchanged.
   */
  lemma FormatEnvelopeWithStderr(header: string, body: string, stderr: string,
                                 parse: string -> Option<Json>, pretty: Json -> string)
    requires StartsWith(Strip(header), "HTTP/")
    requires !Contains(header, LfGap) && header[|header| - 1] != '\n'
    requires !Contains(header + LfGap + body + "\n[stderr]\n" + stderr, CrLfGap)
    requires !Contains(body, StderrMarker) && !IsBlank(body) && parse(Strip(body)).Some?
    ensures FormatResponse(header + LfGap + body + "\n[stderr]\n" + stderr, parse, pretty)
         == header + "\n\n" + pretty(parse(Strip(body)).value) + "\n[stderr]\n" + stderr
  {
    var block := "\n[stderr]\n" + stderr;
    var rest := body + block;
    ConcatAssoc(header + LfGap, body, "\n[stderr]\n", stderr);
    EnvelopeWithStderrParts(header, body, stderr);
    StripOfRStrip(body);
    FormatJsonEnvelope(header + LfGap + rest, header, rest, RStrip(body), block, parse, pretty);
    ConcatAssoc(header + "\n\n", pretty(parse(Strip(body)).value), "\n[stderr]\n", stderr);
  }
}
