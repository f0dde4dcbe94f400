/**
 * The command part of `_run_curl`: the argument vector handed to curl, the
 * `shlex.quote`d display line shown above the response, and the assembly of
 * curl's captured output. Running the process is a function parameter.
 */
module CurlCommand {
  import opened Wrappers
  import opened PyText
  import opened HeaderBlock
  import opened Endpoints

  /** A character `shlex.quote` leaves unquoted: `[A-Za-z0-9_@%+=:,./-]`. */
  predicate IsSafe(c: char) {
    ('A' <= c <= 'Z') || ('a' <= c <= 'z') || ('0' <= c <= '9') || c in "_@%+=:,./-"
  }

  predicate AllSafe(s: string) {
    forall i :: 0 <= i < |s| ==> IsSafe(s[i])
  }

  /** Inside single quotes each `'` becomes `'"'"'`: close the quote, a double-quoted `'`, reopen. */
  function EscapeQuotes(s: string): (r: string)
    ensures |r| >= |s|
    ensures (forall i :: 0 <= i < |s| ==> s[i] != '\'') ==> r == s
  {
    if s == [] then []
    else (if s[0] == '\'' then "'\"'\"'" else [s[0]]) + EscapeQuotes(s[1..])
  }

  /** `shlex.quote(s)`. */
  function Quote(s: string): (r: string)
    ensures r != []
    ensures r == s || (|r| >= 2 && r[0] == '\'' && r[|r| - 1] == '\'')
  {
    if s == [] then "''"
    else if AllSafe(s) then s
    else "'" + EscapeQuotes(s) + "'"
  }

  function QuoteAll(parts: seq<string>): (r: seq<string>)
    ensures |r| == |parts|
    ensures forall i :: 0 <= i < |parts| ==> r[i] == Quote(parts[i])
  {
    seq(|parts|, i requires 0 <= i < |parts| => Quote(parts[i]))
  }

  /** `" ".join(shlex.quote(part) for part in cmd_parts)`. */
  function Display(argv: seq<string>): (line: string)
    ensures line == [] <==> argv == []
  {
    var words := QuoteAll(argv);
    if words != [] then JoinHead(" ", words); Join(" ", words) else Join(" ", words)
  }

  /*
   * A reference reader for the shell words `Display` produces, following the
   * quoting rules of POSIX.1-2017 (section 2.2, Quoting, of the Shell
   * Command Language chapter): outside quotes a space ends a word, `'...'`
   * is taken literally, and `"..."` is taken literally except for `\`, `$`
   * and the backquote, which this reader refuses, as it refuses every unquoted
   * character outside the safe set.
   */

  datatype Mode = Bare | InSingle | InDouble

  /** Puts `p` in front of the word read. */
  function Prefixed(p: string, o: Option<(string, string)>): Option<(string, string)> {
    if o.None? then None else Some((p + o.value.0, o.value.1))
  }

  /** Reads the rest of one word from `s` in `mode`: the word's characters and the text after it. */
  function ReadWord(s: string, mode: Mode): (r: Option<(string, string)>)
    ensures r.Some? ==> |r.value.1| <= |s|
    ensures r.Some? && (mode != Bare || (s != [] && s[0] != ' ')) ==> |r.value.1| < |s|
    decreases |s|
  {
    if s == [] then (if mode == Bare then Some(([], [])) else None)
    else match mode
      case Bare =>
        if s[0] == ' ' then Some(([], s))
        else if s[0] == '\'' then ReadWord(s[1..], InSingle)
        else if s[0] == '"' then ReadWord(s[1..], InDouble)
        else if IsSafe(s[0]) then Prefixed([s[0]], ReadWord(s[1..], Bare))
        else None
      case InSingle =>
        if s[0] == '\'' then ReadWord(s[1..], Bare) else Prefixed([s[0]], ReadWord(s[1..], InSingle))
      case InDouble =>
        if s[0] == '"' then ReadWord(s[1..], Bare)
        else if s[0] in "\\$`" then None
        else Prefixed([s[0]], ReadWord(s[1..], InDouble))
  }

  /** The words of a command line, separated by spaces. */
  function ShellWords(s: string): Option<seq<string>>
    decreases |s|
  {
    if s == [] then Some([])
    else if s[0] == ' ' then ShellWords(s[1..])
    else
      var w := ReadWord(s, Bare);
      if w.None? then None
      else
        var rest := ShellWords(w.value.1);
        if rest.None? then None else Some([w.value.0] + rest.value)
  }

  lemma PrefixedTwice(p: string, q: string, o: Option<(string, string)>)
    ensures Prefixed(p, Prefixed(q, o)) == Prefixed(p + q, o)
  {
    if o.Some? {
      assert p + (q + o.value.0) == (p + q) + o.value.0;
    }
  }

  /** The escape `'"'"'` of one quote, read inside single quotes, yields that quote and reopens the quotes. */
  lemma ReadEscapedQuote(tail: string)
    ensures ReadWord("'\"'\"'" + tail, InSingle) == Prefixed("'", ReadWord(tail, InSingle))
  {
    var s := "'\"'\"'" + tail;
    var s1 := "\"'\"'" + tail;
    var s2 := "'\"'" + tail;
    var s3 := "\"'" + tail;
    var s4 := "'" + tail;
    assert s[1..] == s1 && s1[1..] == s2 && s2[1..] == s3 && s3[1..] == s4 && s4[1..] == tail;
    assert ReadWord(s, InSingle) == ReadWord(s1, Bare);
    assert ReadWord(s1, Bare) == ReadWord(s2, InDouble);
    assert ReadWord(s2, InDouble) == Prefixed("'", ReadWord(s3, InDouble));
    assert ReadWord(s3, InDouble) == ReadWord(s4, Bare);
    assert ReadWord(s4, Bare) == ReadWord(tail, InSingle);
  }

  lemma ReadSingleQuoted(c: char, tail: string)
    requires c != '\''
    ensures ReadWord([c] + tail, InSingle) == Prefixed([c], ReadWord(tail, InSingle))
  {
    assert ([c] + tail)[1..] == tail;
  }

  /** The escaped text followed by the closing quote reads, inside single quotes, as the original text. */
  lemma {:induction false} EscapeReadsBack(p: string, t: string)
    ensures ReadWord(EscapeQuotes(p) + "'" + t, InSingle) == Prefixed(p, ReadWord(t, Bare))
    decreases |p|
  {
    if p == [] {
      assert EscapeQuotes(p) + "'" + t == "'" + t;
      assert ("'" + t)[1..] == t;
      if ReadWord(t, Bare).Some? {
        assert [] + ReadWord(t, Bare).value.0 == ReadWord(t, Bare).value.0;
      }
    } else {
      var tail := EscapeQuotes(p[1..]) + "'" + t;
      var e := if p[0] == '\'' then "'\"'\"'" else [p[0]];
      assert EscapeQuotes(p) + "'" + t == e + tail;
      if p[0] == '\'' {
        ReadEscapedQuote(tail);
      } else {
        ReadSingleQuoted(p[0], tail);
      }
      assert ReadWord(e + tail, InSingle) == Prefixed([p[0]], ReadWord(tail, InSingle));
      EscapeReadsBack(p[1..], t);
      PrefixedTwice([p[0]], p[1..], ReadWord(t, Bare));
      assert [p[0]] + p[1..] == p;
    }
  }

  /** Safe text followed by a space or the end reads back as itself. */
  lemma {:induction false} SafeReadsBack(p: string, t: string)
    requires AllSafe(p)
    requires t == [] || t[0] == ' '
    ensures ReadWord(p + t, Bare) == Some((p, t))
    decreases |p|
  {
    if p == [] {
      assert p + t == t;
    } else {
      assert (p + t)[1..] == p[1..] + t;
      assert (p + t)[0] == p[0];
      SafeReadsBack(p[1..], t);
      assert [p[0]] + p[1..] == p;
    }
  }

  /** A word that ends here reads as nothing more. */
  lemma WordEnds(t: string)
    requires t == [] || t[0] == ' '
    ensures ReadWord(t, Bare) == Some(([], t))
  {
  }

  /** `''` followed by a space or the end reads back as the empty word. */
  lemma EmptyQuoteReadsBack(t: string)
    requires t == [] || t[0] == ' '
    ensures ReadWord("''" + t, Bare) == Some(([], t))
  {
    var s := "''" + t;
    assert s[1..] == "'" + t && s[1..][1..] == t;
    assert ReadWord(s, Bare) == ReadWord(s[1..], InSingle);
    assert ReadWord(s[1..], InSingle) == ReadWord(t, Bare);
    WordEnds(t);
  }

  /** A single-quoted part followed by a space or the end reads back as the part itself. */
  lemma SingleQuotedReadsBack(p: string, t: string)
    requires t == [] || t[0] == ' '
    ensures ReadWord("'" + EscapeQuotes(p) + "'" + t, Bare) == Some((p, t))
  {
    var s := "'" + EscapeQuotes(p) + "'" + t;
    assert s[0] == '\'' && s[1..] == EscapeQuotes(p) + "'" + t;
    EscapeReadsBack(p, t);
    WordEnds(t);
    assert p + [] == p;
  }

  /** A quoted part followed by a space or the end reads back as the part itself. */
  lemma QuoteReadsBack(p: string, t: string)
    requires t == [] || t[0] == ' '
    ensures ReadWord(Quote(p) + t, Bare) == Some((p, t))
  {
    if p == [] {
      EmptyQuoteReadsBack(t);
    } else if AllSafe(p) {
      SafeReadsBack(p, t);
    } else {
      SingleQuotedReadsBack(p, t);
    }
  }

  /** A quoted part never starts with a space. */
  lemma QuoteStart(p: string)
    ensures Quote(p)[0] != ' '
  {
    if p != [] && AllSafe(p) {
      assert IsSafe(p[0]);
    }
  }

  /** Reading the display line as a shell would gives back exactly the argument vector. */
  lemma {:induction false} DisplayReadsBack(argv: seq<string>)
    ensures ShellWords(Display(argv)) == Some(argv)
    decreases |argv|
  {
    var quoted := QuoteAll(argv);
    if |argv| == 1 {
      var s := Quote(argv[0]);
      assert Display(argv) == s;
      QuoteStart(argv[0]);
      QuoteReadsBack(argv[0], []);
      assert s + [] == s;
      assert [argv[0]] + [] == argv;
    } else if |argv| > 1 {
      var rest := Display(argv[1..]);
      assert QuoteAll(argv[1..]) == quoted[1..];
      assert Display(argv) == Quote(argv[0]) + (" " + rest);
      QuoteStart(argv[0]);
      QuoteReadsBack(argv[0], " " + rest);
      JoinHead(" ", quoted[1..]);
      QuoteStart(argv[1]);
      assert rest[0] == Quote(argv[1])[0];
      assert (" " + rest)[1..] == rest;
      DisplayReadsBack(argv[1..]);
      assert [argv[0]] + argv[1..] == argv;
    }
  }

  /** `args` holds `-H` and the printed header for each header of `h`, in order. */
  predicate HeaderPairs(h: Headers, args: seq<string>) {
    |args| == 2 * |h|
    && forall i :: 0 <= i < |h| ==> args[2 * i] == "-H" && args[2 * i + 1] == HeaderLine(h[i].0, h[i].1)
  }

  lemma HeaderPairsCons(h: Headers, rest: seq<string>)
    requires h != [] && HeaderPairs(h[1..], rest)
    ensures HeaderPairs(h, ["-H", HeaderLine(h[0].0, h[0].1)] + rest)
  {
    var args := ["-H", HeaderLine(h[0].0, h[0].1)] + rest;
    forall i | 1 <= i < |h| ensures args[2 * i] == "-H" && args[2 * i + 1] == HeaderLine(h[i].0, h[i].1) {
      assert h[1..][i - 1] == h[i];
      assert args[2 * i] == rest[2 * (i - 1)] && args[2 * i + 1] == rest[2 * (i - 1) + 1];
    }
  }

  /** `["-H", f"{key}: {value}"]` for each header, in order. */
  function HeaderArgs(h: Headers): (args: seq<string>)
    ensures |args| == 2 * |h|
    ensures forall i :: 0 <= i < |h| ==> args[2 * i] == "-H" && args[2 * i + 1] == HeaderLine(h[i].0, h[i].1)
  {
    if h == [] then []
    else
      var rest := HeaderArgs(h[1..]);
      HeaderPairsCons(h, rest);
      ["-H", HeaderLine(h[0].0, h[0].1)] + rest
  }

  lemma {:induction false} HeaderArgsSnoc(h: Headers, p: (string, string))
    ensures HeaderArgs(h + [p]) == HeaderArgs(h) + ["-H", HeaderLine(p.0, p.1)]
    decreases |h|
  {
    if h == [] {
      assert [] + [p] == [p];
      assert [p][1..] == [];
    } else {
      assert (h + [p])[1..] == h[1..] + [p];
      HeaderArgsSnoc(h[1..], p);
    }
  }

  /** The header arguments placed after a fixed prefix keep their pairing. */
  lemma HeaderArgsAfter(prefix: seq<string>, h: Headers)
    ensures forall i :: 0 <= i < |h| ==>
      (prefix + HeaderArgs(h))[|prefix| + 2 * i] == "-H"
      && (prefix + HeaderArgs(h))[|prefix| + 2 * i + 1] == HeaderLine(h[i].0, h[i].1)
  {
    var args := HeaderArgs(h);
    forall i | 0 <= i < |h|
      ensures (prefix + args)[|prefix| + 2 * i] == args[2 * i]
      ensures (prefix + args)[|prefix| + 2 * i + 1] == args[2 * i + 1]
    {
    }
  }

  /** `cmd_parts`: curl, `-i`, `-X` and the method, a `-H` pair per header, `--data-raw` and the body when there is one, and the url last. */
  function CommandLine(e: Endpoint): (argv: seq<string>)
    ensures |argv| == 5 + 2 * |e.headers| + (if e.body != [] then 2 else 0)
    ensures argv[..4] == ["curl", "-i", "-X", e.httpMethod]
    ensures forall i :: 0 <= i < |e.headers| ==> argv[4 + 2 * i] == "-H" && argv[5 + 2 * i] == HeaderLine(e.headers[i].0, e.headers[i].1)
    ensures e.body != [] ==> argv[|argv| - 3] == "--data-raw" && argv[|argv| - 2] == e.body
    ensures argv[|argv| - 1] == e.url
  {
    var head := ["curl", "-i", "-X", e.httpMethod] + HeaderArgs(e.headers);
    HeaderArgsAfter(["curl", "-i", "-X", e.httpMethod], e.headers);
    head + (if e.body != [] then ["--data-raw", e.body] else []) + [e.url]
  }

  /** The result of `subprocess.run`, or the `FileNotFoundError` it raises when there is no curl binary. */
  datatype ProcessOutcome =
    | Completed(stdout: string, stderr: string, returncode: int)
    | CurlNotFound

  const NotFoundMessage: string := "curl nao encontrado no sistema."

  /** The argument vector `_run_curl` builds for `payload`. */
  method BuildCommand(payload: Endpoint) returns (argv: seq<string>)
    ensures argv == CommandLine(payload)
  {
    argv := ["curl", "-i", "-X", payload.httpMethod];
    var i := 0;
    while i < |payload.headers|
      invariant 0 <= i <= |payload.headers|
      invariant argv == ["curl", "-i", "-X", payload.httpMethod] + HeaderArgs(payload.headers[..i])
    {
      var (key, value) := payload.headers[i];
      HeaderArgsSnoc(payload.headers[..i], payload.headers[i]);
      assert payload.headers[..i + 1] == payload.headers[..i] + [payload.headers[i]];
      argv := argv + ["-H", HeaderLine(key, value)];
      i := i + 1;
    }
    assert payload.headers[..i] == payload.headers;
    if payload.body != [] {
      argv := argv + ["--data-raw", payload.body];
    }
    argv := argv + [payload.url];
  }

  /**
   * `_run_curl(payload)`: the display line, the raw output and the exit code.
   * `run` stands for `subprocess.run(cmd_parts, capture_output=True, text=True, check=False)`.
   */
  method RunCurl(payload: Endpoint, run: seq<string> -> ProcessOutcome) returns (display: string, output: string, code: int)
    ensures display == Display(CommandLine(payload))
    ensures run(CommandLine(payload)).Completed? ==>
      code == run(CommandLine(payload)).returncode
      && (run(CommandLine(payload)).stderr == [] ==> output == run(CommandLine(payload)).stdout)
      && (run(CommandLine(payload)).stderr != [] ==>
            output == run(CommandLine(payload)).stdout + "\n[stderr]\n" + run(CommandLine(payload)).stderr)
    ensures run(CommandLine(payload)).CurlNotFound? ==> output == NotFoundMessage && code == 1
  {
    var argv := BuildCommand(payload);
    display := Join(" ", QuoteAll(argv));
    var result := run(argv);
    if result.CurlNotFound? {
      return display, NotFoundMessage, 1;
    }
    output := result.stdout;
    if result.stderr != [] {
      output := output + "\n[stderr]\n" + result.stderr;
    }
    code := result.returncode;
  }
}
