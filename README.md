# EndpointTester core, modelled in Dafny

EndpointTester is a small Tkinter desktop tool. You keep a list of named HTTP
endpoints in it, each with a URL, a method, a header block and a body. It sends
a request by running `curl -i` and shows the response, with a JSON body
pretty-printed. This project models the non-graphical core of
`endpoint_tester.py` and proves properties of it:

- the endpoint list, which is changed in place. `_upsert_endpoint` saves by
  name, and the `pop` in `delete_selected` removes an entry. This is the
  `Store.EndpointStore` class, specified by the functions `Upserted` and `Deleted`.
- `_collect_form`, which trims and validates the form fields, normalises the
  method against `METHODS` and parses the headers (module `Endpoints`).
- `_parse_headers`, with its two modes (a JSON object, or `Key: Value`
  lines), and `_headers_to_text`, its printer (module `HeaderBlock`). A Python
  dict is an ordered sequence of pairs with distinct keys. `Assign` is dict
  item assignment.
- the command side of `_run_curl`: the argument vector, the
  `shlex.quote`d display line and the assembly of the captured output
  (module `CurlCommand`). The display line is checked against a reader of
  POSIX shell words. The reader follows the quoting rules of POSIX.1-2017
  (section 2.2, Quoting, of the Shell Command Language chapter). It does token
  recognition and quote removal only, and it is proved to read the display
  line back into exactly the argument vector. Assignment words and reserved
  words are not modelled; they cannot arise here, because the first word is
  always `curl`.
- `_format_response_text` with `_split_headers_body`, `_split_stderr` and
  `_try_pretty_json` (module `ResponseFormat`).
- the Python string operations these rely on (module `PyText`):
  - `strip`, `lstrip` and `rstrip` over Python's whitespace set;
  - `rstrip("\n")` and `upper`;
  - `find`, `in` and `startswith`;
  - `join`;
  - `splitlines` over Python's line-boundary set.

JSON decoding and encoding are function parameters, `parse` and `pretty`. So
is `str()` of a decoded number, list or dict (`renderOther`). `subprocess.run`
is the parameter `run`.

The model follows the code at the points where the code does something a
reader might not expect:

- `_split_headers_body` splits at `\r\n\r\n` whenever the text contains one,
  even if a `\n\n` comes earlier.
- The stderr block is split off the body only after an envelope has been
  found. Without an envelope, the whole raw text, stderr block included, is
  given to the JSON decoder.
- A blank body makes `_try_pretty_json` return its input unchanged. The
  result is then `header + "\n\n" + body_main + suffix`, not the raw text.
- An index past the end in `delete_selected` is swallowed, and the list is
  left as it is.
- Once an envelope is accepted, its header is never empty. The final
  `return formatted_body` of `_format_response_text` is therefore unreachable.

## Model

| member | source | states |
|---|---|---|
| Store.FirstNamed | endpoint_tester.py:479-480 | the index of the first entry whose name equals the given one; every earlier entry has a different name; `len` when there is none |
| Store.Upserted | endpoint_tester.py:478-484 | the returned index is valid and holds the payload. When an entry has the payload's name, the first such index is returned, that entry alone is replaced and the length is kept. Otherwise the payload is appended and the old length returned, and this happens exactly when no entry has the name |
| Store.EndpointStore.Upsert | endpoint_tester.py:478-484 | the scan-and-assign loop leaves exactly the list and returns exactly the index given by `Upserted` on the old list |
| Store.UpsertKeepsUniqueNames | endpoint_tester.py:478-484 | saving never makes two named entries share a name |
| Store.UpsertThenFind | endpoint_tester.py:478-484 | after an upsert, looking the name up finds the returned index |
| Store.UpsertIdempotent | endpoint_tester.py:478-484 | saving the same payload twice gives the same list and index as saving it once |
| Store.Deleted | endpoint_tester.py:350-354 | a valid index returns that entry and removes it, keeping the order of the others; an index past the end changes nothing and removes nothing |
| Store.EndpointStore.Delete | endpoint_tester.py:350-354 | the `pop` with `IndexError` swallowed leaves exactly the list and the removed entry given by `Deleted` |
| Store.DeleteUndoesAppend | endpoint_tester.py:352 | removing the entry an upsert of a new name appended gives back the old list and that payload |
| Store.DeleteKeepsUniqueNames | endpoint_tester.py:350-354 | removing an entry keeps names unique |
| Endpoints.NormalizeMethod | endpoint_tester.py:432-445 | the method is always one of `METHODS`. It is the trimmed, upper-cased input when that is listed, and GET otherwise, including for empty input |
| Endpoints.BlankMethodIsGet | endpoint_tester.py:432 | an empty or whitespace-only method field gives GET |
| Endpoints.UpperMethodName | endpoint_tester.py:34 | every listed method is its own strip and its own upper case |
| Endpoints.NormalizeMethodIdempotent | endpoint_tester.py:432-445 | normalising a normalised method changes nothing |
| Endpoints.Message | endpoint_tester.py:437-470 | every `ValueError` text is non-empty, and the bad-header text ends with the offending line |
| Endpoints.MessageInjective | endpoint_tester.py:436-470 | the three `ValueError` messages (missing name, missing url, bad header line) are distinct and name the offending line |
| Endpoints.FormOf | endpoint_tester.py:429-448 | the result is an error for a blank name, then for a blank url (name present), then for a bad header block (name and url present), each as an if-and-only-if. A bad header block reports its first bad line. Otherwise the payload holds the trimmed name and url, the normalised method, the parsed headers and the body with only its trailing `\n`s removed |
| Endpoints.FormPayloadValid | endpoint_tester.py:429-448 | every accepted payload has a non-empty trimmed name and url, a listed method, distinct header keys and a body not ending in `\n` |
| Endpoints.HeaderFieldStripped | endpoint_tester.py:433 | trimming the header field before `_parse_headers` trims it again does not change the result |
| Endpoints.CollectForm | endpoint_tester.py:429-448 | the method returns exactly `FormOf` of the fields |
| HeaderBlock.Assign | endpoint_tester.py:472 | dict assignment keeps keys distinct. An existing key keeps its position and takes the new value, and nothing else changes. A new key is appended. The key set grows by exactly the key |
| HeaderBlock.ObjectHeaders | endpoint_tester.py:461 | the comprehension over a decoded object gives headers with distinct keys |
| HeaderBlock.ObjectHeadersOfDistinct | endpoint_tester.py:461 | a decoded object with distinct keys gives exactly its members, in order, with values coerced by `str` |
| HeaderBlock.StringObjectHeaders | endpoint_tester.py:460-461 | a decoded object with distinct keys and only string values gives exactly its `(key, value)` pairs, in order, since `str` leaves strings as they are |
| HeaderBlock.SplitAtColon | endpoint_tester.py:471 | `split(":", 1)` gives a key with no colon, and key, colon and value give back the line |
| HeaderBlock.SplitAtFirstColon | endpoint_tester.py:471 | the split is at the first colon, so a value may contain colons |
| HeaderBlock.ParseLines | endpoint_tester.py:466-473 | line mode succeeds if and only if no line is non-blank and without a colon. On failure, the error is the first such line. On success, the keys are distinct |
| HeaderBlock.BlankLineSkipped | endpoint_tester.py:467-468 | a blank line adds nothing: line mode goes on with the same dict |
| HeaderBlock.ParseYieldingLine | endpoint_tester.py:469-472 | a non-blank line with a colon assigns its trimmed key and trimmed value into the dict, and line mode goes on from there |
| HeaderBlock.ParseAssignsEach | endpoint_tester.py:466-473 | over lines that each yield one header, line mode succeeds with exactly the dict built by assigning those headers in order, repeated keys included |
| HeaderBlock.RepeatedKeyLastValue | endpoint_tester.py:466-473 | a key given twice, with a blank line between, keeps its first position and takes its last value |
| HeaderBlock.RepeatedKeyKeepsPlace | endpoint_tester.py:466-473 | a key given twice, with a line of another key between, stays ahead of that key and takes its last value |
| HeaderBlock.ParseYieldingLines | endpoint_tester.py:466-473 | lines that each yield one header, with distinct keys, are read as exactly those headers, in order |
| HeaderBlock.HeadersOf | endpoint_tester.py:450-473 | blank text gives no headers; text that decodes to a JSON object gives the object's headers, ahead of line mode; anything else is read in line mode over `splitlines` of the trimmed text |
| HeaderBlock.ParseHeaders | endpoint_tester.py:450-473 | the method returns exactly `HeadersOf` of the text |
| HeaderBlock.ReadLines | endpoint_tester.py:465-473 | the loop over the lines, with its early `raise` on a bad line, returns exactly `ParseLines` from the empty dict |
| HeaderBlock.HeadersToText | endpoint_tester.py:475-476 | the printed text is empty exactly when there are no headers; PrintedLinesSplit and HeadersTextRoundTrip state what it holds and that `_parse_headers` reads it back |
| HeaderBlock.PrintedLinesSplit | endpoint_tester.py:475-476 | the printed text is one `key: value` line per header: when no key or value holds a line boundary, `splitlines` of it gives back exactly those lines, in order |
| HeaderBlock.HeadersTextRoundTrip | endpoint_tester.py:475-476 | headers with distinct keys, each without a colon in the key, without line breaks and without whitespace at either end, printed by `_headers_to_text` and read back by `_parse_headers` give the same headers in the same order, unless the printed text is itself a JSON object |
| CurlCommand.EscapeQuotes | endpoint_tester.py:411 | the escaped text is never shorter, and a text without `'` is left unchanged |
| CurlCommand.EscapeReadsBack | endpoint_tester.py:411 | inside single quotes, the escaped text and the closing quote read back as exactly the original text |
| CurlCommand.Quote | endpoint_tester.py:411 | `shlex.quote` never gives an empty word; it gives the part itself or a single-quoted word |
| CurlCommand.Display | endpoint_tester.py:411 | the display line is empty exactly when the vector is |
| CurlCommand.DisplayReadsBack | endpoint_tester.py:411 | token recognition and quote removal, as a POSIX shell does them, give back exactly the argument vector from the display line |
| CurlCommand.HeaderArgs | endpoint_tester.py:405-406 | two arguments per header, in map order: `-H` and `key: value` |
| CurlCommand.CommandLine | endpoint_tester.py:404-409 | the vector is `curl -i -X method`, a `-H` pair per header, `--data-raw body` only for a non-empty body, and the url last; its length is 5 + 2·headers + 2 when there is a body |
| CurlCommand.BuildCommand | endpoint_tester.py:404-409 | the `extend`/`append` loop builds exactly `CommandLine` of the payload |
| CurlCommand.RunCurl | endpoint_tester.py:403-427 | the display line is the quoted vector joined by spaces. The output is stdout when stderr is empty, and `stdout + "\n[stderr]\n" + stderr` otherwise. The exit code is passed through. A missing curl gives the fixed message and code 1 |
| ResponseFormat.SplitHeadersBody | endpoint_tester.py:509-529 | empty text, and text without a separator, give no split. A split satisfies header + separator + body == text, with no earlier separator in the header, and the trimmed header starts with `HTTP/` |
| ResponseFormat.SplitAtFirstSeparator | endpoint_tester.py:516-529 | at the first separator, the text splits if and only if the part before it, trimmed, starts with `HTTP/`, and then into exactly the parts before and after it |
| ResponseFormat.LfEnvelope | endpoint_tester.py:520-529 | an `HTTP/` header that holds no `\n\n` and does not end in `\n`, then `\n\n`, then a body, with no `\r\n\r\n` anywhere, splits back into that header and body |
| ResponseFormat.SplitStderr | endpoint_tester.py:531-539 | the split is at the first marker, the main part right-trimmed; SplitStderrParts and StderrRoundTrip state what the two parts are and that the block `_run_curl` appends is recovered |
| ResponseFormat.SplitStderrParts | endpoint_tester.py:531-539 | the main part is a prefix of the text and the suffix a suffix of it, with only whitespace between them. The suffix is empty exactly when the text holds no marker; otherwise it starts with the marker, no marker occurs before it, and the main part holds no marker and ends in no whitespace |
| ResponseFormat.StderrRoundTrip | endpoint_tester.py:531-539 | splitting a stdout without a marker, followed by the block `_run_curl` appends, gives back the right-trimmed stdout and that block |
| ResponseFormat.TryPrettyJson | endpoint_tester.py:541-551 | a blank text gives nothing, a text whose strip decodes gives its pretty-printed form; TryPrettyJsonSeesStrip and TryPrettyJsonIdempotent state that only the trimmed candidate matters and that pretty text stays as it is |
| ResponseFormat.TryPrettyJsonSeesStrip | endpoint_tester.py:541-551 | only the trimmed candidate matters: a non-blank text and any text with the same strip are pretty-printed alike |
| ResponseFormat.TryPrettyJsonIdempotent | endpoint_tester.py:541-551 | for an encoder whose output decodes back and has no surrounding whitespace, pretty-printing an already pretty-printed text changes nothing |
| ResponseFormat.FormatResponse | endpoint_tester.py:489-507 | stated by three lemmas: FormatWithoutEnvelope (no envelope: the pretty raw text when it decodes, the raw text otherwise), FormatWithEnvelope (with an envelope, all or nothing) and FormatKeepsStderrBlock (any result other than the raw text is framed by the header and the stderr block set aside) |
| ResponseFormat.FormatKeepsStderrBlock | endpoint_tester.py:489-507 | with an envelope, any result other than the raw text starts with the header and a blank line, and ends with the stderr block exactly as it was set aside |
| ResponseFormat.FormatWithoutEnvelope | endpoint_tester.py:493-496 | with no envelope, the result is the pretty-printed raw text when it is non-blank and decodes, and the raw text otherwise |
| ResponseFormat.FormatWithEnvelope | endpoint_tester.py:498-506 | with an envelope, all or nothing. A blank main part gives header, blank line, main part and suffix. A non-JSON body gives the raw text unchanged. A JSON body gives header, blank line, pretty body and suffix |
| ResponseFormat.EnvelopeHeaderNonEmpty | endpoint_tester.py:505-507 | an accepted envelope always has a non-empty header |
| ResponseFormat.FormatEnvelopeWithStderr | endpoint_tester.py:489-507 | an `HTTP/` envelope with a JSON body and an appended stderr block is shown as the header, a blank line, the pretty body and the unchanged stderr block |
| PyText.Strip | endpoint_tester.py:430 | `strip()` never lengthens a text and leaves no whitespace at either end |
| PyText.StripSlice | endpoint_tester.py:430 | `strip()` keeps a contiguous slice of the text, and everything it drops before and after that slice is whitespace |
| PyText.LStrip | endpoint_tester.py:430 | the leading part of `strip()`: a suffix of the text that does not start with whitespace |
| PyText.LStripDropsSpace | endpoint_tester.py:430 | every character `lstrip` drops is whitespace |
| PyText.RStrip | endpoint_tester.py:539 | `rstrip()` gives a prefix of the text that does not end in whitespace |
| PyText.RStripDropsSpace | endpoint_tester.py:539 | every character `rstrip` drops is whitespace |
| PyText.Upper | endpoint_tester.py:432 | `upper()` never shortens a text, is empty only for the empty text, and leaves no ASCII lower-case letter |
| PyText.BlankIffAllSpace | endpoint_tester.py:453-455 | a text strips to empty if and only if every character is whitespace |
| PyText.StripIdempotent | endpoint_tester.py:453 | stripping twice is stripping once |
| PyText.LStripRStrip | endpoint_tester.py:539 | `lstrip` and `rstrip` commute |
| PyText.StripOfRStrip | endpoint_tester.py:544 | stripping a right-trimmed text gives the strip of the original; this is why `_try_pretty_json` sees the same candidate either way |
| PyText.RStripNewlines | endpoint_tester.py:434 | `rstrip("\n")` gives a prefix not ending in `\n`, and every character removed is `\n` |
| PyText.Find | endpoint_tester.py:517 | `find` gives -1 exactly when the pattern does not occur, and otherwise its first occurrence |
| PyText.SplitLines | endpoint_tester.py:466 | `splitlines()` gives no lines exactly for the empty text, and no line holds a line boundary |
| PyText.SplitLinesJoin | endpoint_tester.py:466 | `splitlines` of non-empty lines without line boundaries, joined with `\n`, gives back the lines |

## Left out

- The Tkinter interface is not modelled, being presentation only: the layout, styles, list box, dialogs, status text, fonts and the saved window geometry.
- File I/O is not modelled: loading and saving `endpoints.json` and `ui_state.json`, and the temporary-file-and-rename save. The `EndpointStore` constructor takes the loaded list as given.
- Locating the data directory (`_resolve_base_dir`) is not modelled, as it depends on the environment.
- Running curl is the parameter `run`; process execution itself is outside the model. The error dialog shown when curl is missing is not modelled.
- `json.loads`, `json.dumps(indent=2, ensure_ascii=False)` and `str()` of a decoded number, list or dict are the parameters `parse`, `pretty` and `renderOther`. Whether `json.loads` raises anything other than `JSONDecodeError` is not modelled.
- PyText.Upper: covers the ASCII letters and the non-ASCII characters whose upper case is plain ASCII. Every other character is kept as it is, although Python would upper-case many of them. Such a character is non-ASCII and stays non-ASCII in Python's result too, so neither result is one of the ASCII names in `METHODS`: which methods are accepted, and the normalised name of an accepted one, are the same as in Python.
- CurlCommand.RunCurl: the `run` parameter is any function, while `subprocess.run(..., text=True)` at endpoint_tester.py:413-418 reads curl's output with universal newlines, turning `\r\n` and a lone `\r` into `\n`. So curl's output as the program sees it never holds `\r\n\r\n`, and the CRLF branch of `_split_headers_body` (endpoint_tester.py:516-519) never runs on it; the model keeps that branch and no lemma depends on this conversion.
- CurlCommand.RunCurl: always returns. `subprocess.run` can also raise `PermissionError` or another `OSError`, and `UnicodeDecodeError` when curl's output is not valid text under `text=True`. `_run_curl` catches only `FileNotFoundError`, so these propagate out of it; the model has no such outcome.
- ResponseFormat.TryPrettyJson: takes a string. The `None` input of `_try_pretty_json` is left out, because both callers always pass a string.
- Store.EndpointStore.Delete: takes a natural-number index. Python's negative `pop` indices are left out, because the list box selection is never negative.
- HeaderBlock.HeadersTextRoundTrip: assumes headers that can be printed and read back, and a printed text that does not decode as a JSON object. Other headers are lost or changed in the round trip: keys with colons, values with line breaks, surrounding whitespace.
