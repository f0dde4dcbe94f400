/**
 * The header block of an endpoint: `_parse_headers`, which reads the
 * free-form header field either as a JSON object or as `Key: Value` lines,
 * and `_headers_to_text`, which prints the headers back into that field.
 *
 * A Python dict is modelled as an ordered sequence of key/value pairs with
 * distinct keys; `Assign` is dict item assignment.
 */
module HeaderBlock {
  import opened Wrappers
  import opened PyText
  import opened Json

  type Headers = seq<(string, string)>

  predicate DistinctKeys(h: Headers) {
    forall i, j :: 0 <= i < j < |h| ==> h[i].0 != h[j].0
  }

  predicate HasKey(h: Headers, key: string) {
    exists i :: 0 <= i < |h| && h[i].0 == key
  }

  /** Headers with the same keys in the same places have the same key set, and distinct keys if one has. */
  lemma SameKeys(h: Headers, r: Headers)
    requires DistinctKeys(h) && |r| == |h|
    requires forall i :: 0 <= i < |h| ==> r[i].0 == h[i].0
    ensures DistinctKeys(r)
    ensures forall k :: HasKey(r, k) <==> HasKey(h, k)
  {
    forall k | HasKey(r, k) ensures HasKey(h, k) {
      var i :| 0 <= i < |r| && r[i].0 == k;
      assert h[i].0 == k;
    }
    forall k | HasKey(h, k) ensures HasKey(r, k) {
      var i :| 0 <= i < |h| && h[i].0 == k;
      assert r[i].0 == k;
    }
  }

  /** Appending a new key keeps keys distinct and adds exactly that key. */
  lemma AppendKey(h: Headers, p: (string, string))
    requires DistinctKeys(h) && !HasKey(h, p.0)
    ensures DistinctKeys(h + [p])
    ensures forall k :: HasKey(h + [p], k) <==> k == p.0 || HasKey(h, k)
  {
    var r := h + [p];
    forall k | HasKey(r, k) && k != p.0 ensures HasKey(h, k) {
      var i :| 0 <= i < |r| && r[i].0 == k;
      assert i < |h| && h[i].0 == k;
    }
    forall k | HasKey(h, k) ensures HasKey(r, k) {
      var i :| 0 <= i < |h| && h[i].0 == k;
      assert r[i].0 == k;
    }
    assert r[|h|].0 == p.0;
  }

  /**
   * `h[key] = value`: an existing key keeps its position and takes the new
   * value; a new key is appended at the end.
   */
  function Assign(h: Headers, key: string, value: string): (r: Headers)
    requires DistinctKeys(h)
    ensures DistinctKeys(r)
    ensures HasKey(h, key) ==> |r| == |h|
    ensures !HasKey(h, key) ==> r == h + [(key, value)]
    ensures forall i :: 0 <= i < |h| ==> r[i] == (if h[i].0 == key then (key, value) else h[i])
    ensures forall k :: HasKey(r, k) <==> k == key || HasKey(h, k)
  {
    if HasKey(h, key) then
      var r := seq(|h|, i requires 0 <= i < |h| => if h[i].0 == key then (key, value) else h[i]);
      SameKeys(h, r);
      r
    else
      AppendKey(h, (key, value));
      h + [(key, value)]
  }

  /** Folds `members` into `acc` with dict assignment, coercing every value with `str`. */
  function AssignAll(acc: Headers, members: seq<(string, Json)>, renderOther: Json -> string): (r: Headers)
    requires DistinctKeys(acc)
    ensures DistinctKeys(r)
    decreases |members|
  {
    if members == [] then acc
    else AssignAll(Assign(acc, members[0].0, Str(members[0].1, renderOther)), members[1..], renderOther)
  }

  /** `{str(k): str(v) for k, v in data.items()}` for a decoded JSON object. */
  function ObjectHeaders(members: seq<(string, Json)>, renderOther: Json -> string): (r: Headers)
    ensures DistinctKeys(r)
  {
    AssignAll([], members, renderOther)
  }

  /** The members with their values coerced by `str`, in order. */
  function Coerced(members: seq<(string, Json)>, renderOther: Json -> string): (r: Headers)
    ensures |r| == |members|
    ensures forall i :: 0 <= i < |members| ==> r[i] == (members[i].0, Str(members[i].1, renderOther))
  {
    if members == [] then [] else [(members[0].0, Str(members[0].1, renderOther))] + Coerced(members[1..], renderOther)
  }

  predicate DistinctMemberKeys(members: seq<(string, Json)>) {
    forall i, j :: 0 <= i < j < |members| ==> members[i].0 != members[j].0
  }

  lemma AssignFresh(acc: Headers, pair: (string, string), rest: Headers)
    requires DistinctKeys(acc) && !HasKey(acc, pair.0)
    ensures Assign(acc, pair.0, pair.1) + rest == acc + ([pair] + rest)
  {
  }

  lemma AssignAllStep(acc: Headers, members: seq<(string, Json)>, renderOther: Json -> string)
    requires DistinctKeys(acc) && members != []
    ensures AssignAll(acc, members, renderOther)
         == AssignAll(Assign(acc, members[0].0, Str(members[0].1, renderOther)), members[1..], renderOther)
    ensures Coerced(members, renderOther)
         == [(members[0].0, Str(members[0].1, renderOther))] + Coerced(members[1..], renderOther)
  {
  }

  lemma {:induction false} AssignAllFresh(acc: Headers, members: seq<(string, Json)>, renderOther: Json -> string)
    requires DistinctKeys(acc) && DistinctMemberKeys(members)
    requires forall i :: 0 <= i < |members| ==> !HasKey(acc, members[i].0)
    ensures AssignAll(acc, members, renderOther) == acc + Coerced(members, renderOther)
    decreases |members|
  {
    if members != [] {
      var pair := (members[0].0, Str(members[0].1, renderOther));
      var tail := members[1..];
      var acc' := Assign(acc, pair.0, pair.1);
      assert DistinctMemberKeys(tail) by {
        forall i, j | 0 <= i < j < |tail| ensures tail[i].0 != tail[j].0 {
          assert tail[i] == members[i + 1] && tail[j] == members[j + 1];
        }
      }
      forall i | 0 <= i < |tail| ensures !HasKey(acc', tail[i].0) {
        assert tail[i] == members[i + 1];
        assert members[i + 1].0 != pair.0;
        assert !HasKey(acc, members[i + 1].0);
      }
      AssignAllFresh(acc', tail, renderOther);
      AssignAllStep(acc, members, renderOther);
      AssignFresh(acc, pair, Coerced(tail, renderOther));
    }
  }

  /** A decoded object whose keys are distinct becomes exactly its members, values coerced with `str`, in order. */
  lemma ObjectHeadersOfDistinct(members: seq<(string, Json)>, renderOther: Json -> string)
    requires DistinctMemberKeys(members)
    ensures ObjectHeaders(members, renderOther) == Coerced(members, renderOther)
  {
    AssignAllFresh([], members, renderOther);
  }

  /**
   * A decoded object with distinct keys and string values only becomes
   * exactly its `(key, value)` pairs, in order: `str` leaves the strings as
   * they are, so `renderOther` plays no part.
   */
  lemma StringObjectHeaders(members: seq<(string, Json)>, renderOther: Json -> string)
    requires DistinctMemberKeys(members)
    requires forall i :: 0 <= i < |members| ==> members[i].1.JString?
    ensures |ObjectHeaders(members, renderOther)| == |members|
    ensures forall i :: 0 <= i < |members| ==> ObjectHeaders(members, renderOther)[i] == (members[i].0, members[i].1.s)
  {
    ObjectHeadersOfDistinct(members, renderOther);
  }

  predicate NoColon(s: string) {
    forall i :: 0 <= i < |s| ==> s[i] != ':'
  }

  /** `line.split(":", 1)`: the text before the first colon and the text after it. */
  function SplitAtColon(line: string): (r: (string, string))
    requires Contains(line, ":")
    ensures r.0 + ":" + r.1 == line
    ensures NoColon(r.0)
  {
    var i := Find(line, ":");
    forall j | 0 <= j < i ensures line[j] != ':' {
      assert !IsAt(line, ":", j);
      assert line[j..j + 1] == [line[j]];
    }
    assert line[i..i + 1] == ":";
    assert line[..i] + ":" + line[i + 1..] == line;
    (line[..i], line[i + 1..])
  }

  /** The split is made at the first colon, so everything after it, colons included, is the value. */
  lemma SplitAtFirstColon(key: string, rest: string)
    requires NoColon(key)
    ensures Contains(key + ":" + rest, ":")
    ensures SplitAtColon(key + ":" + rest) == (key, rest)
  {
    var line := key + ":" + rest;
    assert line[|key|..|key| + 1] == ":";
    assert IsAt(line, ":", |key|);
    forall j | 0 <= j < |key| ensures !IsAt(line, ":", j) {
      assert line[j..j + 1] == [key[j]];
    }
    assert Find(line, ":") == |key|;
    assert line[..|key|] == key;
    assert line[|key| + 1..] == rest;
  }

  /** A non-blank line without a colon, which line mode rejects. */
  predicate BadLine(line: string) {
    !IsBlank(line) && !Contains(line, ":")
  }

  predicate NoBadLine(lines: seq<string>) {
    forall k :: 0 <= k < |lines| ==> !BadLine(lines[k])
  }

  /** `lines[k]` is the first line that line mode rejects. */
  predicate FirstBadLine(lines: seq<string>, k: int) {
    0 <= k < |lines| && BadLine(lines[k]) && forall j :: 0 <= j < k ==> !BadLine(lines[j])
  }

  lemma NoBadLineShift(lines: seq<string>)
    requires lines != []
    ensures NoBadLine(lines) <==> !BadLine(lines[0]) && NoBadLine(lines[1..])
  {
    assert forall k :: 1 <= k < |lines| ==> lines[k] == lines[1..][k - 1];
  }

  lemma FirstBadLineShift(lines: seq<string>, k: int)
    requires lines != [] && !BadLine(lines[0]) && FirstBadLine(lines[1..], k)
    ensures FirstBadLine(lines, k + 1)
  {
    forall j | 1 <= j < k + 1 ensures !BadLine(lines[j]) {
      assert lines[j] == lines[1..][j - 1];
    }
    assert lines[k + 1] == lines[1..][k];
  }

  lemma BadLineShift(lines: seq<string>)
    requires lines != []
    ensures NoBadLine(lines) <==> !BadLine(lines[0]) && NoBadLine(lines[1..])
    ensures BadLine(lines[0]) ==> FirstBadLine(lines, 0)
    ensures !BadLine(lines[0]) ==> forall k :: FirstBadLine(lines[1..], k) ==> FirstBadLine(lines, k + 1)
  {
    NoBadLineShift(lines);
    if !BadLine(lines[0]) {
      forall k | FirstBadLine(lines[1..], k) ensures FirstBadLine(lines, k + 1) {
        FirstBadLineShift(lines, k);
      }
    }
  }

  /** The line loop of `_parse_headers`, continuing from the dict `acc`. */
  function ParseLines(lines: seq<string>, acc: Headers): (r: Result<Headers, string>)
    requires DistinctKeys(acc)
    ensures r.Ok? ==> DistinctKeys(r.value)
    ensures r.Ok? <==> NoBadLine(lines)
    ensures r.Err? ==> exists k :: FirstBadLine(lines, k) && lines[k] == r.error
    decreases |lines|
  {
    if lines == [] then Ok(acc)
    else
      BadLineShift(lines);
      if IsBlank(lines[0]) then ParseLines(lines[1..], acc)
      else if !Contains(lines[0], ":") then Err(lines[0])
      else
        var (key, value) := SplitAtColon(lines[0]);
        ParseLines(lines[1..], Assign(acc, Strip(key), Strip(value)))
  }

  /**
   * `_parse_headers(text)`: blank text gives no headers; a text that decodes to
   * a JSON object gives that object's members; anything else is read line by line.
   */
  function HeadersOf(text: string, parse: string -> Option<Json>, renderOther: Json -> string): (r: Result<Headers, string>)
    ensures IsBlank(text) ==> r == Ok([])
    ensures !IsBlank(text) && IsObject(parse(Strip(text))) ==> r == Ok(ObjectHeaders(parse(Strip(text)).value.members, renderOther))
    ensures !IsBlank(text) && !IsObject(parse(Strip(text))) ==> r == ParseLines(SplitLines(Strip(text)), [])
    ensures r.Ok? ==> DistinctKeys(r.value)
  {
    if text == [] then Ok([])
    else
      var stripped := Strip(text);
      if stripped == [] then Ok([])
      else
        var data := parse(stripped);
        if IsObject(data) then Ok(ObjectHeaders(data.value.members, renderOther))
        else ParseLines(SplitLines(stripped), [])
  }

  /** `_parse_headers`, with its loop over the lines of the stripped text. */
  method ParseHeaders(text: string, parse: string -> Option<Json>, renderOther: Json -> string)
    returns (r: Result<Headers, string>)
    ensures r == HeadersOf(text, parse, renderOther)
  {
    if text == [] {
      return Ok([]);
    }
    var stripped := Strip(text);
    if stripped == [] {
      return Ok([]);
    }
    var data := parse(stripped);
    if IsObject(data) {
      return Ok(ObjectHeaders(data.value.members, renderOther));
    }
    r := ReadLines(SplitLines(stripped));
  }

  /** The `for line in stripped.splitlines()` loop of `_parse_headers`. */
  method ReadLines(lines: seq<string>) returns (r: Result<Headers, string>)
    ensures r == ParseLines(lines, [])
  {
    var headers: Headers := [];
    var i := 0;
    while i < |lines|
      invariant 0 <= i <= |lines|
      invariant DistinctKeys(headers)
      invariant ParseLines(lines[i..], headers) == ParseLines(lines, [])
    {
      var line := lines[i];
      assert lines[i..][0] == line && lines[i..][1..] == lines[i + 1..];
      if !IsBlank(line) {
        if !Contains(line, ":") {
          return Err(line);
        }
        var (key, value) := SplitAtColon(line);
        headers := Assign(headers, Strip(key), Strip(value));
      }
      i := i + 1;
    }
    return Ok(headers);
  }

  /** `f"{k}: {v}"`, one printed header. */
  function HeaderLine(key: string, value: string): string {
    key + ": " + value
  }

  function HeaderLines(h: Headers): (lines: seq<string>)
    ensures |lines| == |h|
    ensures forall i :: 0 <= i < |h| ==> lines[i] == HeaderLine(h[i].0, h[i].1)
  {
    seq(|h|, i requires 0 <= i < |h| => HeaderLine(h[i].0, h[i].1))
  }

  /** `_headers_to_text`: one `Key: Value` line per header, joined with `\n`. */
  function HeadersToText(h: Headers): (text: string)
    ensures text == [] <==> h == []
  {
    var lines := HeaderLines(h);
    if lines != [] then JoinHead("\n", lines); Join("\n", lines) else Join("\n", lines)
  }

  /** A header that survives printing and re-parsing: no colon in the key, no line break, no whitespace at either end. */
  predicate Printable(key: string, value: string) {
    NoColon(key) && NoLineBreaks(key) && NoLineBreaks(value) && NoEdgeSpace(key) && NoEdgeSpace(value)
  }

  /** Line mode reads `line` as the header `pair`. */
  predicate Yields(line: string, pair: (string, string)) {
    !IsBlank(line) && Contains(line, ":")
    && Strip(SplitAtColon(line).0) == pair.0 && Strip(SplitAtColon(line).1) == pair.1
  }

  lemma ColonLineNotBlank(key: string, w: string)
    requires NoColon(key)
    ensures !IsBlank(key + ":" + w)
  {
    var line := key + ":" + w;
    BlankIffAllSpace(line);
    assert line[|key|] == ':';
  }

  /** A line `key + ":" + w` is read as the header `(key, Strip(w))`. */
  lemma PrintedLineYields(key: string, w: string)
    requires NoColon(key) && NoEdgeSpace(key)
    ensures Yields(key + ":" + w, (key, Strip(w)))
  {
    ColonLineNotBlank(key, w);
    SplitAtFirstColon(key, w);
    StripFixed(key);
  }

  /** One step of line mode on a line that yields a header. */
  lemma ParseYieldingLine(lines: seq<string>, pair: (string, string), acc: Headers)
    requires lines != [] && Yields(lines[0], pair)
    requires DistinctKeys(acc)
    ensures ParseLines(lines, acc) == ParseLines(lines[1..], Assign(acc, pair.0, pair.1))
  {
  }

  /** Line mode skips a blank line. */
  lemma BlankLineSkipped(lines: seq<string>, acc: Headers)
    requires lines != [] && IsBlank(lines[0]) && DistinctKeys(acc)
    ensures ParseLines(lines, acc) == ParseLines(lines[1..], acc)
  {
  }

  lemma AssignToEmpty(key: string, v: string)
    ensures Assign([], key, v) == [(key, v)]
  {
  }

  lemma AssignSameKey(key: string, v1: string, v2: string)
    ensures Assign([(key, v1)], key, v2) == [(key, v2)]
  {
    assert [(key, v1)][0].0 == key;
  }

  lemma LastLineReplaces(lines: seq<string>, key: string, v1: string, v2: string)
    requires |lines| == 1 && Yields(lines[0], (key, v2))
    ensures ParseLines(lines, [(key, v1)]) == Ok([(key, v2)])
  {
    ParseYieldingLine(lines, (key, v2), [(key, v1)]);
    AssignSameKey(key, v1, v2);
    assert lines[1..] == [];
  }

  lemma FirstLineAppends(lines: seq<string>, key: string, v1: string)
    requires lines != [] && Yields(lines[0], (key, v1))
    ensures ParseLines(lines, []) == ParseLines(lines[1..], [(key, v1)])
  {
    ParseYieldingLine(lines, (key, v1), []);
    AssignToEmpty(key, v1);
  }

  /**
   * A key given twice, with a blank line between, keeps the position of its
   * first line and takes the value of its last one.
   */
  lemma RepeatedKeyLastValue(lines: seq<string>, key: string, v1: string, v2: string)
    requires |lines| == 3 && Yields(lines[0], (key, v1)) && IsBlank(lines[1]) && Yields(lines[2], (key, v2))
    ensures ParseLines(lines, []) == Ok([(key, v2)])
  {
    var rest := lines[1..];
    assert rest[0] == lines[1] && rest[1..][0] == lines[2];
    FirstLineAppends(lines, key, v1);
    BlankLineSkipped(rest, [(key, v1)]);
    LastLineReplaces(rest[1..], key, v1, v2);
  }

  /** Dict assignment of each pair in turn. */
  function AssignEach(acc: Headers, pairs: seq<(string, string)>): (r: Headers)
    requires DistinctKeys(acc)
    ensures DistinctKeys(r)
    decreases |pairs|
  {
    if pairs == [] then acc else AssignEach(Assign(acc, pairs[0].0, pairs[0].1), pairs[1..])
  }

  /** Line mode over lines that each yield one header is dict assignment of those headers, in order, repeated keys included. */
  lemma {:induction false} ParseAssignsEach(lines: seq<string>, pairs: seq<(string, string)>, acc: Headers)
    requires |lines| == |pairs| && DistinctKeys(acc)
    requires forall i :: 0 <= i < |pairs| ==> Yields(lines[i], pairs[i])
    ensures ParseLines(lines, acc) == Ok(AssignEach(acc, pairs))
    decreases |pairs|
  {
    if pairs != [] {
      ParseYieldingLine(lines, pairs[0], acc);
      forall i | 0 <= i < |pairs| - 1 ensures Yields(lines[1..][i], pairs[1..][i]) {
        assert lines[1..][i] == lines[i + 1] && pairs[1..][i] == pairs[i + 1];
      }
      ParseAssignsEach(lines[1..], pairs[1..], Assign(acc, pairs[0].0, pairs[0].1));
    }
  }

  /** A line with a key not yet present appends its header. */
  lemma NewKeyLineAppends(lines: seq<string>, acc: Headers, other: string, w: string)
    requires lines != [] && Yields(lines[0], (other, w)) && DistinctKeys(acc) && !HasKey(acc, other)
    ensures DistinctKeys(acc + [(other, w)])
    ensures ParseLines(lines, acc) == ParseLines(lines[1..], acc + [(other, w)])
  {
    ParseYieldingLine(lines, (other, w), acc);
  }

  /** The last line is assigned into what was read before it. */
  lemma LastLineAssigns(lines: seq<string>, acc: Headers, key: string, v: string)
    requires |lines| == 1 && Yields(lines[0], (key, v)) && DistinctKeys(acc)
    ensures ParseLines(lines, acc) == Ok(Assign(acc, key, v))
  {
    ParseYieldingLine(lines, (key, v), acc);
    assert lines[1..] == [];
  }

  lemma AssignFirstOfTwo(key: string, v1: string, v2: string, other: string, w: string)
    requires key != other
    ensures DistinctKeys([(key, v1)] + [(other, w)])
    ensures Assign([(key, v1)] + [(other, w)], key, v2) == [(key, v2), (other, w)]
  {
    var h := [(key, v1)] + [(other, w)];
    assert h[0].0 == key && h[1].0 == other;
  }

  /**
   * A key given twice, with another key between, keeps the position of its
   * first line, ahead of the other key, and takes the value of its last line.
   */
  lemma RepeatedKeyKeepsPlace(lines: seq<string>, key: string, v1: string, v2: string, other: string, w: string)
    requires |lines| == 3 && key != other
    requires Yields(lines[0], (key, v1)) && Yields(lines[1], (other, w)) && Yields(lines[2], (key, v2))
    ensures ParseLines(lines, []) == Ok([(key, v2), (other, w)])
  {
    var rest := lines[1..];
    assert rest[0] == lines[1] && rest[1..][0] == lines[2];
    FirstLineAppends(lines, key, v1);
    assert !HasKey([(key, v1)], other) by {
      assert [(key, v1)][0].0 == key;
    }
    NewKeyLineAppends(rest, [(key, v1)], other, w);
    LastLineAssigns(rest[1..], [(key, v1)] + [(other, w)], key, v2);
    AssignFirstOfTwo(key, v1, v2, other, w);
  }

  lemma DistinctSplit(acc: Headers, h: Headers)
    requires DistinctKeys(acc + h)
    ensures DistinctKeys(acc)
    ensures h != [] ==> !HasKey(acc, h[0].0) && (acc + [h[0]]) + h[1..] == acc + h
  {
    forall i, j | 0 <= i < j < |acc| ensures acc[i].0 != acc[j].0 {
      assert acc[i] == (acc + h)[i] && acc[j] == (acc + h)[j];
    }
    if h != [] {
      forall i | 0 <= i < |acc| ensures acc[i].0 != h[0].0 {
        assert (acc + h)[i] == acc[i] && (acc + h)[|acc|] == h[0];
      }
      assert [h[0]] + h[1..] == h;
    }
  }

  /** Line mode over lines that each yield one header, all keys distinct, appends those headers in order. */
  lemma {:induction false} ParseYieldingLines(lines: seq<string>, h: Headers, acc: Headers)
    requires |lines| == |h|
    requires forall i :: 0 <= i < |h| ==> Yields(lines[i], h[i])
    requires DistinctKeys(acc + h)
    ensures DistinctKeys(acc)
    ensures ParseLines(lines, acc) == Ok(acc + h)
    decreases |h|
  {
    DistinctSplit(acc, h);
    if h == [] {
      assert acc + h == acc;
    } else {
      ParseYieldingLine(lines, h[0], acc);
      var acc' := Assign(acc, h[0].0, h[0].1);
      assert acc' == acc + [h[0]];
      forall i | 0 <= i < |h| - 1 ensures Yields(lines[1..][i], h[1..][i]) {
        assert lines[1..][i] == lines[i + 1] && h[1..][i] == h[i + 1];
      }
      ParseYieldingLines(lines[1..], h[1..], acc');
    }
  }

  /** The printed line of header `i` after the printed text is stripped: an empty last value loses its space. */
  function StrippedLine(h: Headers, i: nat): string
    requires i < |h|
  {
    if i == |h| - 1 && h[i].1 == [] then h[i].0 + ":" else HeaderLine(h[i].0, h[i].1)
  }

  /** What follows the colon in `StrippedLine(h, i)`. */
  function Gap(h: Headers, i: nat): string
    requires i < |h|
  {
    if i == |h| - 1 && h[i].1 == [] then [] else " " + h[i].1
  }

  function StrippedLines(h: Headers): (lines: seq<string>)
    ensures |lines| == |h|
    ensures forall i :: 0 <= i < |h| ==> lines[i] == StrippedLine(h, i)
  {
    seq(|h|, i requires 0 <= i < |h| => StrippedLine(h, i))
  }

  lemma StripAfterSpace(v: string)
    requires NoEdgeSpace(v)
    ensures Strip(" " + v) == v
  {
    LStripSpaceCons(' ', v);
    StripFixed(v);
  }

  lemma HeaderLineParts(key: string, value: string)
    ensures HeaderLine(key, value) == key + ":" + (" " + value)
  {
    assert ": " + value == ":" + (" " + value);
  }

  lemma StrippedLineParts(h: Headers, i: nat)
    requires i < |h| && NoEdgeSpace(h[i].1)
    ensures StrippedLine(h, i) == h[i].0 + ":" + Gap(h, i)
    ensures Strip(Gap(h, i)) == h[i].1
  {
    if Gap(h, i) == [] {
      assert h[i].0 + ":" + [] == h[i].0 + ":";
    } else {
      HeaderLineParts(h[i].0, h[i].1);
      StripAfterSpace(h[i].1);
    }
  }

  /** A `key: value` line with neither part holding a line boundary is a single non-empty line. */
  lemma HeaderLineIsOneLine(key: string, value: string)
    requires NoLineBreaks(key) && NoLineBreaks(value)
    ensures HeaderLine(key, value) != [] && NoLineBreaks(HeaderLine(key, value))
  {
    NoLineBreaksAppend(key, ": ");
    NoLineBreaksAppend(key + ": ", value);
  }

  /**
   * `_headers_to_text` writes one line per header: when no key or value holds
   * a line boundary, `splitlines` of the text gives back exactly the
   * `key: value` lines, in order.
   */
  lemma PrintedLinesSplit(h: Headers)
    requires forall i :: 0 <= i < |h| ==> NoLineBreaks(h[i].0) && NoLineBreaks(h[i].1)
    ensures SplitLines(HeadersToText(h)) == HeaderLines(h)
  {
    var lines := HeaderLines(h);
    forall k | 0 <= k < |lines| ensures lines[k] != [] && NoLineBreaks(lines[k]) {
      HeaderLineIsOneLine(h[k].0, h[k].1);
    }
    SplitLinesJoin(lines);
  }

  lemma NoLineBreaksAppend(a: string, b: string)
    requires NoLineBreaks(a) && NoLineBreaks(b)
    ensures NoLineBreaks(a + b)
  {
    forall j | 0 <= j < |a + b| ensures !IsLineBreak((a + b)[j]) {
      if j >= |a| {
        assert (a + b)[j] == b[j - |a|];
      }
    }
  }

  lemma StrippedLineShape(h: Headers, i: nat)
    requires i < |h| && Printable(h[i].0, h[i].1)
    ensures StrippedLine(h, i) != [] && NoLineBreaks(StrippedLine(h, i))
  {
    StrippedLineParts(h, i);
    var gap := Gap(h, i);
    assert NoLineBreaks(":") && NoLineBreaks(" ");
    NoLineBreaksAppend(h[i].0, ":");
    if gap != [] {
      NoLineBreaksAppend(" ", h[i].1);
    }
    NoLineBreaksAppend(h[i].0 + ":", gap);
  }

  /** `rstrip` of the last printed line removes only the space of an empty value. */
  lemma LastLineStrip(h: Headers)
    requires h != [] && NoEdgeSpace(h[|h| - 1].1)
    ensures RStrip(HeaderLine(h[|h| - 1].0, h[|h| - 1].1)) == StrippedLine(h, |h| - 1)
  {
    var key := h[|h| - 1].0;
    var value := h[|h| - 1].1;
    var s := HeaderLine(key, value);
    if value == [] {
      assert s[..|s| - 1] == key + ":";
      assert s[|s| - 1] == ' ';
    } else {
      assert s[|s| - 1] == value[|value| - 1];
    }
  }

  /** The printed text starts with the first key, or with its colon. */
  lemma PrintedTextStart(h: Headers)
    requires h != [] && NoEdgeSpace(h[0].0)
    ensures LStrip(HeadersToText(h)) == HeadersToText(h)
  {
    var printed := HeaderLines(h);
    JoinHead("\n", printed);
    var text := HeadersToText(h);
    assert text[0] == printed[0][0];
    if h[0].0 != [] {
      assert printed[0][0] == h[0].0[0];
    } else {
      assert printed[0][0] == ':';
    }
  }

  /** Right-trimming joined lines trims the last line only, when that one does not trim to nothing. */
  lemma RStripJoinLast(init: seq<string>, last: string, stripped: string)
    requires init != [] && RStrip(last) == stripped && stripped != []
    ensures RStrip(Join("\n", init + [last])) == Join("\n", init + [stripped])
  {
    JoinSnoc("\n", init, last);
    JoinSnoc("\n", init, stripped);
    RStripAppend(Join("\n", init) + "\n", last);
  }

  lemma PrintedTextEnd(h: Headers)
    requires h != [] && NoEdgeSpace(h[|h| - 1].1)
    ensures RStrip(HeadersToText(h)) == Join("\n", StrippedLines(h))
  {
    var n := |h|;
    var printed := HeaderLines(h);
    var lines := StrippedLines(h);
    LastLineStrip(h);
    if n == 1 {
      assert printed == [printed[0]];
      assert lines == [lines[0]];
    } else {
      var init := printed[..n - 1];
      assert printed == init + [printed[n - 1]];
      assert lines == init + [lines[n - 1]];
      assert |lines[n - 1]| > 0;
      RStripJoinLast(init, printed[n - 1], lines[n - 1]);
    }
  }

  lemma {:induction false} RStripAppend(a: string, b: string)
    ensures RStrip(a + b) == if RStrip(b) == [] then RStrip(a) else a + RStrip(b)
    decreases |b|
  {
    if b == [] {
      assert a + b == a;
    } else if IsSpace(b[|b| - 1]) {
      var b' := b[..|b| - 1];
      assert (a + b)[..|a + b| - 1] == a + b';
      RStripAppend(a, b');
    }
  }

  /** The stripped printed text is the stripped lines joined with `\n`, and `splitlines` recovers them. */
  lemma StrippedText(h: Headers)
    requires h != []
    requires forall i :: 0 <= i < |h| ==> Printable(h[i].0, h[i].1)
    ensures Strip(HeadersToText(h)) == Join("\n", StrippedLines(h))
    ensures SplitLines(Strip(HeadersToText(h))) == StrippedLines(h)
    ensures !IsBlank(HeadersToText(h))
  {
    var lines := StrippedLines(h);
    PrintedTextStart(h);
    PrintedTextEnd(h);
    forall i | 0 <= i < |h| ensures lines[i] != [] && NoLineBreaks(lines[i]) {
      StrippedLineShape(h, i);
    }
    SplitLinesJoin(lines);
    JoinHead("\n", lines);
  }

  lemma StrippedLinesYield(h: Headers)
    requires forall i :: 0 <= i < |h| ==> Printable(h[i].0, h[i].1)
    ensures forall i :: 0 <= i < |h| ==> Yields(StrippedLines(h)[i], h[i])
  {
    forall i | 0 <= i < |h| ensures Yields(StrippedLines(h)[i], h[i]) {
      StrippedLineParts(h, i);
      PrintedLineYields(h[i].0, Gap(h, i));
    }
  }

  lemma ParseStrippedLines(h: Headers)
    requires DistinctKeys(h)
    requires forall i :: 0 <= i < |h| ==> Printable(h[i].0, h[i].1)
    ensures ParseLines(StrippedLines(h), []) == Ok(h)
  {
    StrippedLinesYield(h);
    assert [] + h == h;
    ParseYieldingLines(StrippedLines(h), h, []);
  }

  /**
   * Printing headers with `_headers_to_text` and reading the text back with
   * `_parse_headers` gives the same headers in the same order, provided each
   * header is `Printable` and the printed text is not itself a JSON object.
   */
  lemma HeadersTextRoundTrip(h: Headers, parse: string -> Option<Json>, renderOther: Json -> string)
    requires DistinctKeys(h)
    requires forall i :: 0 <= i < |h| ==> Printable(h[i].0, h[i].1)
    requires !IsObject(parse(Strip(HeadersToText(h))))
    ensures HeadersOf(HeadersToText(h), parse, renderOther) == Ok(h)
  {
    if h == [] {
      assert HeadersToText(h) == [];
    } else {
      StrippedText(h);
      ParseStrippedLines(h);
    }
  }
}
