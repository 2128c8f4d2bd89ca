/**
  * The snapshot file of the persistent versions: one JSON-encoded parameter per line, written in
  * queue order and read back line by line. A file is modelled by its text; reading it in text mode
  * first translates every `\r\n` and lone `\r` to `\n` (universal newlines), then yields lines that
  * keep their terminating `\n`.
  */
module Snapshot {
  import opened Wrappers
  import opened Config
  import opened JsonString

  /** The stock file as `load_stock` finds it. `Unreadable` covers every failure to open or decode it. */
  datatype FileState = Missing | Unreadable | Present(text: string)

  // ---------------------------------------------------------------- writing

  /** The line `save_stock` writes for one parameter: its JSON text and a line feed. */
  function Record(param: string): string {
    Encode(param) + "\n"
  }

  /** The records of the parameters, in order. */
  function Records(params: seq<string>): (lines: seq<string>)
    ensures |lines| == |params|
    ensures forall i :: 0 <= i < |params| ==> lines[i] == Record(params[i])
  {
    if params == [] then [] else [Record(params[0])] + Records(params[1..])
  }

  function Concat(lines: seq<string>): string {
    if lines == [] then "" else lines[0] + Concat(lines[1..])
  }

  /** The whole text `save_stock` writes for the given parameters. */
  function Serialize(params: seq<string>): (text: string)
    ensures text == [] <==> params == []
    ensures params != [] ==> Record(params[0]) <= text
  {
    Concat(Records(params))
  }

  lemma {:induction false} ConcatAppend(lines: seq<string>, line: string)
    ensures Concat(lines + [line]) == Concat(lines) + line
  {
    if lines == [] {
      assert [line][1..] == [];
    } else {
      assert (lines + [line])[1..] == lines[1..] + [line];
      ConcatAppend(lines[1..], line);
    }
  }

  lemma SerializeAppend(params: seq<string>, param: string)
    ensures Serialize(params + [param]) == Serialize(params) + Record(param)
  {
    assert Records(params + [param]) == Records(params) + [Record(param)];
    ConcatAppend(Records(params), Record(param));
  }

  /** The write loop of `save_stock`: `json.dump` of each parameter followed by a line feed. */
  method WriteRecords(params: seq<string>) returns (text: string)
    ensures text == Serialize(params)
  {
    text := "";
    for i := 0 to |params|
      invariant text == Serialize(params[..i])
    {
      var done, param := params[..i], params[i];
      assert params[..i + 1] == done + [param];
      SerializeAppend(done, param);
      text := text + Record(param);
    }
    assert params[..|params|] == params;
  }

  // ---------------------------------------------------------------- reading

  /** Universal-newline translation applied when a file is read in text mode. */
  function TranslateNewlines(text: string): (r: string)
    ensures |r| <= |text|
    ensures forall i :: 0 <= i < |r| ==> r[i] != '\r'
    decreases |text|
  {
    if text == [] then ""
    else if text[0] == '\r' then
      if |text| > 1 && text[1] == '\n' then "\n" + TranslateNewlines(text[2..])
      else "\n" + TranslateNewlines(text[1..])
    else [text[0]] + TranslateNewlines(text[1..])
  }

  /** Length of the first line of a non-empty text: up to and including its first line feed. */
  function LineLength(text: string): (n: nat)
    requires text != []
    ensures 0 < n <= |text|
    ensures forall i :: 0 <= i < n - 1 ==> text[i] != '\n'
    ensures n < |text| ==> text[n - 1] == '\n'
    decreases |text|
  {
    if text[0] == '\n' || |text| == 1 then 1 else 1 + LineLength(text[1..])
  }

  /** The lines of a text as iteration over a file yields them, each keeping its line feed. */
  function SplitLines(text: string): (lines: seq<string>)
    ensures |lines| <= |text|
    ensures forall i :: 0 <= i < |lines| ==> lines[i] != []
    ensures forall i :: 0 <= i < |lines| - 1 ==> IsLine(lines[i])
    decreases |text|
  {
    if text == [] then [] else
      var n := LineLength(text);
      [text[..n]] + SplitLines(text[n..])
  }

  /** Python's `str.isspace` for one character. */
  predicate IsSpace(c: char) {
    ('\t' <= c <= '\r') || ('\U{001C}' <= c <= ' ') || c == '\U{0085}' || c == '\U{00A0}'
    || c == '\U{1680}' || ('\U{2000}' <= c <= '\U{200A}') || c == '\U{2028}' || c == '\U{2029}'
    || c == '\U{202F}' || c == '\U{205F}' || c == '\U{3000}'
  }

  /** A line whose `strip()` is empty. */
  predicate IsBlank(line: string) {
    forall i :: 0 <= i < |line| ==> IsSpace(line[i])
  }

  /**
    * `json.loads` applied to every non-blank line, in order; `None` when some line is not the
    * JSON text of a string, which raises in the source.
    */
  function DecodeLines(lines: seq<string>): (r: Option<seq<string>>)
    ensures r.Some? ==> |r.value| <= |lines|
  {
    if lines == [] then Some([])
    else if IsBlank(lines[0]) then DecodeLines(lines[1..])
    else match (Decode(lines[0]), DecodeLines(lines[1..]))
      case (Some(p), Some(ps)) => Some([p] + ps)
      case _ => None
  }

  /** The parameters a snapshot text holds, or `None` when reading it raises. */
  function ReadRecords(text: string): (r: Option<seq<string>>)
    ensures r.Some? ==> |r.value| <= |text|
  {
    DecodeLines(SplitLines(TranslateNewlines(text)))
  }

  /** The slice `params[:STOCK_SIZE]`. */
  function Capped(params: seq<string>): (r: seq<string>)
    ensures |r| <= STOCK_SIZE && r <= params
    ensures |params| <= STOCK_SIZE ==> r == params
    ensures |params| > STOCK_SIZE ==> |r| == STOCK_SIZE
  {
    if |params| <= STOCK_SIZE then params else params[..STOCK_SIZE]
  }

  // ---------------------------------------------------------------- properties

  /** A line of a snapshot: it ends with a line feed and has none before that. */
  predicate IsLine(line: string) {
    |line| > 0 && line[|line| - 1] == '\n' && forall i :: 0 <= i < |line| - 1 ==> line[i] != '\n'
  }

  /** Every record is one line: the encoding never contains a raw line feed. */
  lemma RecordIsLine(param: string)
    ensures IsLine(Record(param))
    ensures forall i :: 0 <= i < |Record(param)| ==> Record(param)[i] != '\r'
  {
  }

  lemma LineLengthOfLine(line: string, rest: string)
    requires IsLine(line)
    ensures LineLength(line + rest) == |line|
  {
    var text := line + rest;
    assert text[|line| - 1] == '\n';
    assert forall i :: 0 <= i < |line| - 1 ==> text[i] != '\n';
  }

  /** Splitting a concatenation of lines gives back the lines. */
  lemma {:induction false} SplitConcat(lines: seq<string>)
    requires forall i :: 0 <= i < |lines| ==> IsLine(lines[i])
    ensures SplitLines(Concat(lines)) == lines
  {
    if lines != [] {
      var text := Concat(lines);
      LineLengthOfLine(lines[0], Concat(lines[1..]));
      assert text[..|lines[0]|] == lines[0];
      assert text[|lines[0]|..] == Concat(lines[1..]);
      SplitConcat(lines[1..]);
    }
  }

  /** The lines of any text concatenate back to that text: splitting loses nothing. */
  lemma {:induction false} ConcatSplit(text: string)
    ensures Concat(SplitLines(text)) == text
    decreases |text|
  {
    if text != [] {
      var n := LineLength(text);
      ConcatSplit(text[n..]);
      assert text[..n] + text[n..] == text;
    }
  }

  lemma {:induction false} TranslateWithoutCarriageReturn(text: string)
    requires forall i :: 0 <= i < |text| ==> text[i] != '\r'
    ensures TranslateNewlines(text) == text
    decreases |text|
  {
    if text != [] {
      TranslateWithoutCarriageReturn(text[1..]);
      assert [text[0]] + text[1..] == text;
    }
  }

  lemma {:induction false} SerializeHasNoCarriageReturn(params: seq<string>)
    ensures forall i :: 0 <= i < |Serialize(params)| ==> Serialize(params)[i] != '\r'
  {
    if params != [] {
      SerializeHasNoCarriageReturn(params[1..]);
      RecordIsLine(params[0]);
      assert Records(params)[1..] == Records(params[1..]);
      assert Serialize(params) == Record(params[0]) + Serialize(params[1..]);
    }
  }

  /** The snapshot of `params` has exactly one line per parameter, in order, each its record. */
  lemma SnapshotLines(params: seq<string>)
    ensures SplitLines(TranslateNewlines(Serialize(params))) == Records(params)
    ensures |SplitLines(TranslateNewlines(Serialize(params)))| == |params|
  {
    SerializeHasNoCarriageReturn(params);
    TranslateWithoutCarriageReturn(Serialize(params));
    forall i | 0 <= i < |Records(params)| ensures IsLine(Records(params)[i]) {
      RecordIsLine(params[i]);
    }
    SplitConcat(Records(params));
  }

  lemma {:induction false} DecodeRecords(params: seq<string>)
    ensures DecodeLines(Records(params)) == Some(params)
  {
    if params != [] {
      RecordIsNotBlank(params[0]);
      DecodeEncode(params[0], "\n");
      assert Records(params)[1..] == Records(params[1..]);
      DecodeRecords(params[1..]);
      assert [params[0]] + params[1..] == params;
    }
  }

  /** Reading a snapshot back yields exactly the parameters it was written from. */
  lemma ReadSerialized(params: seq<string>)
    ensures ReadRecords(Serialize(params)) == Some(params)
  {
    SnapshotLines(params);
    DecodeRecords(params);
  }

  // ---------------------------------------------------------------- decoding the lines

  /** Every JSON whitespace character is one `strip()` removes, so a line of it alone is blank. */
  lemma JsonWhitespaceIsSpace(c: char)
    ensures IsJsonWhitespace(c) ==> IsSpace(c)
    ensures c == '"' ==> !IsSpace(c)
  {
  }

  /** A record is never taken for a blank line: it starts with a quotation mark. */
  lemma RecordIsNotBlank(param: string)
    ensures !IsBlank(Record(param))
  {
    assert Record(param)[0] == '"';
    JsonWhitespaceIsSpace('"');
  }

  /** One line on its own: a blank line yields nothing, any other line its decoded value or a failure. */
  lemma DecodeOneLine(line: string)
    ensures IsBlank(line) ==> DecodeLines([line]) == Some([])
    ensures !IsBlank(line) && Decode(line).Some? ==> DecodeLines([line]) == Some([Decode(line).value])
    ensures !IsBlank(line) && Decode(line).None? ==> DecodeLines([line]).None?
  {
    assert [line][1..] == [];
    assert DecodeLines([line][1..]) == Some([]);
    if !IsBlank(line) && Decode(line).Some? {
      assert [Decode(line).value] + [] == [Decode(line).value];
    }
  }

  /**
    * Decoding two runs of lines one after the other: it fails exactly when one of them fails, and
    * otherwise yields the values of the first run, then those of the second, in line order.
    */
  lemma {:induction false} DecodeLinesAppend(a: seq<string>, b: seq<string>)
    ensures DecodeLines(a + b).Some? <==> DecodeLines(a).Some? && DecodeLines(b).Some?
    ensures DecodeLines(a + b).Some? ==> DecodeLines(a + b).value == DecodeLines(a).value + DecodeLines(b).value
  {
    if a == [] {
      assert a + b == b;
    } else {
      assert (a + b)[0] == a[0];
      assert (a + b)[1..] == a[1..] + b;
      DecodeLinesAppend(a[1..], b);
      if !IsBlank(a[0]) && Decode(a[0]).Some? && DecodeLines(a[1..] + b).Some? {
        var p := Decode(a[0]).value;
        assert [p] + (DecodeLines(a[1..]).value + DecodeLines(b).value)
            == ([p] + DecodeLines(a[1..]).value) + DecodeLines(b).value;
      }
    }
  }

  /** A blank line anywhere among the lines changes nothing. */
  lemma DecodeLinesSkipsBlank(a: seq<string>, blank: string, c: seq<string>)
    requires IsBlank(blank)
    ensures DecodeLines(a + [blank] + c) == DecodeLines(a + c)
  {
    DecodeOneLine(blank);
    DecodeLinesAppend(a, [blank]);
    if DecodeLines(a).Some? {
      assert DecodeLines(a).value + [] == DecodeLines(a).value;
    }
    assert DecodeLines(a + [blank]) == DecodeLines(a);
    DecodeLinesAppend(a + [blank], c);
    DecodeLinesAppend(a, c);
  }

  /** Reading fails exactly when some non-blank line is not the JSON text of a string. */
  lemma {:induction false} DecodeLinesFails(lines: seq<string>)
    ensures DecodeLines(lines).None?
        <==> exists i :: 0 <= i < |lines| && !IsBlank(lines[i]) && Decode(lines[i]).None?
  {
    if lines != [] {
      DecodeLinesFails(lines[1..]);
      if exists i :: 0 <= i < |lines[1..]| && !IsBlank(lines[1..][i]) && Decode(lines[1..][i]).None? {
        var i :| 0 <= i < |lines[1..]| && !IsBlank(lines[1..][i]) && Decode(lines[1..][i]).None?;
        assert lines[i + 1] == lines[1..][i];
      }
      if exists i :: 0 <= i < |lines| && !IsBlank(lines[i]) && Decode(lines[i]).None? {
        var i :| 0 <= i < |lines| && !IsBlank(lines[i]) && Decode(lines[i]).None?;
        if i > 0 {
          assert lines[1..][i - 1] == lines[i];
        }
      }
    }
  }
}
