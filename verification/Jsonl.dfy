/** The newline-delimited file: appending lines, loading them all, and scanning for the last. */
module Jsonl {
  import opened Prelude
  import opened Encoding
  import opened Records

  const CHUNK := 65536

  /** `json` and `decode("utf-8")` as parameters; None when they raise. */
  datatype Codec = Codec(
    serialize: Record -> string,
    parse: string -> Option<Record>,
    decode: Bytes -> Option<string>)

  datatype LoadError = Corrupted | NotUtf8

  // ------------------------------------------------------- lines of bytes

  const NEWLINE: byte := 10

  /** `bytes.split(b"\n")`. */
  function SplitBytes(bs: Bytes): (lines: seq<Bytes>)
    ensures lines != []
  {
    if bs == [] then [[]]
    else
      var rest := SplitBytes(bs[1..]);
      if bs[0] == NEWLINE then [[]] + rest else [[bs[0]] + rest[0]] + rest[1..]
  }

  /** `not line.strip()`, for bytes. */
  predicate BlankBytes(line: Bytes) {
    forall i :: 0 <= i < |line| ==> line[i] == 32 || 9 <= line[i] <= 13
  }

  function NonBlank(lines: seq<Bytes>): seq<Bytes> {
    if lines == [] then []
    else if BlankBytes(lines[0]) then NonBlank(lines[1..])
    else [lines[0]] + NonBlank(lines[1..])
  }

  /** The last line with something on it, wherever it starts. */
  function LastLine(content: Bytes): Option<Bytes> {
    Last(NonBlank(SplitBytes(content)))
  }

  lemma MoreThanOneLineIsStable(b: byte, suffix: Bytes)
    requires |NonBlank(SplitBytes(suffix))| > 1
    ensures |NonBlank(SplitBytes([b] + suffix))| > 1
    ensures LastLine([b] + suffix) == LastLine(suffix)
  {
    var lines := SplitBytes(suffix);
    assert ([b] + suffix)[1..] == suffix;
    if b == NEWLINE {
      assert SplitBytes([b] + suffix)[1..] == lines;
    } else {
      var longer := [[b] + lines[0]] + lines[1..];
      assert longer[1..] == lines[1..];
      if !BlankBytes(lines[0]) {
        var i :| 0 <= i < |lines[0]| && !(lines[0][i] == 32 || 9 <= lines[0][i] <= 13);
        assert longer[0][i + 1] == lines[0][i];
      }
    }
  }

  /** With two non-blank pieces in a suffix, the last of them is a whole line of the file. */
  lemma {:induction false} SuffixDecides(prefix: Bytes, suffix: Bytes)
    requires |NonBlank(SplitBytes(suffix))| > 1
    ensures |NonBlank(SplitBytes(prefix + suffix))| > 1
    ensures LastLine(prefix + suffix) == LastLine(suffix)
  {
    if prefix == [] {
      assert prefix + suffix == suffix;
    } else {
      SuffixDecides(prefix[1..], suffix);
      MoreThanOneLineIsStable(prefix[0], prefix[1..] + suffix);
      assert prefix + suffix == [prefix[0]] + (prefix[1..] + suffix);
    }
  }

  /** The scan of `load_last`: chunks are read from the end until a whole line is in sight. */
  method ScanForLastLine(content: Bytes, chunk: nat) returns (line: Option<Bytes>)
    requires chunk > 0
    ensures line == LastLine(content)
  {
    var position, buffer := |content|, [];
    while position > 0
      invariant 0 <= position <= |content| && buffer == content[position..]
      invariant position == 0 && content != [] ==> NonBlank(SplitBytes(buffer)) == []
    {
      var step := if chunk < position then chunk else position;
      position := position - step;
      buffer := content[position..position + step] + buffer;
      var lines := NonBlank(SplitBytes(buffer));
      if |lines| > 1 || (position == 0 && lines != []) {
        if |lines| > 1 {
          SuffixDecides(content[..position], buffer);
        }
        assert content[..position] + buffer == content;
        return Some(lines[|lines| - 1]);
      }
    }
    assert content[0..] == content;
    return None;
  }

  // -------------------------------------------------------- lines of text

  /** Where `str.splitlines` breaks. */
  predicate IsBreak(ch: char) {
    var n := ch as int;
    10 <= n <= 13 || 28 <= n <= 30 || n == 0x85 || n == 0x2028 || n == 0x2029
  }

  /** `str.isspace`, which `str.strip` removes. */
  predicate IsSpace(ch: char) {
    var n := ch as int;
    9 <= n <= 13 || 28 <= n <= 32 || n == 0x85 || n == 0xA0 || n == 0x1680 || 0x2000 <= n <= 0x200A
    || n == 0x2028 || n == 0x2029 || n == 0x202F || n == 0x205F || n == 0x3000
  }

  predicate BlankText(line: string) {
    forall i :: 0 <= i < |line| ==> IsSpace(line[i])
  }

  /** `str.splitlines`: "\r\n" is one break, and a final break starts no line. */
  function SplitLines(s: string): seq<string> {
    if s == "" then []
    else if |s| > 1 && s[0] == '\r' && s[1] == '\n' then [""] + SplitLines(s[2..])
    else if IsBreak(s[0]) then [""] + SplitLines(s[1..])
    else
      var rest := SplitLines(s[1..]);
      if rest == [] then [[s[0]]] else [[s[0]] + rest[0]] + rest[1..]
  }

  /** What `load` makes of the file's lines. */
  function ParseAll(codec: Codec, lines: seq<string>): Result<seq<Record>, LoadError> {
    if lines == [] then Ok([])
    else if BlankText(lines[0]) then ParseAll(codec, lines[1..])
    else match codec.parse(lines[0])
      case None => Err(Corrupted)
      case Some(r) =>
        match ParseAll(codec, lines[1..])
        case Err(e) => Err(e)
        case Ok(rs) => Ok([r] + rs)
  }

  /** What `load` makes of the file's bytes; the decoding error leaves it as it is. */
  function LoadAll(codec: Codec, content: Bytes): Result<seq<Record>, LoadError> {
    match codec.decode(content)
    case None => Err(NotUtf8)
    case Some(text) => ParseAll(codec, SplitLines(text))
  }

  /** What `load_last` makes of the last line's bytes. */
  function ParseLast(codec: Codec, line: Option<Bytes>): Result<Option<Record>, LoadError> {
    if line.None? then Ok(None)
    else match codec.decode(line.value)
      case None => Err(NotUtf8)
      case Some(text) =>
        match codec.parse(text)
        case None => Err(Corrupted)
        case Some(r) => Ok(Some(r))
  }

  // ----------------------------------------------------------- the backend

  /** Every line with its newline, as single appends write them. */
  function FileOf(lines: seq<string>): string {
    if lines == [] then "" else lines[0] + "\n" + FileOf(lines[1..])
  }

  /** `"\n".join(lines)`. */
  function Join(lines: seq<string>): string {
    if lines == [] then ""
    else if |lines| == 1 then lines[0]
    else lines[0] + "\n" + Join(lines[1..])
  }

  function Printed(codec: Codec, rs: seq<Record>): (lines: seq<string>)
    ensures |lines| == |rs|
    ensures forall i :: 0 <= i < |rs| ==> lines[i] == codec.serialize(rs[i])
  {
    seq(|rs|, i requires 0 <= i < |rs| => codec.serialize(rs[i]))
  }

  /** A joined batch with its final newline is the very text of its lines appended one by one. */
  lemma {:induction false} JoinedIsOneByOne(lines: seq<string>)
    ensures Join(lines) + (if lines == [] then "" else "\n") == FileOf(lines)
  {
    if |lines| == 1 {
      assert FileOf(lines[1..]) == "";
      assert lines[0] + "\n" + "" == lines[0] + "\n";
    } else if |lines| > 1 {
      JoinedIsOneByOne(lines[1..]);
      assert lines[0] + "\n" + Join(lines[1..]) + "\n" == lines[0] + "\n" + (Join(lines[1..]) + "\n");
    }
  }

  class JsonlBackend {
    const codec: Codec
    var content: Bytes    // of the file, [] when it does not exist

    constructor (codec: Codec, content: Bytes)
      ensures this.codec == codec && this.content == content
    {
      this.codec, this.content := codec, content;
    }

    method Append(r: Record)
      modifies this
      ensures content == old(content) + Utf8(codec.serialize(r) + "\n")
    {
      content := content + Utf8(codec.serialize(r) + "\n");
    }

    /** One write of the joined batch: byte for byte what appending one by one writes. */
    method AppendMany(rs: seq<Record>)
      modifies this
      ensures content == old(content) + Utf8(FileOf(Printed(codec, rs)))
    {
      var lines := Printed(codec, rs);
      content := content + Utf8(Join(lines) + (if lines == [] then "" else "\n"));
      JoinedIsOneByOne(lines);
    }

    method Load() returns (r: Result<seq<Record>, LoadError>)
      ensures r == LoadAll(codec, content)
    {
      var text := codec.decode(content);
      if text.None? {
        return Err(NotUtf8);
      }
      var lines := SplitLines(text.value);
      var records: seq<Record> := [];
      assert lines[0..] == lines;
      PrependNothing(ParseAll(codec, lines));
      for i := 0 to |lines|
        invariant ParseAll(codec, lines) == Prepend(records, ParseAll(codec, lines[i..]))
      {
        assert lines[i..][0] == lines[i] && lines[i..][1..] == lines[i + 1..];
        if BlankText(lines[i]) {
          continue;
        }
        var parsed := codec.parse(lines[i]);
        if parsed.None? {
          return Err(Corrupted);
        }
        PrependOneMore(records, parsed.value, ParseAll(codec, lines[i + 1..]));
        records := records + [parsed.value];
      }
      assert records + [] == records;
      return Ok(records);
    }

    method LoadLast() returns (r: Result<Option<Record>, LoadError>)
      ensures r == ParseLast(codec, LastLine(content))
    {
      var line := ScanForLastLine(content, CHUNK);
      if line.None? {
        return Ok(None);
      }
      var decoded := codec.decode(line.value);
      if decoded.None? {
        return Err(NotUtf8);
      }
      var parsed := codec.parse(decoded.value);
      if parsed.None? {
        return Err(Corrupted);
      }
      return Ok(Some(parsed.value));
    }
  }

  function Prepend(xs: seq<Record>, ys: Result<seq<Record>, LoadError>): Result<seq<Record>, LoadError> {
    match ys
    case Err(e) => Err(e)
    case Ok(rs) => Ok(xs + rs)
  }

  lemma PrependNothing(ys: Result<seq<Record>, LoadError>)
    ensures Prepend([], ys) == ys
  {
    if ys.Ok? {
      assert [] + ys.value == ys.value;
    }
  }

  lemma PrependOneMore(xs: seq<Record>, x: Record, ys: Result<seq<Record>, LoadError>)
    ensures Prepend(xs + [x], ys) == Prepend(xs, Prepend([x], ys))
  {
    if ys.Ok? {
      assert xs + [x] + ys.value == xs + ([x] + ys.value);
    }
  }
}
