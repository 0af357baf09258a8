/** What the two readers of the file see of what the writers wrote. */
module JsonlTheorems {
  import opened Prelude
  import opened Encoding
  import opened Records
  import opened Jsonl

  /** What `json.dumps` prints for an object: it opens with a brace and escapes control characters. */
  predicate JsonLine(line: string) {
    line != "" && line[0] == '{' && forall i :: 0 <= i < |line| ==> line[i] >= ' '
  }

  predicate JsonLines(lines: seq<string>) {
    forall i :: 0 <= i < |lines| ==> JsonLine(lines[i])
  }

  /** Free of U+0085, U+2028 and U+2029, which `json.dumps` leaves as they are. */
  predicate NoBreaks(line: string) {
    forall i :: 0 <= i < |line| ==> !IsBreak(line[i])
  }

  // -------------------------------------------- which characters break, or are blank

  /** In what `json.dumps` prints, the breaks are U+0085, U+2028 and U+2029. */
  lemma WideBreaks(line: string)
    requires JsonLine(line)
    ensures NoBreaks(line) <==> '\U{0085}' !in line && '\U{2028}' !in line && '\U{2029}' !in line
  {
    assert IsBreak('\U{0085}') && IsBreak('\U{2028}') && IsBreak('\U{2029}');
    if !NoBreaks(line) {
      var i :| 0 <= i < |line| && IsBreak(line[i]);
      assert line[i] in {'\U{0085}', '\U{2028}', '\U{2029}'};
    }
  }

  /** A line that holds none of the characters `str.splitlines` breaks at ends at the first that does;
      a carriage return and a newline are one end. */
  lemma {:induction false} LineEndsAtBreak(line: string, end: string, rest: string)
    requires forall i :: 0 <= i < |line| ==> line[i] as int !in {10, 11, 12, 13, 28, 29, 30, 0x85, 0x2028, 0x2029}
    requires end == "\r\n" || (|end| == 1 && end[0] as int in {10, 11, 12, 13, 28, 29, 30, 0x85, 0x2028, 0x2029})
    requires end == "\r" ==> rest == "" || rest[0] != '\n'
    ensures SplitLines(line + end + rest) == [line] + SplitLines(rest)
    ensures SplitLines(line) == if line == "" then [] else [line]
  {
    var s := line + end + rest;
    if line == "" {
      assert s == end + rest;
      assert s[|end|..] == rest;
    } else {
      LineEndsAtBreak(line[1..], end, rest);
      assert s[0] == line[0] && s[1..] == line[1..] + end + rest;
      assert line == [line[0]] + line[1..];
      assert |line| == 1 ==> line == [line[0]];
    }
  }

  lemma BlankFirst(b: byte, rest: Bytes)
    ensures BlankBytes([b] + rest) <==> (b == 32 || 9 <= b <= 13) && BlankBytes(rest)
  {
    var bs := [b] + rest;
    assert bs[0] == b && forall i :: 0 <= i < |rest| ==> bs[i + 1] == rest[i];
    assert forall i :: 0 < i < |bs| ==> bs[i] == rest[i - 1];
  }

  lemma BlankFirstText(line: string)
    requires line != ""
    ensures BlankText(line) <==> IsSpace(line[0]) && BlankText(line[1..])
  {
    assert forall i :: 0 < i < |line| ==> line[i] == line[1..][i - 1];
    assert forall i :: 0 <= i < |line[1..]| ==> line[1..][i] == line[i + 1];
  }

  /** The two readers call the same ASCII lines blank, but for the four separators 28 to 31, which
      only the text reader does. */
  lemma {:induction false} BlankAlike(line: string)
    requires IsAscii(line) && forall i :: 0 <= i < |line| ==> !(28 <= line[i] as int <= 31)
    ensures BlankText(line) <==> BlankBytes(Utf8(line))
  {
    if line != "" {
      BlankAlike(line[1..]);
      var rest := Utf8(line[1..]);
      var b: byte := line[0] as int;
      assert Utf8(line) == [b] + rest;
      BlankFirstText(line);
      BlankFirst(b, rest);
    }
  }

  /** White space, as `str.strip` has it. */
  const WHITE: set<int> := {
    9, 10, 11, 12, 13, 28, 29, 30, 31, 32, 0x85, 0xA0, 0x1680,
    0x2000, 0x2001, 0x2002, 0x2003, 0x2004, 0x2005, 0x2006, 0x2007, 0x2008, 0x2009, 0x200A,
    0x2028, 0x2029, 0x202F, 0x205F, 0x3000 }

  /** A blank line anywhere changes nothing of what is loaded. */
  lemma {:induction false} BlankLinesAreSkipped(codec: Codec, a: seq<string>, blank: string, b: seq<string>)
    requires forall i :: 0 <= i < |blank| ==> blank[i] as int in WHITE
    ensures ParseAll(codec, a + [blank] + b) == ParseAll(codec, a + b)
  {
    if a == [] {
      assert a + [blank] + b == [blank] + b && ([blank] + b)[1..] == b && a + b == b;
    } else {
      BlankLinesAreSkipped(codec, a[1..], blank, b);
      assert (a + [blank] + b)[0] == a[0] && (a + [blank] + b)[1..] == a[1..] + [blank] + b;
      assert (a + b)[0] == a[0] && (a + b)[1..] == a[1..] + b;
    }
  }

  /** A line that does not parse makes the whole load fail, whatever stands around it. */
  lemma {:induction false} CorruptLineFailsLoad(codec: Codec, a: seq<string>, line: string, b: seq<string>)
    requires (exists i :: 0 <= i < |line| && line[i] as int !in WHITE) && codec.parse(line).None?
    ensures ParseAll(codec, a + [line] + b) == Err(Corrupted)
  {
    if a == [] {
      assert a + [line] + b == [line] + b;
      assert !BlankText(line);
    } else {
      CorruptLineFailsLoad(codec, a[1..], line, b);
      assert (a + [line] + b)[0] == a[0] && (a + [line] + b)[1..] == a[1..] + [line] + b;
    }
  }

  /** What is not UTF-8 is an error of its own, for either reader; a last line that does not parse is
      corrupt, and only a file without one has no last record. */
  lemma ReadersReport(codec: Codec, content: Bytes)
    ensures LoadAll(codec, content) == Err(NotUtf8) <==> codec.decode(content).None?
    ensures ParseLast(codec, LastLine(content)) == Err(NotUtf8) <==>
            LastLine(content).Some? && codec.decode(LastLine(content).value).None?
    ensures ParseLast(codec, LastLine(content)) == Ok(None) <==> LastLine(content).None?
    ensures ParseLast(codec, LastLine(content)) == Err(Corrupted) <==>
            && LastLine(content).Some? && codec.decode(LastLine(content).value).Some?
            && codec.parse(codec.decode(LastLine(content).value).value).None?
  {
    if codec.decode(content).Some? {
      NeverNotUtf8(codec, SplitLines(codec.decode(content).value));
    }
  }

  lemma {:induction false} NeverNotUtf8(codec: Codec, lines: seq<string>)
    ensures ParseAll(codec, lines) != Err(NotUtf8)
  {
    if lines != [] {
      NeverNotUtf8(codec, lines[1..]);
    }
  }

  // ------------------------------------------------------ the full load

  function CountBreaks(line: string): nat {
    if line == "" then 0 else (if IsBreak(line[0]) then 1 else 0) + CountBreaks(line[1..])
  }

  lemma {:induction false} NoBreaksIffCount(line: string)
    ensures NoBreaks(line) <==> CountBreaks(line) == 0
  {
    if line != "" {
      NoBreaksIffCount(line[1..]);
      assert forall i :: 0 < i < |line| ==> line[i] == line[1..][i - 1];
      assert NoBreaks(line[1..]) <==> forall i :: 0 < i < |line| ==> !IsBreak(line[i]);
    }
  }

  /** A line comes back in one piece more than it has breaks; with none it comes back whole. */
  lemma {:induction false} SplitOneLine(line: string, rest: string)
    requires forall i :: 0 <= i < |line| ==> line[i] >= ' '
    ensures |SplitLines(line + "\n" + rest)| == 1 + CountBreaks(line) + |SplitLines(rest)|
    ensures CountBreaks(line) == 0 ==> SplitLines(line + "\n" + rest) == [line] + SplitLines(rest)
  {
    var s := line + "\n" + rest;
    if line == "" {
      assert s[0] == '\n' && s[1..] == rest;
    } else {
      SplitOneLine(line[1..], rest);
      assert s[0] == line[0] && s[1..] == line[1..] + "\n" + rest;
      assert line == [line[0]] + line[1..];
    }
  }

  function TotalBreaks(lines: seq<string>): nat {
    if lines == [] then 0 else CountBreaks(lines[0]) + TotalBreaks(lines[1..])
  }

  lemma {:induction false} SplitFile(lines: seq<string>)
    requires JsonLines(lines)
    ensures |SplitLines(FileOf(lines))| == |lines| + TotalBreaks(lines)
    ensures TotalBreaks(lines) == 0 ==> SplitLines(FileOf(lines)) == lines
  {
    if lines != [] {
      assert JsonLine(lines[0]);
      SplitOneLine(lines[0], FileOf(lines[1..]));
      SplitFile(lines[1..]);
    }
  }

  lemma {:induction false} NoBreaksAnywhereIff(lines: seq<string>)
    ensures TotalBreaks(lines) == 0 <==> forall i :: 0 <= i < |lines| ==> NoBreaks(lines[i])
  {
    if lines != [] {
      NoBreaksIffCount(lines[0]);
      NoBreaksAnywhereIff(lines[1..]);
      assert forall i :: 0 < i < |lines| ==> lines[i] == lines[1..][i - 1];
      assert (forall i :: 0 <= i < |lines[1..]| ==> NoBreaks(lines[1..][i])) <==>
             (forall i :: 0 < i < |lines| ==> NoBreaks(lines[i]));
    }
  }

  /** `load` sees the lines that were written exactly when none of them contains U+0085, U+2028
      or U+2029. */
  lemma {:induction false} LoadSeesWrittenLinesIff(lines: seq<string>)
    requires JsonLines(lines)
    ensures SplitLines(FileOf(lines)) == lines <==> forall i :: 0 <= i < |lines| ==> NoBreaks(lines[i])
  {
    SplitFile(lines);
    NoBreaksAnywhereIff(lines);
  }

  /** What U+2028 does: a line with one in it, in a subject say, is two to the full load. */
  lemma {:induction false} LineSeparatorSplitsALine(a: string, b: string)
    requires NoBreaks(a) && NoBreaks(b) && forall i :: 0 <= i < |b| ==> b[i] >= ' '
    ensures SplitLines(FileOf([a + "\U{2028}" + b])) == [a, b]
  {
    var s := a + "\U{2028}" + b + "\n" + "";
    assert FileOf([a + "\U{2028}" + b][1..]) == "" && FileOf([a + "\U{2028}" + b]) == s;
    if a == "" {
      assert s[0] == '\U{2028}' && s[1..] == b + "\n" + "";
      NoBreaksIffCount(b);
      SplitOneLine(b, "");
    } else {
      LineSeparatorSplitsALine(a[1..], b);
      assert FileOf([a[1..] + "\U{2028}" + b][1..]) == "";
      assert s[0] == a[0] && s[1..] == a[1..] + "\U{2028}" + b + "\n" + "";
      assert a == [a[0]] + a[1..];
    }
  }

  /** The first piece of a line that has breaks is what stands before the first of them. */
  lemma {:induction false} FirstPiece(line: string, rest: string) returns (k: nat)
    requires forall i :: 0 <= i < |line| ==> line[i] >= ' '
    requires !NoBreaks(line)
    ensures k < |line| && IsBreak(line[k]) && NoBreaks(line[..k])
    ensures var pieces := SplitLines(line + "\n" + rest);
            pieces != [] && pieces[0] == line[..k]
  {
    var s := line + "\n" + rest;
    assert s[0] == line[0] && s[1..] == line[1..] + "\n" + rest;
    if IsBreak(line[0]) {
      k := 0;
    } else {
      assert line == [line[0]] + line[1..];
      k := FirstPiece(line[1..], rest);
      assert line[..k + 1] == [line[0]] + line[1..][..k];
      k := k + 1;
    }
  }

  // -------------------------------------------------- the backward scan

  lemma {:induction false} SplitAtNewline(x: Bytes, y: Bytes)
    requires NEWLINE !in x
    ensures SplitBytes(x + [NEWLINE] + y) == [x] + SplitBytes(y)
  {
    var s := x + [NEWLINE] + y;
    if x == [] {
      assert s[0] == NEWLINE && s[1..] == y;
    } else {
      SplitAtNewline(x[1..], y);
      assert s[0] == x[0] && s[1..] == x[1..] + [NEWLINE] + y;
      assert x == [x[0]] + x[1..];
    }
  }

  lemma {:induction false} Utf8HasNoNewline(line: string)
    requires forall i :: 0 <= i < |line| ==> line[i] >= ' '
    ensures NEWLINE !in Utf8(line)
  {
    if line != "" {
      Utf8HasNoNewline(line[1..]);
    }
  }

  lemma Utf8OfLine(line: string, rest: string)
    ensures Utf8(line + "\n" + rest) == Utf8(line) + [NEWLINE] + Utf8(rest)
  {
    Utf8Concat(line + "\n", rest);
    Utf8Concat(line, "\n");
    assert Utf8("\n") == [NEWLINE];
  }

  lemma JsonLineIsNotBlank(line: string)
    requires JsonLine(line)
    ensures !BlankBytes(Utf8(line)) && !BlankText(line)
  {
    assert Utf8(line)[0] == 123;
    assert !IsSpace(line[0]);
  }

  /** Whatever its lines contain, the last line of a written file is what the scan finds. */
  lemma {:induction false} ScanFindsLastWrittenLine(lines: seq<string>)
    requires JsonLines(lines)
    ensures LastLine(Utf8(FileOf(lines))) == if lines == [] then None else Some(Utf8(lines[|lines| - 1]))
  {
    if lines != [] {
      var line, rest := lines[0], FileOf(lines[1..]);
      assert JsonLine(line);
      Utf8OfLine(line, rest);
      Utf8HasNoNewline(line);
      SplitAtNewline(Utf8(line), Utf8(rest));
      JsonLineIsNotBlank(line);
      ScanFindsLastWrittenLine(lines[1..]);
      assert ([Utf8(line)] + SplitBytes(Utf8(rest)))[1..] == SplitBytes(Utf8(rest));
    }
  }

  // -------------------------------------------------- files of records

  /** The codec prints a JSON line for the record and reads the record back from it. */
  predicate Prints(codec: Codec, r: Record) {
    JsonLine(codec.serialize(r)) && codec.parse(codec.serialize(r)) == Some(r)
  }

  ghost predicate DecodesUtf8(codec: Codec) {
    forall s :: codec.decode(Utf8(s)) == Some(s)
  }

  /** The file holds exactly these records. */
  predicate Stores(codec: Codec, content: Bytes, rs: seq<Record>) {
    && content == Utf8(FileOf(Printed(codec, rs)))
    && forall i :: 0 <= i < |rs| ==> Prints(codec, rs[i])
  }

  /** A JSON object ends with its last brace: nothing that stops short of it parses. */
  predicate EndsLate(codec: Codec, r: Record) {
    var line := codec.serialize(r);
    forall k :: 0 < k < |line| ==> codec.parse(line[..k]).None?
  }

  /** No printed line contains a wide line break. */
  predicate NoneBreaks(codec: Codec, rs: seq<Record>) {
    forall i :: 0 <= i < |rs| ==> NoBreaks(codec.serialize(rs[i]))
  }

  lemma {:induction false} ParseAllPrinted(codec: Codec, rs: seq<Record>)
    requires forall i :: 0 <= i < |rs| ==> Prints(codec, rs[i])
    ensures ParseAll(codec, Printed(codec, rs)) == Ok(rs)
  {
    if rs != [] {
      assert Prints(codec, rs[0]);
      JsonLineIsNotBlank(codec.serialize(rs[0]));
      assert Printed(codec, rs)[1..] == Printed(codec, rs[1..]);
      ParseAllPrinted(codec, rs[1..]);
      assert rs == [rs[0]] + rs[1..];
    }
  }

  lemma StoredLinesAreJson(codec: Codec, content: Bytes, rs: seq<Record>)
    requires Stores(codec, content, rs)
    ensures JsonLines(Printed(codec, rs))
  {
    forall i | 0 <= i < |rs|
      ensures JsonLine(Printed(codec, rs)[i])
    {
      assert Prints(codec, rs[i]);
    }
  }

  /** The scan returns the last stored record of every file the writers leave. */
  lemma ScanReturnsLastRecord(codec: Codec, content: Bytes, rs: seq<Record>)
    requires Stores(codec, content, rs) && DecodesUtf8(codec)
    ensures ParseLast(codec, LastLine(content)) == Ok(Last(rs))
  {
    StoredLinesAreJson(codec, content, rs);
    ScanFindsLastWrittenLine(Printed(codec, rs));
    if rs != [] {
      assert Prints(codec, rs[|rs| - 1]);
    }
  }

  /** When no printed line contains a wide line break, the full load returns the stored records,
      and the backward scan its last one. */
  lemma {:induction false} ScanAgreesWithLoad(codec: Codec, content: Bytes, rs: seq<Record>)
    requires Stores(codec, content, rs) && DecodesUtf8(codec) && NoneBreaks(codec, rs)
    ensures LoadAll(codec, content) == Ok(rs)
    ensures ParseLast(codec, LastLine(content)) == Ok(Last(rs))
  {
    StoredLinesAreJson(codec, content, rs);
    LoadSeesWrittenLinesIff(Printed(codec, rs));
    ParseAllPrinted(codec, rs);
    ScanReturnsLastRecord(codec, content, rs);
  }

  /** A line with a break in it is corrupt to the full load. */
  lemma BrokenLineIsCorrupt(codec: Codec, r: Record, rest: string)
    requires Prints(codec, r) && EndsLate(codec, r) && !NoBreaks(codec.serialize(r))
    ensures ParseAll(codec, SplitLines(codec.serialize(r) + "\n" + rest)) == Err(Corrupted)
  {
    var line := codec.serialize(r);
    var k := FirstPiece(line, rest);
    assert k > 0;
    assert line[..k][0] == '{' && !IsSpace('{');
    assert !BlankText(line[..k]);
  }

  lemma WholeLineIsParsed(codec: Codec, r: Record, rest: string)
    requires Prints(codec, r) && NoBreaks(codec.serialize(r))
    ensures ParseAll(codec, SplitLines(codec.serialize(r) + "\n" + rest))
            == Prepend([r], ParseAll(codec, SplitLines(rest)))
  {
    var line := codec.serialize(r);
    NoBreaksIffCount(line);
    SplitOneLine(line, rest);
    JsonLineIsNotBlank(line);
    assert ([line] + SplitLines(rest))[1..] == SplitLines(rest);
  }

  /** The full load of what was printed, record by record. */
  lemma {:induction false} LoadOfPrinted(codec: Codec, rs: seq<Record>)
    requires forall i :: 0 <= i < |rs| ==> Prints(codec, rs[i]) && EndsLate(codec, rs[i])
    ensures ParseAll(codec, SplitLines(FileOf(Printed(codec, rs))))
            == if NoneBreaks(codec, rs) then Ok(rs) else Err(Corrupted)
  {
    if rs != [] {
      var r, rest := rs[0], FileOf(Printed(codec, rs[1..]));
      assert Prints(codec, rs[0]) && EndsLate(codec, rs[0]);
      assert Printed(codec, rs)[1..] == Printed(codec, rs[1..]);
      assert FileOf(Printed(codec, rs)) == codec.serialize(r) + "\n" + rest;
      if NoBreaks(codec.serialize(r)) {
        WholeLineIsParsed(codec, r, rest);
        LoadOfPrinted(codec, rs[1..]);
        NoneBreaksFirst(codec, rs);
        assert rs == [r] + rs[1..];
      } else {
        BrokenLineIsCorrupt(codec, r, rest);
      }
    }
  }

  lemma NoneBreaksFirst(codec: Codec, rs: seq<Record>)
    requires rs != []
    ensures NoneBreaks(codec, rs) <==> NoBreaks(codec.serialize(rs[0])) && NoneBreaks(codec, rs[1..])
  {
    assert forall i :: 0 < i < |rs| ==> rs[i] == rs[1..][i - 1];
  }

  /**
   What `load` returns for every file the backend has written: all the records, or, exactly when
   some printed line contains U+0085, U+2028 or U+2029, nothing but an error. The scan finds the
   last record all the same, so that is exactly when the two readers agree.
   */
  lemma ScanAgreesWithLoadIff(codec: Codec, content: Bytes, rs: seq<Record>)
    requires Stores(codec, content, rs) && DecodesUtf8(codec)
    requires forall i :: 0 <= i < |rs| ==> EndsLate(codec, rs[i])
    ensures LoadAll(codec, content) == if NoneBreaks(codec, rs) then Ok(rs) else Err(Corrupted)
    ensures ParseLast(codec, LastLine(content)) == Ok(Last(rs))
    ensures NoneBreaks(codec, rs) <==>
            LoadAll(codec, content).Ok? && ParseLast(codec, LastLine(content)) == Ok(Last(LoadAll(codec, content).value))
  {
    LoadOfPrinted(codec, rs);
    ScanReturnsLastRecord(codec, content, rs);
  }

  /** The failing input: one record with U+2028 in its subject makes the whole file unreadable to
      `load`, while `load_last`, and with it the appends of an open shared log, goes on. */
  lemma LineSeparatorHidesTheLog(codec: Codec, content: Bytes, rs: seq<Record>, r: Record)
    requires Stores(codec, content, rs) && DecodesUtf8(codec) && Prints(codec, r)
    requires forall i :: 0 <= i < |rs| ==> EndsLate(codec, rs[i])
    requires EndsLate(codec, r) && '\U{2028}' in codec.serialize(r)
    ensures var content' := content + Utf8(codec.serialize(r) + "\n");
            && LoadAll(codec, content') == Err(Corrupted)
            && ParseLast(codec, LastLine(content')) == Ok(Some(r))
  {
    WritingExtendsStored(codec, content, rs, [r]);
    var rs' := rs + [r];
    assert Printed(codec, [r]) == [codec.serialize(r)];
    assert rs'[|rs|] == r;
    assert !NoBreaks(codec.serialize(rs'[|rs|]));
    ScanAgreesWithLoadIff(codec, content + Utf8(codec.serialize(r) + "\n"), rs');
  }

  lemma {:induction false} FileOfConcat(a: seq<string>, b: seq<string>)
    ensures FileOf(a + b) == FileOf(a) + FileOf(b)
  {
    if a == [] {
      assert a + b == b;
    } else {
      assert (a + b)[0] == a[0] && (a + b)[1..] == a[1..] + b;
      FileOfConcat(a[1..], b);
    }
  }

  /** A batch written to a file that stores `rs` stores the batch after them; so does the file
      after a single append, and the two writes are the same bytes for a batch of one. */
  lemma WritingExtendsStored(codec: Codec, content: Bytes, rs: seq<Record>, batch: seq<Record>)
    requires Stores(codec, content, rs)
    requires forall i :: 0 <= i < |batch| ==> Prints(codec, batch[i])
    ensures Stores(codec, content + Utf8(FileOf(Printed(codec, batch))), rs + batch)
    ensures |batch| == 1 ==> FileOf(Printed(codec, batch)) == codec.serialize(batch[0]) + "\n"
  {
    assert Printed(codec, rs + batch) == Printed(codec, rs) + Printed(codec, batch);
    FileOfConcat(Printed(codec, rs), Printed(codec, batch));
    Utf8Concat(FileOf(Printed(codec, rs)), FileOf(Printed(codec, batch)));
    if |batch| == 1 {
      assert FileOf(Printed(codec, batch)[1..]) == "";
    }
  }

  /** Appending one by one leaves the very bytes that one `AppendMany` leaves. */
  method AppendSingly(backend: JsonlBackend, rs: seq<Record>)
    modifies backend
    ensures backend.content == old(backend.content) + Utf8(FileOf(Printed(backend.codec, rs)))
  {
    var codec := backend.codec;
    for i := 0 to |rs|
      invariant backend.content == old(backend.content) + Utf8(FileOf(Printed(codec, rs[..i])))
    {
      OneMoreLine(codec, rs, i);
      backend.Append(rs[i]);
    }
    assert rs[..|rs|] == rs;
  }

  lemma OneMoreLine(codec: Codec, rs: seq<Record>, i: nat)
    requires i < |rs|
    ensures Utf8(FileOf(Printed(codec, rs[..i + 1])))
            == Utf8(FileOf(Printed(codec, rs[..i]))) + Utf8(codec.serialize(rs[i]) + "\n")
  {
    var line := codec.serialize(rs[i]);
    assert Printed(codec, rs[..i + 1]) == Printed(codec, rs[..i]) + [line];
    FileOfConcat(Printed(codec, rs[..i]), [line]);
    assert FileOf([line]) == line + "\n" + "" == line + "\n";
    Utf8Concat(FileOf(Printed(codec, rs[..i])), line + "\n");
  }
}
