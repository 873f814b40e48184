/**
 JSONL framing: the builder's body loop and the reader that splits it again. A record's
 JSON encoding is taken as given; all that is used of it is that it is not empty and, like
 every JSON text, holds no raw line feed and does not end in a carriage return.
 */
module Jsonl {
  import opened Text
  import opened ExportModel


  const LF: Byte := 10
  const CR: Byte := 13
  const MAX_EXPORT_BYTES := 256 * 1024 * 1024
  const MAX_JSONL_LINE_BYTES := 16 * 1024 * 1024

  // ------------------------------------------------------------ writing

  function Joined(lines: seq<Bytes>): Bytes {
    if lines == [] then [] else Joined(lines[..|lines| - 1]) + lines[|lines| - 1] + [LF]
  }

  ghost predicate WriterAllows(lines: seq<Bytes>) {
    && (forall i | 0 <= i < |lines| :: |lines[i]| <= MAX_JSONL_LINE_BYTES)
    && |Joined(lines)| <= MAX_EXPORT_BYTES
  }

  lemma {:induction false} JoinedGrows(lines: seq<Bytes>, i: nat)
    requires i <= |lines|
    ensures |Joined(lines[..i])| <= |Joined(lines)|
  {
    if i < |lines| {
      JoinedGrows(lines[..|lines| - 1], i);
      assert lines[..|lines| - 1][..i] == lines[..i];
    } else {
      assert lines[..i] == lines;
    }
  }

  method WriteBody(lines: seq<Bytes>) returns (body: Option<Bytes>)
    ensures body.Some? <==> WriterAllows(lines)
    ensures body.Some? ==> body.value == Joined(lines)
  {
    var written := [];
    for i := 0 to |lines|
      invariant written == Joined(lines[..i]) && |written| <= MAX_EXPORT_BYTES
      invariant forall k | 0 <= k < i :: |lines[k]| <= MAX_JSONL_LINE_BYTES
    {
      if |lines[i]| > MAX_JSONL_LINE_BYTES {
        return None;
      }
      assert lines[..i + 1][..i] == lines[..i];
      if |written| + |lines[i]| + 1 > MAX_EXPORT_BYTES {
        JoinedGrows(lines, i + 1);
        return None;
      }
      written := written + lines[i] + [LF];
    }
    assert lines[..|lines|] == lines;
    body := Some(written);
  }

  // ------------------------------------------------------------ reading

  /** The pieces between line feeds: one more than there are line feeds. */
  function Split(input: Bytes): (ps: seq<Bytes>)
    ensures |ps| >= 1
  {
    if input == [] then [[]] else
      var ps, b := Split(input[..|input| - 1]), input[|input| - 1];
      if b == LF then ps + [[]] else ps[|ps| - 1 := ps[|ps| - 1] + [b]]
  }

  /** The lines of a file; the empty piece after a final line feed is not one. */
  function Lines(input: Bytes): seq<Bytes> {
    var ps := Split(input);
    if |ps| > 1 && ps[|ps| - 1] == [] then ps[..|ps| - 1] else ps
  }

  function StripCr(line: Bytes): Bytes {
    if line != [] && line[|line| - 1] == CR then line[..|line| - 1] else line
  }

  datatype ReadResult<R> =
    | Records(records: seq<R>)
    | FileTooLarge
    | EmptyLine(line: nat)
    | LineTooLarge(line: nat)
    | JsonError(line: nat)

  /** What one stripped line reads as, by itself. */
  function ReadLine<R>(line: Bytes, number: nat, parse: Bytes -> Option<R>): ReadResult<R> {
    if line == [] then EmptyLine(number)
    else if |line| > MAX_JSONL_LINE_BYTES then LineTooLarge(number)
    else match parse(line) case None => JsonError(number) case Some(r) => Records([r])
  }

  function LineResult<R>(input: Bytes, k: nat, parse: Bytes -> Option<R>): ReadResult<R>
    requires k < |Lines(input)|
  {
    ReadLine(StripCr(Lines(input)[k]), k + 1, parse)
  }

  /** The whole file reads as one record per line, or as the error of the first bad line. */
  method DecodeExportJsonl<R>(input: Bytes, parse: Bytes -> Option<R>) returns (result: ReadResult<R>)
    ensures result.FileTooLarge? <==> |input| > MAX_EXPORT_BYTES
    ensures result.Records? <==>
      |input| <= MAX_EXPORT_BYTES && forall k | 0 <= k < |Lines(input)| :: LineResult(input, k, parse).Records?
    ensures result.Records? ==>
      |result.records| == |Lines(input)|
      && forall k | 0 <= k < |Lines(input)| :: LineResult(input, k, parse) == Records([result.records[k]])
    ensures !result.Records? && !result.FileTooLarge? ==>
      exists k :: 0 <= k < |Lines(input)| && result == LineResult(input, k, parse)
                  && forall j | 0 <= j < k :: LineResult(input, j, parse).Records?
  {
    if |input| > MAX_EXPORT_BYTES {
      return FileTooLarge;
    }
    var pieces, records := Split(input), [];
    var index := 0;
    var at := 0;
    hide ReadLine, StripCr, Split;
    while at < |pieces|
      invariant 0 <= at <= |pieces| && |Lines(input)| <= |pieces|
      invariant index == if at <= |Lines(input)| then at else |Lines(input)|
      invariant |records| == index
      invariant forall k | 0 <= k < index :: LineResult(input, k, parse) == Records([records[k]])
    {
      var line := pieces[at];
      at := at + 1;
      if line == [] && index > 0 && at == |pieces| {
        continue;
      }
      var decoded := ReadLine(StripCr(line), index + 1, parse);
      assert decoded == LineResult(input, index, parse);
      OneOrError(StripCr(line), index + 1, parse);
      if !decoded.Records? {
        return decoded;
      }
      assert decoded == Records([decoded.records[0]]);
      records := records + [decoded.records[0]];
      index := index + 1;
    }
    result := Records(records);
  }

  lemma OneOrError<R>(line: Bytes, number: nat, parse: Bytes -> Option<R>)
    ensures !ReadLine(line, number, parse).FileTooLarge?
    ensures ReadLine(line, number, parse).Records? ==> |ReadLine(line, number, parse).records| == 1
  {
  }

  // ------------------------------------------------------------ the round trip

  /** What is used of a JSON encoding. */
  predicate Encoded(line: Bytes) {
    line != [] && LF !in line && line[|line| - 1] != CR
  }

  /** What one more byte other than a line feed does to the pieces. */
  lemma SplitPush(input: Bytes, b: Byte)
    requires b != LF
    ensures var ps := Split(input); Split(input + [b]) == ps[..|ps| - 1] + [ps[|ps| - 1] + [b]]
  {
    assert (input + [b])[..|input|] == input;
  }

  lemma {:induction false} SplitAppends(input: Bytes, line: Bytes)
    requires LF !in line
    ensures var ps := Split(input); Split(input + line) == ps[..|ps| - 1] + [ps[|ps| - 1] + line]
  {
    hide Split;
    var ps := Split(input);
    if line == [] {
      assert input + line == input;
      assert ps[|ps| - 1] + line == ps[|ps| - 1];
    } else {
      var n := |line| - 1;
      var front, b := line[..n], line[n];
      assert line == front + [b] && b in line;
      SplitAppends(input, front);
      SplitPush(input + front, b);
      assert input + front + [b] == input + line;
      assert ps[|ps| - 1] + front + [b] == ps[|ps| - 1] + line;
    }
  }

  /** Splitting what was joined gives back the lines, and then one empty piece. */
  lemma {:induction false} SplitOfJoined(lines: seq<Bytes>)
    requires forall i | 0 <= i < |lines| :: LF !in lines[i]
    ensures Split(Joined(lines)) == lines + [[]]
  {
    if lines != [] {
      var n := |lines| - 1;
      var front, last := Joined(lines[..n]), lines[n];
      SplitOfJoined(lines[..n]);
      SplitAppends(front, last);
      assert Joined(lines) == front + last + [LF];
      assert (front + last + [LF])[..|front + last|] == front + last;
      assert [] + last == last;
      assert lines[..n] + [last] == lines;
    }
  }

  lemma LinesOfJoined(lines: seq<Bytes>)
    requires lines != [] && forall i | 0 <= i < |lines| :: LF !in lines[i]
    ensures Lines(Joined(lines)) == lines
  {
    SplitOfJoined(lines);
    assert (lines + [[]])[..|lines|] == lines;
  }

  /**
   Whatever the builder writes, the reader reads back: the same lines, in order, under
   their own line numbers, and its size checks refuse nothing the writer's allowed.
   */
  lemma ReaderAcceptsWriter<R>(lines: seq<Bytes>, records: seq<R>, parse: Bytes -> Option<R>)
    requires lines != [] && |records| == |lines| && WriterAllows(lines)
    requires forall i | 0 <= i < |lines| :: Encoded(lines[i]) && parse(lines[i]) == Some(records[i])
    ensures |Joined(lines)| <= MAX_EXPORT_BYTES
    ensures Lines(Joined(lines)) == lines
    ensures forall k | 0 <= k < |lines| :: LineResult(Joined(lines), k, parse) == Records([records[k]])
  {
    LinesOfJoined(lines);
  }

  /** Reading loses nothing: the lines of any nonempty input, joined, are that input up to a final line feed. */
  lemma JoinedOfLines(input: Bytes)
    requires input != []
    ensures Joined(Lines(input)) == input || Joined(Lines(input)) == input + [LF]
  {
    var ps := Split(input);
    JoinedOfSplit(input);
    var n := |ps| - 1;
    assert ps == ps[..n] + [ps[n]];
  }

  lemma {:induction false} JoinedOfSplit(input: Bytes)
    ensures var ps := Split(input); Joined(ps[..|ps| - 1]) + ps[|ps| - 1] == input
  {
    if input != [] {
      var front := input[..|input| - 1];
      var ps, b := Split(front), input[|input| - 1];
      JoinedOfSplit(front);
      assert input == front + [b];
      var after := Split(input);
      if b == LF {
        assert after[..|after| - 1] == ps;
        assert ps[..|ps| - 1] + [ps[|ps| - 1]] == ps;
      } else {
        assert after[..|after| - 1] == ps[..|ps| - 1];
      }
    }
  }

  /** What one line may be, and which fault it has if not. */
  lemma LineIs<R>(line: Bytes, number: nat, parse: Bytes -> Option<R>)
    ensures ReadLine(line, number, parse) == EmptyLine(number) <==> line == []
    ensures ReadLine(line, number, parse) == LineTooLarge(number) <==> |line| > MAX_JSONL_LINE_BYTES
    ensures ReadLine(line, number, parse) == JsonError(number) <==> 0 < |line| <= MAX_JSONL_LINE_BYTES && parse(line).None?
    ensures forall r :: ReadLine(line, number, parse) == Records([r]) <==> 0 < |line| <= MAX_JSONL_LINE_BYTES && parse(line) == Some(r)
  {
  }

  function WithCr(lines: seq<Bytes>): (r: seq<Bytes>)
    ensures |r| == |lines| && forall i | 0 <= i < |lines| :: r[i] == lines[i] + [CR]
  {
    seq(|lines|, i requires 0 <= i < |lines| => lines[i] + [CR])
  }

  /** A file whose lines end in CR LF reads as the same file with bare line feeds. */
  lemma CrLfReadsAlike<R>(lines: seq<Bytes>, k: nat, parse: Bytes -> Option<R>)
    requires k < |lines| && forall i | 0 <= i < |lines| :: Encoded(lines[i])
    ensures Lines(Joined(WithCr(lines))) == WithCr(lines) && Lines(Joined(lines)) == lines
    ensures LineResult(Joined(WithCr(lines)), k, parse) == LineResult(Joined(lines), k, parse) == ReadLine(lines[k], k + 1, parse)
  {
    hide Joined, Lines, ReadLine;
    LinesOfJoined(lines);
    LinesOfJoined(WithCr(lines));
    assert (lines[k] + [CR])[..|lines[k]|] == lines[k];
  }
}
