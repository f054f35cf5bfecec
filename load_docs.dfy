/**
 * The deterministic half of Load_docs.py: how `search_notes` formats the
 * chunks a similarity search returned, and the progress-report file that
 * `read_file` and `write_file` read and overwrite.
 *
 * The vector index itself (embedding, `similarity_search`) is an input: the
 * stored chunks ranked nearest-first for the query.
 */
module LoadDocs {
  import opened Wrappers
  import opened Decimal
  import opened Text

  /** A stored chunk: its page content and its metadata dictionary. */
  datatype Document = Document(pageContent: string, metadata: map<string, string>)

  /** `similarity_search(query, k=4)`. */
  const SearchK: nat := 4

  const NoResultsText := "No relevant information found in the notes."
  const UnknownSource := "Unknown source"
  const HeaderOpen := "--- Result "
  const HeaderFrom := " from "
  const HeaderClose := " ---"

  /** The k nearest chunks, in the ranked order of the index. */
  function TopK(ranked: seq<Document>, k: nat): (docs: seq<Document>)
    ensures |docs| <= k && docs <= ranked
    ensures |docs| < k ==> docs == ranked
  {
    if |ranked| <= k then ranked else ranked[..k]
  }

  /** `doc.metadata.get('source', 'Unknown source')`. */
  function SourceLabel(d: Document): string {
    if "source" in d.metadata then d.metadata["source"] else UnknownSource
  }

  /** The first line of result block i (0-based): "--- Result {i+1} from {source} ---". */
  function Header(i: nat, d: Document): string {
    HeaderOpen + NatToString(i + 1) + HeaderFrom + SourceLabel(d) + HeaderClose
  }

  /** `f"--- Result {i+1} from {source} ---\n{content}\n"`. */
  function Block(i: nat, d: Document): string {
    Header(i, d) + "\n" + d.pageContent + "\n"
  }

  function Blocks(docs: seq<Document>): (blocks: seq<string>)
    ensures |blocks| == |docs|
  {
    seq(|docs|, i requires 0 <= i < |docs| => Block(i, docs[i]))
  }

  /** What `search_notes` returns for the chunks the search found. */
  function FormatResults(docs: seq<Document>): string {
    if docs == [] then NoResultsText else Join(Blocks(docs), "\n")
  }

  /** search_notes, from the moment the index has answered: the append loop over `enumerate(docs)`. */
  method SearchNotes(ranked: seq<Document>) returns (r: string)
    ensures r == FormatResults(TopK(ranked, SearchK))
    ensures r == NoResultsText <==> ranked == []
  {
    var docs := TopK(ranked, SearchK);
    if docs == [] {
      return NoResultsText;
    }
    var results: seq<string> := [];
    for i := 0 to |docs|
      invariant results == Blocks(docs)[..i]
    {
      results := results + [Block(i, docs[i])];
    }
    assert results == Blocks(docs);
    r := Join(results, "\n");
    ResultsOpenWithFirstHeader(docs);
  }

  /** A non-empty result opens with "--- Result 1 from ", so it is never the sentinel. */
  lemma ResultsOpenWithFirstHeader(docs: seq<Document>)
    requires docs != []
    ensures "--- Result 1 from " <= FormatResults(docs)
    ensures FormatResults(docs) != NoResultsText
  {
    var r, d := FormatResults(docs), docs[0];
    var opening := HeaderOpen + NatToString(1) + HeaderFrom;
    var b := Block(0, d);
    JoinStartsWithFirst(Blocks(docs), "\n");
    assert b <= r;
    PrefixOfAppends(opening, SourceLabel(d), HeaderClose, "\n", d.pageContent, "\n");
    assert opening <= b;
    FirstOpening();
    assert r[0] == '-' && NoResultsText[0] == 'N';
  }

  lemma PrefixOfAppends(p: string, a: string, b: string, c: string, d: string, e: string)
    ensures p <= p + a + b + c + d + e
  {
    assert p + a + b + c + d + e == p + (a + b + c + d + e);
  }

  /** The first header opens with "--- Result 1 from ". */
  lemma FirstOpening()
    ensures HeaderOpen + NatToString(1) + HeaderFrom == "--- Result 1 from "
  {
    assert NatToString(1) == "1";
  }

  /** The sentinel is returned exactly when the search found nothing. */
  lemma SentinelIffEmpty(docs: seq<Document>)
    ensures FormatResults(docs) == NoResultsText <==> docs == []
  {
    if docs != [] {
      ResultsOpenWithFirstHeader(docs);
    }
  }

  /** n blocks are joined with n - 1 single-character separators. */
  lemma ResultsLength(docs: seq<Document>)
    requires docs != []
    ensures |FormatResults(docs)| == TotalLength(Blocks(docs)) + |docs| - 1
  {
    JoinLength(Blocks(docs), "\n");
  }

  /** Reads a header line back as (result number, source label). */
  function ParseHeader(line: string): Option<(nat, string)> {
    if HeaderOpen <= line then ParseNumbered(line[|HeaderOpen|..]) else None
  }

  /** The part after "--- Result ": a number, then " from {source} ---". */
  function ParseNumbered(rest: string): Option<(nat, string)> {
    var n := DigitRun(rest);
    if n > 0 && HeaderFrom <= rest[n..] then
      var source := ParseSource(rest[n..][|HeaderFrom|..]);
      if source.Some? then Some((ParseNat(rest[..n]), source.value)) else None
    else None
  }

  /** The part after " from ": the source label, closed by " ---". */
  function ParseSource(tail: string): Option<string> {
    if |tail| >= |HeaderClose| && tail[|tail| - |HeaderClose|..] == HeaderClose
    then Some(tail[..|tail| - |HeaderClose|])
    else None
  }

  lemma ParseSourceOf(source: string)
    ensures ParseSource(source + HeaderClose) == Some(source)
  {
    var tail := source + HeaderClose;
    assert tail[|tail| - |HeaderClose|..] == HeaderClose;
    assert tail[..|tail| - |HeaderClose|] == source;
  }

  lemma ParseNumberedOf(digits: string, source: string)
    requires |digits| >= 1 && AllDigits(digits)
    ensures ParseNumbered(digits + (HeaderFrom + (source + HeaderClose))) == Some((ParseNat(digits), source))
  {
    var rest := digits + (HeaderFrom + (source + HeaderClose));
    DigitRunStops(digits, HeaderFrom + (source + HeaderClose));
    assert rest[..|digits|] == digits;
    assert rest[|digits|..] == HeaderFrom + (source + HeaderClose);
    assert rest[|digits|..][|HeaderFrom|..] == source + HeaderClose;
    ParseSourceOf(source);
  }

  /** Regrouping a five-part concatenation to the right, and dropping its first part. */
  lemma Regroup(a: string, b: string, c: string, d: string, e: string)
    ensures a + b + c + d + e == a + (b + (c + (d + e)))
    ensures (a + (b + (c + (d + e))))[|a|..] == b + (c + (d + e))
  {
  }

  lemma ParseHeaderOf(digits: string, source: string)
    requires |digits| >= 1 && AllDigits(digits)
    ensures ParseHeader(HeaderOpen + digits + HeaderFrom + source + HeaderClose) == Some((ParseNat(digits), source))
  {
    Regroup(HeaderOpen, digits, HeaderFrom, source, HeaderClose);
    ParseNumberedOf(digits, source);
  }

  /** Every header reads back as its 1-based number and its source. */
  lemma ParseHeaderOfHeader(i: nat, d: Document)
    ensures ParseHeader(Header(i, d)) == Some((i + 1, SourceLabel(d)))
  {
    ParseHeaderOf(NatToString(i + 1), SourceLabel(d));
    ParseNatToString(i + 1);
  }

  /** No chunk content and no source contains a line break. */
  predicate SingleLine(docs: seq<Document>) {
    forall i :: 0 <= i < |docs| ==> '\n' !in docs[i].pageContent && '\n' !in SourceLabel(docs[i])
  }

  lemma HeaderSingleLine(i: nat, d: Document)
    requires '\n' !in SourceLabel(d)
    ensures '\n' !in Header(i, d)
  {
    var digits := NatToString(i + 1);
    assert forall j :: 0 <= j < |digits| ==> IsDigit(digits[j]);
  }

  /** The lines of result blocks k.. read one at a time: header, content, empty line. */
  function ResultLines(docs: seq<Document>, k: nat): seq<string>
    requires k <= |docs|
    decreases |docs| - k
  {
    if k == |docs| then []
    else [Header(k, docs[k]), docs[k].pageContent, ""] + ResultLines(docs, k + 1)
  }

  /** A last block "h\nc\n" splits into h, c and an empty line. */
  lemma SplitLastBlock(h: string, c: string)
    requires '\n' !in h && '\n' !in c
    ensures Split(h + "\n" + c + "\n", '\n') == [h, c, ""]
  {
    assert h + "\n" + c + "\n" == h + ['\n'] + (c + ['\n'] + "");
    SplitAfter(h, c + ['\n'] + "", '\n');
    assert c + ['\n'] + "" == c + ['\n'];
    SplitAfter(c, "", '\n');
  }

  /** A block "h\nc\n" followed by the "\n" separator splits into h, c, an empty line and the rest. */
  lemma SplitInnerBlock(h: string, c: string, tail: string)
    requires '\n' !in h && '\n' !in c
    ensures Split(h + "\n" + c + "\n" + "\n" + tail, '\n') == [h, c, ""] + Split(tail, '\n')
  {
    assert h + "\n" + c + "\n" + "\n" + tail == h + ['\n'] + (c + ['\n'] + ("" + ['\n'] + tail));
    SplitAfter(h, c + ['\n'] + ("" + ['\n'] + tail), '\n');
    SplitAfter(c, "" + ['\n'] + tail, '\n');
    SplitAfter("", tail, '\n');
  }

  lemma {:induction false} SplitBlocksFrom(docs: seq<Document>, k: nat)
    requires k < |docs| && SingleLine(docs)
    ensures Split(Join(Blocks(docs)[k..], "\n"), '\n') == ResultLines(docs, k)
    decreases |docs| - k
  {
    var bs := Blocks(docs)[k..];
    HeaderSingleLine(k, docs[k]);
    if k == |docs| - 1 {
      assert Join(bs, "\n") == Block(k, docs[k]);
      SplitLastBlock(Header(k, docs[k]), docs[k].pageContent);
    } else {
      assert bs[1..] == Blocks(docs)[k + 1..];
      var tail := Join(Blocks(docs)[k + 1..], "\n");
      assert Join(bs, "\n") == Block(k, docs[k]) + "\n" + tail;
      SplitInnerBlock(Header(k, docs[k]), docs[k].pageContent, tail);
      SplitBlocksFrom(docs, k + 1);
    }
  }

  lemma {:induction false} ResultLinesLength(docs: seq<Document>, k: nat)
    requires k <= |docs|
    ensures |ResultLines(docs, k)| == 3 * (|docs| - k)
    decreases |docs| - k
  {
    if k < |docs| {
      ResultLinesLength(docs, k + 1);
    }
  }

  lemma {:induction false} ResultLinesAt(docs: seq<Document>, k: nat, i: nat)
    requires k <= i < |docs|
    ensures 3 * (i - k) + 2 < |ResultLines(docs, k)|
    ensures ResultLines(docs, k)[3 * (i - k)] == Header(i, docs[i])
    ensures ResultLines(docs, k)[3 * (i - k) + 1] == docs[i].pageContent
    ensures ResultLines(docs, k)[3 * (i - k) + 2] == ""
    decreases |docs| - k
  {
    ResultLinesLength(docs, k);
    var rest := ResultLines(docs, k + 1);
    var lines := ResultLines(docs, k);
    if k < i {
      ResultLinesAt(docs, k + 1, i);
      var j := 3 * (i - k - 1);
      assert 3 * (i - k) == j + 3;
      assert lines[j + 3] == rest[j] == Header(i, docs[i]);
      assert lines[j + 4] == rest[j + 1] == docs[i].pageContent;
      assert lines[j + 5] == rest[j + 2] == "";
    }
  }

  /**
   * Read line by line, the formatted result is one block per chunk in
   * retrieval order: a header numbered i + 1 naming the chunk's source (or
   * "Unknown source"), the chunk's content, and an empty line.
   */
  lemma DecodeResults(docs: seq<Document>)
    requires docs != [] && SingleLine(docs)
    ensures |Split(FormatResults(docs), '\n')| == 3 * |docs|
    ensures forall i :: 0 <= i < |docs| ==>
              ParseHeader(Split(FormatResults(docs), '\n')[3 * i]) == Some((i + 1, SourceLabel(docs[i]))) &&
              Split(FormatResults(docs), '\n')[3 * i + 1] == docs[i].pageContent &&
              Split(FormatResults(docs), '\n')[3 * i + 2] == ""
  {
    assert Blocks(docs)[0..] == Blocks(docs);
    SplitBlocksFrom(docs, 0);
    ResultLinesLength(docs, 0);
    forall i | 0 <= i < |docs|
      ensures ParseHeader(ResultLines(docs, 0)[3 * i]) == Some((i + 1, SourceLabel(docs[i])))
      ensures ResultLines(docs, 0)[3 * i + 1] == docs[i].pageContent
      ensures ResultLines(docs, 0)[3 * i + 2] == ""
    {
      ResultLinesAt(docs, 0, i);
      ParseHeaderOfHeader(i, docs[i]);
    }
  }

  /**
   * For any chunk content, line breaks included: block i of the result sits right after
   * blocks 0..i-1 and their "\n" separators, in retrieval order, and a "\n" separates it
   * from the next block. BlockReadBack reads i + 1, the source and the content out of it.
   */
  lemma BlockAt(docs: seq<Document>, i: nat)
    requires i < |docs|
    ensures PartOffset(Blocks(docs), i) + |Blocks(docs)[i]| <= |FormatResults(docs)|
    ensures FormatResults(docs)[PartOffset(Blocks(docs), i)..PartOffset(Blocks(docs), i) + |Blocks(docs)[i]|] == Blocks(docs)[i]
    ensures i + 1 < |docs| ==>
              PartOffset(Blocks(docs), i) + |Blocks(docs)[i]| < |FormatResults(docs)| &&
              FormatResults(docs)[PartOffset(Blocks(docs), i) + |Blocks(docs)[i]|] == '\n'
  {
    assert FormatResults(docs) == Join(Blocks(docs), ['\n']);
    JoinAt(Blocks(docs), '\n', i);
  }

  /** A copy of Block(i, d) anywhere in r gives back i + 1, the source label and the content. */
  lemma BlockReadBack(r: string, off: nat, i: nat, d: Document)
    requires off + |Block(i, d)| <= |r| && r[off..off + |Block(i, d)|] == Block(i, d)
    ensures off + |Header(i, d)| + 1 + |d.pageContent| < |r|
    ensures ParseHeader(r[off..off + |Header(i, d)|]) == Some((i + 1, SourceLabel(d)))
    ensures r[off + |Header(i, d)| + 1..off + |Header(i, d)| + 1 + |d.pageContent|] == d.pageContent
  {
    ParseHeaderOfHeader(i, d);
    BlockSlices(r, off, Header(i, d), d.pageContent, (i + 1, SourceLabel(d)));
  }

  /** Within a copy of "h\nc\n" inside r, h and c are found at their offsets. */
  lemma BlockSlices(r: string, off: nat, h: string, c: string, parsed: (nat, string))
    requires off + |h + "\n" + c + "\n"| <= |r| && r[off..off + |h + "\n" + c + "\n"|] == h + "\n" + c + "\n"
    requires ParseHeader(h) == Some(parsed)
    ensures off + |h| + 1 + |c| < |r|
    ensures ParseHeader(r[off..off + |h|]) == Some(parsed)
    ensures r[off + |h| + 1..off + |h| + 1 + |c|] == c
  {
    var b := h + "\n" + c + "\n";
    forall k | 0 <= k < |h| ensures r[off + k] == h[k] {
      assert r[off..off + |b|][k] == b[k];
    }
    assert r[off..off + |h|] == h;
    forall k | 0 <= k < |c| ensures r[off + |h| + 1 + k] == c[k] {
      assert r[off..off + |b|][|h| + 1 + k] == b[|h| + 1 + k];
    }
  }

  /** The search never yields more than four blocks. */
  lemma AtMostFourResults(ranked: seq<Document>)
    ensures |Blocks(TopK(ranked, SearchK))| <= 4
  {
  }
}

/**
 * The progress report: one text file that `read_file` reads whole and
 * `write_file` overwrites whole. The file system is a value the class holds;
 * what the operating system does (a missing file, a permission or encoding
 * error) arrives as an input.
 */
module ProgressFile {
  import opened Wrappers

  const FileNotFoundText := "File not found."
  const ReadErrorPrefix := "Error reading file: "
  const WriteOkText := "File successfully updated."
  const WriteErrorPrefix := "Error writing to file: "

  /**
   * A write_file call that raised, with the exception's text: either
   * `open(..., "w")` itself failed, before anything was touched, or the open
   * truncated the file and writing or closing it then failed after the first
   * `written` characters of the content had reached the file.
   */
  datatype WriteFault =
    | OpenFailed(message: string)
    | WriteFailed(message: string, written: nat)

  /**
   * Python's text-mode read with the default newline handling: "\r\n" and a
   * lone "\r" both read as "\n".
   */
  function UniversalNewlines(s: string): (r: string)
    ensures '\r' !in r
    decreases |s|
  {
    if s == [] then []
    else if s[0] == '\r' then
      if |s| >= 2 && s[1] == '\n' then "\n" + UniversalNewlines(s[2..])
      else "\n" + UniversalNewlines(s[1..])
    else [s[0]] + UniversalNewlines(s[1..])
  }

  /** Text without a carriage return reads back unchanged. */
  lemma {:induction false} UniversalNewlinesKeeps(s: string)
    requires '\r' !in s
    ensures UniversalNewlines(s) == s
    decreases |s|
  {
    if s != [] {
      assert '\r' !in s[1..];
      UniversalNewlinesKeeps(s[1..]);
    }
  }

  /**
   * What read_file returns for the file `file` (None: no file at the path)
   * when opening or reading raises `fault` (an exception other than
   * FileNotFoundError), if any.
   */
  function ReadOutcome(file: Option<string>, fault: Option<string>): string {
    match fault
    case Some(e) => ReadErrorPrefix + e
    case None =>
      match file
      case None => FileNotFoundText
      case Some(content) => UniversalNewlines(content)
  }

  /** The file after write_file(content) on `before`: the content itself, whatever was there before, unless the write raised. */
  function AfterWrite(before: Option<string>, content: string, fault: Option<WriteFault>): Option<string> {
    match fault
    case None => Some(content)
    case Some(OpenFailed(_)) => before
    case Some(WriteFailed(_, n)) => Some(content[..if n < |content| then n else |content|])
  }

  /**
   * A write never mixes old and new text: afterwards the file is the earlier
   * file untouched, or it holds a prefix of the content (all of it when the
   * write succeeded).
   */
  lemma WriteNeverMixes(before: Option<string>, content: string, fault: Option<WriteFault>)
    ensures AfterWrite(before, content, fault) == before ||
            (AfterWrite(before, content, fault).Some? && AfterWrite(before, content, fault).value <= content)
    ensures fault.None? ==> AfterWrite(before, content, fault) == Some(content)
    ensures fault.Some? && fault.value.OpenFailed? ==> AfterWrite(before, content, fault) == before
    ensures fault.Some? && fault.value.WriteFailed? ==>
              AfterWrite(before, content, fault).Some? &&
              |AfterWrite(before, content, fault).value| <= fault.value.written &&
              AfterWrite(before, content, fault).value <= content
  {
  }

  /** The status text write_file returns. */
  function WriteStatus(fault: Option<WriteFault>): string {
    match fault
    case None => WriteOkText
    case Some(f) => WriteErrorPrefix + f.message
  }

  class ProgressStore {
    /** The progress report file; None while no file exists at the path. */
    var file: Option<string>

    constructor (initial: Option<string>)
      ensures file == initial
    {
      file := initial;
    }

    /** read_file: never raises; a missing file and any other failure become sentinel text. */
    method ReadFile(fault: Option<string>) returns (text: string)
      ensures text == ReadOutcome(file, fault)
      ensures fault.None? && file.None? ==> text == FileNotFoundText
      ensures fault.Some? ==> ReadErrorPrefix <= text
      ensures fault.None? && file.Some? && '\r' !in file.value ==> text == file.value
    {
      if fault.Some? {
        return ReadErrorPrefix + fault.value;
      }
      if file.None? {
        return FileNotFoundText;
      }
      text := UniversalNewlines(file.value);
      if '\r' !in file.value {
        UniversalNewlinesKeeps(file.value);
      }
    }

    /** write_file: replaces the whole file with `content`. */
    method WriteFile(content: string, fault: Option<WriteFault>) returns (status: string)
      modifies this
      ensures status == WriteStatus(fault)
      ensures file == AfterWrite(old(file), content, fault)
      ensures fault.None? ==> file == Some(content) && status == WriteOkText
      ensures fault.Some? ==> WriteErrorPrefix <= status
    {
      match fault {
        case None =>
          file := Some(content);
          status := WriteOkText;
        case Some(OpenFailed(e)) =>
          status := WriteErrorPrefix + e;
        case Some(WriteFailed(e, n)) =>
          file := Some(content[..if n < |content| then n else |content|]);
          status := WriteErrorPrefix + e;
      }
    }
  }

  /**
   * A successful write followed by a successful read returns what was
   * written, with nothing of the earlier file left, provided the content
   * holds no carriage return.
   */
  lemma WriteThenRead(before: Option<string>, content: string)
    requires '\r' !in content
    ensures ReadOutcome(AfterWrite(before, content, None), None) == content
  {
    UniversalNewlinesKeeps(content);
  }

  /** A carriage return written by write_file reads back as a line feed. */
  lemma CarriageReturnBreaksRoundTrip(before: Option<string>)
    ensures ReadOutcome(AfterWrite(before, "a\rb", None), None) == "a\nb"
    ensures ReadOutcome(AfterWrite(before, "a\rb", None), None) != "a\rb"
  {
    assert "a\rb"[1..] == "\rb";
    assert "\rb"[1..] == "b";
  }

  /** Reading, writing back what was read and reading again gives the same text. */
  lemma ReadWriteBackStable(file: Option<string>)
    requires file.Some?
    ensures var first := ReadOutcome(file, None);
            ReadOutcome(AfterWrite(file, first, None), None) == first
  {
    UniversalNewlinesKeeps(ReadOutcome(file, None));
  }

  /** A report that holds exactly the sentinel text cannot be told apart from a missing file. */
  lemma SentinelIsAmbiguous()
    ensures ReadOutcome(Some(FileNotFoundText), None) == ReadOutcome(None, None)
  {
    UniversalNewlinesKeeps(FileNotFoundText);
  }
}
