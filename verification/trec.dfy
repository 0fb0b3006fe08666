/** The TREC question-classification loader: each raw line of a split file
    becomes one labelled example `{label_fine, label, text}`. */
module Trec {
  import opened Loading

  newtype byte = x: int | 0 <= x < 256

  /** The one malformed byte found in the corpus, and the space it is replaced by. */
  const BAD_BYTE: byte := 0xF0
  const SPACE: byte := 0x20

  /** The bytes `bytes.strip()` removes: space, tab, line feed, carriage
      return, vertical tab and form feed. */
  predicate IsSpaceByte(b: byte)
  {
    b == 0x20 || b == 0x09 || b == 0x0A || b == 0x0D || b == 0x0B || b == 0x0C
  }

  /** Every byte of b from index lo up to hi is whitespace. */
  predicate SpaceIn(b: seq<byte>, lo: int, hi: int)
    requires 0 <= lo <= hi <= |b|
  {
    forall i :: lo <= i < hi ==> IsSpaceByte(b[i])
  }

  /** The same six characters, once decoded. */
  predicate IsSpaceChar(c: char)
  {
    c == ' ' || c == '\t' || c == '\n' || c == '\r' || c == '\U{B}' || c == '\U{C}'
  }

  /** A line the model decodes: plain ASCII apart from the malformed byte. */
  predicate Decodable(line: seq<byte>)
  {
    forall i :: 0 <= i < |line| ==> line[i] < 0x80 || line[i] == BAD_BYTE
  }

  /** One raw line of a split file, as read in binary mode. */
  type Line = line: seq<byte> | Decodable(line)

  /** `line.replace(b'\xf0', b' ')`: every malformed byte becomes a space,
      every other byte stays where it is. */
  function Repair(line: seq<byte>): (r: seq<byte>)
    ensures |r| == |line|
    ensures BAD_BYTE !in r
    ensures forall i :: 0 <= i < |line| && line[i] != BAD_BYTE ==> r[i] == line[i]
    ensures forall i :: 0 <= i < |line| && line[i] == BAD_BYTE ==> r[i] == SPACE
  {
    if line == [] then []
    else [if line[0] == BAD_BYTE then SPACE else line[0]] + Repair(line[1..])
  }

  /** Where the text of b starts when whitespace is skipped from index i on. */
  function StartOf(b: seq<byte>, i: nat): (n: nat)
    requires i <= |b|
    ensures i <= n <= |b| && SpaceIn(b, i, n)
    ensures n < |b| ==> !IsSpaceByte(b[n])
    decreases |b| - i
  {
    if i < |b| && IsSpaceByte(b[i]) then StartOf(b, i + 1) else i
  }

  /** Where the text of b[lo..hi] ends when whitespace is skipped backwards from hi. */
  function EndOf(b: seq<byte>, lo: nat, hi: nat): (e: nat)
    requires lo <= hi <= |b|
    ensures lo <= e <= hi && SpaceIn(b, e, hi)
    ensures lo < e ==> !IsSpaceByte(b[e - 1])
  {
    if lo < hi && IsSpaceByte(b[hi - 1]) then EndOf(b, lo, hi - 1) else hi
  }

  /** `bytes.strip()`: what is left once whitespace is cut from both ends;
      it neither starts nor ends with whitespace. */
  function Strip(b: seq<byte>): (r: seq<byte>)
    ensures r == [] || (!IsSpaceByte(r[0]) && !IsSpaceByte(r[|r| - 1]))
  {
    var n := StartOf(b, 0);
    b[n..EndOf(b, n, |b|)]
  }

  /** Strip is the only way to cut b into whitespace, a middle b[n..e] that
      neither starts nor ends with whitespace, and whitespace. */
  lemma StripUnique(b: seq<byte>, n: nat, e: nat)
    requires n <= e <= |b| && SpaceIn(b, 0, n) && SpaceIn(b, e, |b|)
    requires n < e ==> !IsSpaceByte(b[n]) && !IsSpaceByte(b[e - 1])
    ensures Strip(b) == b[n..e]
  {
    var n' := StartOf(b, 0);
    if n < e {
      assert n' == n;
      assert EndOf(b, n, |b|) == e;
    } else {
      assert n' == |b|;
    }
  }

  /** Every byte of b is whitespace. */
  predicate AllSpace(b: seq<byte>)
  {
    SpaceIn(b, 0, |b|)
  }

  /** b is the whitespace Strip cuts off its front, what Strip leaves, and
      the whitespace Strip cuts off its back. */
  lemma StripParts(b: seq<byte>) returns (lead: seq<byte>, trail: seq<byte>)
    ensures b == lead + Strip(b) + trail && AllSpace(lead) && AllSpace(trail)
  {
    var n := StartOf(b, 0);
    var e := EndOf(b, n, |b|);
    lead, trail := b[..n], b[e..];
    assert b == b[..n] + b[n..e] + b[e..];
  }

  /** A whitespace byte in front of the line does not change what is left. */
  lemma StripLeadingSpace(b: seq<byte>, s: byte)
    requires IsSpaceByte(s)
    ensures Strip([s] + b) == Strip(b)
  {
    var lead, trail := StripParts(b);
    Associate([s], lead, Strip(b), trail);
    assert AllSpace([s] + lead) by {
      forall i | 1 <= i < |lead| + 1
        ensures IsSpaceByte(([s] + lead)[i])
      {
        assert ([s] + lead)[i] == lead[i - 1];
      }
    }
    StripPadded([s] + lead, Strip(b), trail);
  }

  /** A whitespace byte at the end of the line does not change what is left. */
  lemma StripTrailingSpace(b: seq<byte>, s: byte)
    requires IsSpaceByte(s)
    ensures Strip(b + [s]) == Strip(b)
  {
    var lead, trail := StripParts(b);
    var m := Strip(b);
    assert b + [s] == lead + m + (trail + [s]);
    assert AllSpace(trail + [s]) by {
      forall i | 0 <= i < |trail|
        ensures IsSpaceByte((trail + [s])[i])
      {
        assert (trail + [s])[i] == trail[i];
      }
    }
    StripPadded(lead, m, trail + [s]);
  }

  /** `bytes.decode()` on ASCII bytes: one character per byte, same code. */
  function Decode(b: seq<byte>): (s: string)
    requires AsciiBytes(b)
    ensures |s| == |b|
    ensures forall i :: 0 <= i < |b| ==> s[i] as int == b[i] as int
  {
    seq(|b|, i requires 0 <= i < |b| => b[i] as int as char)
  }

  /** The bytes of an ASCII string; the inverse of Decode. */
  function Encode(s: string): (b: seq<byte>)
    requires IsAscii(s)
    ensures |b| == |s|
    ensures forall i :: 0 <= i < |s| ==> b[i] as int == s[i] as int
  {
    seq(|s|, i requires 0 <= i < |s| => s[i] as int as byte)
  }

  lemma DecodeEncode(s: string)
    requires IsAscii(s)
    ensures Decode(Encode(s)) == s
  {
  }

  /** Every byte of b is ASCII. */
  predicate AsciiBytes(b: seq<byte>)
  {
    forall i :: 0 <= i < |b| ==> b[i] < 0x80
  }

  /** A repaired line is plain ASCII. */
  lemma RepairedIsAscii(line: Line)
    ensures AsciiBytes(Repair(line))
  {
  }

  /** Stripping keeps a line ASCII: what is left is a piece of it. */
  lemma StrippedIsAscii(b: seq<byte>)
    requires AsciiBytes(b)
    ensures AsciiBytes(Strip(b))
  {
    var n := StartOf(b, 0);
    assert forall i :: 0 <= i < |Strip(b)| ==> Strip(b)[i] == b[n + i];
  }

  /** Decoding keeps whitespace off the ends: a decoded ASCII line starts
      (ends) with a whitespace character exactly when the bytes start (end)
      with a whitespace byte. */
  lemma DecodedEnds(b: seq<byte>)
    requires AsciiBytes(b)
    ensures var s := Decode(b);
      s != [] ==> (IsSpaceChar(s[0]) <==> IsSpaceByte(b[0])) &&
                  (IsSpaceChar(s[|s| - 1]) <==> IsSpaceByte(b[|b| - 1]))
  {
  }

  /** `line.replace(b'\xf0', b' ').strip().decode()`: the malformed byte never
      reaches the text, nothing outside ASCII does, and the text neither starts
      nor ends with whitespace. */
  function Cleaned(line: Line): (s: string)
    ensures IsAscii(s)
    ensures s == [] || (!IsSpaceChar(s[0]) && !IsSpaceChar(s[|s| - 1]))
  {
    var repaired := Repair(line);
    RepairedIsAscii(line);
    var stripped := Strip(repaired);
    StrippedIsAscii(repaired);
    DecodedEnds(stripped);
    Decode(stripped)
  }

  /** A malformed byte at either end of the line becomes a space and is then
      stripped away with the rest of the surrounding whitespace. */
  lemma BadByteAtEndsVanishes(line: Line)
    ensures Decodable([BAD_BYTE] + line) && Decodable(line + [BAD_BYTE])
    ensures Cleaned([BAD_BYTE] + line) == Cleaned(line)
    ensures Cleaned(line + [BAD_BYTE]) == Cleaned(line)
  {
    assert Decodable([BAD_BYTE] + line) by {
      forall i | 0 <= i < |[BAD_BYTE] + line| ensures ([BAD_BYTE] + line)[i] < 0x80 || ([BAD_BYTE] + line)[i] == BAD_BYTE {
        if i > 0 { assert ([BAD_BYTE] + line)[i] == line[i - 1]; }
      }
    }
    assert Decodable(line + [BAD_BYTE]) by {
      forall i | 0 <= i < |line + [BAD_BYTE]| ensures (line + [BAD_BYTE])[i] < 0x80 || (line + [BAD_BYTE])[i] == BAD_BYTE {
        if i < |line| { assert (line + [BAD_BYTE])[i] == line[i]; }
      }
    }
    var front: Line := [BAD_BYTE] + line;
    var back: Line := line + [BAD_BYTE];
    assert Repair(front) == [SPACE] + Repair(line) by {
      forall i | 0 <= i < |front| ensures Repair(front)[i] == ([SPACE] + Repair(line))[i] {
        if i > 0 { assert front[i] == line[i - 1]; }
      }
    }
    assert Repair(back) == Repair(line) + [SPACE] by {
      forall i | 0 <= i < |back| ensures Repair(back)[i] == (Repair(line) + [SPACE])[i] {
        if i < |line| { assert back[i] == line[i]; }
      }
    }
    StripLeadingSpace(Repair(line), SPACE);
    StripTrailingSpace(Repair(line), SPACE);
  }

  /** The three parts `str.partition` returns; `sep` is empty when the
      separator was not found. */
  datatype Parts = Parts(head: string, sep: string, tail: string)

  /** What `s.partition(sep)` promises of its parts: the head holds no
      separator; when s holds one, s is the head, the separator and the tail;
      when it does not, the head is all of s and the other two parts are empty. */
  predicate IsPartition(s: string, sep: char, p: Parts)
  {
    && sep !in p.head
    && (sep in s ==> p.sep == [sep] && s == p.head + [sep] + p.tail)
    && (sep !in s ==> p == Parts(s, "", ""))
  }

  /** A character other than the separator in front of a string joins the
      head of its partition. */
  lemma PartitionCons(c: char, t: string, sep: char, p: Parts)
    requires c != sep && IsPartition(t, sep, p)
    ensures IsPartition([c] + t, sep, Parts([c] + p.head, p.sep, p.tail))
  {
    var s := [c] + t;
    assert s[1..] == t;
    assert sep in s <==> sep in t;
    if sep in t {
      Associate([c], p.head, [sep], p.tail);
    }
  }

  /** `s.partition(sep)`: cut s at the first occurrence of sep. */
  function Partition(s: string, sep: char): (p: Parts)
    ensures IsPartition(s, sep, p)
  {
    if s == [] then Parts("", "", "")
    else if s[0] == sep then Parts("", [sep], s[1..])
    else
      var p := Partition(s[1..], sep);
      assert s == [s[0]] + s[1..];
      PartitionCons(s[0], s[1..], sep, p);
      Parts([s[0]] + p.head, p.sep, p.tail)
  }

  /** Joining two parts around the separator and partitioning again gives the
      parts back, as long as the head holds no separator. */
  lemma {:induction false} PartitionAt(a: string, sep: char, b: string)
    requires sep !in a
    ensures Partition(a + [sep] + b, sep) == Parts(a, [sep], b)
  {
    var s := a + [sep] + b;
    if a == [] {
      assert s == [sep] + b;
      assert s[1..] == b;
    } else {
      assert s[0] == a[0];
      assert s[1..] == a[1..] + [sep] + b;
      PartitionAt(a[1..], sep, b);
      assert [a[0]] + a[1..] == a;
    }
  }

  /** One labelled question. */
  datatype Example = Example(fineLabel: string, coarseLabel: string, text: string)

  /** How a cleaned line and its example fit together: the line is the coarse
      label, then `:` and the fine label if the label token had a colon, then a
      space and the text if the line had a space. Neither label holds a space,
      and the coarse label holds no colon. */
  predicate Describes(s: string, e: Example)
  {
    ' ' !in e.coarseLabel && ':' !in e.coarseLabel && ' ' !in e.fineLabel &&
    (|| s == e.coarseLabel + ":" + e.fineLabel + " " + e.text
     || (s == e.coarseLabel + ":" + e.fineLabel && e.text == "")
     || (s == e.coarseLabel + " " + e.text && e.fineLabel == "")
     || (s == e.coarseLabel && e.fineLabel == "" && e.text == ""))
  }

  /** `label, _, text = s.partition(' ')` and then
      `label, _, label_fine = label.partition(':')`. */
  function ParseText(s: string): Example
  {
    var p := Partition(s, ' ');
    var q := Partition(p.head, ':');
    Example(q.tail, q.head, p.tail)
  }

  /** The example of a line describes it. */
  lemma ParseTextDescribes(s: string)
    ensures Describes(s, ParseText(s))
  {
    var p := Partition(s, ' ');
    var q := Partition(p.head, ':');
    if ':' in p.head {
      assert p.head == q.head + [':'] + q.tail;
    }
  }

  /** The example of a line is the only one that describes it. */
  lemma ParseTextUnique(s: string, e: Example)
    requires Describes(s, e)
    ensures ParseText(s) == e
  {
    if s == e.coarseLabel + ":" + e.fineLabel + " " + e.text {
      assert s == (e.coarseLabel + ":" + e.fineLabel) + [' '] + e.text;
      assert ' ' !in e.coarseLabel + ":" + e.fineLabel;
      PartitionAt(e.coarseLabel + ":" + e.fineLabel, ' ', e.text);
      assert e.coarseLabel + ":" + e.fineLabel == e.coarseLabel + [':'] + e.fineLabel;
      PartitionAt(e.coarseLabel, ':', e.fineLabel);
    } else if s == e.coarseLabel + ":" + e.fineLabel && e.text == "" {
      assert ' ' !in s;
      assert s == e.coarseLabel + [':'] + e.fineLabel;
      PartitionAt(e.coarseLabel, ':', e.fineLabel);
    } else if s == e.coarseLabel + " " + e.text && e.fineLabel == "" {
      assert s == e.coarseLabel + [' '] + e.text;
      PartitionAt(e.coarseLabel, ' ', e.text);
    } else {
      assert ' ' !in s;
    }
  }

  /** The example of one raw line: its cleaned text, parsed. */
  function ParseLine(line: Line): Example
  {
    ParseText(Cleaned(line))
  }

  /** The question text ends where the stripped line ends, so it never ends
      with whitespace. */
  lemma TextEndsClean(line: Line)
    ensures var t := ParseLine(line).text; t == [] || !IsSpaceChar(t[|t| - 1])
  {
    var s := Cleaned(line);
    var e := ParseLine(line);
    ParseTextDescribes(s);
    if e.text != [] {
      assert s[|s| - 1] == e.text[|e.text| - 1];
    }
  }

  /** The text can still begin with whitespace: only the first space after the
      label token is consumed, so a second one stays at the front of the text. */
  lemma TextMayStartWithSpace(coarse: string, text: string)
    requires ' ' !in coarse && ':' !in coarse
    ensures ParseText(coarse + "  " + text) == Example("", coarse, " " + text)
  {
    assert coarse + "  " + text == coarse + [' '] + (" " + text);
    PartitionAt(coarse, ' ', " " + text);
  }

  /** A label token without a colon gives an empty fine label, just as a colon
      followed by nothing does: the two lines parse alike. */
  lemma MissingColonLikeEmptyFineLabel(coarse: string, text: string)
    requires ' ' !in coarse && ':' !in coarse
    ensures ParseText(coarse + " " + text) == Example("", coarse, text)
    ensures ParseText(coarse + ": " + text) == Example("", coarse, text)
  {
    assert coarse + " " + text == coarse + [' '] + text;
    PartitionAt(coarse, ' ', text);
    assert coarse + ": " + text == (coarse + ":") + [' '] + text;
    assert ' ' !in coarse + ":";
    PartitionAt(coarse + ":", ' ', text);
    assert coarse + ":" == coarse + [':'] + "";
    PartitionAt(coarse, ':', "");
  }

  /** Every character of s is ASCII. */
  predicate IsAscii(s: string)
  {
    forall i :: 0 <= i < |s| ==> s[i] as int < 0x80
  }

  /** Replacing the malformed byte changes nothing in a line without it. */
  lemma RepairWithoutBadByte(line: seq<byte>)
    requires BAD_BYTE !in line
    ensures Repair(line) == line
  {
  }

  /** Stripping whitespace from around a middle that neither starts nor ends
      with whitespace gives back that middle. */
  lemma StripPadded(lead: seq<byte>, m: seq<byte>, trail: seq<byte>)
    requires AllSpace(lead) && AllSpace(trail)
    requires m == [] || (!IsSpaceByte(m[0]) && !IsSpaceByte(m[|m| - 1]))
    ensures Strip(lead + m + trail) == m
  {
    var line := lead + m + trail;
    assert forall i :: 0 <= i < |lead| ==> line[i] == lead[i];
    assert forall i :: 0 <= i < |m| ==> line[|lead| + i] == m[i];
    assert forall i :: 0 <= i < |trail| ==> line[|lead| + |m| + i] == trail[i];
    StripUnique(line, |lead|, |lead| + |m|);
    assert line[|lead|..|lead| + |m|] == m;
  }

  /** Cleaning undoes the file format: an ASCII text that neither starts nor
      ends with whitespace, written out with any whitespace around it (such as
      the line feed that ends each line), cleans back to itself. */
  lemma CleanedRoundTrip(s: string, lead: seq<byte>, trail: seq<byte>)
    requires IsAscii(s) && (s == [] || (!IsSpaceChar(s[0]) && !IsSpaceChar(s[|s| - 1])))
    requires AllSpace(lead) && AllSpace(trail)
    ensures Decodable(lead + Encode(s) + trail)
    ensures Cleaned(lead + Encode(s) + trail) == s
  {
    var b := Encode(s);
    var line := lead + b + trail;
    assert forall i :: 0 <= i < |line| ==> line[i] < 0x80 by {
      forall i | 0 <= i < |line| ensures line[i] < 0x80 {
        if i < |lead| { assert line[i] == lead[i]; }
        else if i < |lead| + |b| { assert line[i] == b[i - |lead|]; }
        else { assert line[i] == trail[i - |lead| - |b|]; }
      }
    }
    RepairWithoutBadByte(line);
    StripPadded(lead, b, trail);
    DecodeEncode(s);
  }

  /** A line of the corpus format, padded with any whitespace (such as its
      line feed), parses to the example it describes. */
  lemma ParseLineRoundTrip(s: string, e: Example, lead: seq<byte>, trail: seq<byte>)
    requires Describes(s, e)
    requires IsAscii(s) && (s == [] || (!IsSpaceChar(s[0]) && !IsSpaceChar(s[|s| - 1])))
    requires AllSpace(lead) && AllSpace(trail)
    ensures Decodable(lead + Encode(s) + trail)
    ensures ParseLine(lead + Encode(s) + trail) == e
  {
    CleanedRoundTrip(s, lead, trail);
    ParseTextUnique(s, e);
  }

  /** The question of the line given as an example of the training split. */
  const DOCUMENTED_QUESTION := "How did serfdom develop in and then leave Russia ?"

  /** The line given as an example of the training split: coarse label
      `DESC`, fine label `manner`, and the question after the first space. */
  lemma DocumentedExample()
    ensures ParseText("DESC:manner " + DOCUMENTED_QUESTION)
            == Example("manner", "DESC", DOCUMENTED_QUESTION)
  {
    var e := Example("manner", "DESC", DOCUMENTED_QUESTION);
    assert "DESC:manner " == e.coarseLabel + ":" + e.fineLabel + " ";
    ParseTextUnique("DESC:manner " + DOCUMENTED_QUESTION, e);
  }

  /** The examples of a split file: one per line, in line order. */
  function Examples(lines: seq<Line>): (examples: seq<Example>)
    ensures |examples| == |lines|
  {
    Map(lines, ParseLine)
  }

  /** The i-th example is the parse of the i-th line, and there is one
      example per line. */
  lemma ExamplesAt(lines: seq<Line>)
    ensures |Examples(lines)| == |lines|
    ensures forall i :: 0 <= i < |lines| ==> Examples(lines)[i] == ParseLine(lines[i])
  {
    MapAt(lines, ParseLine);
  }

  /** Reading one split file: the loop over its lines, appending one example
      per line. */
  method ReadExamples(lines: seq<Line>) returns (examples: seq<Example>)
    ensures examples == Examples(lines)
  {
    examples := [];
    for i := 0 to |lines|
      invariant examples == Map(lines[..i], ParseLine)
    {
      MapStep(lines, i, ParseLine);
      examples := examples + [ParseLine(lines[i])];
    }
    assert lines[..|lines|] == lines;
  }

  /** The training split is listed before the test split. */
  function SplitFilenames(train: bool, test: bool, trainFilename: string, testFilename: string): seq<string>
  {
    Requested([(train, trainFilename), (test, testFilename)])
  }

  /** Whatever the flags, the requested filenames come train first, then test. */
  lemma SplitOrder(train: bool, test: bool, trainFilename: string, testFilename: string)
    ensures SplitFilenames(train, test, trainFilename, testFilename)
            == (if train then [trainFilename] else []) + (if test then [testFilename] else [])
  {
    RequestedTwo(train, test, trainFilename, testFilename);
  }


  /** What loading the TREC splits returns, for files given by name. */
  function Load(files: map<string, seq<Line>>, train: bool, test: bool,
                trainFilename: string, testFilename: string): Result<Loaded<seq<Example>>, LoadError>
  {
    Returned(LoadSplits(SplitFilenames(train, test, trainFilename, testFilename), files, Examples))
  }

  /** The loop over the requested split files: each is read into its list
      of examples, in order; the first missing file ends the load. */
  method ReadSplits(splitFilenames: seq<string>, files: map<string, seq<Line>>)
    returns (load: Result<seq<seq<Example>>, LoadError>)
    ensures load == LoadSplits(splitFilenames, files, Examples)
  {
    var ret: seq<seq<Example>> := [];
    for k := 0 to |splitFilenames|
      invariant LoadSplits(splitFilenames[..k], files, Examples) == Success(ret)
    {
      var filename := splitFilenames[k];
      if filename !in files {
        assert splitFilenames[..k + 1][..k] == splitFilenames[..k];
        LoadSplitsPrefixFails(splitFilenames, k + 1, files, Examples);
        return Failure(MissingFile(filename));
      }
      var examples := ReadExamples(files[filename]);
      LoadSplitsStep(splitFilenames, k, files, Examples, ret);
      ret := ret + [examples];
    }
    assert splitFilenames[..|splitFilenames|] == splitFilenames;
    load := Success(ret);
  }

  /** The loader: parse each requested split file in order, then return the
      bare dataset for one split and a tuple otherwise. */
  method TrecDataset(files: map<string, seq<Line>>, train: bool, test: bool,
                     trainFilename: string, testFilename: string)
    returns (r: Result<Loaded<seq<Example>>, LoadError>)
    ensures r == Load(files, train, test, trainFilename, testFilename)
  {
    var splitFilenames := Requested([(train, trainFilename), (test, testFilename)]);
    var load := ReadSplits(splitFilenames, files);
    match load
    case Failure(e) =>
      r := Failure(e);
    case Success(ret) =>
      if |ret| == 1 {
        r := Success(Single(ret[0]));
      } else {
        r := Success(Multi(ret));
      }
  }

  /** When the file of every requested split exists, the loader returns the
      datasets of the requested splits in the order train, test: bare when
      exactly one was requested, as a tuple otherwise (the empty tuple when
      none was). Files of splits not requested are never opened. */
  lemma ReturnShape(files: map<string, seq<Line>>, train: bool, test: bool,
                    trainFilename: string, testFilename: string)
    requires (train ==> trainFilename in files) && (test ==> testFilename in files)
    ensures Load(files, train, test, trainFilename, testFilename)
            == Success(Shape((if train then [Examples(files[trainFilename])] else [])
                             + (if test then [Examples(files[testFilename])] else [])))
  {
    TwoSplitShapes(files, train, test, trainFilename, testFilename, Examples);
  }

  /** Asking for the training split alone needs only the training file, and
      gives its dataset bare. */
  lemma TrainOnly(files: map<string, seq<Line>>, trainFilename: string, testFilename: string)
    requires trainFilename in files
    ensures Load(files, true, false, trainFilename, testFilename) == Success(Single(Examples(files[trainFilename])))
  {
    ReturnShape(files, true, false, trainFilename, testFilename);
    assert [Examples(files[trainFilename])] + [] == [Examples(files[trainFilename])];
  }

  /** A requested split whose file is missing makes the load fail, naming the
      first such file in train, test order. */
  lemma MissingSplit(files: map<string, seq<Line>>, train: bool, test: bool,
                     trainFilename: string, testFilename: string)
    ensures var r := Load(files, train, test, trainFilename, testFilename);
      && (train && trainFilename !in files ==> r == Failure(MissingFile(trainFilename)))
      && ((!train || trainFilename in files) && test && testFilename !in files ==>
            r == Failure(MissingFile(testFilename)))
      && ((!train || trainFilename in files) && (!test || testFilename in files) ==> r.Success?)
  {
    MissingOfTwo(files, train, test, trainFilename, testFilename, Examples);
  }
}
