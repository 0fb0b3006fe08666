/** The Penn Treebank loader: every line of a split file has its unknown-word
    markers rewritten, is split into words and is closed by an end-of-sentence
    token; the words of all lines form one flat list per split. */
module PennTreebank {
  import opened Loading

  /** How the corpus marks an out-of-vocabulary word. */
  const UNK_MARKER := "<unk>"

  /** The characters `str.split()` splits on: those for which `str.isspace()`
      holds. */
  predicate IsWhitespace(c: char)
  {
    || c == '\t' || c == '\n' || c == '\U{B}' || c == '\U{C}' || c == '\r'
    || ('\U{1C}' <= c <= '\U{1F}') || c == ' ' || c == '\U{85}' || c == '\U{A0}'
    || c == '\U{1680}' || ('\U{2000}' <= c <= '\U{200A}') || c == '\U{2028}' || c == '\U{2029}'
    || c == '\U{202F}' || c == '\U{205F}' || c == '\U{3000}'
  }

  /** A character of the marker. */
  predicate IsMarkerChar(c: char)
  {
    c == '<' || c == 'u' || c == 'n' || c == 'k' || c == '>'
  }

  /** The marker occurs in s starting at index i. */
  predicate MarkerAt(s: string, i: int)
  {
    0 <= i && i + 5 <= |s| &&
    s[i] == '<' && s[i + 1] == 'u' && s[i + 2] == 'n' && s[i + 3] == 'k' && s[i + 4] == '>'
  }

  /** MarkerAt is the occurrence of UNK_MARKER at i. */
  lemma MarkerAtIsOccurrence(s: string, i: int)
    requires 0 <= i && i + 5 <= |s|
    ensures MarkerAt(s, i) <==> s[i..i + 5] == UNK_MARKER
  {
    if s[i..i + 5] == UNK_MARKER {
      assert s[i..i + 5][4] == '>';
    }
  }

  /** The marker occurs nowhere in s. */
  predicate NoMarker(s: string)
  {
    forall i :: 0 <= i < |s| ==> !MarkerAt(s, i)
  }

  /** `s.replace('<unk>', unknown)`: scanning from the left, every occurrence
      of the marker is replaced and the scan resumes after it, so occurrences
      never overlap. A line without the marker is left as it is. */
  function ReplaceUnknown(s: string, unknown: string): (r: string)
    ensures NoMarker(s) ==> r == s
  {
    if s == [] then []
    else if MarkerAt(s, 0) then unknown + ReplaceUnknown(s[5..], unknown)
    else
      assert NoMarker(s) ==> NoMarker(s[1..]) by {
        assert forall i :: 0 <= i < |s[1..]| ==> (MarkerAt(s[1..], i) <==> MarkerAt(s, i + 1));
      }
      [s[0]] + ReplaceUnknown(s[1..], unknown)
  }

  /** Rewriting the marker to itself changes nothing. */
  lemma {:induction false} ReplaceWithMarker(s: string)
    ensures ReplaceUnknown(s, UNK_MARKER) == s
  {
    if s == [] {
    } else if MarkerAt(s, 0) {
      ReplaceWithMarker(s[5..]);
      assert s == s[..5] + s[5..];
      assert s[..5] == UNK_MARKER;
    } else {
      ReplaceWithMarker(s[1..]);
      assert s == [s[0]] + s[1..];
    }
  }

  /** The marker never straddles the end of a prefix it follows: whatever a
      ends with, the first marker occurrence at or after a's start that
      reaches into the marker appended to a is that marker itself. */
  lemma NoStraddle(a: string, b: string)
    requires a != []
    ensures MarkerAt(a + UNK_MARKER + b, 0) <==> MarkerAt(a, 0)
  {
    var s := a + UNK_MARKER + b;
    if |a| < 5 {
      assert s[4] == UNK_MARKER[4 - |a|];
    } else {
      assert forall i :: 0 <= i < 5 ==> s[i] == a[i];
    }
  }

  /** A line that starts with the marker starts with the unknown token once
      rewritten. */
  lemma ReplaceLeadingMarker(b: string, unknown: string)
    ensures ReplaceUnknown(UNK_MARKER + b, unknown) == unknown + ReplaceUnknown(b, unknown)
  {
    var s := UNK_MARKER + b;
    assert MarkerAt(s, 0);
    assert s[5..] == b;
  }

  /** Every occurrence of the marker is replaced where it stands: rewriting a
      line that holds the marker between a and b rewrites a and b on their
      own and puts the unknown token between them. */
  lemma {:induction false} ReplaceAtMarker(a: string, b: string, unknown: string)
    ensures ReplaceUnknown(a + UNK_MARKER + b, unknown)
            == ReplaceUnknown(a, unknown) + unknown + ReplaceUnknown(b, unknown)
  {
    var s := a + UNK_MARKER + b;
    if a == [] {
      assert s == UNK_MARKER + b;
      ReplaceLeadingMarker(b, unknown);
    } else {
      NoStraddle(a, b);
      var k := if MarkerAt(a, 0) then 5 else 1;
      var front := if MarkerAt(a, 0) then unknown else [a[0]];
      assert s[k..] == a[k..] + UNK_MARKER + b;
      ReplaceAtMarker(a[k..], b, unknown);
      var x, y := ReplaceUnknown(a[k..], unknown), ReplaceUnknown(b, unknown);
      assert ReplaceUnknown(s, unknown) == front + (x + unknown + y);
      assert ReplaceUnknown(a, unknown) == front + x;
      Associate(front, x, unknown, y);
    }
  }

  /** An unknown token that is not empty and starts with no marker character:
      a rewritten line whose first character belongs to the marker took that
      character from the line, where no marker started. */
  lemma ReplaceFront(t: string, unknown: string)
    requires unknown != [] && !IsMarkerChar(unknown[0])
    ensures var r := ReplaceUnknown(t, unknown);
      r != [] && IsMarkerChar(r[0]) ==>
        t != [] && !MarkerAt(t, 0) && r[0] == t[0] && r[1..] == ReplaceUnknown(t[1..], unknown)
  {
  }

  /** A character copied from the line only starts a marker in the rewritten
      line if a marker started there in the line. */
  lemma MarkerOnlyFromMarker(s: string, unknown: string)
    requires unknown != [] && !IsMarkerChar(unknown[0])
    requires s != []
    ensures MarkerAt([s[0]] + ReplaceUnknown(s[1..], unknown), 0) ==> MarkerAt(s, 0)
  {
    var r := [s[0]] + ReplaceUnknown(s[1..], unknown);
    if MarkerAt(r, 0) {
      var t1 := s[1..];
      ReplaceFront(t1, unknown);
      var t2 := t1[1..];
      ReplaceFront(t2, unknown);
      var t3 := t2[1..];
      ReplaceFront(t3, unknown);
      var t4 := t3[1..];
      ReplaceFront(t4, unknown);
    }
  }

  /** A marker in a suffix of s is a marker of s, shifted. */
  lemma MarkerAtSuffix(s: string, k: nat, i: nat)
    requires k <= |s|
    ensures MarkerAt(s[k..], i) <==> MarkerAt(s, k + i)
  {
  }

  /** Putting text without marker characters in front of a line without the
      marker forms no marker. */
  lemma NoMarkerPrepend(u: string, t: string)
    requires forall i :: 0 <= i < |u| ==> !IsMarkerChar(u[i])
    requires NoMarker(t)
    ensures NoMarker(u + t)
  {
    var s := u + t;
    forall i | 0 <= i < |s|
      ensures !MarkerAt(s, i)
    {
      if i < |u| {
        assert s[i] == u[i];
      } else {
        assert s[|u|..] == t;
        MarkerAtSuffix(s, |u|, i - |u|);
      }
    }
  }

  /** A line without the marker, with one character in front that starts no
      marker, has no marker. */
  lemma NoMarkerCons(c: char, t: string)
    requires NoMarker(t) && !MarkerAt([c] + t, 0)
    ensures NoMarker([c] + t)
  {
    var s := [c] + t;
    forall i | 1 <= i < |s|
      ensures !MarkerAt(s, i)
    {
      assert s[1..] == t;
      MarkerAtSuffix(s, 1, i - 1);
    }
  }

  /** With an unknown token that is not empty and holds no character of the
      marker, no marker is left after the rewrite. */
  lemma {:induction false} NoMarkerAfterReplace(s: string, unknown: string)
    requires unknown != [] && forall i :: 0 <= i < |unknown| ==> !IsMarkerChar(unknown[i])
    ensures NoMarker(ReplaceUnknown(s, unknown))
  {
    if s == [] {
    } else if MarkerAt(s, 0) {
      NoMarkerAfterReplace(s[5..], unknown);
      NoMarkerPrepend(unknown, ReplaceUnknown(s[5..], unknown));
    } else {
      NoMarkerAfterReplace(s[1..], unknown);
      MarkerOnlyFromMarker(s, unknown);
      NoMarkerCons(s[0], ReplaceUnknown(s[1..], unknown));
    }
  }

  /** A non-empty run of characters none of which is whitespace. */
  predicate IsWord(w: string)
  {
    w != [] && forall i :: 0 <= i < |w| ==> !IsWhitespace(w[i])
  }

  /** The length of the run of non-whitespace characters s starts with. */
  function WordLength(s: string): (n: nat)
    ensures n <= |s|
    ensures forall i :: 0 <= i < n ==> !IsWhitespace(s[i])
    ensures n < |s| ==> IsWhitespace(s[n])
  {
    if s == [] || IsWhitespace(s[0]) then 0 else 1 + WordLength(s[1..])
  }

  /** `s.split()`: the maximal runs of non-whitespace characters, in order;
      every token is a word. */
  function Split(s: string): (tokens: seq<string>)
    ensures forall i :: 0 <= i < |tokens| ==> IsWord(tokens[i])
    decreases |s|
  {
    if s == [] then []
    else if IsWhitespace(s[0]) then Split(s[1..])
    else
      var n := WordLength(s);
      [s[..n]] + Split(s[n..])
  }

  /** The characters of s that are not whitespace, in order. */
  function NonWhitespace(s: string): string
  {
    if s == [] then []
    else (if IsWhitespace(s[0]) then [] else [s[0]]) + NonWhitespace(s[1..])
  }

  /** The concatenation of a list of strings. */
  function Concat(ss: seq<string>): string
  {
    if ss == [] then [] else ss[0] + Concat(ss[1..])
  }

  lemma {:induction false} NonWhitespaceAppend(a: string, b: string)
    ensures NonWhitespace(a + b) == NonWhitespace(a) + NonWhitespace(b)
  {
    if a == [] {
      assert a + b == b;
    } else {
      assert (a + b)[1..] == a[1..] + b;
      NonWhitespaceAppend(a[1..], b);
    }
  }

  lemma {:induction false} NonWhitespaceOfWord(w: string)
    requires forall i :: 0 <= i < |w| ==> !IsWhitespace(w[i])
    ensures NonWhitespace(w) == w
  {
    if w != [] {
      NonWhitespaceOfWord(w[1..]);
    }
  }

  /** Splitting loses nothing but whitespace: the tokens put back together
      are the line with its whitespace removed. */
  lemma {:induction false} SplitKeepsText(s: string)
    ensures Concat(Split(s)) == NonWhitespace(s)
    decreases |s|
  {
    if s == [] {
    } else if IsWhitespace(s[0]) {
      SplitKeepsText(s[1..]);
    } else {
      var n := WordLength(s);
      SplitKeepsText(s[n..]);
      assert s == s[..n] + s[n..];
      NonWhitespaceAppend(s[..n], s[n..]);
      NonWhitespaceOfWord(s[..n]);
      assert ([s[..n]] + Split(s[n..]))[1..] == Split(s[n..]);
    }
  }

  /** The words of a list joined with single spaces. */
  function JoinWords(words: seq<string>): string
  {
    if words == [] then []
    else if |words| == 1 then words[0]
    else words[0] + " " + JoinWords(words[1..])
  }

  /** A single word splits to itself. */
  lemma SplitWord(w: string)
    requires IsWord(w)
    ensures Split(w) == [w]
  {
    assert WordLength(w) == |w| by {
      WordLengthBefore(w, []);
      assert w + [] == w;
    }
    assert w[..|w|] == w;
    assert w[|w|..] == [];
  }

  /** Splitting undoes joining with spaces: words joined by single spaces
      split back into the same words. */
  lemma {:induction false} SplitJoin(words: seq<string>)
    requires forall i :: 0 <= i < |words| ==> IsWord(words[i])
    ensures Split(JoinWords(words)) == words
  {
    if words == [] {
    } else if |words| == 1 {
      SplitWord(words[0]);
    } else {
      var w, rest := words[0], JoinWords(words[1..]);
      var s := w + " " + rest;
      assert s == w + ([' '] + rest);
      WordLengthBefore(w, [' '] + rest);
      assert s[..|w|] == w;
      assert s[|w|..] == [' '] + rest;
      assert ([' '] + rest)[1..] == rest;
      SplitJoin(words[1..]);
    }
  }

  /** A line of whitespace only has no tokens. */
  lemma {:induction false} SplitBlank(s: string)
    requires forall i :: 0 <= i < |s| ==> IsWhitespace(s[i])
    ensures Split(s) == []
  {
    if s != [] {
      SplitBlank(s[1..]);
    }
  }

  /** A word ends where the next whitespace, or the string, begins. */
  lemma {:induction false} WordLengthBefore(w: string, rest: string)
    requires forall i :: 0 <= i < |w| ==> !IsWhitespace(w[i])
    requires rest == [] || IsWhitespace(rest[0])
    ensures WordLength(w + rest) == |w|
  {
    if w != [] {
      assert (w + rest)[1..] == w[1..] + rest;
      WordLengthBefore(w[1..], rest);
    }
  }

  /** How `str.split()` reads a string: any run of whitespace of any kind
      before a word is skipped, and the word reaches up to the next
      whitespace or the end. With SplitBlank, this determines Split on every
      string. */
  lemma {:induction false} SplitPadded(lead: string, w: string, rest: string)
    requires forall i :: 0 <= i < |lead| ==> IsWhitespace(lead[i])
    requires IsWord(w)
    requires rest == [] || IsWhitespace(rest[0])
    ensures Split(lead + w + rest) == [w] + Split(rest)
  {
    var s := lead + w + rest;
    if lead == [] {
      assert s == w + rest;
      WordLengthBefore(w, rest);
      assert s[..|w|] == w;
      assert s[|w|..] == rest;
    } else {
      assert s[0] == lead[0];
      assert s[1..] == lead[1..] + w + rest;
      SplitPadded(lead[1..], w, rest);
    }
  }

  /** A line without the marker splits to tokens none of which is the marker. */
  lemma {:induction false} SplitNoMarker(s: string)
    requires NoMarker(s)
    ensures UNK_MARKER !in Split(s)
    decreases |s|
  {
    if s != [] {
      var n := if IsWhitespace(s[0]) then 1 else WordLength(s);
      assert NoMarker(s[n..]) by {
        forall i | 0 <= i < |s[n..]|
          ensures !MarkerAt(s[n..], i)
        {
          MarkerAtSuffix(s, n, i);
        }
      }
      SplitNoMarker(s[n..]);
      if !IsWhitespace(s[0]) && s[..n] == UNK_MARKER {
        assert MarkerAt(s, 0) by {
          assert forall j :: 0 <= j < 5 ==> s[j] == s[..n][j];
        }
      }
    }
  }

  /** The tokens of one line: `line.replace('<unk>', unknown).split()`. */
  function LineTokens(line: string, unknown: string): (tokens: seq<string>)
    ensures forall i :: 0 <= i < |tokens| ==> IsWord(tokens[i])
  {
    Split(ReplaceUnknown(line, unknown))
  }

  /** A blank or whitespace-only line has no tokens. */
  lemma BlankLine(line: string, unknown: string)
    requires forall i :: 0 <= i < |line| ==> IsWhitespace(line[i])
    ensures LineTokens(line, unknown) == []
  {
    assert NoMarker(line) by {
      forall i | 0 <= i < |line|
        ensures !MarkerAt(line, i)
      {
        assert IsWhitespace(line[i]);
      }
    }
    SplitBlank(line);
  }

  /** The token list of a split file: for each line in order, its tokens and
      then one end-of-sentence token. */
  function FileTokens(lines: seq<string>, unknown: string, eos: string): (text: seq<string>)
    ensures lines == [] <==> text == []
    ensures lines != [] ==> text[|text| - 1] == eos
  {
    if lines == [] then []
    else FileTokens(lines[..|lines| - 1], unknown, eos) + LineTokens(lines[|lines| - 1], unknown) + [eos]
  }

  /** The chunk one line contributes: its tokens, then one end-of-sentence
      token. */
  lemma FileTokensOne(line: string, unknown: string, eos: string)
    ensures FileTokens([line], unknown, eos) == LineTokens(line, unknown) + [eos]
  {
    assert [line][..0] == [];
  }

  /** The tokens of a file are the tokens of its first lines followed by the
      tokens of the rest: each line's chunk keeps its place. */
  lemma {:induction false} FileTokensAppend(a: seq<string>, b: seq<string>, unknown: string, eos: string)
    ensures FileTokens(a + b, unknown, eos) == FileTokens(a, unknown, eos) + FileTokens(b, unknown, eos)
  {
    if b == [] {
      assert a + b == a;
    } else {
      var front := b[..|b| - 1];
      assert (a + b)[..|a + b| - 1] == a + front;
      assert (a + b)[|a + b| - 1] == b[|b| - 1];
      FileTokensAppend(a, front, unknown, eos);
      Associate(FileTokens(a, unknown, eos), FileTokens(front, unknown, eos),
                LineTokens(b[|b| - 1], unknown), [eos]);
    }
  }

  /** The number of tokens the lines hold, end-of-sentence tokens aside. */
  function TokenCount(lines: seq<string>, unknown: string): nat
  {
    if lines == [] then 0
    else TokenCount(lines[..|lines| - 1], unknown) + |LineTokens(lines[|lines| - 1], unknown)|
  }

  /** The file's token list is as long as its lines' tokens plus one
      end-of-sentence token per line. */
  lemma {:induction false} FileTokensLength(lines: seq<string>, unknown: string, eos: string)
    ensures |FileTokens(lines, unknown, eos)| == TokenCount(lines, unknown) + |lines|
  {
    if lines != [] {
      FileTokensLength(lines[..|lines| - 1], unknown, eos);
    }
  }

  /** A file of one blank or whitespace-only line gives the end-of-sentence
      token alone. */
  lemma BlankLineGivesEos(line: string, unknown: string, eos: string)
    requires forall i :: 0 <= i < |line| ==> IsWhitespace(line[i])
    ensures FileTokens([line], unknown, eos) == [eos]
  {
    BlankLine(line, unknown);
    assert [line][..0] == [];
  }

  /** No token of the file is the marker, as long as the unknown token is not
      empty and shares no character with the marker, and the end-of-sentence
      token is not the marker. */
  lemma {:induction false} NoMarkerToken(lines: seq<string>, unknown: string, eos: string)
    requires unknown != [] && forall i :: 0 <= i < |unknown| ==> !IsMarkerChar(unknown[i])
    requires eos != UNK_MARKER
    ensures UNK_MARKER !in FileTokens(lines, unknown, eos)
  {
    if lines != [] {
      NoMarkerToken(lines[..|lines| - 1], unknown, eos);
      NoMarkerAfterReplace(lines[|lines| - 1], unknown);
      SplitNoMarker(ReplaceUnknown(lines[|lines| - 1], unknown));
    }
  }

  /** Reading one split file: for each line, extend the list with the line's
      tokens, then append the end-of-sentence token. */
  method ReadTokens(lines: seq<string>, unknown: string, eos: string) returns (text: seq<string>)
    ensures text == FileTokens(lines, unknown, eos)
  {
    text := [];
    for i := 0 to |lines|
      invariant text == FileTokens(lines[..i], unknown, eos)
    {
      assert lines[..i + 1][..i] == lines[..i];
      text := text + LineTokens(lines[i], unknown);
      text := text + [eos];
    }
    assert lines[..|lines|] == lines;
  }

  /** The parse of a split file, for given unknown and end-of-sentence tokens. */
  function Tokenizer(unknown: string, eos: string): seq<string> -> seq<string>
  {
    lines => FileTokens(lines, unknown, eos)
  }

  /** The requested filenames, train before dev before test. */
  function SplitFilenames(train: bool, dev: bool, test: bool,
                          trainFilename: string, devFilename: string, testFilename: string): seq<string>
  {
    Requested([(train, trainFilename), (dev, devFilename), (test, testFilename)])
  }

  /** Whatever the flags, the requested filenames come train, then dev, then test. */
  lemma SplitOrder(train: bool, dev: bool, test: bool,
                   trainFilename: string, devFilename: string, testFilename: string)
    ensures SplitFilenames(train, dev, test, trainFilename, devFilename, testFilename)
            == (if train then [trainFilename] else [])
               + (if dev then [devFilename] else [])
               + (if test then [testFilename] else [])
  {
    RequestedThree(train, dev, test, trainFilename, devFilename, testFilename);
  }

  /** What loading the Penn Treebank splits returns, for files given by name. */
  function Load(files: map<string, seq<string>>, train: bool, dev: bool, test: bool,
                trainFilename: string, devFilename: string, testFilename: string,
                unknown: string, eos: string): Result<Loaded<seq<string>>, LoadError>
  {
    Returned(LoadSplits(SplitFilenames(train, dev, test, trainFilename, devFilename, testFilename),
                        files, Tokenizer(unknown, eos)))
  }

  /** The loop over the requested split files: each is read into its token
      list, in order; the first missing file ends the load. */
  method ReadSplits(splitFilenames: seq<string>, files: map<string, seq<string>>, unknown: string, eos: string)
    returns (load: Result<seq<seq<string>>, LoadError>)
    ensures load == LoadSplits(splitFilenames, files, Tokenizer(unknown, eos))
  {
    var ret: seq<seq<string>> := [];
    for k := 0 to |splitFilenames|
      invariant LoadSplits(splitFilenames[..k], files, Tokenizer(unknown, eos)) == Success(ret)
    {
      var filename := splitFilenames[k];
      if filename !in files {
        assert splitFilenames[..k + 1][..k] == splitFilenames[..k];
        LoadSplitsPrefixFails(splitFilenames, k + 1, files, Tokenizer(unknown, eos));
        return Failure(MissingFile(filename));
      }
      var text := ReadTokens(files[filename], unknown, eos);
      LoadSplitsStep(splitFilenames, k, files, Tokenizer(unknown, eos), ret);
      ret := ret + [text];
    }
    assert splitFilenames[..|splitFilenames|] == splitFilenames;
    load := Success(ret);
  }

  /** The loader: read each requested split file in order into its token
      list, then return the bare list for one split and a tuple otherwise. */
  method PennTreebankDataset(files: map<string, seq<string>>, train: bool, dev: bool, test: bool,
                             trainFilename: string, devFilename: string, testFilename: string,
                             unknown: string, eos: string)
    returns (r: Result<Loaded<seq<string>>, LoadError>)
    ensures r == Load(files, train, dev, test, trainFilename, devFilename, testFilename, unknown, eos)
  {
    var splitFilenames := Requested([(train, trainFilename), (dev, devFilename), (test, testFilename)]);
    var load := ReadSplits(splitFilenames, files, unknown, eos);
    match load
    case Failure(e) =>
      r := Failure(e);
    case Success(ret) =>
      if |ret| == 1 {
        r := Success(Single(ret[0]));
      } else {
        r := Success(Multi(ret));
      }
  }

  /** When the file of every requested split exists, the loader returns the
      token lists of the requested splits in the order train, dev, test: bare
      when exactly one was requested, as a tuple otherwise. Files of splits
      not requested are never opened. */
  lemma ReturnShape(files: map<string, seq<string>>, train: bool, dev: bool, test: bool,
                    trainFilename: string, devFilename: string, testFilename: string,
                    unknown: string, eos: string)
    requires (train ==> trainFilename in files) && (dev ==> devFilename in files) && (test ==> testFilename in files)
    ensures Load(files, train, dev, test, trainFilename, devFilename, testFilename, unknown, eos)
            == Success(Shape((if train then [FileTokens(files[trainFilename], unknown, eos)] else [])
                             + (if dev then [FileTokens(files[devFilename], unknown, eos)] else [])
                             + (if test then [FileTokens(files[testFilename], unknown, eos)] else [])))
  {
    ThreeSplitShapes(files, train, dev, test, trainFilename, devFilename, testFilename, Tokenizer(unknown, eos));
  }

  /** Asking for the training split alone needs only the training file, and
      gives its token list bare. */
  lemma TrainOnly(files: map<string, seq<string>>, trainFilename: string, devFilename: string,
                  testFilename: string, unknown: string, eos: string)
    requires trainFilename in files
    ensures Load(files, true, false, false, trainFilename, devFilename, testFilename, unknown, eos)
            == Success(Single(FileTokens(files[trainFilename], unknown, eos)))
  {
    ReturnShape(files, true, false, false, trainFilename, devFilename, testFilename, unknown, eos);
    assert [FileTokens(files[trainFilename], unknown, eos)] + [] + [] == [FileTokens(files[trainFilename], unknown, eos)];
  }

  /** A requested split whose file is missing makes the load fail, naming the
      first such file in train, dev, test order. */
  lemma MissingSplit(files: map<string, seq<string>>, train: bool, dev: bool, test: bool,
                     trainFilename: string, devFilename: string, testFilename: string,
                     unknown: string, eos: string)
    ensures var r := Load(files, train, dev, test, trainFilename, devFilename, testFilename, unknown, eos);
      var trainOk := !train || trainFilename in files;
      var devOk := !dev || devFilename in files;
      var testOk := !test || testFilename in files;
      && (!trainOk ==> r == Failure(MissingFile(trainFilename)))
      && (trainOk && !devOk ==> r == Failure(MissingFile(devFilename)))
      && (trainOk && devOk && !testOk ==> r == Failure(MissingFile(testFilename)))
      && (trainOk && devOk && testOk ==> r.Success?)
  {
    MissingOfThree(files, train, dev, test, trainFilename, devFilename, testFilename, Tokenizer(unknown, eos));
  }
}
