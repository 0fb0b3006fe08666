# Corpus loaders of PyTorch-NLP: TREC and Penn Treebank

This project is a Dafny model of two dataset loaders from PyTorch-NLP: `trec_dataset` and
`penn_treebank_dataset`. It proves properties of that model. Both loaders do the same three
things:

- They pick the requested splits, in a fixed order: train and test for TREC; train, dev and
  test for Penn Treebank.
- They read each requested split file line by line.
- They return the parsed splits. Exactly one requested split comes back bare. Any other
  number comes back as a tuple, which is empty when nothing was requested.

The loaders differ in how they parse a line:

- **TREC** (`trec.dfy`, module `Trec`) reads raw bytes. It replaces the malformed byte
  `0xF0` with a space. It strips ASCII whitespace from both ends and decodes the rest. It then
  partitions at the first space into a label token and the question text. Finally it
  partitions the label token at the first colon into the coarse label and the fine label.
  Each line gives one example record, and the records keep file order.
- **Penn Treebank** (`penn_treebank.dfy`, module `PennTreebank`) reads text lines. It rewrites
  every `<unk>` to the unknown token. It splits the result on Python whitespace. It appends
  the tokens and then one end-of-sentence token to a single running list.

The shared part (`loading.dfy`, module `Loading`) holds the rest:

- the split filter `Requested`;
- the return shape `Shape`: `Single` for a bare split and `Multi` for a tuple;
- the specification `LoadSplits` of reading the splits in order. It fails with `MissingFile`
  at the first requested file that does not exist, because opening that file raises.

The loops are modelled as methods:

- `ReadExamples`, `ReadTokens` and the two `ReadSplits`;
- the loader entry points `TrecDataset` and `PennTreebankDataset`.

Each method is proved equal to a specification function. The properties are lemmas about
those functions.

Some parts of the environment become parameters:

- The dataset directory is a map from file name to the file's lines.
- The unknown token and the end-of-sentence token are passed in as strings.

## Model

| member | source | states |
|---|---|---|
| Loading.Requested | torchnlp/datasets/trec.py:62-63 | The kept file names are at most as many as the splits. Every kept name belongs to a requested split, and every requested split's name is kept. |
| Loading.RequestedAppend | torchnlp/datasets/trec.py:63 | Filtering a concatenation of split lists filters each part and keeps their order. |
| Loading.Shape | torchnlp/datasets/trec.py:74-77 | The result is bare exactly when one split was loaded. It holds exactly the loaded splits in order, and a tuple never holds exactly one split. |
| Loading.ShapeOfComponents | torchnlp/datasets/penn_treebank.py:73-76 | Every well-shaped result is what Shape gives for its own splits, so the return rule loses nothing. |
| Loading.LoadSplits | torchnlp/datasets/trec.py:64-72 | Loading succeeds iff every requested file exists. On success there is one parsed split per name, in name order. On failure the error names the first missing file, and every file before it exists. |
| Loading.LoadSplitsAppend | torchnlp/datasets/penn_treebank.py:64-71 | When all files exist, loading a concatenation of name lists concatenates the loaded splits. |
| Loading.Returned | torchnlp/datasets/trec.py:74-77 | The shaped result fails iff loading failed, with the same error. On success it holds exactly the loaded splits and is well shaped. |
| Loading.Map | torchnlp/datasets/trec.py:67-71 | Mapping a parser over lines gives one result per line. MapAt gives each result. |
| Loading.MapAt | torchnlp/datasets/trec.py:67-71 | Mapping a parser over lines gives, at each index, the parse of the line at that index. |
| Trec.SplitOrder | torchnlp/datasets/trec.py:62-63 | The files read are the train file if requested, then the test file if requested, whatever the flags. |
| Trec.Repair | torchnlp/datasets/trec.py:69 | Replacing 0xF0 keeps the length and leaves no 0xF0 byte. Each 0xF0 becomes a space and every other byte is unchanged. |
| Trec.Strip | torchnlp/datasets/trec.py:69 | What strip leaves neither starts nor ends with ASCII whitespace. |
| Trec.StripLeadingSpace | torchnlp/datasets/trec.py:69 | A whitespace byte added in front does not change what strip leaves. |
| Trec.StripTrailingSpace | torchnlp/datasets/trec.py:69 | A whitespace byte added at the end does not change what strip leaves. |
| Trec.StripPadded | torchnlp/datasets/trec.py:69 | Strip gives back any middle without whitespace at its ends, whatever whitespace surrounds it. |
| Trec.Decode | torchnlp/datasets/trec.py:69 | Decoding ASCII bytes gives one character per byte, with the same code. DecodeEncode shows it inverts Encode. |
| Trec.DecodeEncode | torchnlp/datasets/trec.py:69 | Decoding the bytes of an ASCII string gives back the string. |
| Trec.Cleaned | torchnlp/datasets/trec.py:69 | The repaired, stripped and decoded line is ASCII, and neither starts nor ends with whitespace. |
| Trec.BadByteAtEndsVanishes | torchnlp/datasets/trec.py:68-69 | A 0xF0 byte at the start or end of a line leaves the cleaned line unchanged. |
| Trec.CleanedRoundTrip | torchnlp/datasets/trec.py:67-69 | Any whitespace-free-ended ASCII text, written out with any whitespace around it (such as the line feed), cleans back to itself. |
| Trec.Partition | torchnlp/datasets/trec.py:69-70 | Partition splits at the first separator. The head holds no separator. With a separator present, head + separator + tail is the input. Without one, the head is the whole input and the other parts are empty. |
| Trec.PartitionAt | torchnlp/datasets/trec.py:69-70 | Joining a separator-free head, the separator and any tail, then partitioning, gives those three parts back. |
| Trec.ParseText | torchnlp/datasets/trec.py:69-70 | The two partitions of a cleaned line. Their result is pinned down by ParseTextDescribes and ParseTextUnique: it is the one example that describes the line. |
| Trec.ParseLine | torchnlp/datasets/trec.py:69-71 | One line's record: the cleaned line, parsed. ParseLineRoundTrip shows that a line written from a record parses back to it. TextEndsClean shows that its text never ends with whitespace. |
| Trec.ParseTextDescribes | torchnlp/datasets/trec.py:69-70 | The parsed example describes the cleaned line. Neither label holds a space and the coarse label holds no colon. The line is `coarse:fine text`, `coarse text`, `coarse:fine` or `coarse`, depending on which separators it had. |
| Trec.ParseTextUnique | torchnlp/datasets/trec.py:69-70 | Any example that describes a cleaned line is the one the parser returns. Together with ParseTextDescribes, this fully characterises the parse. |
| Trec.ParseLineRoundTrip | torchnlp/datasets/trec.py:67-71 | Writing a line from the example's parts, with any whitespace around it, and parsing it gives the example back. |
| Trec.TextEndsClean | torchnlp/datasets/trec.py:69 | The question text of a parsed line never ends with whitespace. |
| Trec.TextMayStartWithSpace | torchnlp/datasets/trec.py:69 | With two spaces after the label token, the text keeps a leading space, because partition splits only at the first space. |
| Trec.MissingColonLikeEmptyFineLabel | torchnlp/datasets/trec.py:70 | A label token without a colon gives an empty fine label, the same as a token ending in a colon. |
| Trec.DocumentedExample | torchnlp/datasets/trec.py:48-53 | The documented line `DESC:manner How did serfdom ...` parses to coarse label DESC, fine label manner and the question after the first space. |
| Trec.Examples | torchnlp/datasets/trec.py:66-71 | A file gives exactly as many examples as it has lines. ExamplesAt gives each example. |
| Trec.ExamplesAt | torchnlp/datasets/trec.py:66-71 | A file gives exactly one example per line, and example i is the parse of line i. |
| Trec.ReadExamples | torchnlp/datasets/trec.py:66-71 | The line loop appends one parsed example per line and ends with the examples of the whole file. |
| Trec.ReadSplits | torchnlp/datasets/trec.py:64-72 | The split loop returns what LoadSplits specifies: the parsed files in order, or the error for the first missing file. |
| Trec.TrecDataset | torchnlp/datasets/trec.py:61-77 | The loader returns what Load specifies: the requested splits filtered, read and shaped. |
| Trec.Load | torchnlp/datasets/trec.py:61-77 | What the loader returns: the requested file names, read in order and shaped. It is pinned down by ReturnShape when every requested file exists, and by MissingSplit otherwise. |
| Trec.ReturnShape | torchnlp/datasets/trec.py:74-77 | When every requested file exists, the result is the bare examples of the one requested split. Otherwise it is the tuple of the requested splits in train, test order. Files of splits that were not requested may be missing. |
| Trec.TrainOnly | torchnlp/datasets/trec.py:62-67 | Asking for the training split alone needs only the training file, and returns its examples bare. |
| Trec.MissingSplit | torchnlp/datasets/trec.py:64-67 | A missing requested train file fails naming it. Otherwise a missing requested test file fails naming it. Otherwise loading succeeds. |
| PennTreebank.ReplaceUnknown | torchnlp/datasets/penn_treebank.py:69 | A line without `<unk>` is unchanged by the rewrite. |
| PennTreebank.ReplaceAtMarker | torchnlp/datasets/penn_treebank.py:69 | Rewriting text around a `<unk>` rewrites both sides independently and puts the unknown token in its place. This holds for any text before it, as in leftmost, non-overlapping `str.replace`. |
| PennTreebank.ReplaceWithMarker | torchnlp/datasets/penn_treebank.py:69 | Rewriting `<unk>` to itself changes nothing. |
| PennTreebank.NoMarkerAfterReplace | torchnlp/datasets/penn_treebank.py:69 | With a non-empty unknown token sharing no character with `<unk>`, the rewritten line holds no `<unk>`. |
| PennTreebank.Split | torchnlp/datasets/penn_treebank.py:69 | Every token of the whitespace split is non-empty and holds no whitespace. SplitPadded and SplitBlank determine the split fully. |
| PennTreebank.WordLengthBefore | torchnlp/datasets/penn_treebank.py:69 | A word runs up to the first whitespace character or the end of the line. |
| PennTreebank.SplitPadded | torchnlp/datasets/penn_treebank.py:69 | A run of whitespace of any length and kind before a word is skipped. The word becomes the first token, and the rest of the line splits on its own. With SplitBlank, this is all of `str.split()`. |
| PennTreebank.SplitKeepsText | torchnlp/datasets/penn_treebank.py:69 | Splitting drops exactly the whitespace: the tokens joined together are the line without its whitespace. |
| PennTreebank.SplitJoin | torchnlp/datasets/penn_treebank.py:69 | Words joined with single spaces split back into the same words. |
| PennTreebank.SplitNoMarker | torchnlp/datasets/penn_treebank.py:69 | A line without `<unk>` splits into no token equal to `<unk>`. |
| PennTreebank.LineTokens | torchnlp/datasets/penn_treebank.py:69 | Every token of a line, after the `<unk>` rewrite and the split, is non-empty and holds no whitespace. |
| PennTreebank.BlankLine | torchnlp/datasets/penn_treebank.py:69 | A blank or whitespace-only line gives no tokens. |
| PennTreebank.BlankLineGivesEos | torchnlp/datasets/penn_treebank.py:69-70 | A blank or whitespace-only line contributes exactly the end-of-sentence token. |
| PennTreebank.FileTokensOne | torchnlp/datasets/penn_treebank.py:69-70 | The chunk one line contributes is its tokens followed by one end-of-sentence token. |
| PennTreebank.FileTokensAppend | torchnlp/datasets/penn_treebank.py:68-70 | The tokens of two runs of lines are the tokens of the first followed by those of the second. With FileTokensOne, the output is the line chunks concatenated in line order. |
| PennTreebank.FileTokensLength | torchnlp/datasets/penn_treebank.py:69-70 | The output length is the total token count of the lines plus one per line. |
| PennTreebank.FileTokens | torchnlp/datasets/penn_treebank.py:66-71 | The output is empty iff the file has no lines. Otherwise it ends with the end-of-sentence token. |
| PennTreebank.NoMarkerToken | torchnlp/datasets/penn_treebank.py:68-70 | No output token equals `<unk>`, given an end-of-sentence token other than `<unk>` and an unknown token as in NoMarkerAfterReplace. |
| PennTreebank.ReadTokens | torchnlp/datasets/penn_treebank.py:66-70 | The line loop extends the list with each line's tokens, then the end-of-sentence token, and ends with the tokens of the whole file. |
| PennTreebank.SplitOrder | torchnlp/datasets/penn_treebank.py:62-63 | The files read are train, dev and test, each only if requested, always in that order. |
| PennTreebank.ReadSplits | torchnlp/datasets/penn_treebank.py:64-71 | The split loop returns what LoadSplits specifies with the tokenizer as the parser. |
| PennTreebank.PennTreebankDataset | torchnlp/datasets/penn_treebank.py:61-76 | The loader returns what Load specifies: the requested splits filtered, tokenized and shaped. |
| PennTreebank.Load | torchnlp/datasets/penn_treebank.py:61-76 | What the loader returns: the requested file names, tokenized in order and shaped. It is pinned down by ReturnShape when every requested file exists, and by MissingSplit otherwise. |
| PennTreebank.ReturnShape | torchnlp/datasets/penn_treebank.py:73-76 | When every requested file exists, the result is the bare token list of the one requested split. Otherwise it is the tuple of the requested splits in train, dev, test order. Files of splits that were not requested may be missing. |
| PennTreebank.TrainOnly | torchnlp/datasets/penn_treebank.py:62-67 | Asking for the training split alone needs only the training file, and returns its token list bare. |
| PennTreebank.MissingSplit | torchnlp/datasets/penn_treebank.py:64-67 | The first requested split whose file is missing, in train, dev, test order, names the error. With none missing, loading succeeds. |

## Left out

- Downloading (`download_urls`, `torchnlp/datasets/trec.py:59`, `torchnlp/datasets/penn_treebank.py:59`): network and file-system effects. The download helper is not part of this model. The files are taken as already present, or absent, in the directory map.
- Opening files and joining paths (`open`, `io.open`, `os.path.join`): the directory is a map from file name to the file's lines. A missing name stands for the exception that opening the file raises.
- Splitting a file into lines: each file is given as its sequence of lines. Python's universal-newline handling is not modelled.
- UTF-8 decoding: TREC lines are restricted to ASCII bytes plus `0xF0`, the one malformed byte the source comments on, so decoding after the repair is one character per byte. Penn Treebank lines are taken as already-decoded strings. Decoding errors are not modelled.
- The `Dataset` container (`torchnlp/datasets/dataset.py`, not part of this model): a TREC split is a plain sequence of example records.
- The values of `UNKNOWN_TOKEN` and `EOS_TOKEN` (`torchnlp/text_encoders`, not part of this model): both are parameters.
- The default `urls` lists, default file names and docstrings: configuration, no logic.
- PennTreebank.NoMarkerToken: proved only when the unknown token is non-empty and shares no character with `<unk>`, and the end-of-sentence token is not `<unk>`. This condition is sufficient, not necessary. Some tokens that share characters with `<unk>` can never produce it either, such as `<unknown>`. The claim fails for some tokens outside the condition: an unknown token `<unk>` leaves the marker in place (ReplaceWithMarker), and the token `k>` turns `<un<unk>` into `<unk>`.
- Trec.TextEndsClean: states only that the text has no trailing whitespace. The text can start with whitespace when the label token is followed by more than one space (TextMayStartWithSpace). Stripping happens before the partition, not after it.
