# DualMatReader frame extraction, in Dafny

A model of the serial-reading core of the TestMat Unity project. The
component is `DualMatReader`. Two pressure mats each stream lines of text.
Every frame, the component appends what each port has delivered to that
side's text buffer. It then picks out the newest 4x4 block of numbers and
writes it into the side's `int[4,4]` matrix, cell by cell. The model also
covers how `Update` supervises both ports: the byte counters, and opening
and reopening the left port. Last, it covers the index remap that
`Mat2DVisualizer` applies before it draws a matrix: flip the rows, flip the
columns, transpose.

The files:

- `textops.dfy` (module `TextOps`) holds the three .NET string operations
  the reader uses, as pure functions:
  - `String.Trim()`, with the full `Char.IsWhiteSpace` set;
  - `String.Split('\n')`, which keeps empty entries;
  - `String.Split({'\t', ' '}, RemoveEmptyEntries)`.

  Each comes with its inverse or its characterisation: join after split is
  the text, split after join is the lines, and so on.
- `int32parse.dfy` (module `Int32Parse`) holds `int.TryParse` with
  `NumberStyles.Integer`. It accepts optional white space, an optional
  sign, decimal digits and a value within the 32-bit range. The module
  also holds the decimal formatting that it inverts.
- `grids.dfy` (module `Grids`) holds the 4x4 matrix, both as a value and as
  a snapshot of an `array2<int>`.
- `frameextraction.dfy` (module `FrameExtraction`) gives what one
  `ReadOneMat` call does to one channel, as a pure function `Process`. A
  channel is its buffer, its matrix and its debug copy. The properties of
  `Process` are proved here as lemmas.
- `dualmat.dfy` (module `DualMat`) holds the class `DualMatReader`, with
  the fields of the C# class.
  - `ReadOneMat`, `Update` and `Start` update those fields in place.
  - `ReadOneMat` keeps the source's loops: it collects the data lines into
    a list, then writes the matrix cell by cell.
  - `ReadOneMat`, `ExtractFrame`, `Update`, `PollLeft` and `PollRight` are
    proved against `Process` and `Extract`. `CollectDataLines`, `WriteRows`
    and `WriteRow` are proved against the functions behind them: `DataLines`,
    `UpdateGrid` and `TryParse`. `Start`, `StoreBuffer` and `StoreLastRaw`
    state their new fields directly.
- `matremap.dfy` (module `MatRemap`) holds the remap loop of
  `UpdateMatVisualization`. It is a method that fills a fresh
  `array2<int>`, proved against a pure function of the source matrix.
- `options.dfy` holds the `Option` type that `TryParse` returns.

What the code does, and so what the model does:

- A line is data when, after `Trim`, it has four or more tokens split on
  tab or space. Not exactly four, and the tokens need not be integers.
  `TokenLineIsData` shows that a status line with four or more words is
  kept, for example "Touched cells: 1 2".
- There is no search for a consecutive run of lines and no resync. The
  matrix takes the last four data lines anywhere in the buffer.
- The matrix is updated in place, cell by cell. A token that does not parse
  leaves that cell's old value. There is no all-or-nothing frame.
- After an update, the buffer keeps its last 100 characters, or none when
  it is 100 characters or shorter. The block is not consumed, and there is
  no 200-character fallback. The debug copy is the last 200 characters of
  that new buffer, so it always equals the new buffer.

## Model

| member | source | states |
|---|---|---|
| TextOps.Trim | TestMat/Assets/Scripts/DualMatReader.cs:172 | `String.Trim()` over the full `Char.IsWhiteSpace` set. The function's own contract only bounds the length; TrimEnds, TrimIsInfix and TrimOfPadded characterise it |
| TextOps.TrimEnds | TestMat/Assets/Scripts/DualMatReader.cs:172 | A trimmed line is empty, or starts and ends with a character that is not white space |
| TextOps.TrimIsInfix | TestMat/Assets/Scripts/DualMatReader.cs:172 | Trim keeps one contiguous middle part of the line, and everything it removed before and after it is white space |
| TextOps.TrimOfPadded | TestMat/Assets/Scripts/DualMatReader.cs:172 | The converse: white space around a text whose two ends are not white space is removed, and the text comes back exactly |
| TextOps.TrimIdempotent | TestMat/Assets/Scripts/DualMatReader.cs:172 | Trimming a trimmed line changes nothing |
| TextOps.StripIsInfix | TestMat/Assets/Scripts/DualMatReader.cs:172 | The same for either kind of blank (Trim's white space, or TryParse's leading and trailing white) |
| TextOps.SplitLines | TestMat/Assets/Scripts/DualMatReader.cs:166 | Splitting on '\n' gives at least one line, and no line contains '\n' |
| TextOps.JoinSplitLines | TestMat/Assets/Scripts/DualMatReader.cs:166 | Joining the lines with '\n' gives the buffer back: nothing is lost and empty entries are kept |
| TextOps.SplitJoinLines | TestMat/Assets/Scripts/DualMatReader.cs:166 | Splitting lines that contain no '\n', joined with '\n', gives exactly those lines back |
| TextOps.SplitLinesConcat | TestMat/Assets/Scripts/DualMatReader.cs:166 | Two texts joined at a '\n' split into the lines of the first, then the lines of the second |
| TextOps.Tokens | TestMat/Assets/Scripts/DualMatReader.cs:175 | The split on tab and space with empty entries removed. Its own contract only bounds the count by the length; the lemmas below characterise it |
| TextOps.TokensAreTokens | TestMat/Assets/Scripts/DualMatReader.cs:175 | Every token is non-empty and holds no tab or space |
| TextOps.TokensOfJoin | TestMat/Assets/Scripts/DualMatReader.cs:175 | Splitting tokens joined by single tabs or spaces gives back exactly those tokens, in order |
| TextOps.TokensConcat | TestMat/Assets/Scripts/DualMatReader.cs:175 | Text followed by nothing, or by text that starts with a separator, splits into its own tokens, then those of what follows |
| TextOps.TokensAtSeparator | TestMat/Assets/Scripts/DualMatReader.cs:175 | Any tab or space splits the text into the tokens on its left, then those on its right. So runs of separators, and separators at either end, give no empty token |
| TextOps.TokensOfSeparators | TestMat/Assets/Scripts/DualMatReader.cs:175 | Text made only of tabs and spaces has no token |
| TextOps.TokensOfToken | TestMat/Assets/Scripts/DualMatReader.cs:175 | A token on its own splits into exactly itself |
| Int32Parse.TryParse | TestMat/Assets/Scripts/DualMatReader.cs:196-197 | A successful parse gives a value in the signed 32-bit range |
| Int32Parse.ParseFormat | TestMat/Assets/Scripts/DualMatReader.cs:197 | Every 32-bit value, written in decimal, parses back to itself |
| Int32Parse.ParseOverflow | TestMat/Assets/Scripts/DualMatReader.cs:197 | A string of digits, leading zeros allowed, whose value exceeds 2147483647 does not parse, bare or after '+'. After '-' it does not parse once its value exceeds 2147483648 |
| Int32Parse.ParseNeedsDigit | TestMat/Assets/Scripts/DualMatReader.cs:197 | A string with no decimal digit does not parse |
| FrameExtraction.Tail | TestMat/Assets/Scripts/DualMatReader.cs:214 | `Substring(Length - n)` when longer than n, otherwise the text: the length is min(n, length) |
| FrameExtraction.SuffixOfTail | TestMat/Assets/Scripts/DualMatReader.cs:228 | What Tail keeps is the end of the text |
| FrameExtraction.DataLines | TestMat/Assets/Scripts/DualMatReader.cs:169-181 | The list the classification loop builds, with IsDataLine as the test (trimmed, non-empty, four or more tokens). Its own contract says only that it keeps at most as many lines as it is given; DataLinesMember and the lemmas below characterise it |
| FrameExtraction.DataLinesMember | TestMat/Assets/Scripts/DualMatReader.cs:170-181 | Both directions: a string is kept exactly when it is the trimmed form of a line that, trimmed, is non-empty and has at least four tokens |
| FrameExtraction.DataLinesTokens | TestMat/Assets/Scripts/DualMatReader.cs:176-178 | Every kept line has at least four tokens |
| FrameExtraction.DataLinesAppend | TestMat/Assets/Scripts/DualMatReader.cs:170-181 | Classifying two runs of lines one after the other gives the kept lines of the first, then those of the second |
| FrameExtraction.DataLinesOfNoise | TestMat/Assets/Scripts/DualMatReader.cs:170-181 | Lines none of which is data contribute nothing |
| FrameExtraction.DataLinesOfData | TestMat/Assets/Scripts/DualMatReader.cs:170-181 | Lines that are all data are all kept, each trimmed, in order |
| FrameExtraction.TokenLineIsData | TestMat/Assets/Scripts/DualMatReader.cs:172-178 | Any line of four or more words, numeric or not, is a data line and is kept unchanged |
| FrameExtraction.LastFour | TestMat/Assets/Scripts/DualMatReader.cs:186 | The four selected rows are data lines count-4 .. count-1, in order |
| FrameExtraction.ExtraTokensIgnored | TestMat/Assets/Scripts/DualMatReader.cs:191-200 | Whatever follows a row of four or more tokens, after a tab or a space, changes none of the row's four cells |
| FrameExtraction.NewestFrameWins | TestMat/Assets/Scripts/DualMatReader.cs:184-200 | Freshness: with four data lines followed only by non-data lines, those four alone give the matrix rows, in order; older lines never contribute |
| FrameExtraction.UpdateGrid | TestMat/Assets/Scripts/DualMatReader.cs:189-201 | The matrix after the parse loops: cell (r, c) is CellAfter of the old cell and line r. Its own contract says only that the result is a 4x4 grid; CellOverwrittenOnlyOnParse and WriteRows state what it means |
| FrameExtraction.CellOverwrittenOnlyOnParse | TestMat/Assets/Scripts/DualMatReader.cs:189-201 | Cell (r, c) takes token c of selected line r when that token parses, and otherwise keeps its old value |
| FrameExtraction.FrameAccepted | TestMat/Assets/Scripts/DualMatReader.cs:210-232 | After an update the buffer is its last 100 characters, or "" when it is 100 characters or shorter, and the debug copy equals it |
| FrameExtraction.FrameRejected | TestMat/Assets/Scripts/DualMatReader.cs:243-255 | With fewer than four data lines the matrix and the debug copy are unchanged; the buffer is kept whole, or becomes its last 1000 characters when longer than 2000 |
| FrameExtraction.Extract | TestMat/Assets/Scripts/DualMatReader.cs:164-255 | ReadOneMat on a channel whose buffer already holds the new text. Its contract says only that the matrix stays 4x4; FrameAccepted and FrameRejected state both branches |
| FrameExtraction.Process | TestMat/Assets/Scripts/DualMatReader.cs:145-255 | One ReadOneMat call on a channel whose port is open. Its contract says only that the matrix stays 4x4; ProcessBuffer, FrameAccepted, FrameRejected, CellOverwrittenOnlyOnParse and NewestFrameWins state what it does |
| FrameExtraction.ProcessBuffer | TestMat/Assets/Scripts/DualMatReader.cs:145-156 | No bytes means no change at all. Otherwise the buffer left is an end part of the old buffer plus the new text, and at most 2000 characters long |
| DualMat.Wrap32 | TestMat/Assets/Scripts/DualMatReader.cs:99 | C#'s unchecked int addition: the result is in the 32-bit range, congruent modulo 2^32, and exact when no overflow occurs |
| DualMat.Counted | TestMat/Assets/Scripts/DualMatReader.cs:96-99 | A data tick raises the counter by exactly BytesToRead when that does not overflow; other ticks leave it alone |
| DualMat.TryOpen | TestMat/Assets/Scripts/DualMatReader.cs:63-86 | An empty name gives null without an attempt; otherwise the result is an open port on that name when opening succeeds, and null when it throws |
| DualMat.DualMatReader.constructor | TestMat/Assets/Scripts/DualMatReader.cs:21-36 | Field initialisers: no ports, two distinct zero matrices, zero counters, empty buffers and debug copies |
| DualMat.DualMatReader.Start | TestMat/Assets/Scripts/DualMatReader.cs:38-41 | Both handles are the results of TryOpen on the configured names |
| DualMat.DualMatReader.ReadOneMat | TestMat/Assets/Scripts/DualMatReader.cs:135-265 | On an open port the channel becomes Process of the old channel. Nothing of the other side changes. With no port, or no bytes, nothing changes at all |
| DualMat.DualMatReader.StoreBuffer | TestMat/Assets/Scripts/DualMatReader.cs:159-162 | Only the named side's buffer is written |
| DualMat.DualMatReader.StoreLastRaw | TestMat/Assets/Scripts/DualMatReader.cs:229-232 | Only the named side's debug copy is written |
| DualMat.DualMatReader.ExtractFrame | TestMat/Assets/Scripts/DualMatReader.cs:164-255 | The new buffer, matrix and debug copy are Extract of the buffer with the new text |
| DualMat.DualMatReader.CollectDataLines | TestMat/Assets/Scripts/DualMatReader.cs:166-181 | The list the loop builds is exactly the data lines of the buffer, trimmed, in order |
| DualMat.DualMatReader.WriteRows | TestMat/Assets/Scripts/DualMatReader.cs:189-208 | The matrix becomes UpdateGrid of the old matrix and the four rows |
| DualMat.DualMatReader.WriteRow | TestMat/Assets/Scripts/DualMatReader.cs:194-201 | Each cell of row r takes its token's value when it parses and keeps its value otherwise; no other row changes |
| DualMat.DualMatReader.Update | TestMat/Assets/Scripts/DualMatReader.cs:91-133 | Each open port that reports bytes gets its counter raised and its channel processed, and the other channel stays as it was. The left handle changes only when it is null, its name is non-empty and the frame count is a multiple of 300. The right port is never reopened |
| DualMat.DualMatReader.PollLeft | TestMat/Assets/Scripts/DualMatReader.cs:93-121 | The left half of Update, and the right side's fields unchanged |
| DualMat.DualMatReader.PollRight | TestMat/Assets/Scripts/DualMatReader.cs:123-132 | The right half of Update, and the left side's fields unchanged |
| MatRemap.SourceIndex | TestMat/Assets/Scripts/Mat2DVisualizer.cs:210-211 | `flip ? 3 - i : i` stays in 0..3 for i in 0..3 |
| MatRemap.SourceIndexInvolution | TestMat/Assets/Scripts/Mat2DVisualizer.cs:210-211 | Mirroring an index twice gives it back |
| MatRemap.SourceCell | TestMat/Assets/Scripts/Mat2DVisualizer.cs:210-220 | The source cell read for each target cell lies within the 4x4 matrix |
| MatRemap.Remapped | TestMat/Assets/Scripts/Mat2DVisualizer.cs:203-222 | The copy the loop builds, as a value. Its own contract says only that it is a 4x4 grid; RemappedCell, RemapIdentity, RemapInverse and RemapPermutes state what it means |
| MatRemap.Remap | TestMat/Assets/Scripts/Mat2DVisualizer.cs:202-222 | The fresh workingData is Remapped of matData; matData is only read (the method modifies nothing that already exists) |
| MatRemap.RemapIdentity | TestMat/Assets/Scripts/Mat2DVisualizer.cs:206-222 | With all three flags false the copy equals the matrix |
| MatRemap.RemappedCell | TestMat/Assets/Scripts/Mat2DVisualizer.cs:213-220 | A cell (row, col) of the copy is matData[sourceCol, sourceRow] when transposing and matData[sourceRow, sourceCol] otherwise, with both indices in 0..3 |
| MatRemap.TargetCell | TestMat/Assets/Scripts/Mat2DVisualizer.cs:203-222 | The cell a source cell is copied to lies within the 4x4 matrix |
| MatRemap.SourceCellBijective | TestMat/Assets/Scripts/Mat2DVisualizer.cs:203-222 | SourceCell and TargetCell undo each other, so every source cell is read exactly once |
| MatRemap.RemapInverse | TestMat/Assets/Scripts/Mat2DVisualizer.cs:203-222 | Flipping the copy again gives the matrix back; a transposed copy transposed again, with the two flips exchanged, gives it back too |
| MatRemap.TransposeThenFlip | TestMat/Assets/Scripts/Mat2DVisualizer.cs:213-220 | Transposing with flips equals flipping the plain transpose |
| MatRemap.RemapPermutes | TestMat/Assets/Scripts/Mat2DVisualizer.cs:203-222 | The copy holds the same multiset of 16 values as the matrix |

## Left out

- The serial port is abstract. A handle is null, or a port that is open or closed. Whether an open attempt succeeds is a boolean parameter. The rest is not modelled: `SerialPort` construction, `Open`, `Read`, `ReadTimeout`, the DTR reset with `Thread.Sleep` in `Start`, and `Close` in `OnApplicationQuit`. They are library calls into the device driver.
- `BytesToRead` is read twice, once in `Update` and again in `ReadOneMat`. The model gives the two readings as two independent numbers (`Arrival.announced`, `Arrival.available`), because the port may deliver more bytes in between.
- The UTF-8 decoding of the bytes read is not modelled. `ReadOneMat` receives the decoded text as `newData`.
- DualMat.DualMatReader.Update: does not model an exception from `BytesToRead` (DualMatReader.cs:96 and :126). Those two reads have no handler around them. When the left one throws, the rest of that `Update` is skipped, the right port's poll included. The model has no exceptions and always runs both halves.
- String lengths count Unicode scalar values, because a Dafny `char` is one. C#'s `Length` and `Substring` count UTF-16 code units. The two agree for text with no character above U+FFFF. Above that, the 100, 200, 1000 and 2000 character thresholds and cuts (DualMatReader.cs:212-214, 228, 247-249) fall at different places. A C# cut can also split a surrogate pair, which a Dafny string cannot hold.
- The exception handlers of `ReadOneMat` are not modelled. A read that times out or throws is outside the model, because the port's failures are not part of its state.
- Logging, the 2-second status log driven by `Time.time`, and the `OnGUI` overlay are left out as presentation only.
- `Time.frameCount` is the parameter `frameCount` of `Update`.
- Null strings are not modelled. `string.IsNullOrEmpty` becomes a test for "", because Dafny strings have no null.
- DualMat.DualMatReader.ReadOneMat takes the side as the type `Side` (`Left` or `Right`), not as a string. The only strings `Update` ever passes are "Left" and "Right", and "Right" selects the same branches as any string other than "Left".
- DualMat.DualMatReader.ReadOneMat writes the buffer and the debug copy once more at the end, in both branches. With fewer than four data lines the source writes the buffer only when it cuts it, and never writes the debug copy. The model's extra writes store the values already there, so the final state is the one the code leaves.
- DualMat.Counted: "the counter never decreases" is stated only while the sum stays within the 32-bit range. Past that, the C# `int` wraps to negative values, and `Wrap32` models that wrap.
- Int32Parse.TryParse: the current culture's sign strings are taken to be "+" and "-", and the trailing U+0000 characters that .NET also accepts are not modelled.
- MatRemap.Remap takes `flipRows`, `flipCols` and `transposeMatrix` as parameters. In the source they are fields of the visualizer, which the remap only reads.
- The rest of `UpdateMatVisualization` is not modelled: colours, thresholds, animation, pulse, scale and fonts. It is floating-point presentation code. The visualizer's UI construction, the editor script `MatSceneSetup` and the `SerialPortFinder` port listing are not part of this model either.
