/**
 * What one call of `DualMatReader.ReadOneMat` computes for one channel, as
 * a pure function of the channel's state and the text just read: append
 * the text to the buffer, split it into lines, keep the trimmed lines that
 * have at least four tab/space separated tokens, take the last four of
 * them as the rows of a new matrix (cell by cell, only where the token
 * parses), and shrink the buffer.
 */
module FrameExtraction {
  import opened Options
  import opened TextOps
  import opened Int32Parse
  import opened Grids

  /** A line is data when it has at least this many tokens. */
  const MinTokens: int := 4
  /** Characters kept from the buffer after a matrix update. */
  const KeepAfterFrame: nat := 100
  /** Without an update, a buffer longer than this is cut ... */
  const MaxBuffer: nat := 2000
  /** ... to this many trailing characters. */
  const KeepOnOverflow: nat := 1000
  /** Length of the debug copy of the buffer. */
  const RawDebugLength: nat := 200

  /** The state ReadOneMat works on for one side. */
  datatype Channel = Channel(buffer: string, grid: Grid, lastRaw: string)

  predicate IsSuffix(r: string, s: string) {
    |r| <= |s| && s[|s| - |r|..] == r
  }

  /** The last `n` characters of `s`, or all of `s` when it is not longer than that. */
  function Tail(s: string, n: nat): (r: string)
    ensures |r| == if |s| < n then |s| else n
  {
    if |s| > n then s[|s| - n..] else s
  }

  /** What Tail keeps is the end of `s`. */
  lemma SuffixOfTail(s: string, n: nat)
    ensures IsSuffix(Tail(s, n), s)
  {
  }

  /** The test a line of the buffer must pass to be kept as a matrix row. */
  predicate IsDataLine(line: string) {
    var t := Trim(line);
    t != "" && |Tokens(t)| >= MinTokens
  }

  /** The trimmed data lines among `lines`, in their order. */
  function DataLines(lines: seq<string>): (d: seq<string>)
    ensures |d| <= |lines|
  {
    if lines == [] then []
    else
      var last := lines[|lines| - 1];
      DataLines(lines[..|lines| - 1]) + (if IsDataLine(last) then [Trim(last)] else [])
  }

  /** The data lines of a buffer, in the order they were received. */
  function BufferDataLines(buffer: string): seq<string> {
    DataLines(SplitLines(buffer))
  }

  /** Cell `c` of a row after parsing `line`: the parsed token, or the previous value. */
  function CellAfter(previous: int, line: string, c: nat): int
    requires c < Size
  {
    var tokens := Tokens(line);
    if |tokens| >= MinTokens then TryParse(tokens[c]).GetOr(previous) else previous
  }

  /** The matrix after the four selected lines have been parsed into it. */
  function UpdateGrid(g: Grid, rows: seq<string>): (u: Grid)
    requires IsGrid(g) && |rows| == Size
    ensures IsGrid(u)
  {
    seq(Size, r requires 0 <= r < Size =>
      seq(Size, c requires 0 <= c < Size => CellAfter(g[r][c], rows[r], c)))
  }

  /** The last four data lines: the rows of the next matrix. */
  function LastFour(valid: seq<string>): (rows: seq<string>)
    requires |valid| >= Size
    ensures |rows| == Size
    ensures forall r :: 0 <= r < Size ==> rows[r] == valid[|valid| - Size + r]
  {
    valid[|valid| - Size..]
  }

  /**
   * Frame extraction on a channel whose buffer already holds the new text:
   * with at least four data lines the last four are parsed into the matrix
   * and the buffer shrinks to its last 100 characters (or to nothing);
   * otherwise only a buffer over 2000 characters is cut to its last 1000.
   */
  function Extract(ch: Channel): (next: Channel)
    requires IsGrid(ch.grid)
    ensures IsGrid(next.grid)
  {
    var valid := BufferDataLines(ch.buffer);
    if |valid| >= Size then
      var kept := if |ch.buffer| > KeepAfterFrame then Tail(ch.buffer, KeepAfterFrame) else "";
      Channel(kept, UpdateGrid(ch.grid, LastFour(valid)), Tail(kept, RawDebugLength))
    else if |ch.buffer| > MaxBuffer then
      Channel(Tail(ch.buffer, KeepOnOverflow), ch.grid, ch.lastRaw)
    else
      ch
  }

  /** One call of ReadOneMat on one channel whose port is open. */
  function Process(ch: Channel, bytesAvailable: int, newData: string): (next: Channel)
    requires IsGrid(ch.grid)
    ensures IsGrid(next.grid)
  {
    if bytesAvailable <= 0 then ch
    else Extract(ch.(buffer := ch.buffer + newData))
  }

  /**
   * No bytes, no change; otherwise the buffer that remains is a suffix of
   * the old buffer followed by the new text, and at most 2000 characters long.
   */
  lemma ProcessBuffer(ch: Channel, bytesAvailable: int, newData: string)
    requires IsGrid(ch.grid)
    ensures var next := Process(ch, bytesAvailable, newData);
            && (bytesAvailable <= 0 ==> next == ch)
            && (bytesAvailable > 0 ==> |next.buffer| <= MaxBuffer && IsSuffix(next.buffer, ch.buffer + newData))
  {
    if bytesAvailable > 0 {
      var buffer := ch.buffer + newData;
      if |BufferDataLines(buffer)| >= Size && |buffer| > KeepAfterFrame {
        SuffixOfTail(buffer, KeepAfterFrame);
      } else if |BufferDataLines(buffer)| < Size && |buffer| > MaxBuffer {
        SuffixOfTail(buffer, KeepOnOverflow);
      }
    }
  }

  // ---------------------------------------------------------------------
  // Line classification

  lemma {:induction false} DataLinesAppend(xs: seq<string>, ys: seq<string>)
    ensures DataLines(xs + ys) == DataLines(xs) + DataLines(ys)
    decreases |ys|
  {
    if ys == [] {
      assert xs + ys == xs;
    } else {
      var ys' := ys[..|ys| - 1];
      assert (xs + ys)[..|xs + ys| - 1] == xs + ys';
      assert (xs + ys)[|xs + ys| - 1] == ys[|ys| - 1];
      DataLinesAppend(xs, ys');
    }
  }

  /** A line list with no data line contributes nothing. */
  lemma {:induction false} DataLinesOfNoise(lines: seq<string>)
    requires forall i :: 0 <= i < |lines| ==> !IsDataLine(lines[i])
    ensures DataLines(lines) == []
    decreases |lines|
  {
    if lines != [] {
      DataLinesOfNoise(lines[..|lines| - 1]);
    }
  }

  /** Some line of `lines` is a data line whose trimmed form is `x`. */
  predicate HasDataLine(lines: seq<string>, x: string) {
    exists i :: 0 <= i < |lines| && IsDataLine(lines[i]) && Trim(lines[i]) == x
  }

  /** Every kept string comes from some data line. */
  lemma {:induction false} DataLineOrigin(lines: seq<string>, x: string)
    ensures x in DataLines(lines) ==> HasDataLine(lines, x)
    decreases |lines|
  {
    if lines != [] {
      var init, last := lines[..|lines| - 1], lines[|lines| - 1];
      var own := if IsDataLine(last) then [Trim(last)] else [];
      assert DataLines(lines) == DataLines(init) + own;
      DataLineOrigin(init, x);
      if x in DataLines(init) {
        var i :| 0 <= i < |init| && IsDataLine(init[i]) && Trim(init[i]) == x;
        assert lines[i] == init[i];
      } else if x in own {
        assert IsDataLine(lines[|lines| - 1]) && Trim(lines[|lines| - 1]) == x;
      }
    }
  }

  /** Every kept line has at least four tokens. */
  lemma {:induction false} DataLinesTokens(lines: seq<string>)
    ensures forall i :: 0 <= i < |DataLines(lines)| ==> |Tokens(DataLines(lines)[i])| >= MinTokens
    decreases |lines|
  {
    if lines != [] {
      var init, last := lines[..|lines| - 1], lines[|lines| - 1];
      DataLinesTokens(init);
      var own := if IsDataLine(last) then [Trim(last)] else [];
      assert DataLines(lines) == DataLines(init) + own;
      forall i | 0 <= i < |DataLines(lines)| ensures |Tokens(DataLines(lines)[i])| >= MinTokens {
        if i < |DataLines(init)| {
          assert DataLines(lines)[i] == DataLines(init)[i];
        } else {
          assert DataLines(lines)[i] == Trim(last);
        }
      }
    }
  }

  /** Every data line is kept, trimmed. */
  lemma SplitAround(lines: seq<string>, i: nat)
    requires i < |lines|
    ensures lines == lines[..i] + [lines[i]] + lines[i + 1..]
  {
  }

  lemma DataLineKept(lines: seq<string>, i: nat)
    requires i < |lines| && IsDataLine(lines[i])
    ensures Trim(lines[i]) in DataLines(lines)
  {
    var pre, line, post := lines[..i], lines[i], lines[i + 1..];
    SplitAround(lines, i);
    DataLinesAppend(pre + [line], post);
    DataLinesAppend(pre, [line]);
    assert DataLines([line]) == [Trim(line)] by {
      assert [line][..0] == [];
    }
  }

  /**
   * The classification of lines, both ways: a string is kept exactly when it
   * is the trimmed form of a line that, trimmed, is non-empty and has at
   * least four tokens.
   */
  lemma DataLinesMember(lines: seq<string>, x: string)
    ensures x in DataLines(lines) <==> HasDataLine(lines, x)
  {
    DataLineOrigin(lines, x);
    if HasDataLine(lines, x) {
      var i :| 0 <= i < |lines| && IsDataLine(lines[i]) && Trim(lines[i]) == x;
      DataLineKept(lines, i);
    }
  }

  /**
   * Tokens after the fourth play no part: whatever follows a row with four
   * or more tokens, after any tab or space, changes none of its four cells.
   */
  lemma ExtraTokensIgnored(previous: int, line: string, sep: char, rest: string, c: nat)
    requires IsSeparator(sep) && |Tokens(line)| >= MinTokens && c < Size
    ensures CellAfter(previous, line + [sep] + rest, c) == CellAfter(previous, line, c)
  {
    TokensAtSeparator(line, sep, rest);
  }

  // ---------------------------------------------------------------------
  // What one call does to the channel

  /**
   * With four or more data lines the last four are parsed into the matrix,
   * and the buffer keeps only its last 100 characters (none at all when it
   * is not longer than that); the debug copy equals the new buffer.
   */
  lemma FrameAccepted(ch: Channel, bytesAvailable: int, newData: string)
    requires IsGrid(ch.grid) && bytesAvailable > 0
    requires |BufferDataLines(ch.buffer + newData)| >= Size
    ensures var buffer, next := ch.buffer + newData, Process(ch, bytesAvailable, newData);
            && (|buffer| > KeepAfterFrame ==> |next.buffer| == KeepAfterFrame && IsSuffix(next.buffer, buffer))
            && (|buffer| <= KeepAfterFrame ==> next.buffer == "")
            && next.lastRaw == next.buffer
  {
  }

  /**
   * With fewer than four data lines the matrix and the debug copy are left
   * alone, and the buffer is kept whole unless it is longer than 2000
   * characters, in which case only its last 1000 remain.
   */
  lemma FrameRejected(ch: Channel, bytesAvailable: int, newData: string)
    requires IsGrid(ch.grid) && bytesAvailable > 0
    requires |BufferDataLines(ch.buffer + newData)| < Size
    ensures var buffer, next := ch.buffer + newData, Process(ch, bytesAvailable, newData);
            && next.grid == ch.grid && next.lastRaw == ch.lastRaw
            && (|buffer| > MaxBuffer ==> next.buffer == buffer[|buffer| - KeepOnOverflow..])
            && (|buffer| <= MaxBuffer ==> next.buffer == buffer)
  {
  }

  /**
   * A cell changes only through a successful parse: cell (r, c) takes the
   * value of token c of the r-th selected line when that token parses, and
   * otherwise keeps its old value.
   */
  lemma CellOverwrittenOnlyOnParse(ch: Channel, bytesAvailable: int, newData: string, r: nat, c: nat)
    requires IsGrid(ch.grid) && bytesAvailable > 0 && r < Size && c < Size
    requires |BufferDataLines(ch.buffer + newData)| >= Size
    ensures var valid := BufferDataLines(ch.buffer + newData);
            var tokens := Tokens(valid[|valid| - Size + r]);
            var cell := Process(ch, bytesAvailable, newData).grid[r][c];
            && |tokens| >= MinTokens
            && (TryParse(tokens[c]).Some? ==> cell == TryParse(tokens[c]).value)
            && (TryParse(tokens[c]).None? ==> cell == ch.grid[r][c])
  {
    var valid := BufferDataLines(ch.buffer + newData);
    DataLinesTokens(SplitLines(ch.buffer + newData));
    assert |Tokens(valid[|valid| - Size + r])| >= MinTokens;
  }

  lemma {:induction false} DataLinesOfData(lines: seq<string>)
    requires forall i :: 0 <= i < |lines| ==> IsDataLine(lines[i])
    ensures |DataLines(lines)| == |lines|
    ensures forall i :: 0 <= i < |lines| ==> DataLines(lines)[i] == Trim(lines[i])
    decreases |lines|
  {
    if lines != [] {
      var init := lines[..|lines| - 1];
      DataLinesOfData(init);
      var kept, last := DataLines(init), Trim(lines[|lines| - 1]);
      var d := kept + [last];
      assert DataLines(lines) == d;
      forall i | 0 <= i < |lines| ensures d[i] == Trim(lines[i]) {
        if i < |init| {
          assert init[i] == lines[i];
          assert d[i] == kept[i] == Trim(init[i]);
        } else {
          assert i == |lines| - 1;
          assert d[i] == last;
        }
      }
    }
  }

  /**
   * Freshness: when the buffer's lines are some older lines, then a stretch
   * holding exactly four data lines, then lines none of which is data, the
   * matrix rows come from those four data lines alone, in order; nothing in
   * the older lines, whatever it is, reaches the matrix.
   */
  lemma NewestFrameWins(ch: Channel, bytesAvailable: int, newData: string,
                        older: seq<string>, frame: seq<string>, trailer: seq<string>)
    requires IsGrid(ch.grid) && bytesAvailable > 0
    requires SplitLines(ch.buffer + newData) == older + frame + trailer
    requires |DataLines(frame)| == Size
    requires forall i :: 0 <= i < |trailer| ==> !IsDataLine(trailer[i])
    ensures |BufferDataLines(ch.buffer + newData)| >= Size
    ensures LastFour(BufferDataLines(ch.buffer + newData)) == DataLines(frame)
    ensures forall r, c :: 0 <= r < Size && 0 <= c < Size ==>
              Process(ch, bytesAvailable, newData).grid[r][c] == CellAfter(ch.grid[r][c], DataLines(frame)[r], c)
  {
    DataLinesAppend(older + frame, trailer);
    DataLinesAppend(older, frame);
    DataLinesOfNoise(trailer);
    var valid := BufferDataLines(ch.buffer + newData);
    assert valid == DataLines(older) + DataLines(frame);
    assert LastFour(valid) == DataLines(frame);
  }

  /** A token that neither starts nor ends with white space. */
  predicate IsWord(t: string) {
    IsToken(t) && !IsWhiteSpace(t[0]) && !IsWhiteSpace(t[|t| - 1])
  }

  /**
   * A line made of four or more words, whatever they are (numbers or not),
   * is a data line, and Trim leaves it as it is.
   */
  lemma TokenLineIsData(ts: seq<string>, sep: char)
    requires IsSeparator(sep) && |ts| >= MinTokens
    requires forall i :: 0 <= i < |ts| ==> IsWord(ts[i])
    ensures IsDataLine(JoinTokens(ts, sep))
    ensures Trim(JoinTokens(ts, sep)) == JoinTokens(ts, sep)
  {
    var line := JoinTokens(ts, sep);
    assert IsWord(ts[0]) && IsWord(ts[|ts| - 1]);
    TokensOfJoin(ts, sep);
    JoinTokensEnds(ts, sep);
    TrimOfPadded("", line, "");
    assert "" + line + "" == line;
  }
}
