/**
 * The DualMatReader component: two serial channels, each with a text buffer,
 * a 4x4 matrix and debug counters, supervised once per frame by Update.
 *
 * The serial port itself is abstract: a handle is null or a port that is
 * open or closed, whether an open attempt succeeds is a parameter, and the
 * bytes a port offers arrive as already decoded text.
 */
module DualMat {
  import opened Options
  import opened TextOps
  import opened Int32Parse
  import opened Grids
  import opened FrameExtraction

  /** A SerialPort reference: null, or a port on a name that is open or closed. */
  datatype Handle = Null | Port(name: string, isOpen: bool)

  /** A handle is usable when it is a port and that port is open. */
  predicate IsOpen(sp: Handle) {
    sp.Port? && sp.isOpen
  }

  /**
   * What one port offers during one tick: the BytesToRead that Update sees,
   * the BytesToRead that ReadOneMat sees when it reads again, and the text
   * decoded from the bytes read.
   */
  datatype Arrival = Arrival(announced: int, available: int, data: string)

  /**
   * The `side` argument of ReadOneMat: the string "Left" selects the left
   * channel and every other string the right one; Update passes only
   * "Left" and "Right".
   */
  datatype Side = Left | Right

  /** Frames between two reconnection attempts on the left port. */
  const ReconnectPeriod: int := 300

  const TwoTo32: int := 0x1_0000_0000

  /** C#'s unchecked 32-bit integer addition result: x brought into Int32 range modulo 2^32. */
  function Wrap32(x: int): (w: int)
    ensures InInt32(w)
    ensures (w - x) % TwoTo32 == 0
    ensures InInt32(x) ==> w == x
  {
    (x - Int32Min) % TwoTo32 + Int32Min
  }

  /**
   * TryOpen: no name gives null without any attempt; otherwise the port is
   * open when the attempt succeeds and null when it throws.
   */
  function TryOpen(port: string, opens: bool): (sp: Handle)
    ensures port == "" ==> sp == Null
    ensures sp != Null <==> port != "" && opens
    ensures sp != Null ==> sp == Port(port, true) && IsOpen(sp)
  {
    if port == "" then Null
    else if opens then Port(port, true)
    else Null
  }

  /** The counter after a data tick announcing `announced` bytes; other ticks leave it alone. */
  function Counted(counter: int, announced: int): (next: int)
    requires InInt32(counter)
    ensures InInt32(next)
    ensures announced <= 0 ==> next == counter
    ensures announced > 0 && counter + announced <= Int32Max ==> next == counter + announced > counter
  {
    if announced > 0 then Wrap32(counter + announced) else counter
  }

  /** Whether Update tries to reopen the left port on this frame. */
  predicate Reconnects(sp: Handle, port: string, frameCount: nat) {
    sp == Null && port != "" && frameCount % ReconnectPeriod == 0
  }

  class DualMatReader {
    var portLeft: string
    var portRight: string
    var spLeft: Handle
    var spRight: Handle
    var matLeft: array2<int>
    var matRight: array2<int>
    var bytesReceivedLeft: int
    var bytesReceivedRight: int
    var lastRawDataLeft: string
    var lastRawDataRight: string
    var leftDataBuffer: string
    var rightDataBuffer: string

    /** Two distinct 4x4 matrices and 32-bit counters. */
    ghost predicate Valid()
      reads this
    {
      Is4x4(matLeft) && Is4x4(matRight) && matLeft != matRight
      && InInt32(bytesReceivedLeft) && InInt32(bytesReceivedRight)
    }

    /** The text buffer of side `side`. */
    ghost function BufferOf(side: Side): string
      reads this`leftDataBuffer, this`rightDataBuffer
    {
      if side == Left then leftDataBuffer else rightDataBuffer
    }

    /** The debug copy of side `side`. */
    ghost function LastRawOf(side: Side): string
      reads this`lastRawDataLeft, this`lastRawDataRight
    {
      if side == Left then lastRawDataLeft else lastRawDataRight
    }

    /** The channel state that side `side` works on when it writes into `mat`. */
    ghost function ChannelOf(side: Side, mat: array2<int>): (ch: Channel)
      requires Is4x4(mat)
      reads this`leftDataBuffer, this`rightDataBuffer, this`lastRawDataLeft, this`lastRawDataRight, mat
      ensures IsGrid(ch.grid)
    {
      Channel(BufferOf(side), Snapshot(mat), LastRawOf(side))
    }

    /** The component as created: no ports yet, zero matrices, empty buffers. */
    constructor (portLeft: string, portRight: string)
      ensures Valid() && fresh(matLeft) && fresh(matRight)
      ensures this.portLeft == portLeft && this.portRight == portRight
      ensures spLeft == Null && spRight == Null
      ensures Snapshot(matLeft) == Zero() && Snapshot(matRight) == Zero()
      ensures bytesReceivedLeft == 0 && bytesReceivedRight == 0
      ensures lastRawDataLeft == "" && lastRawDataRight == ""
      ensures leftDataBuffer == "" && rightDataBuffer == ""
    {
      this.portLeft := portLeft;
      this.portRight := portRight;
      spLeft := Null;
      spRight := Null;
      matLeft := new int[Size, Size]((_, _) => 0);
      matRight := new int[Size, Size]((_, _) => 0);
      bytesReceivedLeft := 0;
      bytesReceivedRight := 0;
      lastRawDataLeft := "";
      lastRawDataRight := "";
      leftDataBuffer := "";
      rightDataBuffer := "";
      new;
      GridEq(Snapshot(matLeft), Zero());
      GridEq(Snapshot(matRight), Zero());
    }

    /** Start: open both ports; `openLeft` and `openRight` say whether each attempt succeeds. */
    method Start(openLeft: bool, openRight: bool)
      modifies this`spLeft, this`spRight
      ensures spLeft == TryOpen(portLeft, openLeft)
      ensures spRight == TryOpen(portRight, openRight)
    {
      spLeft := TryOpen(portLeft, openLeft);
      spRight := TryOpen(portRight, openRight);
    }

    /**
     * ReadOneMat: when `sp` is open, one step of frame extraction on the
     * channel `side` names, writing into `mat`; `bytesAvailable` is what the
     * port reports and `newData` the text read. Nothing belonging to the other
     * side changes, and nothing changes at all when `sp` is not open.
     *
     * `ch0` is the channel at entry, which the precondition pins to
     * `ChannelOf(side, mat)`. It stands for what would otherwise be written
     * `old(ChannelOf(side, mat))`. Callers pass their own `old(...)` term,
     * so the definition of Process is unfolded once per caller proof, not
     * once per state; that keeps Update's proof small.
     */
    method ReadOneMat(sp: Handle, mat: array2<int>, side: Side, bytesAvailable: int, newData: string, ghost ch0: Channel)
      requires Is4x4(mat) && ch0 == ChannelOf(side, mat)
      modifies this`leftDataBuffer, this`rightDataBuffer, this`lastRawDataLeft, this`lastRawDataRight, mat
      ensures IsOpen(sp) ==> ChannelOf(side, mat) == Process(ch0, bytesAvailable, newData)
      ensures side == Left ==> rightDataBuffer == old(rightDataBuffer) && lastRawDataRight == old(lastRawDataRight)
      ensures side == Right ==> leftDataBuffer == old(leftDataBuffer) && lastRawDataLeft == old(lastRawDataLeft)
      ensures !IsOpen(sp) || bytesAvailable <= 0 ==> unchanged(this, mat)
    {
      if !IsOpen(sp) {
        return;
      }
      var buffer := if side == Left then leftDataBuffer else rightDataBuffer;
      if bytesAvailable > 0 {
        buffer := buffer + newData;
      } else {
        return;
      }
      StoreBuffer(side, buffer);
      var lastRaw := if side == Left then lastRawDataLeft else lastRawDataRight;
      ghost var before := Channel(buffer, Snapshot(mat), lastRaw);
      assert before == ch0.(buffer := ch0.buffer + newData);
      ghost var other := (leftDataBuffer, lastRawDataLeft, rightDataBuffer, lastRawDataRight);
      buffer, lastRaw := ExtractFrame(mat, buffer, lastRaw, before.grid);
      assert (leftDataBuffer, lastRawDataLeft, rightDataBuffer, lastRawDataRight) == other;
      ghost var grid := Snapshot(mat);
      StoreBuffer(side, buffer);
      StoreLastRaw(side, lastRaw);
      assert Snapshot(mat) == grid;
      assert ChannelOf(side, mat) == Channel(buffer, grid, lastRaw) == Extract(before);
    }

    /** Writes `buffer` into the named side's buffer; the other side's stays as it was. */
    method StoreBuffer(side: Side, buffer: string)
      modifies this`leftDataBuffer, this`rightDataBuffer
      ensures BufferOf(side) == buffer
      ensures side == Left ==> rightDataBuffer == old(rightDataBuffer)
      ensures side == Right ==> leftDataBuffer == old(leftDataBuffer)
    {
      if side == Left {
        leftDataBuffer := buffer;
      } else {
        rightDataBuffer := buffer;
      }
    }

    /** Writes `raw` into the named side's debug copy; the other side's stays as it was. */
    method StoreLastRaw(side: Side, raw: string)
      modifies this`lastRawDataLeft, this`lastRawDataRight
      ensures LastRawOf(side) == raw
      ensures side == Left ==> lastRawDataRight == old(lastRawDataRight)
      ensures side == Right ==> lastRawDataLeft == old(lastRawDataLeft)
    {
      if side == Left {
        lastRawDataLeft := raw;
      } else {
        lastRawDataRight := raw;
      }
    }

    /**
     * The rest of ReadOneMat, once the buffer holds the new text: classify
     * its lines, parse the newest frame into `mat`, and give back the buffer
     * and the debug copy the side keeps.
     */
    method ExtractFrame(mat: array2<int>, buffer: string, lastRaw: string, ghost g0: Grid)
        returns (nextBuffer: string, nextRaw: string)
      requires Is4x4(mat) && Snapshot(mat) == g0
      modifies mat
      ensures Channel(nextBuffer, Snapshot(mat), nextRaw) == Extract(Channel(buffer, g0, lastRaw))
    {
      nextBuffer, nextRaw := buffer, lastRaw;
      var allValidLines := CollectDataLines(buffer);
      if |allValidLines| >= Size {
        var dataLines := allValidLines[|allValidLines| - Size..];
        assert dataLines == LastFour(BufferDataLines(buffer));
        WriteRows(mat, dataLines, g0);
        if |nextBuffer| > KeepAfterFrame {
          nextBuffer := Tail(nextBuffer, KeepAfterFrame);
        } else {
          nextBuffer := "";
        }
        nextRaw := Tail(nextBuffer, RawDebugLength);
      } else {
        if |nextBuffer| > MaxBuffer {
          nextBuffer := Tail(nextBuffer, KeepOnOverflow);
        }
        assert Snapshot(mat) == g0;
      }
    }

    /**
     * The classification loop of ReadOneMat: every line of the buffer,
     * trimmed, that is non-empty and has at least four tokens, in order.
     */
    method CollectDataLines(buffer: string) returns (allValidLines: seq<string>)
      ensures allValidLines == BufferDataLines(buffer)
    {
      var allLines := SplitLines(buffer);
      allValidLines := [];
      for i := 0 to |allLines|
        invariant allValidLines == DataLines(allLines[..i])
      {
        var line := Trim(allLines[i]);
        if line != "" {
          var tokens := Tokens(line);
          if |tokens| >= MinTokens {
            allValidLines := allValidLines + [line];
          }
        }
        assert allLines[..i + 1][..i] == allLines[..i];
      }
      assert allLines[..|allLines|] == allLines;
    }

    /**
     * The parse loops of ReadOneMat: each cell of row r takes the value of
     * token c of `dataLines[r]` when that token parses, when the row has at
     * least four tokens; every other cell keeps its value.
     */
    method WriteRows(mat: array2<int>, dataLines: seq<string>, ghost g0: Grid)
      requires Is4x4(mat) && |dataLines| == Size && IsGrid(g0)
      requires Snapshot(mat) == g0
      modifies mat
      ensures Snapshot(mat) == UpdateGrid(g0, dataLines)
    {
      for r := 0 to Size
        invariant forall rr, cc :: 0 <= rr < r && 0 <= cc < Size ==> mat[rr, cc] == CellAfter(g0[rr][cc], dataLines[rr], cc)
        invariant forall rr, cc :: r <= rr < Size && 0 <= cc < Size ==> mat[rr, cc] == g0[rr][cc]
      {
        var tokens := Tokens(dataLines[r]);
        if |tokens| >= MinTokens {
          WriteRow(mat, r, tokens);
        }
        assert forall cc :: 0 <= cc < Size ==> mat[r, cc] == CellAfter(g0[r][cc], dataLines[r], cc);
      }
      GridEq(Snapshot(mat), UpdateGrid(g0, dataLines));
    }

    /** The inner parse loop: cell (r, c) takes token c's value when it parses; no other cell changes. */
    method WriteRow(mat: array2<int>, r: nat, tokens: seq<string>)
      requires Is4x4(mat) && r < Size && |tokens| >= MinTokens
      modifies mat
      ensures forall c :: 0 <= c < Size ==> mat[r, c] == TryParse(tokens[c]).GetOr(old(mat[r, c]))
      ensures forall rr, c :: 0 <= rr < Size && rr != r && 0 <= c < Size ==> mat[rr, c] == old(mat[rr, c])
    {
      for c := 0 to Size
        invariant forall cc :: 0 <= cc < c ==> mat[r, cc] == TryParse(tokens[cc]).GetOr(old(mat[r, cc]))
        invariant forall cc :: c <= cc < Size ==> mat[r, cc] == old(mat[r, cc])
        invariant forall rr, cc :: 0 <= rr < Size && rr != r && 0 <= cc < Size ==> mat[rr, cc] == old(mat[rr, cc])
      {
        var value := TryParse(tokens[c]);
        if value.Some? {
          mat[r, c] := value.value;
        }
      }
    }

    /**
     * Update, once per frame: a port that is open and reports bytes has its
     * counter raised by that count and its channel read; a null left port on
     * a non-empty name is reopened every 300th frame, with `reopens` saying
     * whether that attempt succeeds. The right port is never reopened.
     */
    method Update(frameCount: nat, left: Arrival, right: Arrival, reopens: bool)
      requires Valid()
      modifies this`spLeft, this`bytesReceivedLeft, this`bytesReceivedRight
      modifies this`leftDataBuffer, this`rightDataBuffer, this`lastRawDataLeft, this`lastRawDataRight
      modifies matLeft, matRight
      ensures Valid()
      ensures spLeft != old(spLeft) ==> Reconnects(old(spLeft), portLeft, frameCount)
      ensures Reconnects(old(spLeft), portLeft, frameCount) ==> spLeft == TryOpen(portLeft, reopens)
      ensures var polled := IsOpen(old(spLeft)) && left.announced > 0;
              && bytesReceivedLeft == (if polled then Counted(old(bytesReceivedLeft), left.announced) else old(bytesReceivedLeft))
              && (polled ==> ChannelOf(Left, matLeft) == Process(old(ChannelOf(Left, matLeft)), left.available, left.data))
              && (!polled ==> ChannelOf(Left, matLeft) == old(ChannelOf(Left, matLeft)))
      ensures var polled := IsOpen(spRight) && right.announced > 0;
              && bytesReceivedRight == (if polled then Counted(old(bytesReceivedRight), right.announced) else old(bytesReceivedRight))
              && (polled ==> ChannelOf(Right, matRight) == Process(old(ChannelOf(Right, matRight)), right.available, right.data))
              && (!polled ==> ChannelOf(Right, matRight) == old(ChannelOf(Right, matRight)))
    {
      PollLeft(frameCount, left, reopens);
      PollRight(right);
    }

    /** The left half of Update: read an open port that reports bytes, or reopen a null one. */
    method PollLeft(frameCount: nat, left: Arrival, reopens: bool)
      requires Valid()
      modifies this`spLeft, this`bytesReceivedLeft, matLeft
      modifies this`leftDataBuffer, this`rightDataBuffer, this`lastRawDataLeft, this`lastRawDataRight
      ensures Valid()
      ensures rightDataBuffer == old(rightDataBuffer) && lastRawDataRight == old(lastRawDataRight)
      ensures spLeft != old(spLeft) ==> Reconnects(old(spLeft), portLeft, frameCount)
      ensures Reconnects(old(spLeft), portLeft, frameCount) ==> spLeft == TryOpen(portLeft, reopens)
      ensures var polled := IsOpen(old(spLeft)) && left.announced > 0;
              && bytesReceivedLeft == (if polled then Counted(old(bytesReceivedLeft), left.announced) else old(bytesReceivedLeft))
              && (polled ==> ChannelOf(Left, matLeft) == Process(old(ChannelOf(Left, matLeft)), left.available, left.data))
              && (!polled ==> ChannelOf(Left, matLeft) == old(ChannelOf(Left, matLeft)))
    {
      if IsOpen(spLeft) {
        var bytesAvailable := left.announced;
        if bytesAvailable > 0 {
          bytesReceivedLeft := Counted(bytesReceivedLeft, bytesAvailable);
          ReadOneMat(spLeft, matLeft, Left, left.available, left.data, old(ChannelOf(Left, matLeft)));
        }
      } else if spLeft == Null && portLeft != "" {
        if frameCount % ReconnectPeriod == 0 {
          spLeft := TryOpen(portLeft, reopens);
        }
      }
    }

    /** The right half of Update: read an open port that reports bytes. */
    method PollRight(right: Arrival)
      requires Valid()
      modifies this`bytesReceivedRight, matRight
      modifies this`leftDataBuffer, this`rightDataBuffer, this`lastRawDataLeft, this`lastRawDataRight
      ensures Valid()
      ensures leftDataBuffer == old(leftDataBuffer) && lastRawDataLeft == old(lastRawDataLeft)
      ensures var polled := IsOpen(spRight) && right.announced > 0;
              && bytesReceivedRight == (if polled then Counted(old(bytesReceivedRight), right.announced) else old(bytesReceivedRight))
              && (polled ==> ChannelOf(Right, matRight) == Process(old(ChannelOf(Right, matRight)), right.available, right.data))
              && (!polled ==> ChannelOf(Right, matRight) == old(ChannelOf(Right, matRight)))
    {
      if IsOpen(spRight) {
        var bytesAvailable := right.announced;
        if bytesAvailable > 0 {
          bytesReceivedRight := Counted(bytesReceivedRight, bytesAvailable);
          ReadOneMat(spRight, matRight, Right, right.available, right.data, old(ChannelOf(Right, matRight)));
        }
      }
    }
  }
}
