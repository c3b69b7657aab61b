/** The gap buffer itself: one array, moved and rewritten in place. */
module GapBuffers {
  import opened Bytes
  import opened Lines
  import opened Moves
  import opened GapModel
  import opened Walks

  class GapBuffer {
    var data: array<byte>
    var gapStart: nat
    var gapEnd: nat

    ghost predicate Valid()
      reads this
    {
      gapStart <= gapEnd <= data.Length
    }

    /** The value this buffer is proved against. */
    ghost function Model(): (g: Gap)
      requires Valid()
      reads this, data
      ensures g.Valid()
    {
      Gap(data[..], gapStart, gapEnd)
    }

    /** An empty buffer; the storage is 1024 bytes of gap. */
    constructor ()
      ensures Valid() && fresh(data) && Model() == Loaded([])
    {
      data := new byte[GAP_SIZE](_ => NUL);
      gapStart, gapEnd := 0, GAP_SIZE;
    }

    /** A buffer that holds a file's bytes behind the gap. */
    constructor Load(text: Text)
      ensures Valid() && fresh(data) && Model() == Loaded(text)
    {
      data := new byte[GAP_SIZE + |text|](_ => NUL);
      gapStart, gapEnd := 0, GAP_SIZE;
      new;
      for i := 0 to |text|
        invariant fresh(data) && data.Length == GAP_SIZE + |text| && gapStart == 0 && gapEnd == GAP_SIZE
        invariant data[..GAP_SIZE] == Zeros(GAP_SIZE)
        invariant data[GAP_SIZE..GAP_SIZE + i] == text[..i]
      {
        data[gapEnd + i] := text[i];
      }
      assert data[..] == data[..GAP_SIZE] + data[GAP_SIZE..GAP_SIZE + |text|];
    }

    // ---- horizontal moves ----

    method MoveLeft()
      requires Valid()
      modifies this`gapStart, this`gapEnd, data
      ensures Valid() && Model() == StepLeft(old(Model()))
    {
      if gapStart == 0 {
        return;
      }
      gapStart := gapStart - 1;
      gapEnd := gapEnd - 1;
      data[gapEnd] := data[gapStart];
    }

    method MoveRight()
      requires Valid()
      modifies this`gapStart, this`gapEnd, data
      ensures Valid() && Model() == StepRight(old(Model()))
    {
      if gapEnd == data.Length {
        return;
      }
      data[gapStart] := data[gapEnd];
      gapStart := gapStart + 1;
      gapEnd := gapEnd + 1;
    }

    method MoveWordLeft()
      requires Valid()
      modifies this`gapStart, this`gapEnd, data
      ensures Valid() && Model() == Travel(old(Model()), WordLeft)
    {
      if gapStart == 0 {
        return;
      }
      ghost var g := Model();
      WordLeftStarts(g);
      MoveLeft();
      LeftToSpace(g);
    }

    /** One step is made: further left until a space is passed or the start is reached. */
    method LeftToSpace(ghost g: Gap)
      requires Valid() && TowardsWordStart(g, Model(), 1)
      modifies this`gapStart, this`gapEnd, data
      ensures Valid() && Model() == Travel(g, WordLeft)
    {
      ghost var h, n := Model(), 1;
      while gapStart > 0 && data[gapStart - 1] != SPACE
        invariant Valid() && Model() == h && TowardsWordStart(g, h, n)
        decreases gapStart
      {
        WordLeftGoesOn(g, h, n);
        MoveLeft();
        h, n := StepLeft(h), n + 1;
      }
      WordLeftArrives(g, h, n);
    }

    method MoveWordRight()
      requires Valid()
      modifies this`gapStart, this`gapEnd, data
      ensures Valid() && Model() == Travel(old(Model()), WordRight)
    {
      if gapEnd == data.Length {
        return;
      }
      ghost var g := Model();
      ghost var h, n := StepRight(g), 1;
      WordRightStarts(g);
      MoveRight();
      while gapEnd < data.Length && data[gapEnd] != SPACE
        invariant Valid() && Model() == h && TowardsWordEnd(g, h, n)
        decreases data.Length - gapEnd
      {
        WordRightGoesOn(g, h, n);
        MoveRight();
        h, n := StepRight(h), n + 1;
      }
      WordRightArrives(g, h, n);
    }

    // ---- vertical moves ----

    /** The column of the cursor, scanned backwards from it. */
    method GetColumn() returns (col: nat)
      requires Valid()
      ensures col == Column(Model().Content(), gapStart)
    {
      col := 0;
      if gapStart == 0 {
        return;
      }
      ghost var t := Model().Content();
      var i: nat := gapStart;
      while i > 0
        invariant i <= gapStart && t == Model().Content()
        invariant ColumnBack(t, i, col) == Column(t, gapStart)
      {
        i := i - 1;
        assert data[i] == t[i];
        if data[i] == NEWLINE {
          break;
        }
        if data[i] == TAB {
          col := (col / 8 + 1) * 8;
        } else {
          col := col + 1;
        }
      }
    }

    method MoveUp()
      requires Valid()
      modifies this`gapStart, this`gapEnd, data
      ensures Valid() && Model() == Travel(old(Model()), Up)
    {
      if gapStart == 0 {
        return;
      }
      var target := GetColumn();
      var visual := target % 60;
      if target >= 60 {
        UpASegment();
      } else {
        UpALine(visual);
      }
    }

    /** Across the newline, to the last segment of the line before. */
    method UpALine(visual: nat)
      requires Valid() && gapStart > 0 && Column(Model().Content(), gapStart) < 60
      requires visual == Column(Model().Content(), gapStart)
      modifies this`gapStart, this`gapEnd, data
      ensures Valid() && Model() == Travel(old(Model()), Up)
    {
      ghost var g := Model();
      ghost var h, n := ToPrevLineStart(g);
      var width := MeasureLine();
      var final := LastSegmentColumn(width, visual);
      ghost var k := WalkTo(final);
      UpComposes(g, h, n, Model(), k);
    }

    /** The column on the last segment of a line, but not past the end of it. */
    static method LastSegmentColumn(width: nat, visual: nat) returns (final: nat)
      requires visual < 60
      ensures final == UpTarget(width, visual)
    {
      final := width / 60 * 60 + visual;
      if final > width {
        final := width;
      }
    }

    method ToPrevLineStart(ghost g: Gap) returns (ghost h: Gap, ghost n: nat)
      requires Valid() && Model() == g
      modifies this`gapStart, this`gapEnd, data
      ensures Valid() && Model() == h && WentLeft(g, h, n)
      ensures h.start == PrevLineStart(g.Content(), g.start)
    {
      h, n := ToLineStart(g, g, 0);
      LineLeftCrosses(g, h, n);
      if gapStart > 0 {
        MoveLeft();
        h, n := StepLeft(h), n + 1;
      }
      h, n := ToLineStart(g, h, n);
    }

    /** Within the line: 60 bytes left, but not over a newline. */
    method UpASegment()
      requires Valid() && gapStart > 0 && Column(Model().Content(), gapStart) >= 60
      modifies this`gapStart, this`gapEnd, data
      ensures Valid() && Model() == Travel(old(Model()), Up)
    {
      ghost var g := Model();
      ghost var h := g;
      ghost var s := LineStart(g.Content(), g.start);
      var i := 0;
      while i < 60
        invariant Valid() && 0 <= i <= 60 && Model() == h && TowardsLineStart(g, h, i, s)
      {
        if gapStart == 0 || data[gapStart - 1] == NEWLINE {
          LineLeftArrives(g, h, i, s);
          break;
        }
        LineLeftGoesOn(g, h, i, s);
        MoveLeft();
        h := StepLeft(h);
        i := i + 1;
      }
      UpSegmentArrives(g, h, i, s);
    }

    /** Left to the start of the line of the cursor, `n` moves after `g`. */
    method ToLineStart(ghost g: Gap, ghost h0: Gap, ghost n0: nat) returns (ghost h: Gap, ghost n: nat)
      requires Valid() && Model() == h0 && WentLeft(g, h0, n0)
      modifies this`gapStart, this`gapEnd, data
      ensures Valid() && Model() == h && WentLeft(g, h, n)
      ensures h.start == LineStart(g.Content(), h0.start)
    {
      h, n := h0, n0;
      ghost var s := LineStart(g.Content(), h0.start);
      while gapStart > 0 && data[gapStart - 1] != NEWLINE
        invariant Valid() && Model() == h && TowardsLineStart(g, h, n, s)
        decreases gapStart
      {
        LineLeftGoesOn(g, h, n, s);
        MoveLeft();
        h, n := StepLeft(h), n + 1;
      }
      LineLeftArrives(g, h, n, s);
    }

    /** The tab-expanded width of the line from the cursor to its end. */
    method MeasureLine() returns (width: nat)
      requires Valid()
      ensures width == Width(Model().Content(), gapStart, LineEnd(Model().Content(), gapStart))
    {
      ghost var h := Model();
      width := 0;
      var i: nat := gapEnd;
      while i < data.Length && data[i] != NEWLINE
        invariant Model() == h && Measured(h, i, width)
      {
        MeasureGoesOn(h, i, width);
        if data[i] == TAB {
          width := (width / 8 + 1) * 8;
        } else {
          width := width + 1;
        }
        i := i + 1;
      }
      MeasureEnds(h, i, width);
    }

    /** Right along the line to the furthest offset not wider than `target`. */
    method WalkTo(target: nat) returns (ghost n: nat)
      requires Valid()
      modifies this`gapStart, this`gapEnd, data
      ensures Valid()
      ensures var g := old(Model()); var t := g.Content();
              && WentRight(g, Model(), n)
              && Model().start == Fit(t, g.start, LineEnd(t, g.start), target)
    {
      ghost var g := Model();
      n := WalkOn(g, LineEnd(g.Content(), g.start), target);
    }

    /** The loop of the walk, on the line of `g` that ends at `e`. */
    method WalkOn(ghost g: Gap, ghost e: nat, target: nat) returns (ghost n: nat)
      requires Valid() && g == Model() && e == LineEnd(g.Content(), g.start)
      modifies this`gapStart, this`gapEnd, data
      ensures Valid() && WentRight(g, Model(), n) && gapStart == Fit(g.Content(), g.start, e, target)
    {
      n := 0;
      var col: nat := 0;
      var going := true;
      while col < target && going && gapEnd < data.Length && data[gapEnd] != NEWLINE
        invariant Valid() && AtColumn(g, Model(), n, e, col) && col <= target
        invariant !going ==> Stuck(Model(), col, target)
        decreases going, data.Length - gapEnd
      {
        col, n, going := WalkOne(g, n, e, col, target);
      }
      ColumnArrives(g, Model(), n, e, col, target);
    }

    /** One byte of the walk; a tab that would go past the target ends it. */
    method WalkOne(ghost g: Gap, ghost n: nat, ghost e: nat, col: nat, target: nat)
      returns (col': nat, ghost n': nat, going: bool)
      requires Valid() && AtColumn(g, Model(), n, e, col) && col < target
      requires gapEnd < data.Length && data[gapEnd] != NEWLINE
      modifies this`gapStart, this`gapEnd, data
      ensures Valid() && AtColumn(g, Model(), n', e, col') && col' <= target
      ensures if going then gapEnd == old(gapEnd) + 1 else Model() == old(Model()) && Stuck(Model(), col', target)
    {
      ColumnGoesOn(g, Model(), n, e, col);
      col', n', going := col, n, true;
      if data[gapEnd] == TAB {
        var nextTab := (col / 8 + 1) * 8;
        if nextTab > target {
          going := false;
          return;
        }
        col' := nextTab;
      } else {
        col' := col + 1;
      }
      MoveRight();
      n' := n + 1;
    }

    method MoveDown()
      requires Valid()
      modifies this`gapStart, this`gapEnd, data
      ensures Valid() && Model() == Travel(old(Model()), Down)
    {
      var target := GetColumn();
      var remaining := CountRemaining();
      if remaining >= 60 {
        DownASegment();
      } else {
        DownALine(target);
      }
    }

    method DownASegment()
      requires Valid()
      requires var t := Model().Content(); LineEnd(t, gapStart) - gapStart >= 60
      modifies this`gapStart, this`gapEnd, data
      ensures Valid() && Model() == Travel(old(Model()), Down)
    {
      ghost var g := Model();
      ghost var h := g;
      for j := 0 to 60
        invariant Valid() && Model() == h && WentRight(g, h, j)
      {
        RemainingAhead(g, h, j);
        OneMoreRight(g, h, j);
        MoveRight();
        h := StepRight(h);
      }
      DownSegmentArrives(g, h);
    }

    /** Across the newline, then right until the column or the end of that line. */
    method DownALine(target: nat)
      requires Valid() && target == Column(Model().Content(), gapStart)
      requires var t := Model().Content(); LineEnd(t, gapStart) - gapStart < 60
      modifies this`gapStart, this`gapEnd, data
      ensures Valid() && Model() == Travel(old(Model()), Down)
    {
      ghost var g := Model();
      ghost var h, n := ToLineEnd(g);
      if gapEnd == data.Length {
        DownToEndArrives(g, h, n);
        return;
      }
      OneMoreRight(g, h, n);
      MoveRight();
      h, n := StepRight(h), n + 1;
      n := StepsRight(g, h, n, target);
      DownArrives(g, Model(), n, h.start, target);
    }

    /** At most `target` bytes right, but not over a newline. */
    method StepsRight(ghost g: Gap, ghost h0: Gap, ghost n0: nat, target: nat) returns (ghost n: nat)
      requires Valid() && Model() == h0 && WentRight(g, h0, n0)
      modifies this`gapStart, this`gapEnd, data
      ensures Valid() && TowardsLineEnd(g, Model(), n, LineEnd(g.Content(), h0.start))
      ensures h0.start <= gapStart <= h0.start + target
      ensures gapStart == h0.start + target || gapEnd == data.Length || data[gapEnd] == NEWLINE
    {
      ghost var h, e := h0, LineEnd(g.Content(), h0.start);
      n := n0;
      var col: nat := 0;
      while col < target && gapEnd < data.Length && data[gapEnd] != NEWLINE
        invariant Valid() && Model() == h && TowardsLineEnd(g, h, n, e)
        invariant gapStart == h0.start + col && col <= target
        decreases data.Length - gapEnd
      {
        LineRightGoesOn(g, h, n, e);
        MoveRight();
        h, n := StepRight(h), n + 1;
        col := col + 1;
      }
    }

    /** The bytes left on the line, counted up to 60. */
    method CountRemaining() returns (remaining: nat)
      requires Valid()
      ensures var t := Model().Content();
              remaining == Min(60, LineEnd(t, gapStart) - gapStart)
    {
      ghost var h := Model();
      remaining := 0;
      var i: nat := gapEnd;
      while i < data.Length && data[i] != NEWLINE
        invariant Model() == h && Counted(h, i, remaining) && remaining < 60
      {
        CountGoesOn(h, i, remaining);
        remaining := remaining + 1;
        if remaining >= 60 {
          return;
        }
        i := i + 1;
      }
      CountEnds(h, i, remaining);
    }

    method ToLineEnd(ghost g: Gap) returns (ghost h: Gap, ghost n: nat)
      requires Valid() && Model() == g
      modifies this`gapStart, this`gapEnd, data
      ensures Valid() && Model() == h && WentRight(g, h, n)
      ensures h.start == LineEnd(g.Content(), g.start)
      ensures h.start < |g.Content()| <==> h.end < |h.data|
    {
      h, n := g, 0;
      ghost var e := LineEnd(g.Content(), g.start);
      while gapEnd < data.Length && data[gapEnd] != NEWLINE
        invariant Valid() && Model() == h && TowardsLineEnd(g, h, n, e)
        decreases data.Length - gapEnd
      {
        LineRightGoesOn(g, h, n, e);
        MoveRight();
        h, n := StepRight(h), n + 1;
      }
      LineRightArrives(g, h, n, e);
    }

    // ---- editing ----

    /**
     * Room for `amount` more bytes: the storage is extended at its end, and the
     * part right of the gap is moved onto the new bytes, last byte first, so
     * that it may overlap itself.
     */
    method GrowGap(amount: nat)
      requires Valid()
      modifies this`data, this`gapEnd
      ensures Valid() && fresh(data) && Model() == Grow(old(Model()), amount)
    {
      var oldSize := data.Length;
      ghost var was := data[..];
      var larger := new byte[oldSize + amount](_ => NUL);
      forall i | 0 <= i < oldSize {
        larger[i] := data[i];
      }
      assert larger[..] == was + Zeros(amount);
      data := larger;
      ShiftRight(data, gapEnd, oldSize, amount);
      gapEnd := gapEnd + amount;
      assert (was + Zeros(amount))[gapEnd - amount..oldSize] == was[gapEnd - amount..];
    }

    /** The bytes `from` to `size` copied onto those `amount` further, the last one first. */
    static method ShiftRight(a: array<byte>, from: nat, size: nat, amount: nat)
      requires from <= size && a.Length == size + amount
      modifies a
      ensures a[..] == old(a[..from + amount]) + old(a[from..size])
    {
      var rightLen := size - from;
      var i := rightLen;
      while i > 0
        invariant 0 <= i <= rightLen
        invariant forall k :: 0 <= k < from + amount + i ==> a[k] == old(a[k])
        invariant forall k :: from + amount + i <= k < a.Length ==> a[k] == old(a[k - amount])
      {
        i := i - 1;
        a[from + amount + i] := a[from + i];
      }
    }

    /** `insert_char`. */
    method InsertChar(b: byte)
      requires Valid()
      modifies this, data
      ensures Valid() && (data == old(data) || fresh(data)) && Model() == Insert(old(Model()), b)
    {
      if gapStart == gapEnd {
        GrowGap(GAP_SIZE);
      }
      if b == NEWLINE || b == RETURN {
        data[gapStart] := NEWLINE;
        gapStart := gapStart + 1;
        return;
      }
      data[gapStart] := b;
      gapStart := gapStart + 1;
    }

    /** The backspace of the input handlers: the byte joins the gap. */
    method EraseLeft()
      requires Valid()
      modifies this`gapStart
      ensures Valid() && Model() == Erase(old(Model()))
    {
      if gapStart > 0 {
        gapStart := gapStart - 1;
      }
    }

    /** The paste of the input handlers. */
    method PasteText(clip: Text)
      requires Valid()
      modifies this, data
      ensures Valid() && (data == old(data) || fresh(data)) && Model() == Paste(old(Model()), clip)
    {
      ghost var g := Model();
      for i := 0 to |clip|
        invariant Valid() && (data == old(data) || fresh(data)) && Model() == Paste(g, clip[..i])
      {
        assert clip[..i + 1][..i] == clip[..i];
        if clip[i] == RETURN {
          continue;
        }
        InsertChar(clip[i]);
      }
      assert clip[..|clip|] == clip;
    }

    /** What a broadcast does to a client's buffer: all of the new text, and no gap. */
    method Refresh(text: Text)
      requires Valid()
      modifies this
      ensures Valid() && fresh(data) && Model() == Refreshed(old(Model()), text)
    {
      var cursor := gapStart;
      data := new byte[|text|](i requires 0 <= i < |text| => text[i]);
      if cursor > |text| {
        cursor := |text|;
      }
      gapStart, gapEnd := cursor, cursor;
      assert data[..] == text;
    }

    // ---- reading ----

    /** `serialize_buffer`: the bytes before the gap, then those after it. */
    method Serialize() returns (text: Text)
      requires Valid()
      ensures text == Model().Content()
    {
      text := [];
      for i := 0 to gapStart
        invariant text == data[..i]
      {
        text := text + [data[i]];
      }
      for i := gapEnd to data.Length
        invariant text == data[..gapStart] + data[gapEnd..i]
      {
        text := text + [data[i]];
      }
    }

    /** The raw bytes from `lo` to `hi`, gap or not: what copy takes. */
    method ReadRaw(lo: nat, hi: nat) returns (out: Text)
      requires Valid() && lo <= hi <= data.Length
      ensures out == Model().data[lo..hi]
    {
      out := [];
      for i := lo to hi
        invariant out == data[lo..i]
      {
        out := out + [data[i]];
      }
    }
  }
}
