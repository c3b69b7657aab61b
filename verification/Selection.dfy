/**
 * What a copy reads. Copy takes the raw bytes between the two ends of the
 * selection, although the ends are offsets of the text: left of the gap the two
 * agree, and right of the cursor it reads the gap, where the moves that made
 * the selection have left bytes behind.
 */
module Selection {
  import opened Bytes
  import opened Moves
  import opened GapModel

  /** A run of cursor commands on the gap. */
  function Travels(g: Gap, ms: seq<Move>): (r: Gap)
    requires g.Valid()
    ensures r.Valid() && |r.data| == |g.data|
  {
    if ms == [] then g else Travel(Travels(g, ms[..|ms| - 1]), ms[|ms| - 1])
  }

  /** The lowest offset the cursor passed. */
  function LowestOf(g: Gap, ms: seq<Move>): (m: nat)
    requires g.Valid()
    ensures m <= g.start
  {
    if ms == [] then g.start
    else
      var n := |ms| - 1;
      var h := Travels(g, ms[..n]);
      Min(LowestOf(g, ms[..n]), Lowest(ms[n], h.Content(), h.start))
  }

  /**
   * The lowest offset the cursor passed since it was last above offset `p`; the
   * cursor itself while it is above.
   */
  function LowSince(g: Gap, ms: seq<Move>, p: nat): (m: nat)
    requires g.Valid()
    ensures m <= Travels(g, ms).start
  {
    if ms == [] then g.start
    else
      var n := |ms| - 1;
      var h := Travels(g, ms[..n]);
      TravelRefines(h, ms[n]);
      After(p, LowSince(g, ms[..n], p), Lowest(ms[n], h.Content(), h.start), Travels(g, ms).start)
  }

  function After(p: nat, low: nat, passed: nat, cursor: nat): (m: nat)
    requires passed <= cursor
    ensures m <= cursor
  {
    if cursor > p then cursor else Min(low, passed)
  }

  /** The offset whose byte is left at `p` by a cursor that has come down to `low` over a gap of `len`. */
  function Source(p: nat, low: nat, len: nat): nat {
    if low + len <= p then p - len else p
  }

  /**
   * What position `p` of the gap holds, when the cursor has come down to `low`
   * since it was last above `p`: the byte of the text at `p`, unless the gap
   * has been all the way below; then the byte a gap's length before.
   */
  ghost predicate LeftBehind(g: Gap, p: nat, low: nat)
    requires g.Valid()
  {
    && low <= g.start
    && (g.start > p ==> low > p)
    && (g.start <= p < g.end ==>
          p < |g.Content()| && g.data[p] == g.Content()[Source(p, low, g.end - g.start)])
  }

  lemma LeftLeavesBehind(g: Gap, p: nat, low: nat, c: nat)
    requires g.Valid() && LeftBehind(g, p, low) && g.start == c + 1
    ensures LeftBehind(StepLeft(g), p, After(p, low, c, c))
  {
    LeftKeepsText(g);
  }

  lemma RightLeavesBehind(g: Gap, p: nat, low: nat, c: nat)
    requires g.Valid() && LeftBehind(g, p, low) && g.end < |g.data| && p < |g.Content()|
    requires g.start == c
    ensures LeftBehind(StepRight(g), p, After(p, low, c, c + 1))
  {
    RightKeepsText(g);
  }

  /** Passing `c + 1` and then `c` is passing `c`. */
  lemma LeftFurther(h: Gap, p: nat, low: nat, from: nat, c: nat)
    requires h.Valid() && h.start == c + 1 && c < from && low <= from && (from > p ==> low > p)
    requires LeftBehind(h, p, After(p, low, c + 1, c + 1))
    ensures LeftBehind(StepLeft(h), p, After(p, low, c, c))
  {
    LeftLeavesBehind(h, p, After(p, low, c + 1, c + 1), c);
  }

  lemma {:induction false} LeftByLeavesBehind(g: Gap, p: nat, low: nat, n: nat, c: nat)
    requires g.Valid() && LeftBehind(g, p, low) && c == g.start - n
    ensures LeftBehind(LeftBy(g, n), p, After(p, low, c, c))
  {
    if n == 0 {
      assert After(p, low, c, c) == if c > p then c else low;
    } else {
      var h := LeftBy(g, n - 1);
      LeftByLeavesBehind(g, p, low, n - 1, c + 1);
      assert h.start == c + 1 by {
        LeftByKeepsText(g, n - 1);
      }
      LeftFurther(h, p, low, g.start, c);
    }
  }

  lemma RightFurther(h: Gap, p: nat, low: nat, from: nat, c: nat)
    requires h.Valid() && h.start == c && h.end < |h.data| && p < |h.data| - (h.end - h.start)
    requires from <= c && low <= from && (from > p ==> low > p)
    requires LeftBehind(h, p, After(p, low, from, c))
    ensures LeftBehind(StepRight(h), p, After(p, low, from, c + 1))
  {
    RightLeavesBehind(h, p, After(p, low, from, c), c);
  }

  lemma {:induction false} RightByLeavesBehind(g: Gap, p: nat, low: nat, n: nat, c: nat)
    requires g.Valid() && LeftBehind(g, p, low) && g.end + n <= |g.data| && p < |g.Content()|
    requires c == g.start + n
    ensures LeftBehind(RightBy(g, n), p, After(p, low, g.start, c))
  {
    if n == 0 {
      assert After(p, low, c, c) == if c > p then c else low;
    } else {
      var h := RightBy(g, n - 1);
      RightByLeavesBehind(g, p, low, n - 1, c - 1);
      assert h.start == c - 1 && h.end == g.end + n - 1 by {
        RightByKeepsText(g, n - 1);
      }
      RightFurther(h, p, low, g.start, c - 1);
    }
  }

  lemma TravelLeavesBehind(g: Gap, p: nat, low: nat, m: Move)
    requires g.Valid() && LeftBehind(g, p, low) && p < |g.Content()|
    ensures LeftBehind(Travel(g, m), p,
                       After(p, low, Lowest(m, g.Content(), g.start), Dest(m, g.Content(), g.start)))
  {
    var trip := TripOf(m, g.Content(), g.start);
    var c := g.start - trip.left;
    LeftByLeavesBehind(g, p, low, trip.left, c);
    LeftByKeepsText(g, trip.left);
    RightByLeavesBehind(LeftBy(g, trip.left), p, After(p, low, c, c), trip.right, c + trip.right);
    AfterTrip(p, low, g.start, c, c + trip.right);
  }

  lemma AfterTrip(p: nat, low: nat, from: nat, c: nat, d: nat)
    requires c <= from && c <= d && low <= from && (from > p ==> low > p)
    ensures After(p, After(p, low, c, c), c, d) == After(p, low, c, d)
  {
  }

  lemma {:induction false} TravelsKeepText(g: Gap, ms: seq<Move>)
    requires g.Valid()
    ensures var r := Travels(g, ms);
            r.Content() == g.Content() && r.end - r.start == g.end - g.start
  {
    if ms != [] {
      var n := |ms| - 1;
      TravelsKeepText(g, ms[..n]);
      TravelRefines(Travels(g, ms[..n]), ms[n]);
    }
  }

  lemma {:induction false} TravelsLeaveBehind(g: Gap, ms: seq<Move>, p: nat)
    requires g.Valid() && p < g.start
    ensures LeftBehind(Travels(g, ms), p, LowSince(g, ms, p))
  {
    if ms != [] {
      var n := |ms| - 1;
      var h := Travels(g, ms[..n]);
      TravelsLeaveBehind(g, ms[..n], p);
      TravelsKeepText(g, ms[..n]);
      TravelRefines(h, ms[n]);
      TravelLeavesBehind(h, p, LowSince(g, ms[..n], p), ms[n]);
    }
  }

  /** What a copy of `[lo, hi)` reads. */
  function Copied(g: Gap, lo: nat, hi: nat): (out: Text)
    requires lo <= hi <= |g.data|
    ensures |out| == hi - lo
  {
    g.data[lo..hi]
  }

  /** A selection made forwards is copied as it is, whatever moves made it. */
  lemma ForwardCopy(g: Gap, ms: seq<Move>)
    requires g.Valid() && g.start <= Travels(g, ms).start <= |g.Content()|
    ensures var c := Travels(g, ms).start;
            Copied(Travels(g, ms), g.start, c) == g.Content()[g.start..c]
  {
    TravelsKeepText(g, ms);
    var r := Travels(g, ms);
    assert r.Content()[..r.start] == r.data[..r.start];
    assert r.data[g.start..r.start] == r.data[..r.start][g.start..];
    assert r.Content()[g.start..r.start] == r.Content()[..r.start][g.start..];
  }

  lemma ReadAt(r: Gap, t: Text, i: nat, low: nat, len: nat)
    requires r.Valid() && LeftBehind(r, i, low) && r.start <= i < |t|
    requires t == r.Content() && len == r.end - r.start
    ensures r.data[i] == t[Source(i, low, len)]
  {
  }

  /**
   * A selection made backwards, byte by byte: the text, except where the cursor
   * has been a gap's length below since it last came past; there it is the text
   * a gap's length earlier.
   */
  lemma BackwardCopy(g: Gap, ms: seq<Move>, i: nat)
    requires g.Valid() && Travels(g, ms).start <= i < g.start
    ensures Travels(g, ms).data[i] == g.Content()[Source(i, LowSince(g, ms, i), g.end - g.start)]
  {
    var r := Travels(g, ms);
    TravelsKeepText(g, ms);
    TravelsLeaveBehind(g, ms, i);
    ReadAt(r, g.Content(), i, LowSince(g, ms, i), g.end - g.start);
  }

  /** The offsets at which a backward selection is not read as it is. */
  ghost predicate Overrun(g: Gap, ms: seq<Move>, i: nat)
    requires g.Valid()
  {
    Travels(g, ms).start <= i < g.start && LowSince(g, ms, i) + (g.end - g.start) <= i
  }

  /** An overrun offset is harmless when it repeats the byte a gap's length before it. */
  ghost predicate Repeats(g: Gap, i: nat)
    requires g.Valid()
  {
    g.end - g.start <= i < |g.Content()|
    && g.Content()[i] == g.Content()[i - (g.end - g.start)]
  }

  lemma SourceDecides(g: Gap, i: nat, low: nat, b: byte)
    requires g.Valid() && low <= i < |g.Content()| && b == g.Content()[Source(i, low, g.end - g.start)]
    ensures b == g.Content()[i] <==> (low + (g.end - g.start) <= i ==> Repeats(g, i))
  {
  }

  lemma BackwardCopyAt(g: Gap, ms: seq<Move>, i: nat)
    requires g.Valid() && Travels(g, ms).start <= i < g.start
    ensures Travels(g, ms).data[i] == g.Content()[i] <==> (Overrun(g, ms, i) ==> Repeats(g, i))
  {
    BackwardCopy(g, ms, i);
    SourceDecides(g, i, LowSince(g, ms, i), Travels(g, ms).data[i]);
  }

  lemma SameSlices(a: Text, b: Text, lo: nat, hi: nat)
    requires lo <= hi <= |a| && hi <= |b|
    ensures a[lo..hi] == b[lo..hi] <==> forall i :: lo <= i < hi ==> a[i] == b[i]
  {
    if a[lo..hi] == b[lo..hi] {
      forall i | lo <= i < hi
        ensures a[i] == b[i]
      {
        assert a[lo..hi][i - lo] == b[lo..hi][i - lo];
      }
    }
  }

  /**
   * So a backward copy is the selected text exactly when each overrun offset
   * repeats the byte a gap's length before it.
   */
  lemma BackwardCopyExact(g: Gap, ms: seq<Move>)
    requires g.Valid() && Travels(g, ms).start < g.start
    ensures var c := Travels(g, ms).start;
            Copied(Travels(g, ms), c, g.start) == g.Content()[c..g.start]
            <==> forall i: nat :: Overrun(g, ms, i) ==> Repeats(g, i)
  {
    var c := Travels(g, ms).start;
    SameSlices(Travels(g, ms).data, g.Content(), c, g.start);
    forall i | c <= i < g.start
      ensures Travels(g, ms).data[i] == g.Content()[i] <==> (Overrun(g, ms, i) ==> Repeats(g, i))
    {
      BackwardCopyAt(g, ms, i);
    }
  }

  lemma {:induction false} LowSinceIsHigher(g: Gap, ms: seq<Move>, p: nat)
    requires g.Valid()
    ensures LowestOf(g, ms) <= LowSince(g, ms, p)
  {
    if ms != [] {
      var n := |ms| - 1;
      LowSinceIsHigher(g, ms[..n], p);
      TravelRefines(Travels(g, ms[..n]), ms[n]);
    }
  }

  /**
   * In particular it is, when the moves never took the cursor further below the
   * anchor than the gap is long, or when there is no gap.
   */
  lemma BackwardCopyWithinGap(g: Gap, ms: seq<Move>)
    requires g.Valid() && Travels(g, ms).start < g.start
    requires g.start - LowestOf(g, ms) <= g.end - g.start || g.start == g.end
    ensures var c := Travels(g, ms).start;
            Copied(Travels(g, ms), c, g.start) == g.Content()[c..g.start]
  {
    forall i: nat | Overrun(g, ms, i)
      ensures Repeats(g, i)
    {
      LowSinceIsHigher(g, ms, i);
    }
    BackwardCopyExact(g, ms);
  }

  function LeftMoves(n: nat): (ms: seq<Move>)
    ensures |ms| == n
  {
    if n == 0 then [] else LeftMoves(n - 1) + [Left]
  }

  /** Moves to the left only go down: the lowest offset is where the cursor is. */
  lemma {:induction false} LeftMovesGoDown(g: Gap, n: nat, p: nat)
    requires g.Valid() && n <= g.start
    ensures Travels(g, LeftMoves(n)).start == g.start - n
    ensures LowSince(g, LeftMoves(n), p) == g.start - n
  {
    if n > 0 {
      LeftMovesGoDown(g, n - 1, p);
      assert LeftMoves(n)[..n - 1] == LeftMoves(n - 1);
      TravelRefines(Travels(g, LeftMoves(n - 1)), Left);
    }
  }

  /**
   * After `n` moves to the left a copy is the selected text exactly when the text
   * repeats itself, a gap's length apart, over all but the first gap's length of it.
   */
  lemma LeftwardCopyExact(g: Gap, n: nat)
    requires g.Valid() && 0 < n <= g.start
    ensures var c, len := g.start - n, g.end - g.start;
            && Travels(g, LeftMoves(n)).start == c
            && (Copied(Travels(g, LeftMoves(n)), c, g.start) == g.Content()[c..g.start]
                <==> forall i: nat :: c + len <= i < g.start ==> Repeats(g, i))
  {
    LeftMovesGoDown(g, n, 0);
    BackwardCopyExact(g, LeftMoves(n));
    forall i: nat
      ensures Overrun(g, LeftMoves(n), i) <==> g.start - n + (g.end - g.start) <= i < g.start
    {
      LeftMovesGoDown(g, n, i);
    }
  }
}
