/** The selection: a flag and two offsets, kept by reference as the source keeps them. */
module Highlights {
  import opened Bytes

  datatype Span = Span(active: bool, start: nat, end: nat)

  const NONE := Span(false, 0, 0)

  function Started(cursor: nat): Span {
    Span(true, cursor, cursor)
  }

  function Ended(s: Span, cursor: nat): Span {
    if s.active then s.(end := cursor) else s
  }

  /** The selected offsets of the text, whichever end was set first. */
  predicate Selects(s: Span, k: nat) {
    s.active && Min(s.start, s.end) <= k < Max(s.start, s.end)
  }

  /** The bytes of a text that are selected; an end may lie beyond the text. */
  function Highlighted(t: Text, s: Span): Text {
    if s.active then t[Min(Min(s.start, s.end), |t|)..Min(Max(s.start, s.end), |t|)] else []
  }

  class Highlight {
    var active: bool
    var start: nat
    var end: nat

    function Model(): Span
      reads this
    {
      Span(active, start, end)
    }

    constructor ()
      ensures Model() == NONE
    {
      active, start, end := false, 0, 0;
    }

    method Clear()
      modifies this
      ensures Model() == NONE
    {
      active := false;
      start := 0;
      end := 0;
    }

    method Start(cursor: nat)
      modifies this
      ensures Model() == Started(cursor)
    {
      active := true;
      start := cursor;
      end := cursor;
    }

    method UpdateEndpoint(cursor: nat)
      modifies this
      ensures Model() == Ended(old(Model()), cursor)
    {
      if active {
        end := cursor;
      }
    }
  }
}
