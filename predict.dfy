/**
 * The integer predecessor rules of the prediction tool (predict/main.c): the
 * graph types and their names, Alexander's sliding power-of-two window, and
 * the Catena-3 rule that points each node of a row at the bit-reversed node
 * of the row before. The random value the sliding window draws is a
 * parameter.
 */
module Predict {
  import opened Words
  import BitReversal

  /** The value a predecessor rule returns for "no edge" (UINT32_MAX). */
  const NoEdge: word := 0xFFFF_FFFF

  /** MEM_LENGTH, the number of nodes in the predicted graph. */
  const MemLength: nat := 2048

  datatype GraphType = SlidingWindow | RandCubed | Rand | Catena3

  /** peTypeGetName: the command-line name of each graph type. */
  function TypeName(t: GraphType): string
  {
    match t
    case SlidingWindow => "sliding_window"
    case RandCubed => "rand_cubed"
    case Rand => "rand"
    case Catena3 => "catena3"
  }

  /**
   * parseType: the graph type with the given name; None where the tool stops
   * with "Unknown graph type". It accepts exactly the four names TypeName
   * gives, each for its own type.
   */
  function ParseType(name: string): (r: Option<GraphType>)
    ensures forall t :: r == Some(t) <==> TypeName(t) == name
  {
    if name == "sliding_window" then Some(SlidingWindow)
    else if name == "rand_cubed" then Some(RandCubed)
    else if name == "rand" then Some(Rand)
    else if name == "catena3" then Some(Catena3)
    else None
  }

  /** The window of the sliding rule: the largest power of two below pos. */
  function Window(pos: nat): (w: nat)
    requires pos >= 2
    ensures w < pos <= 2 * w
  {
    Pow2(BitReversal.Log2(pos - 1))
  }

  /**
   * findSlidingWindowPos: no edge below position 2; otherwise a position at
   * most the window size back from pos - 1, chosen by the random value rnd.
   * `rand() & mask` with mask = window - 1 keeps the low bits of rnd, that
   * is rnd modulo the window. Whatever rnd is, the result is an earlier
   * position other than 0, at most the window back.
   */
  function SlidingWindowPrev(pos: word, rnd: word): (prev: word)
    ensures pos >= 2 ==> 1 <= prev <= pos - 1 && pos - Window(pos) <= prev
  {
    if pos < 2 then NoEdge else pos - 1 - rnd % Window(pos)
  }

  /**
   * findSlidingWindowPos: the mask loop finds the least power of two >= pos;
   * half of it is the window. Past 2^31 the uint32 mask would wrap to 0 and
   * the loop would not end, hence the bound on pos.
   */
  method FindSlidingWindowPos(pos: word, rnd: word) returns (prev: word)
    requires pos <= 0x8000_0000
    ensures prev == SlidingWindowPrev(pos, rnd)
    ensures pos >= 2 ==> 1 <= prev <= pos - 1
  {
    if pos < 2 {
      return NoEdge;
    }
    var mask: nat := 1;
    ghost var e: nat := 0;
    while mask < pos
      invariant mask == Pow2(e) && mask / 2 < pos
      decreases pos - mask
    {
      mask := 2 * mask;
      e := e + 1;
    }
    assert e >= 1 && mask == 2 * Pow2(e - 1);
    var window := mask / 2;
    BitReversal.Log2Unique(pos - 1, e - 1);
    prev := pos - 1 - rnd % window;
  }

  /**
   * findCatena3Pos: the graph is split into rows of MemLength / 4 = 2^9 = 512
   * nodes. No edge in row 0; otherwise the bit-reversed place in the previous
   * row.
   */
  function Catena3Prev(pos: word): (prev: word)
  {
    var row := pos / 512;
    if row == 0 then NoEdge
    else (row - 1) * 512 + BitReversal.Reversed(pos % 512, 9)
  }

  /** The row length, a quarter of the graph, is 2^9. */
  lemma RowLengthBits()
    ensures MemLength / 4 == 512 && Pow2(9) == 512 && BitReversal.Log2(512) == 9
  {
    BitReversal.Log2Unique(512, 9);
  }

  /** Outside row 0 the Catena-3 predecessor lies in the previous row. */
  lemma Catena3PrevRange(pos: word)
    requires pos >= 512
    ensures var row := pos / 512;
      (row - 1) * 512 <= Catena3Prev(pos) < row * 512
  {
    RowLengthBits();
  }

  /**
   * Two nodes of the same row have the same Catena-3 predecessor only if they
   * are the same node: each node of a row is read by exactly one node of the
   * next.
   */
  lemma Catena3PrevInjective(a: word, b: word)
    requires a >= 512 && a / 512 == b / 512
    requires Catena3Prev(a) == Catena3Prev(b)
    ensures a == b
  {
    RowLengthBits();
    BitReversal.ReversedTwice(a % 512, 9);
    BitReversal.ReversedTwice(b % 512, 9);
  }

  /** findCatena3Pos, with `reverse` the bit-reversal loop shared with bitReverse. */
  method FindCatena3Pos(pos: word) returns (prev: word)
    ensures prev == Catena3Prev(pos)
    ensures pos >= 512 ==> (pos / 512 - 1) * 512 <= prev < pos / 512 * 512
  {
    var row := pos / 512;
    if row == 0 {
      return NoEdge;
    }
    var rowPos := pos - row * 512;
    RowLengthBits();
    var rev := BitReversal.BitReverse(rowPos, 512);
    Catena3PrevRange(pos);
    prev := (row - 1) * 512 + rev;
  }
}
