/**
  Byte offsets, line/character positions in UTF-16 units, and the delta-encoded
  semantic tokens built on them.  A text is a sequence of characters; a byte
  offset on a character boundary is the size of the characters before it.  A
  slice of the text in bytes exists when both of its ends are boundaries.
 */
module LspPosition {
  import opened KeyOrder
  import opened Wrappers

  /* ---- sizes ---- */

  function Utf8Size(c: char): (size: nat)
    ensures 1 <= size <= 4
  {
    if c as int < 0x80 then 1 else if c as int < 0x800 then 2 else if c as int < 0x1_0000 then 3 else 4
  }

  /** The byte offset of a character boundary. */
  function ByteAt(text: string, i: nat): nat
    requires i <= |text|
  {
    if i == 0 then 0 else ByteAt(text, i - 1) + Utf8Size(text[i - 1])
  }

  /** The last boundary at or before a byte offset; the end of the text for larger offsets. */
  function BoundaryAt(text: string, byte: nat, i: nat): (boundary: nat)
    requires i <= |text|
    ensures boundary <= i
  {
    if i == 0 || ByteAt(text, i) <= byte then i else BoundaryAt(text, byte, i - 1)
  }

  /** UTF-16 units between two boundaries. */
  function Units(text: string, from: nat, upto: nat): nat
    requires from <= upto <= |text|
    decreases upto
  {
    if from == upto then 0 else Units(text, from, upto - 1) + |Utf16Units(text[upto - 1])|
  }

  lemma {:induction false} ByteAtRises(text: string, i: nat, j: nat)
    requires i < j <= |text|
    ensures ByteAt(text, i) < ByteAt(text, j)
    decreases j
  {
    if i < j - 1 {
      ByteAtRises(text, i, j - 1);
    }
  }

  lemma {:induction false} BoundaryFound(text: string, i: nat, n: nat)
    requires i <= n <= |text|
    ensures BoundaryAt(text, ByteAt(text, i), n) == i
    decreases n
  {
    if i < n {
      ByteAtRises(text, i, n);
      BoundaryFound(text, i, n - 1);
    }
  }

  lemma {:induction false} UnitsSplit(text: string, from: nat, mid: nat, upto: nat)
    requires from <= mid <= upto <= |text|
    ensures Units(text, from, upto) == Units(text, from, mid) + Units(text, mid, upto)
    decreases upto
  {
    if upto != mid {
      UnitsSplit(text, from, mid, upto - 1);
    }
  }

  lemma {:induction false} UnitsPositive(text: string, from: nat, upto: nat)
    requires from < upto <= |text|
    ensures Units(text, from, upto) > 0
  {
  }

  /* ---- lines ---- */

  /** A line starts here: after a line feed, or after a carriage return that no line feed follows. */
  predicate StartsLine(text: string, i: nat)
    requires i <= |text|
  {
    i > 0 && (text[i - 1] == '\n' || (text[i - 1] == '\r' && !(i < |text| && text[i] == '\n')))
  }

  /** The number of the line that holds a boundary. */
  function LineAt(text: string, i: nat): nat
    requires i <= |text|
  {
    if i == 0 then 0 else LineAt(text, i - 1) + if StartsLine(text, i) then 1 else 0
  }

  /** The first boundary of a line, searching back from `i`. */
  function LineStart(text: string, line: nat, i: nat): (start: nat)
    requires i <= |text| && line <= LineAt(text, i)
    ensures start <= i && LineAt(text, start) == line
    ensures start == 0 || StartsLine(text, start)
  {
    if i == 0 then 0
    else if line <= LineAt(text, i - 1) then LineStart(text, line, i - 1)
    else i
  }

  lemma {:induction false} LineAtRises(text: string, i: nat, j: nat)
    requires i <= j <= |text|
    ensures LineAt(text, i) <= LineAt(text, j)
    decreases j
  {
    if i < j {
      LineAtRises(text, i, j - 1);
    }
  }

  /** A line's start is its least boundary, wherever the search begins. */
  lemma {:induction false} LineStartLeast(text: string, line: nat, i: nat, j: nat)
    requires i <= |text| && j <= |text| && line <= LineAt(text, i) && LineAt(text, j) == line
    ensures LineStart(text, line, i) <= j
    decreases i
  {
    if i > 0 && line <= LineAt(text, i - 1) {
      LineStartLeast(text, line, i - 1, j);
    } else if i > 0 && j < i {
      LineAtRises(text, j, i - 1);
    }
  }

  function Lines(text: string): nat {
    LineAt(text, |text|) + 1
  }

  /* ---- positions ---- */

  datatype Position = Position(line: nat, character: nat)

  function BoundaryToPosition(text: string, i: nat): Position
    requires i <= |text|
  {
    LineAtRises(text, i, |text|);
    var start := LineStart(text, LineAt(text, i), |text|);
    LineStartLeast(text, LineAt(text, i), |text|, i);
    Position(LineAt(text, i), Units(text, start, i))
  }

  function ByteToPosition(text: string, byte: nat): Position {
    BoundaryToPosition(text, BoundaryAt(text, byte, |text|))
  }

  /** The last boundary of a line's content that is at most so many units from its start. */
  function AtUnits(text: string, start: nat, end: nat, units: nat): (i: nat)
    requires start <= end <= |text|
    ensures start <= i <= end
    decreases end
  {
    if start == end || Units(text, start, end) <= units then end else AtUnits(text, start, end - 1, units)
  }

  /** Where a line's content ends: before its line feed, and before a carriage return in front of that. */
  function ContentEnd(text: string, start: nat, end: nat): (content: nat)
    requires start <= end <= |text|
    ensures start <= content <= end
  {
    if start < end && text[end - 1] == '\n' then
      if start < end - 1 && text[end - 2] == '\r' then end - 2 else end - 1
    else end
  }

  /** Two bytes before the end of a line, or where it starts if it is shorter. */
  function TailStart(start: nat, end: nat): nat {
    if end < 2 || end - 2 < start then start else end - 2
  }

  /** The last two bytes of a line are a slice: they start at a boundary. */
  predicate TailAligned(text: string, start: nat, end: nat)
    requires start <= end <= |text|
  {
    exists j :: start <= j <= end && ByteAt(text, j) == TailStart(ByteAt(text, start), ByteAt(text, end))
  }

  /**
    The slice starts inside a character exactly on a line that ends with one of three or
    more bytes, or with one of one byte behind a longer one.
   */
  lemma TailAlignedExactly(text: string, start: nat, end: nat)
    requires start <= end <= |text|
    ensures TailAligned(text, start, end) <==>
              || start == end || Utf8Size(text[end - 1]) == 2
              || (Utf8Size(text[end - 1]) == 1 && (end == start + 1 || Utf8Size(text[end - 2]) == 1))
  {
    var tail := TailStart(ByteAt(text, start), ByteAt(text, end));
    if start < end {
      ByteAtRises(text, start, end);
      TailBoundary(text, start, end - 1, tail);
      if end - 1 > start {
        ByteAtRises(text, start, end - 1);
        TailBoundary(text, start, end - 2, tail);
      }
      if ByteAt(text, start) == tail || ByteAt(text, end - 1) == tail || (end >= 2 && ByteAt(text, end - 2) == tail) {
        assert TailAligned(text, start, end);
      }
    }
  }

  /** No boundary between the start and `i` reaches a byte behind `i`. */
  lemma TailBoundary(text: string, start: nat, i: nat, byte: nat)
    requires start <= i <= |text|
    ensures ByteAt(text, i) < byte ==> forall j :: start <= j <= i ==> ByteAt(text, j) != byte
  {
    forall j | start <= j < i ensures ByteAt(text, j) < ByteAt(text, i) {
      ByteAtRises(text, j, i);
    }
  }

  /** On this line the two bytes before the end start inside the accented letter. */
  lemma TailCutsCharacter()
    ensures !TailAligned("\U{E9}\n", 0, 2) && MappedByte("\U{E9}\n", Position(0, 0)) == None
  {
    var text := "\U{E9}\n";
    TailAlignedExactly(text, 0, 2);
    assert LineAt(text, 1) == 0 && LineAt(text, 2) == 1;
    assert LineStart(text, 1, 2) == 2 && LineStart(text, 0, 2) == 0;
  }

  /** Where the content of a line ends, as its last two bytes show it; nothing if they are no slice. */
  method StripTerminator(text: string, start: nat, end: nat) returns (content: Option<nat>)
    requires start <= end <= |text|
    ensures content == if TailAligned(text, start, end) then Some(ContentEnd(text, start, end)) else None
  {
    var tailStart := TailStart(ByteAt(text, start), ByteAt(text, end));
    var boundary := BoundaryAt(text, tailStart, end);
    TailFound(text, start, end, tailStart);
    if ByteAt(text, boundary) != tailStart {
      return None;
    }
    var tail := text[boundary..end];
    if tail == "" || tail[|tail| - 1] != '\n' {
      return Some(end);
    }
    if |tail| >= 2 && tail[|tail| - 2..] == "\r\n" {
      return Some(end - 2);
    }
    return Some(end - 1);
  }

  /** The search for the tail finds it, and it holds the last two characters if both are of one byte. */
  lemma TailFound(text: string, start: nat, end: nat, tailStart: nat)
    requires start <= end <= |text| && tailStart == TailStart(ByteAt(text, start), ByteAt(text, end))
    ensures var boundary := BoundaryAt(text, tailStart, end);
            && (ByteAt(text, boundary) == tailStart <==> TailAligned(text, start, end))
            && (ByteAt(text, boundary) == tailStart ==> start <= boundary)
            && (ByteAt(text, boundary) == tailStart && start < end ==> boundary < end)
            && (ByteAt(text, boundary) == tailStart && start < end - 1 && Utf8Size(text[end - 1]) == 1 ==>
                boundary == end - 2)
  {
    var boundary := BoundaryAt(text, tailStart, end);
    if TailAligned(text, start, end) {
      var j :| start <= j <= end && ByteAt(text, j) == tailStart;
      BoundaryFound(text, j, end);
    }
    if boundary < start {
      ByteAtRises(text, boundary, start);
    }
    if start < end {
      ByteAtRises(text, start, end);
      if start < end - 1 {
        ByteAtRises(text, start, end - 1);
        if start <= boundary && Utf8Size(text[end - 1]) == 1 {
          TailSecond(text, start, end, boundary);
        }
      }
    }
  }

  lemma TailSecond(text: string, start: nat, end: nat, boundary: nat)
    requires start < end - 1 && start <= boundary <= end <= |text| && Utf8Size(text[end - 1]) == 1
    ensures ByteAt(text, boundary) == TailStart(ByteAt(text, start), ByteAt(text, end)) ==> boundary == end - 2
  {
    if boundary < end - 2 {
      ByteAtRises(text, boundary, end - 2);
    }
    ByteAtRises(text, start, end - 1);
    if start < end - 2 {
      ByteAtRises(text, start, end - 2);
    }
  }

  method PositionToByte(text: string, position: Position) returns (byte: Option<nat>)
    ensures byte == MappedByte(text, position)
  {
    var count := Lines(text);
    var line := if position.line <= count - 1 then position.line else count - 1;
    var lineStart := LineStart(text, line, |text|);
    var lineEnd := |text|;
    if line + 1 < count {
      lineEnd := LineStart(text, line + 1, |text|);
    }
    LineEndAfterStart(text, line);
    var content := StripTerminator(text, lineStart, lineEnd);
    if content.None? {
      return None;
    }
    var length := Units(text, lineStart, content.value);
    var units := if position.character <= length then position.character else length;
    return Some(ByteAt(text, AtUnits(text, lineStart, content.value, units)));
  }

  /** The line's last two bytes are a slice. */
  predicate LineAligned(text: string, line: nat)
    requires line < Lines(text)
  {
    LineEndAfterStart(text, line);
    TailAligned(text, LineStart(text, line, |text|), LineEnd(text, line))
  }

  /** The byte a position maps to; nothing on a line whose last two bytes are no slice. */
  function MappedByte(text: string, position: Position): Option<nat> {
    var line := if position.line <= Lines(text) - 1 then position.line else Lines(text) - 1;
    if LineAligned(text, line) then Some(PositionByte(text, position)) else None
  }

  function LineEnd(text: string, line: nat): (end: nat)
    requires line < Lines(text)
    ensures end <= |text|
  {
    if line + 1 < Lines(text) then LineStart(text, line + 1, |text|) else |text|
  }

  lemma LineEndAfterStart(text: string, line: nat)
    requires line < Lines(text)
    ensures LineStart(text, line, |text|) <= LineEnd(text, line)
  {
    if line + 1 < Lines(text) {
      var start, next := LineStart(text, line, |text|), LineStart(text, line + 1, |text|);
      if next < start {
        LineAtRises(text, next, start);
      }
    }
  }

  function PositionBoundary(text: string, position: Position): (i: nat)
    ensures i <= |text|
    ensures position.line < Lines(text) ==> LineStart(text, position.line, |text|) <= i <= LineEnd(text, position.line)
  {
    var line := if position.line <= Lines(text) - 1 then position.line else Lines(text) - 1;
    LineEndAfterStart(text, line);
    Clamped(text, LineStart(text, line, |text|), LineEnd(text, line), position.character)
  }

  function PositionByte(text: string, position: Position): nat {
    ByteAt(text, PositionBoundary(text, position))
  }

  /* ---- round trip ---- */

  predicate BetweenReturnAndFeed(text: string, i: nat) {
    0 < i < |text| && text[i - 1] == '\r' && text[i] == '\n'
  }

  lemma {:induction false} UnitsFound(text: string, start: nat, i: nat, end: nat)
    requires start <= i <= end <= |text|
    ensures AtUnits(text, start, end, Units(text, start, i)) == i && Units(text, start, i) <= Units(text, start, end)
    decreases end
  {
    UnitsSplit(text, start, i, end);
    if i < end {
      UnitsPositive(text, i, end);
      UnitsFound(text, start, i, end - 1);
    }
  }

  /** A boundary lies before the end of its line. */
  lemma OnItsLine(text: string, i: nat)
    requires i <= |text|
    ensures var line := LineAt(text, i);
            line < Lines(text) && LineStart(text, line, |text|) <= i <= LineEnd(text, line)
            && (line + 1 < Lines(text) ==> i < LineEnd(text, line))
  {
    var line := LineAt(text, i);
    LineAtRises(text, i, |text|);
    LineStartLeast(text, line, |text|, i);
    if line + 1 < Lines(text) && LineEnd(text, line) <= i {
      LineAtRises(text, LineEnd(text, line), i);
    }
  }

  /** The last line has no terminator. */
  lemma LastLineOpen(text: string)
    ensures var start := LineStart(text, Lines(text) - 1, |text|); start < |text| ==> text[|text| - 1] != '\n'
  {
  }

  /** On one line: the column of a boundary leads back to it, or to the end of the content. */
  lemma ClampedBack(text: string, start: nat, end: nat, i: nat)
    requires start <= i <= end <= |text|
    ensures var content := ContentEnd(text, start, end);
            Clamped(text, start, end, Units(text, start, i)) == if i <= content then i else content
  {
    var content := ContentEnd(text, start, end);
    if i <= content {
      UnitsFound(text, start, i, content);
    } else {
      UnitsFound(text, start, content, i);
      UnitsFound(text, start, content, content);
    }
  }

  lemma BehindContent(text: string, start: nat, end: nat, i: nat)
    requires start <= i <= end <= |text| && (i == end ==> start == end || text[end - 1] != '\n')
    ensures i > ContentEnd(text, start, end) <==> start < i && i + 1 == end && BetweenReturnAndFeed(text, i)
    ensures i > ContentEnd(text, start, end) ==> ContentEnd(text, start, end) == i - 1
  {
  }

  /** A boundary between CR and LF is inside its line, just before the line's end. */
  lemma FeedEndsLine(text: string, i: nat)
    requires BetweenReturnAndFeed(text, i)
    ensures var line := LineAt(text, i);
            line + 1 < Lines(text) && LineEnd(text, line) == i + 1 && LineStart(text, line, |text|) < i
  {
    var line := LineAt(text, i);
    assert LineAt(text, i + 1) == line + 1 && LineAt(text, i - 1) == line;
    LineAtRises(text, i + 1, |text|);
    LineStartLeast(text, line + 1, |text|, i + 1);
    LineStartLeast(text, line, |text|, i - 1);
    OnItsLine(text, i);
  }

  /**
    Going to a position and back is the identity exactly at boundaries that are not
    between CR and LF; there it steps before the CR.
   */
  lemma PositionRoundTrip(text: string, i: nat)
    requires i <= |text|
    ensures PositionBoundary(text, BoundaryToPosition(text, i)) == if BetweenReturnAndFeed(text, i) then i - 1 else i
  {
    var line := LineAt(text, i);
    OnItsLine(text, i);
    LastLineOpen(text);
    var start, end := LineStart(text, line, |text|), LineEnd(text, line);
    BehindContent(text, start, end, i);
    ClampedBack(text, start, end, i);
    if BetweenReturnAndFeed(text, i) {
      FeedEndsLine(text, i);
    }
  }

  /**
    On byte offsets: the round trip succeeds exactly on lines whose last two bytes are a
    slice, and not between CR and LF.
   */
  lemma ByteRoundTrip(text: string, i: nat)
    requires i <= |text|
    ensures LineAt(text, i) < Lines(text)
    ensures MappedByte(text, ByteToPosition(text, ByteAt(text, i))) == Some(ByteAt(text, i)) <==>
            LineAligned(text, LineAt(text, i)) && !BetweenReturnAndFeed(text, i)
    ensures MappedByte(text, ByteToPosition(text, ByteAt(text, i))).Some? <==> LineAligned(text, LineAt(text, i))
  {
    OnItsLine(text, i);
    BoundaryFound(text, i, |text|);
    PositionRoundTrip(text, i);
    if BetweenReturnAndFeed(text, i) {
      ByteAtRises(text, i - 1, i);
    }
  }

  /** A carriage return that alone ends the line. */
  predicate EndsAtLoneReturn(text: string, line: nat)
    requires line < Lines(text)
  {
    line + 1 < Lines(text) && LineEnd(text, line) > 0 && text[LineEnd(text, line) - 1] == '\r'
  }

  /** The position lies past the end of such a line. */
  predicate PastLoneReturn(text: string, position: Position)
    requires position.line < Lines(text)
  {
    LineEndAfterStart(text, position.line);
    EndsAtLoneReturn(text, position.line)
    && position.character >= Units(text, LineStart(text, position.line, |text|), LineEnd(text, position.line))
  }

  /**
    A position maps to its own line, clamped before the line break, except past the end of
    a line that ends at a lone carriage return.
   */
  lemma PositionStaysOnLine(text: string, position: Position)
    requires position.line < Lines(text)
    ensures LineAt(text, PositionBoundary(text, position)) == position.line <==> !PastLoneReturn(text, position)
  {
    var line, boundary := position.line, PositionBoundary(text, position);
    BoundaryLine(text, line, boundary);
    ReachesEnd(text, position, boundary, LineEnd(text, line));
  }

  lemma ReachesEnd(text: string, position: Position, boundary: nat, end: nat)
    requires position.line < Lines(text) && boundary == PositionBoundary(text, position)
             && end == LineEnd(text, position.line)
    ensures PastLoneReturn(text, position) <==> position.line + 1 < Lines(text) && boundary >= end
  {
    if position.line + 1 < Lines(text) {
      ReachesLineEnd(text, position);
    }
  }

  /** Between a line's start and its end only the end may belong to the next line. */
  lemma BoundaryLine(text: string, line: nat, boundary: nat)
    requires line < Lines(text) && LineStart(text, line, |text|) <= boundary <= LineEnd(text, line)
    ensures LineAt(text, boundary) == line <==> boundary < LineEnd(text, line) || line + 1 == Lines(text)
  {
    var start, end := LineStart(text, line, |text|), LineEnd(text, line);
    LineAtRises(text, start, boundary);
    if line + 1 == Lines(text) {
      LineAtRises(text, boundary, |text|);
    } else {
      BeforeLineStart(text, line + 1, |text|);
      if boundary < end {
        LineAtRises(text, boundary, end - 1);
      }
    }
  }

  lemma ReachesLineEnd(text: string, position: Position)
    requires position.line + 1 < Lines(text)
    ensures var start, end := LineStart(text, position.line, |text|), LineEnd(text, position.line);
            && start < end
            && PositionBoundary(text, position) <= end
            && (PositionBoundary(text, position) == end <==>
                text[end - 1] == '\r' && position.character >= Units(text, start, end))
  {
    var line := position.line;
    LineEndAfterStart(text, line);
    BeforeLineStart(text, line + 1, |text|);
    ClampedAtBreak(text, LineStart(text, line, |text|), LineEnd(text, line), position.character);
  }

  function Clamped(text: string, start: nat, end: nat, character: nat): (i: nat)
    requires start <= end <= |text|
    ensures start <= i <= end
  {
    var content := ContentEnd(text, start, end);
    var length := Units(text, start, content);
    AtUnits(text, start, content, if character <= length then character else length)
  }

  lemma ClampedAtBreak(text: string, start: nat, end: nat, character: nat)
    requires start < end <= |text| && (text[end - 1] == '\n' || text[end - 1] == '\r')
    ensures Clamped(text, start, end, character) == end <==>
              text[end - 1] == '\r' && character >= Units(text, start, end)
  {
    UnitsFound(text, start, end, end);
    if character < Units(text, start, end) {
      AtUnitsShort(text, start, end, character);
    }
  }

  lemma {:induction false} BeforeLineStart(text: string, line: nat, i: nat)
    requires i <= |text| && 0 < line <= LineAt(text, i)
    ensures var start := LineStart(text, line, i); start > 0 && LineAt(text, start - 1) == line - 1
    decreases i
  {
    if line <= LineAt(text, i - 1) {
      BeforeLineStart(text, line, i - 1);
    }
  }

  lemma AtUnitsShort(text: string, start: nat, end: nat, units: nat)
    requires start < end <= |text| && units < Units(text, start, end)
    ensures AtUnits(text, start, end, units) < end
  {
  }

  /** Past the end of a line that ends at a lone carriage return a position maps to the next line. */
  lemma LoneReturnLeaks()
    ensures LineAt("a\rb", PositionBoundary("a\rb", Position(0, 9))) == 1
  {
    var text := "a\rb";
    assert LineAt(text, 1) == 0 && LineAt(text, 2) == 1 && LineAt(text, 3) == 1;
    assert LineStart(text, 1, 3) == 2;
    assert LineStart(text, 0, 3) == 0;
    assert Units(text, 0, 2) == 2;
  }

  /* ---- semantic tokens ---- */

  datatype Token = Token(start: nat, end: nat, kind: nat)

  datatype Placed = Placed(line: nat, character: nat, length: nat, kind: nat)

  datatype Encoded = Encoded(deltaLine: nat, deltaStart: nat, length: nat, kind: nat)

  /** A token on one line that is not empty, where it lies; any other cannot be expressed. */
  function PlacedToken(start: Position, end: Position, kind: nat): seq<Placed> {
    if start.line != end.line || start.character >= end.character then []
    else [Placed(start.line, start.character, end.character - start.character, kind)]
  }

  function Kept(text: string, tokens: seq<Token>): seq<Placed> {
    if tokens == [] then []
    else
      var n := |tokens| - 1;
      Kept(text, tokens[..n])
          + PlacedToken(ByteToPosition(text, tokens[n].start), ByteToPosition(text, tokens[n].end), tokens[n].kind)
  }

  /** The position a delta counts from: the last token's, or the start of the text. */
  function Last(placed: seq<Placed>): Position {
    if placed == [] then Position(0, 0) else Position(placed[|placed| - 1].line, placed[|placed| - 1].character)
  }

  /** A client's reading of the stream. */
  function Decode(encoded: seq<Encoded>): seq<Placed> {
    if encoded == [] then []
    else
      var n := |encoded| - 1;
      var before := Decode(encoded[..n]);
      var e := encoded[n];
      before + [Placed(Last(before).line + e.deltaLine, if e.deltaLine == 0 then Last(before).character + e.deltaStart
                       else e.deltaStart, e.length, e.kind)]
  }

  predicate NotAfter(p: Position, q: Position) {
    p.line < q.line || (p.line == q.line && p.character <= q.character)
  }

  lemma {:induction false} BoundaryRises(text: string, a: nat, b: nat, i: nat)
    requires i <= |text| && a <= b
    ensures BoundaryAt(text, a, i) <= BoundaryAt(text, b, i)
    decreases i
  {
    if i > 0 {
      BoundaryRises(text, a, b, i - 1);
    }
  }

  lemma PositionRises(text: string, a: nat, b: nat)
    requires a <= b
    ensures NotAfter(ByteToPosition(text, a), ByteToPosition(text, b))
  {
    BoundaryRises(text, a, b, |text|);
    var i, j := BoundaryAt(text, a, |text|), BoundaryAt(text, b, |text|);
    LineAtRises(text, i, j);
    LineAtRises(text, j, |text|);
    if LineAt(text, i) == LineAt(text, j) {
      var start := LineStart(text, LineAt(text, i), |text|);
      LineStartLeast(text, LineAt(text, i), |text|, i);
      UnitsSplit(text, start, i, j);
    }
  }

  lemma LastPlaced(before: seq<Placed>, start: Position, end: Position, kind: nat)
    ensures Last(before + PlacedToken(start, end, kind)) ==
              if PlacedToken(start, end, kind) == [] then Last(before) else start
  {
  }

  /** The last kept token starts no later than any later token. */
  lemma {:induction false} LastNotAfter(text: string, tokens: seq<Token>, later: nat)
    requires forall i :: 0 <= i < |tokens| ==> tokens[i].start <= later
    ensures NotAfter(Last(Kept(text, tokens)), ByteToPosition(text, later))
  {
    if tokens != [] {
      var n := |tokens| - 1;
      LastNotAfter(text, tokens[..n], later);
      PositionRises(text, tokens[n].start, later);
      LastPlaced(Kept(text, tokens[..n]), ByteToPosition(text, tokens[n].start), ByteToPosition(text, tokens[n].end),
                 tokens[n].kind);
    }
  }

  /** One more token after those already encoded, if it can be expressed; no delta is negative. */
  method EncodeNext(encoded: seq<Encoded>, previous: Position, start: Position, end: Position, kind: nat)
    returns (after: seq<Encoded>, last: Position)
    requires previous == Last(Decode(encoded)) && NotAfter(previous, start)
    ensures Decode(after) == Decode(encoded) + PlacedToken(start, end, kind) && last == Last(Decode(after))
  {
    after, last := encoded, previous;
    if start.line == end.line && start.character < end.character {
      var deltaLine: nat := start.line - previous.line;
      var deltaStart: nat := if deltaLine == 0 then start.character - previous.character else start.character;
      after := encoded + [Encoded(deltaLine, deltaStart, end.character - start.character, kind)];
      assert after[..|after| - 1] == encoded;
      last := start;
    }
  }

  lemma KeptNext(text: string, tokens: seq<Token>, i: nat)
    requires i < |tokens|
    ensures Kept(text, tokens[..i + 1]) ==
            Kept(text, tokens[..i])
                + PlacedToken(ByteToPosition(text, tokens[i].start), ByteToPosition(text, tokens[i].end),
                              tokens[i].kind)
  {
    assert tokens[..i + 1][..i] == tokens[..i];
  }

  /** Decoding the encoded stream of span-sorted tokens gives exactly the kept tokens. */
  method EncodeSemanticTokens(text: string, tokens: seq<Token>) returns (encoded: seq<Encoded>)
    requires forall i, j :: 0 <= i < j < |tokens| ==> tokens[i].start <= tokens[j].start
    ensures Decode(encoded) == Kept(text, tokens)
  {
    encoded := [];
    var previous := Position(0, 0);
    for i := 0 to |tokens|
      invariant Decode(encoded) == Kept(text, tokens[..i]) && previous == Last(Decode(encoded))
    {
      LastNotAfter(text, tokens[..i], tokens[i].start);
      KeptNext(text, tokens, i);
      encoded,
          previous :=
              EncodeNext(encoded, previous, ByteToPosition(text, tokens[i].start), ByteToPosition(text, tokens[i].end),
                         tokens[i].kind);
    }
    assert tokens[..|tokens|] == tokens;
  }
}
