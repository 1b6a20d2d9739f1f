/**
 The remote-ICE text parser of the widget: lines, comma-separated parts, the third non-empty
 quote-delimited piece of each part, and a triple where exactly three parts have one.
 */
module Ice {
  import opened Options
  import opened Text
  import opened Decimal

  datatype Candidate = Candidate(index: int, mid: string, sdp: string)

  /** The four characters backslash, r, backslash, n. */
  const ESCAPE := "\\r\\n"

  /** How one part, and one line, is read; the laws below hold for any such reading. */
  type Picking = string -> Option<string>
  type LineReading = string -> seq<Candidate>

  function Pieces(part: string): seq<string>
  {
    SplitSkip(part, "\"")
  }

  function ThirdPiece(part: string): Option<string>
  {
    if |Pieces(part)| > 2 then Some(Pieces(part)[2]) else None
  }

  function Remaining(pick: Picking, parts: seq<string>): seq<string>
  {
    if parts == [] then []
    else
      var n := |parts| - 1;
      match pick(parts[n])
      case None => Remaining(pick, parts[..n])
      case Some(v) => Remaining(pick, parts[..n]) + [v]
  }

  function Triple(remaining: seq<string>): seq<Candidate>
  {
    if |remaining| == 3
    then [Candidate(Atoi(remaining[0]), remaining[1], Remove(remaining[2], ESCAPE))]
    else []
  }

  function DecodeLine(line: string): seq<Candidate>
  {
    Triple(Remaining(ThirdPiece, Split(line, ",")))
  }

  function DecodeLines(read: LineReading, lines: seq<string>): seq<Candidate>
  {
    if lines == [] then [] else DecodeLines(read, lines[..|lines| - 1]) + read(lines[|lines| - 1])
  }

  /** The candidates a click on "process remote ICE" takes from the text. */
  function Decode(text: string): seq<Candidate>
  {
    DecodeLines(DecodeLine, Split(text, "\n"))
  }

  /* ---------- the loops ---------- */

  lemma RemainingSnoc(pick: Picking, parts: seq<string>, p: string)
    ensures Remaining(pick, parts + [p])
         == if pick(p).None? then Remaining(pick, parts) else Remaining(pick, parts) + [pick(p).value]
  {
    assert (parts + [p])[..|parts|] == parts;
  }

  lemma DecodeLinesSnoc(read: LineReading, lines: seq<string>, l: string)
    ensures DecodeLines(read, lines + [l]) == DecodeLines(read, lines) + read(l)
  {
    assert (lines + [l])[..|lines|] == lines;
  }

  ghost predicate IsPicking(pick: Picking)
  {
    forall p {:trigger ThirdPiece(p)} :: pick(p) == ThirdPiece(p)
  }

  /** The quote-delimited pieces of one part. */
  method PiecesLoop(ghost pick: Picking, part: string) returns (values: seq<string>)
    requires IsPicking(pick)
    ensures values == Pieces(part)
    ensures pick(part) == if |values| > 2 then Some(values[2]) else None
  {
    assert pick(part) == ThirdPiece(part);
    values := SplitLoop(part, "\"", true);
  }

  /** The inner loop of `OnRemoteICEClicked`; `pick` only names the specification of one part. */
  method RemainingLoop(ghost pick: Picking, parts: seq<string>) returns (remainingParts: seq<string>)
    requires IsPicking(pick)
    ensures remainingParts == Remaining(pick, parts)
  {
    remainingParts := [];
    var j := 0;
    while j < |parts|
      invariant 0 <= j <= |parts|
      invariant remainingParts == Remaining(pick, parts[..j])
    {
      assert parts[..j + 1] == parts[..j] + [parts[j]];
      RemainingSnoc(pick, parts[..j], parts[j]);
      var values := PiecesLoop(pick, parts[j]);
      if |values| > 2 {
        remainingParts := remainingParts + [values[2]];
      }
      j := j + 1;
    }
    assert parts[..j] == parts;
  }

  /** One pass of the outer loop. */
  method ReadIceLine(iceLine: string) returns (c: seq<Candidate>)
    ensures c == DecodeLine(iceLine)
  {
    var parts := SplitLoop(iceLine, ",", false);
    var remainingParts := RemainingLoop(ThirdPiece, parts);
    c := [];
    if |remainingParts| == 3 {
      var candidate := RemoveLoop(remainingParts[2], ESCAPE);
      var index := ReadAtoi(remainingParts[0]);
      c := [Candidate(index, remainingParts[1], candidate)];
    }
  }

  /* ---------- laws ---------- */

  lemma {:induction false} RemainingAppend(pick: Picking, xs: seq<string>, ys: seq<string>)
    ensures Remaining(pick, xs + ys) == Remaining(pick, xs) + Remaining(pick, ys)
    decreases |ys|
  {
    if ys == [] {
      assert xs + ys == xs;
    } else {
      var n := |ys| - 1;
      RemainingAppend(pick, xs, ys[..n]);
      assert (xs + ys)[..|xs + ys| - 1] == xs + ys[..n];
    }
  }

  lemma {:induction false} DecodeLinesAppend(read: LineReading, xs: seq<string>, ys: seq<string>)
    ensures DecodeLines(read, xs + ys) == DecodeLines(read, xs) + DecodeLines(read, ys)
    decreases |ys|
  {
    if ys == [] {
      assert xs + ys == xs;
    } else {
      var n := |ys| - 1;
      DecodeLinesAppend(read, xs, ys[..n]);
      assert (xs + ys)[..|xs + ys| - 1] == xs + ys[..n];
    }
  }

  /** Parsing is a homomorphism: the candidates of `a`, then those of `b`. */
  lemma DecodeHomomorphism(a: string, b: string)
    ensures Decode(a + "\n" + b) == Decode(a) + Decode(b)
  {
    SplitAppendUnbordered(a, b, "\n");
    DecodeLinesAppend(DecodeLine, Split(a, "\n"), Split(b, "\n"));
  }

  lemma DecodeOneLine(line: string)
    requires '\n' !in line
    ensures Decode(line) == DecodeLine(line)
  {
    ContainsChar(line, '\n');
    SplitNone(line, "\n");
    DecodeLinesSnoc(DecodeLine, [], line);
    assert [] + [line] == [line];
  }

  /** Parts with three non-empty pieces. */
  function ThickParts(parts: seq<string>): nat
  {
    if parts == [] then 0
    else ThickParts(parts[..|parts| - 1]) + if |Pieces(parts[|parts| - 1])| >= 3 then 1 else 0
  }

  lemma {:induction false} RemainingCount(parts: seq<string>)
    ensures |Remaining(ThirdPiece, parts)| == ThickParts(parts)
    decreases |parts|
  {
    if parts != [] { RemainingCount(parts[..|parts| - 1]); }
  }

  /** A line yields a candidate exactly when three of its parts have at least three pieces. */
  lemma LineYields(line: string)
    ensures |DecodeLine(line)| == if ThickParts(Split(line, ",")) == 3 then 1 else 0
  {
    RemainingCount(Split(line, ","));
  }

  /** Inserting or deleting a part with fewer than three pieces never changes a line's result. */
  lemma ThinPartIgnored(xs: seq<string>, p: string, ys: seq<string>)
    requires CommaFree(xs + [p] + ys) && xs + ys != [] && |Pieces(p)| < 3
    ensures DecodeLine(Join(xs + [p] + ys, ",")) == DecodeLine(Join(xs + ys, ","))
  {
    forall i | 0 <= i < |xs + ys| ensures ',' !in (xs + ys)[i] {
      assert (xs + ys)[i] == (xs + [p] + ys)[if i < |xs| then i else i + 1];
    }
    SplitOfJoin(xs + [p] + ys);
    SplitOfJoin(xs + ys);
    RemainingAppend(ThirdPiece, xs + [p], ys);
    RemainingAppend(ThirdPiece, xs, ys);
    RemainingSnoc(ThirdPiece, xs, p);
  }

  /* ---------- what can come out ---------- */

  lemma {:induction false} RemainingFrom(pick: Picking, parts: seq<string>, v: string)
    requires v in Remaining(pick, parts)
    ensures exists p :: p in parts && pick(p) == Some(v)
    decreases |parts|
  {
    var n := |parts| - 1;
    if v in Remaining(pick, parts[..n]) {
      RemainingFrom(pick, parts[..n], v);
      var p :| p in parts[..n] && pick(p) == Some(v);
      assert p in parts;
    } else {
      assert pick(parts[n]) == Some(v);
      assert parts[n] in parts;
    }
  }

  lemma {:induction false} DecodeLinesFrom(read: LineReading, lines: seq<string>, c: Candidate)
    requires c in DecodeLines(read, lines)
    ensures exists l :: l in lines && c in read(l)
    decreases |lines|
  {
    var n := |lines| - 1;
    if c in DecodeLines(read, lines[..n]) {
      DecodeLinesFrom(read, lines[..n], c);
      var l :| l in lines[..n] && c in read(l);
      assert l in lines;
    } else {
      assert lines[n] in lines;
    }
  }

  lemma ThirdPieceChars(p: string, v: string, ch: char)
    requires ThirdPiece(p) == Some(v) && ch in v
    ensures ch in p && ch != '"'
  {
    SplitChars(p, "\"");
    NonEmptyMembers(Split(p, "\""));
    assert v in Split(p, "\"");
    ContainsChar(v, '"');
  }

  lemma PartChars(s: string, c: char, p: string, ch: char)
    requires p in Split(s, [c]) && ch in p
    ensures ch in s && ch != c
  {
    SplitChars(s, [c]);
    ContainsChar(p, c);
  }

  lemma RemainingChars(line: string, v: string, ch: char)
    requires v in Remaining(ThirdPiece, Split(line, ",")) && ch in v
    ensures ch in line && ch != '"' && ch != ','
  {
    RemainingFrom(ThirdPiece, Split(line, ","), v);
    var p :| p in Split(line, ",") && ThirdPiece(p) == Some(v);
    ThirdPieceChars(p, v, ch);
    PartChars(line, ',', p, ch);
  }

  lemma LineChars(line: string, c: Candidate, ch: char)
    requires c in DecodeLine(line) && (ch in c.mid || ch in c.sdp)
    ensures ch in line && ch != '"' && ch != ','
  {
    var r := Remaining(ThirdPiece, Split(line, ","));
    if ch in c.mid {
      RemainingChars(line, r[1], ch);
    } else {
      RemoveChars(r[2], ESCAPE, ch);
      RemainingChars(line, r[2], ch);
    }
  }

  /** No decoded text holds a quote, a comma, a newline, or a character not in the input. */
  lemma DecodedChars(text: string, c: Candidate, ch: char)
    requires c in Decode(text) && (ch in c.mid || ch in c.sdp)
    ensures ch in text && ch != '"' && ch != ',' && ch != '\n'
  {
    DecodeLinesFrom(DecodeLine, Split(text, "\n"), c);
    var l :| l in Split(text, "\n") && c in DecodeLine(l);
    LineChars(l, c, ch);
    PartChars(text, '\n', l, ch);
  }

  /* ---------- the escape ---------- */

  lemma EscapeUnbordered()
    ensures Unbordered(ESCAPE)
  {
    assert ESCAPE[..1] == "\\" && ESCAPE[3..] == "n";
    assert ESCAPE[..2] == "\\r" && ESCAPE[2..] == "\\n";
    assert ESCAPE[..3] == "\\r\\" && ESCAPE[1..] == "r\\n";
  }

  /**
   Occurrences of the escape never overlap, so one pass finds them all: each takes four characters
   with it, and without one the text is unchanged.
   */
  lemma EscapeRemoval(s: string)
    ensures forall i, j :: MatchAt(s, ESCAPE, i) && MatchAt(s, ESCAPE, j) && i < j ==> i + 4 <= j
    ensures |Remove(s, ESCAPE)| + 4 * Occurrences(s, ESCAPE, 0) == |s|
    ensures Remove(s, ESCAPE) == s <==> !Contains(s, ESCAPE)
  {
    EscapeUnbordered();
    forall i, j | MatchAt(s, ESCAPE, i) && MatchAt(s, ESCAPE, j) && i < j ensures i + 4 <= j {
      NoOverlap(s, ESCAPE, i, j);
    }
    SplitCutsAll(s, ESCAPE);
    RemoveLength(s, ESCAPE);
  }

  /**
   One pass leaves an escape exactly when the text holds an escape with whole escapes, at least one
   in all, written between its characters.
   */
  lemma EscapeLeftBehind(s: string)
    ensures Contains(Remove(s, ESCAPE), ESCAPE) <==> exists x, ks, y :: Woven(s, ESCAPE, x, ks, y)
  {
    EscapeUnbordered();
    RemoveLeaves(s, ESCAPE);
  }

  /** Such a text exists: the escape written into the middle of an escape. */
  lemma EscapeInEscape()
    ensures Remove("\\r\\" + ESCAPE + "n", ESCAPE) == ESCAPE
  {
    EscapeRemovalDistributes("\\r\\", "n");
    EscapeRemoval("\\r\\");
    EscapeRemoval("n");
  }

  /** Deletion distributes over a written escape, whatever stands on either side. */
  lemma EscapeRemovalDistributes(a: string, b: string)
    ensures Remove(a + ESCAPE + b, ESCAPE) == Remove(a, ESCAPE) + Remove(b, ESCAPE)
  {
    EscapeUnbordered();
    RemoveAppendUnbordered(a, b, ESCAPE);
  }
}
