/**
 The line `MyConnectionObserver::OnIceCandidate` really prints, and what the remote parser makes
 of it.  The index is printed without quotes, so the parser reads 0 for it; a newline in the mid or
 the description starts a line of its own; and the text is cut at 1023 characters.  The candidates
 that survive are characterised exactly.
 */
module IceObserver {
  import opened Options
  import opened Text
  import opened Decimal
  import opened Ice
  import opened IceText

  const BUFLEN := 1024
  const NUL := '\0'

  /* ---------- the printer ---------- */

  /** `c_str()` under `%s`: up to the first NUL. */
  function CString(s: string): string
  {
    if s == "" || s[0] == NUL then "" else [s[0]] + CString(s[1..])
  }

  /** One trailing LF, then one trailing CR, dropped. */
  function Strip(sdp: string): string
  {
    var a := if sdp != "" && sdp[|sdp| - 1] == '\n' then sdp[..|sdp| - 1] else sdp;
    if a != "" && a[|a| - 1] == '\r' then a[..|a| - 1] else a
  }

  function IndexPart(index: int): string
  {
    "{" + "\"" + ("sdpMLineIndex" + "\"" + (":" + Print(index)))
  }

  function MidPart(mid: string): string
  {
    Opened("sdpMid", mid + "\"" + "")
  }

  function SdpPart(sdp: string): string
  {
    Opened("candidate", sdp + ESCAPE + "\"" + "}")
  }

  function Take(s: string, n: int): string
  {
    if n <= 0 then "" else if |s| <= n then s else s[..n]
  }

  /** `snprintf(buf, BUFLEN, ...)` keeps at most `BUFLEN - 1` characters. */
  function PrintLine(index: int, mid: string, sdp: string): string
  {
    Take(IndexPart(index) + "," + AfterIndex(mid, sdp), BUFLEN - 1)
  }

  /** The text signalled for a candidate whose `ToString` gives `c.sdp`. */
  function Emit(c: Candidate): string
  {
    PrintLine(c.index, CString(c.mid), CString(Strip(c.sdp)))
  }

  /** Characters left in the buffer for the description. */
  function Room(index: int, mid: string): int
  {
    BUFLEN - 1 - |IndexPart(index)| - 1 - |MidPart(mid)| - 1 - |Opened("candidate", "")|
  }

  predicate EndsIn(s: string, c: char)
  {
    s != "" && s[|s| - 1] == c
  }

  /** Exactly one line end is dropped, be it CRLF, LF or CR, and nothing from a text that has none. */
  lemma StripLineEnd(s: string)
    ensures Strip(s + "\r\n") == s
    ensures Strip(s + "\n") == s <==> !EndsIn(s, '\r')
    ensures Strip(s + "\r") == s
    ensures Strip(s) == s <==> !EndsIn(s, '\n') && !EndsIn(s, '\r')
  {
    var t, u, v := s + "\r\n", s + "\n", s + "\r";
    assert t[..|t| - 1] == v;
    assert u[..|u| - 1] == s;
    assert v[..|v| - 1] == s;
  }

  /** `%s` prints what stands before the first NUL. */
  lemma {:induction false} CStringCut(a: string, b: string)
    requires '\0' !in a
    ensures CString(a + "\0" + b) == a
    decreases |a|
  {
    var s := a + "\0" + b;
    if a == "" {
      assert s[0] == '\0';
    } else {
      assert s[0] == a[0] && s[1..] == a[1..] + "\0" + b;
      CStringCut(a[1..], b);
    }
  }

  lemma IndexText(index: int)
    ensures IndexPart(index) == "{\"sdpMLineIndex\":" + Print(index)
  {
    var d := Print(index);
    assert "{" + "\"" + ("sdpMLineIndex" + "\"" + (":" + d)) == "{\"sdpMLineIndex\":" + d;
  }

  lemma MidText(mid: string)
    ensures MidPart(mid) == "\"sdpMid\":\"" + mid + "\""
  {
    assert Opened("sdpMid", mid + "\"" + "") == "\"sdpMid\":\"" + mid + "\"";
  }

  lemma SdpText(sdp: string)
    ensures SdpPart(sdp) == "\"candidate\":\"" + sdp + "\\r\\n\"}"
  {
    assert Opened("candidate", sdp + ESCAPE + "\"" + "}") == "\"candidate\":\"" + sdp + "\\r\\n\"}";
  }

  /** Seven texts in a row, whatever the grouping. */
  lemma InARow(a: string, d: string, k: string, mid: string, k': string, sdp: string, end: string)
    ensures (a + d) + "," + ((k + mid + "\"") + "," + (k' + sdp + end))
         == a + d + ("," + k) + mid + ("\"" + "," + k') + sdp + end
  {
  }

  /** What is printed, letter by letter, up to 1023 characters. */
  lemma PrintedText(index: int, mid: string, sdp: string)
    ensures var full := "{\"sdpMLineIndex\":" + Print(index) + ",\"sdpMid\":\"" + mid
                        + "\",\"candidate\":\"" + sdp + "\\r\\n\"}";
            PrintLine(index, mid, sdp) == if |full| <= 1023 then full else full[..1023]
  {
    IndexText(index);
    MidText(mid);
    SdpText(sdp);
    PrintedParts(IndexPart(index), MidPart(mid), SdpPart(sdp), Print(index), mid, sdp);
  }

  lemma PrintedParts(a: string, b: string, c: string, d: string, mid: string, sdp: string)
    requires a == "{\"sdpMLineIndex\":" + d && b == "\"sdpMid\":\"" + mid + "\""
    requires c == "\"candidate\":\"" + sdp + "\\r\\n\"}"
    ensures a + "," + (b + "," + c) == "{\"sdpMLineIndex\":" + d + ",\"sdpMid\":\"" + mid
                                       + "\",\"candidate\":\"" + sdp + "\\r\\n\"}"
  {
    assert "," + "\"sdpMid\":\"" == ",\"sdpMid\":\"";
    assert "\"" + "," + "\"candidate\":\"" == "\",\"candidate\":\"";
    InARow("{\"sdpMLineIndex\":", d, "\"sdpMid\":\"", mid, "\"candidate\":\"", sdp, "\\r\\n\"}");
  }

  /* ---------- cutting ---------- */

  lemma TakeComma(x: string, y: string, n: nat)
    ensures Take(x + "," + y, n) == if n <= |x| then Take(x, n) else x + "," + Take(y, n - |x| - 1)
  {
    var s := x + "," + y;
    if n <= |x| {
      assert s[..n] == x[..n];
    } else if n < |s| {
      assert s[..n] == x + "," + y[..n - |x| - 1];
    }
  }

  lemma TakeThree(a: string, b: string, c: string, n: nat)
    ensures Take(a + "," + (b + "," + c), n) ==
            if n <= |a| then Take(a, n)
            else if n <= |a| + 1 + |b| then a + "," + Take(b, n - |a| - 1)
            else a + "," + (b + "," + Take(c, n - |a| - |b| - 2))
  {
    TakeComma(a, b + "," + c, n);
    if n > |a| {
      TakeComma(b, c, n - |a| - 1);
    }
  }

  lemma TakeQuote(x: string, y: string, n: nat)
    ensures Take(x + "\"" + y, n) == if n <= |x| then Take(x, n) else x + "\"" + Take(y, n - |x| - 1)
  {
    var s := x + "\"" + y;
    if n <= |x| {
      assert s[..n] == x[..n];
    } else if n < |s| {
      assert s[..n] == x + "\"" + y[..n - |x| - 1];
    }
  }

  lemma TakeChars(s: string, n: int, ch: char)
    ensures ch in Take(s, n) ==> ch in s
  {
  }

  /** Cut anywhere, `"key":"` and what follows. */
  lemma TakeOpened(key: string, w: string, n: nat)
    ensures Take(Opened(key, w), n) ==
            if n == 0 then ""
            else if n <= |key| + 1 then "" + "\"" + Take(key, n - 1)
            else if n <= |key| + 3 then "" + "\"" + (key + "\"" + Take(":", n - |key| - 2))
            else Opened(key, Take(w, n - |key| - 4))
  {
    TakeQuote("", key + "\"" + (":" + "\"" + w), n);
    if n > 0 {
      TakeQuote(key, ":" + "\"" + w, n - 1);
      if n > |key| + 1 {
        TakeQuote(":", w, n - |key| - 2);
      }
    }
  }

  lemma AtMostOnePiece(x: string)
    requires '"' !in x
    ensures |Pieces("" + "\"" + x)| <= 1
  {
    PiecesCut("", x);
    PiecesPlain("");
    PiecesPlain(x);
  }

  lemma AtMostTwoPieces(x: string, y: string)
    requires '"' !in x && '"' !in y
    ensures |Pieces("" + "\"" + (x + "\"" + y))| <= 2
  {
    PiecesCut("", x + "\"" + y);
    PiecesCut(x, y);
    PiecesPlain("");
    PiecesPlain(x);
    PiecesPlain(y);
  }

  /** A cut part has a third piece only if something of the value is left. */
  lemma ThirdOfCut(key: string, w: string, n: nat)
    requires key != "" && '"' !in key
    ensures n <= |key| + 4 ==> |Pieces(Take(Opened(key, w), n))| <= 2
    ensures n > |key| + 4 ==> Pieces(Take(Opened(key, w), n)) == [key, ":"] + Pieces(Take(w, n - |key| - 4))
  {
    TakeOpened(key, w, n);
    if n == 0 {
      PiecesPlain("");
    } else if n <= |key| + 1 {
      TakeChars(key, n - 1, '"');
      AtMostOnePiece(Take(key, n - 1));
    } else if n <= |key| + 3 {
      TakeChars(":", n - |key| - 2, '"');
      AtMostTwoPieces(key, Take(":", n - |key| - 2));
    } else {
      PiecesOpened(key, Take(w, n - |key| - 4));
      if n == |key| + 4 { PiecesPlain(""); }
    }
  }

  function Min(a: int, b: int): int { if a < b then a else b }

  /** What is left of the escaped description. */
  function Kept(sdp: string, room: int): string
    requires 0 < room
  {
    (sdp + ESCAPE)[..Min(room, |sdp| + 4)]
  }

  lemma PiecesOfKept(sdp: string, room: nat)
    requires '"' !in sdp && 0 < room
    ensures |Pieces(Take(sdp + ESCAPE + "\"" + "}", room))| >= 1
    ensures Pieces(Take(sdp + ESCAPE + "\"" + "}", room))[0] == Kept(sdp, room)
  {
    var q := sdp + ESCAPE;
    assert '"' !in ESCAPE;
    TakeQuote(q, "}", room);
    if room <= |q| {
      assert Take(q, room) == q[..room] == Kept(sdp, room);
      PiecesPlain(q[..room]);
    } else {
      assert q == Kept(sdp, room);
      PiecesClosed(q, Take("}", room - |q| - 1));
    }
  }

  lemma ThirdOfSdp(sdp: string, n: nat)
    requires '"' !in sdp
    ensures var room := n - |Opened("candidate", "")|;
            ThirdPiece(Take(SdpPart(sdp), n)) == if room <= 0 then None else Some(Kept(sdp, room))
  {
    var w := sdp + ESCAPE + "\"" + "}";
    assert |Opened("candidate", "")| == |"candidate"| + 4;
    ThirdOfCut("candidate", w, n);
    if n > |"candidate"| + 4 {
      PiecesOfKept(sdp, n - |"candidate"| - 4);
    }
  }

  /* ---------- the printed line, parsed ---------- */

  lemma ThreePieces(a: string, b: string, c: string)
    requires '"' !in a && '"' !in b && '"' !in c && a != "" && b != "" && c != ""
    ensures Pieces(a + "\"" + (b + "\"" + c)) == [a, b, c]
  {
    PiecesCut(a, b + "\"" + c);
    PiecesCut(b, c);
    PiecesPlain(a);
    PiecesPlain(b);
    PiecesPlain(c);
  }

  lemma ThirdOfIndex(index: int)
    ensures ThirdPiece(IndexPart(index)) == Some(":" + Print(index))
  {
    PrintClean(index);
    ThreePieces("{", "sdpMLineIndex", ":" + Print(index));
  }

  lemma IndexPartClean(index: int)
    ensures ',' !in IndexPart(index) && '\n' !in IndexPart(index)
  {
    PrintClean(index);
  }

  lemma SdpPartClean(sdp: string)
    requires Clean(sdp)
    ensures ',' !in SdpPart(sdp) && '\n' !in SdpPart(sdp)
  {
    assert ',' !in ESCAPE && '\n' !in ESCAPE;
  }

  lemma MidPartClean(mid: string)
    requires Clean(mid)
    ensures ',' !in MidPart(mid) && '\n' !in MidPart(mid)
    ensures ThirdPiece(MidPart(mid)) == if mid == "" then None else Some(mid)
  {
    OpenedClean("sdpMid", mid);
    ThirdOfPair("sdpMid", mid);
  }

  /** Three parts, the last one cut to `n` characters: the index is read as 0 whatever it was. */
  lemma CutLine(index: int, mid: string, sdp: string, n: nat)
    requires Clean(mid) && Clean(sdp)
    ensures var room := n - |Opened("candidate", "")|;
            (DecodeLine(IndexPart(index) + "," + (MidPart(mid) + "," + Take(SdpPart(sdp), n)))
             == if mid == "" || room <= 0 then [] else [Candidate(0, mid, Remove(Kept(sdp, room), ESCAPE))])
  {
    ThirdOfIndex(index);
    IndexPartClean(index);
    MidPartClean(mid);
    SdpPartClean(sdp);
    ThirdOfSdp(sdp, n);
    TakeChars(SdpPart(sdp), n, ',');
    LineOfThree(IndexPart(index), MidPart(mid), Take(SdpPart(sdp), n));
    AtoiOfJunk(":" + Print(index));
  }

  /** The values of the parts of `rest`, as far as they fit. */
  function ValuesWithin(rest: string, n: int): seq<string>
  {
    Remaining(ThirdPiece, Split(Take(rest, n), ","))
  }

  /** What a line makes whose first part has the value `v`, and the rest has room for `n` characters. */
  function FirstRead(v: string, rest: string, n: int): seq<Candidate>
  {
    if n < 0 then [] else Triple([v] + ValuesWithin(rest, n))
  }

  /** The candidates of all lines but the first. */
  function LaterLines(text: string): seq<Candidate>
  {
    DecodeLines(DecodeLine, Split(text, "\n")[1..])
  }

  function FirstLength(text: string): nat
  {
    |Split(text, "\n")[0]|
  }

  /** What follows the index in the text, before it is cut. */
  function AfterIndex(mid: string, sdp: string): string
  {
    MidPart(mid) + "," + SdpPart(sdp)
  }

  lemma FirstPartSplits(a: string, rest: string)
    requires ',' !in a && ThirdPiece(a).Some?
    ensures DecodeLine(a + "," + rest) ==
            Triple([ThirdPiece(a).value] + Remaining(ThirdPiece, Split(rest, ",")))
  {
    SplitAppendUnbordered(a, rest, ",");
    OnePart(a, ',');
    RemainingAppend(ThirdPiece, [a], Split(rest, ","));
    RemainingSnoc(ThirdPiece, [], a);
    assert [] + [a] == [a];
  }

  lemma CutFirst(a: string, rest: string, n: nat)
    requires ',' !in a && ThirdPiece(a).Some?
    ensures DecodeLine(Take(a + "," + rest, n)) == FirstRead(ThirdPiece(a).value, rest, n - |a| - 1)
  {
    TakeComma(a, rest, n);
    if n <= |a| {
      TakeChars(a, n, ',');
      ShortLine(Take(a, n), "");
    } else {
      FirstPartSplits(a, Take(rest, n - |a| - 1));
    }
  }

  /* A newline in the mid or the description makes several lines of the text. */

  lemma TakeTake(s: string, n: nat, m: nat)
    requires m <= |Take(s, n)|
    ensures Take(Take(s, n), m) == Take(s, m)
  {
  }

  lemma DecodeLinesCons(read: LineReading, first: string, rest: seq<string>)
    ensures DecodeLines(read, [first] + rest) == read(first) + DecodeLines(read, rest)
  {
    DecodeLinesAppend(read, [first], rest);
    DecodeLinesSnoc(read, [], first);
    assert [] + [first] == [first];
  }

  lemma FirstLine(text: string)
    ensures var lines := Split(text, "\n");
            Decode(text) == DecodeLine(lines[0]) + DecodeLines(DecodeLine, lines[1..])
  {
    var lines := Split(text, "\n");
    assert lines == [lines[0]] + lines[1..];
    DecodeLinesCons(DecodeLine, lines[0], lines[1..]);
  }

  /** A prefix of a cut line is the line cut there. */
  lemma PrefixIsTake(s: string, n: nat, p: string)
    requires p <= Take(s, n)
    ensures p == Take(s, |p|)
  {
    TakeTake(s, n, |p|);
    assert Take(Take(s, n), |p|) == p;
  }

  lemma CutPrefix(a: string, rest: string, n: nat, first: string)
    requires ',' !in a && ThirdPiece(a).Some? && first <= Take(a + "," + rest, n)
    ensures DecodeLine(first) == FirstRead(ThirdPiece(a).value, rest, |first| - |a| - 1)
  {
    PrefixIsTake(a + "," + rest, n, first);
    CutFirst(a, rest, |first|);
  }

  /** The text is read as its first line, whose first part `a` has the value `v`, then its later lines. */
  ghost predicate ReadsAs(text: string, a: string, v: string, rest: string)
  {
    Decode(text) == FirstRead(v, rest, FirstLength(text) - |a| - 1) + LaterLines(text)
  }

  lemma CutText(a: string, v: string, rest: string, n: nat, text: string)
    requires ',' !in a && ThirdPiece(a) == Some(v) && text == Take(a + "," + rest, n)
    ensures ReadsAs(text, a, v, rest)
  {
    FirstLine(text);
    SplitPrefix(text, "\n");
    CutPrefix(a, rest, n, Split(text, "\n")[0]);
  }

  lemma FirstReadIndex(v: string, rest: string, n: int, c: Candidate)
    requires Atoi(v) == 0 && c in FirstRead(v, rest, n)
    ensures c.index == 0
  {
  }

  lemma CutTextIndex(a: string, v: string, rest: string, n: nat, text: string, c: Candidate)
    requires ',' !in a && ThirdPiece(a) == Some(v) && text == Take(a + "," + rest, n)
    requires Atoi(v) == 0 && c.index != 0
    ensures c in Decode(text) <==> c in LaterLines(text)
  {
    CutText(a, v, rest, n, text);
    var k := FirstLength(text) - |a| - 1;
    if c in FirstRead(v, rest, k) { FirstReadIndex(v, rest, k, c); }
  }

  /**
   What the parser makes of any printed text: its first line is a colon with the index, then the
   values of the rest, as far as the line reaches; the other lines are read by themselves.
   */
  lemma PrintedLineParsed(index: int, mid: string, sdp: string)
    ensures ReadsAs(PrintLine(index, mid, sdp), IndexPart(index), ":" + Print(index), AfterIndex(mid, sdp))
  {
    IndexPartClean(index);
    ThirdOfIndex(index);
    CutText(IndexPart(index), ":" + Print(index), AfterIndex(mid, sdp), BUFLEN - 1, PrintLine(index, mid, sdp));
  }

  /**
   The printed index is always read as 0: a candidate with another index comes from a later line of
   the text, so from a mid or a description with a newline in it.
   */
  lemma OtherIndexComesLater(index: int, mid: string, sdp: string, c: Candidate)
    requires c.index != 0
    ensures c in Decode(PrintLine(index, mid, sdp)) <==> c in LaterLines(PrintLine(index, mid, sdp))
  {
    IndexPartClean(index);
    ThirdOfIndex(index);
    AtoiOfJunk(":" + Print(index));
    CutTextIndex(IndexPart(index), ":" + Print(index), AfterIndex(mid, sdp), BUFLEN - 1,
                 PrintLine(index, mid, sdp), c);
  }

  lemma PrintedLineNoNewline(index: int, mid: string, sdp: string)
    requires '\n' !in mid && '\n' !in sdp
    ensures '\n' !in PrintLine(index, mid, sdp)
    ensures Decode(PrintLine(index, mid, sdp)) == DecodeLine(PrintLine(index, mid, sdp))
    ensures LaterLines(PrintLine(index, mid, sdp)) == []
  {
    IndexPartClean(index);
    OpenedNoNewline("sdpMid", mid + "\"" + "");
    assert '\n' !in ESCAPE;
    OpenedNoNewline("candidate", sdp + ESCAPE + "\"" + "}");
    TakeChars(IndexPart(index) + "," + (MidPart(mid) + "," + SdpPart(sdp)), BUFLEN - 1, '\n');
    DecodeOneLine(PrintLine(index, mid, sdp));
    OnePart(PrintLine(index, mid, sdp), '\n');
  }

  lemma OpenedNoNewline(key: string, rest: string)
    requires '\n' !in key && '\n' !in rest
    ensures '\n' !in Opened(key, rest)
  {
  }

  lemma PrintedIndexIsZero(index: int, mid: string, sdp: string, c: Candidate)
    requires '\n' !in mid && '\n' !in sdp && c in Decode(PrintLine(index, mid, sdp))
    ensures c.index == 0
  {
    PrintedLineNoNewline(index, mid, sdp);
    if c.index != 0 {
      OtherIndexComesLater(index, mid, sdp, c);
    }
  }

  lemma MidCut(x: string, key: string, w: string, d: string)
    ensures x + "," + (Opened(key, "\n" + w) + "," + d) == x + "," + Opened(key, "") + "\n" + (w + "," + d)
  {
  }

  lemma HeadAlone(index: int)
    ensures Decode(IndexPart(index) + "," + Opened("sdpMid", "")) == []
  {
    IndexPartClean(index);
    DecodeOneLine(IndexPart(index) + "," + Opened("sdpMid", ""));
    ShortLine(IndexPart(index), Opened("sdpMid", ""));
  }

  /** A mid that starts with a newline leaves the index behind, if nothing is cut. */
  lemma AfterTheNewline(index: int, mid: string, w: string, sdp: string)
    requires mid + "\"" + "" == "\n" + w && |IndexPart(index) + "," + AfterIndex(mid, sdp)| < BUFLEN
    ensures Decode(PrintLine(index, mid, sdp)) == Decode(w + "," + SdpPart(sdp))
  {
    MidCut(IndexPart(index), "sdpMid", w, SdpPart(sdp));
    DecodeHomomorphism(IndexPart(index) + "," + Opened("sdpMid", ""), w + "," + SdpPart(sdp));
    HeadAlone(index);
  }

  /** A mid of two lines: an empty one, then an index and a mid in quotes. */
  function TwoLineMid(n: int, m: string): string
  {
    "\n" + (Opened("a", Print(n) + "\"" + "") + "," + Opened("a", m))
  }

  lemma CloseQuote(x: string, key: string, m: string)
    ensures "\n" + (x + "," + Opened(key, m)) + "\"" + "" == "\n" + (x + "," + Opened(key, m + "\"" + ""))
  {
  }

  lemma ThirdOfWholeSdp(sdp: string)
    requires Clean(sdp) && !Contains(sdp, ESCAPE)
    ensures ThirdPiece(SdpPart(sdp)) == Some(sdp + ESCAPE) && Remove(sdp + ESCAPE, ESCAPE) == sdp
  {
    var room := |sdp| + 6;
    ThirdOfSdp(sdp, |SdpPart(sdp)|);
    assert |SdpPart(sdp)| - |Opened("candidate", "")| == room;
    assert Kept(sdp, room) == sdp + ESCAPE;
    KeptRestored(sdp, room);
  }

  lemma LineWithIndex(n: int, m: string, sdp: string)
    requires IsInt32(n) && m != "" && Clean(m) && Clean(sdp) && !Contains(sdp, ESCAPE)
    ensures Decode(Opened("a", Print(n) + "\"" + "") + "," + (Opened("a", m + "\"" + "") + "," + SdpPart(sdp)))
         == [Candidate(n, m, sdp)]
  {
    PrintClean(n);
    OpenedClean("a", Print(n));
    OpenedClean("a", m);
    SdpPartClean(sdp);
    ThirdOfPair("a", Print(n));
    ThirdOfPair("a", m);
    ThirdOfWholeSdp(sdp);
    var x, y, z := Opened("a", Print(n) + "\"" + ""), Opened("a", m + "\"" + ""), SdpPart(sdp);
    LineOfValues(x, y, z, Print(n), m, sdp + ESCAPE);
    AtoiOfPrint(n);
    DecodeOneLine(x + "," + (y + "," + z));
  }

  /** So with a newline in the mid any index can arrive, whatever the one printed. */
  lemma IndexFromMid(index: int, n: int, m: string, sdp: string)
    requires IsInt32(n) && m != "" && Clean(m) && Clean(sdp) && !Contains(sdp, ESCAPE)
    requires |IndexPart(index) + "," + AfterIndex(TwoLineMid(n, m), sdp)| < BUFLEN
    ensures Decode(PrintLine(index, TwoLineMid(n, m), sdp)) == [Candidate(n, m, sdp)]
  {
    var x, y := Opened("a", Print(n) + "\"" + ""), Opened("a", m + "\"" + "");
    CloseQuote(x, "a", m);
    AfterTheNewline(index, TwoLineMid(n, m), x + "," + y, sdp);
    LineWithIndex(n, m, sdp);
    RegroupComma(x, y, SdpPart(sdp));
  }

  /** For one: media line 0 is printed, and a candidate for media line 5 arrives. */
  lemma IndexFiveArrives()
    ensures Decode(PrintLine(0, TwoLineMid(5, "m"), "x")) == [Candidate(5, "m", "x")]
  {
    assert |Print(0)| == 1 && |Print(5)| == 1;
    IndexFromMid(0, 5, "m", "x");
  }

  lemma RegroupComma(x: string, y: string, z: string)
    ensures x + "," + y + "," + z == x + "," + (y + "," + z)
  {
  }

  /** Characters left in the buffer for the third part; negative if it is not reached. */
  function ThirdRoom(index: int, mid: string): int
  {
    BUFLEN - 1 - |IndexPart(index)| - |MidPart(mid)| - 2
  }

  lemma PrintedLineCut(index: int, mid: string, sdp: string)
    requires Clean(mid)
    ensures var n := ThirdRoom(index, mid);
            (DecodeLine(PrintLine(index, mid, sdp))
             == if n < 0 then []
                else DecodeLine(IndexPart(index) + "," + (MidPart(mid) + "," + Take(SdpPart(sdp), n))))
  {
    IndexPartClean(index);
    MidPartClean(mid);
    CutThree(IndexPart(index), MidPart(mid), SdpPart(sdp), BUFLEN - 1);
  }

  /** In full for texts without quote, comma or newline: what fits of the description survives. */
  lemma CleanLineParsed(index: int, mid: string, sdp: string)
    requires Clean(mid) && Clean(sdp)
    ensures DecodeLine(PrintLine(index, mid, sdp))
         == if mid == "" || Room(index, mid) <= 0 then []
            else [Candidate(0, mid, Remove(Kept(sdp, Room(index, mid)), ESCAPE))]
  {
    PrintedLineCut(index, mid, sdp);
    var n := ThirdRoom(index, mid);
    assert Room(index, mid) == n - |Opened("candidate", "")|;
    if n >= 0 {
      CutLine(index, mid, sdp, n);
    }
  }

  /** Cutting a three-part line leaves fewer parts, or cuts the third. */
  lemma CutThree(a: string, b: string, c: string, n: nat)
    requires ',' !in a && ',' !in b
    ensures DecodeLine(Take(a + "," + (b + "," + c), n)) ==
            if n <= |a| + 1 + |b| then [] else DecodeLine(a + "," + (b + "," + Take(c, n - |a| - |b| - 2)))
  {
    TakeThree(a, b, c, n);
    if n <= |a| {
      TakeChars(a, n, ',');
      ShortLine(Take(a, n), "");
    } else if n <= |a| + 1 + |b| {
      TakeChars(b, n - |a| - 1, ',');
      ShortLine(a, Take(b, n - |a| - 1));
    }
  }

  /* ---------- which candidates survive ---------- */

  /** Deleting the escape gives the description back exactly when it fits whole, or to the character. */
  lemma KeptRestored(sdp: string, room: nat)
    requires 0 < room
    ensures Remove(Kept(sdp, room), ESCAPE) == sdp <==>
            !Contains(sdp, ESCAPE) && (|sdp| + 4 <= room || |sdp| == room)
  {
    var k := Kept(sdp, room);
    EscapeRemoval(k);
    EscapeRemoval(sdp);
    if |sdp| + 4 <= room {
      assert k == sdp + ESCAPE;
      EscapeRemovalDistributes(sdp, "");
      assert sdp + ESCAPE + "" == k;
      RemoveOfEmpty();
    } else if |sdp| == room {
      assert k == sdp;
    }
  }

  lemma RemoveOfEmpty()
    ensures Remove("", ESCAPE) == ""
  {
    RemoveLength("", ESCAPE);
  }

  /** A candidate, as `ToString` gives it, without its line end. */
  function Stripped(c: Candidate): Candidate
  {
    c.(sdp := Strip(c.sdp))
  }

  /** What a sender can check before relying on the text. */
  ghost predicate Survives(c: Candidate)
  {
    var sdp := Strip(c.sdp);
    && c.index == 0
    && c.mid != "" && Clean(c.mid) && NUL !in c.mid
    && Clean(sdp) && NUL !in sdp && !Contains(sdp, ESCAPE)
    && (|sdp| + 4 <= Room(0, c.mid) || 0 < |sdp| == Room(0, c.mid))
  }

  lemma {:induction false} CStringWhole(s: string)
    ensures CString(s) == s <==> NUL !in s
    ensures NUL !in CString(s)
    decreases |s|
  {
    if s != "" {
      CStringWhole(s[1..]);
      assert s == [s[0]] + s[1..];
    }
  }

  lemma OpenedNoNul(key: string, rest: string)
    requires NUL !in key && NUL !in rest
    ensures NUL !in Opened(key, rest)
  {
  }

  lemma IndexPartNoNul(index: int)
    ensures NUL !in IndexPart(index)
  {
    PrintedChars(index);
    assert NUL !in "sdpMLineIndex";
  }

  lemma {:induction false} PrintLineNoNul(index: int, mid: string, sdp: string)
    requires NUL !in mid && NUL !in sdp
    ensures NUL !in PrintLine(index, mid, sdp)
  {
    IndexPartNoNul(index);
    OpenedNoNul("sdpMid", mid + "\"" + "");
    OpenedNoNul("candidate", sdp + ESCAPE + "\"" + "}");
    TakeChars(IndexPart(index) + "," + (MidPart(mid) + "," + SdpPart(sdp)), BUFLEN - 1, NUL);
  }

  lemma {:induction false} EmitNoNul(c: Candidate)
    ensures NUL !in Emit(c)
  {
    CStringWhole(c.mid);
    CStringWhole(Strip(c.sdp));
    PrintLineNoNul(c.index, CString(c.mid), CString(Strip(c.sdp)));
  }

  /** Neither text, as far as it is printed, holds a quote, a comma or a newline. */
  predicate CleanPrinted(c: Candidate)
  {
    Clean(CString(c.mid)) && Clean(CString(Strip(c.sdp)))
  }

  /** What the receiver gets of a clean candidate: none, or one for media line 0 with what fitted. */
  function Arrives(c: Candidate): seq<Candidate>
  {
    var mid, room := CString(c.mid), Room(c.index, CString(c.mid));
    if mid == "" || room <= 0 then []
    else [Candidate(0, mid, Remove(Kept(CString(Strip(c.sdp)), room), ESCAPE))]
  }

  lemma {:induction false} EmitArrives(c: Candidate)
    requires CleanPrinted(c)
    ensures Decode(Emit(c)) == Arrives(c)
  {
    PrintedLineNoNewline(c.index, CString(c.mid), CString(Strip(c.sdp)));
    CleanLineParsed(c.index, CString(c.mid), CString(Strip(c.sdp)));
  }

  /** A candidate without quote, comma, newline or NUL prints as one line with at most one result. */
  lemma EmitClean(c: Candidate)
    requires Clean(c.mid) && NUL !in c.mid && Clean(Strip(c.sdp)) && NUL !in Strip(c.sdp)
    ensures |Decode(Emit(c))| <= 1
    ensures Decode(Emit(c)) == [Stripped(c)] <==> Survives(c)
  {
    var sdp := Strip(c.sdp);
    CStringWhole(c.mid);
    CStringWhole(sdp);
    EmitArrives(c);
    if c.mid != "" && Room(c.index, c.mid) > 0 {
      KeptRestored(sdp, Room(c.index, c.mid));
    }
  }

  /** Anything decoded from NUL-free text is clean. */
  lemma DecodedIsClean(text: string, c: Candidate)
    requires NUL !in text && c in Decode(text)
    ensures Clean(c.mid) && NUL !in c.mid && Clean(c.sdp) && NUL !in c.sdp
  {
    forall ch | ch in c.mid || ch in c.sdp ensures ch != '"' && ch != ',' && ch != '\n' && ch != NUL {
      DecodedChars(text, c, ch);
    }
  }

  function EmitAll(cs: seq<Candidate>): (r: seq<string>)
    ensures |r| == |cs|
  {
    seq(|cs|, i requires 0 <= i < |cs| => Emit(cs[i]))
  }

  /** What the parser makes of the text of each candidate by itself. */
  function DecodedAll(cs: seq<Candidate>): (r: seq<seq<Candidate>>)
    ensures |r| == |cs|
  {
    seq(|cs|, i requires 0 <= i < |cs| => Decode(Emit(cs[i])))
  }

  function StrippedAll(cs: seq<Candidate>): (r: seq<Candidate>)
    ensures |r| == |cs|
  {
    seq(|cs|, i requires 0 <= i < |cs| => Stripped(cs[i]))
  }

  /** What comes out of a list of candidates, printed and accumulated: for clean ones, what arrives. */
  lemma {:induction false} ListArrives(cs: seq<Candidate>)
    ensures Decode(Unlines(EmitAll(cs))) == Flat(DecodedAll(cs))
    ensures forall i :: 0 <= i < |cs| && CleanPrinted(cs[i]) ==> DecodedAll(cs)[i] == Arrives(cs[i])
  {
    DecodeOwnText(EmitAll(cs), DecodedAll(cs));
    forall i | 0 <= i < |cs| && CleanPrinted(cs[i]) ensures DecodedAll(cs)[i] == Arrives(cs[i]) {
      EmitArrives(cs[i]);
    }
  }

  lemma {:induction false} OwnTextNoNul(signals: seq<string>)
    requires forall i :: 0 <= i < |signals| ==> NUL !in signals[i]
    ensures NUL !in Unlines(signals)
    decreases |signals|
  {
    if signals != [] { OwnTextNoNul(signals[1..]); }
  }

  /** If the whole list comes back, every candidate in it was clean. */
  lemma ComesBackClean(cs: seq<Candidate>, i: nat)
    requires i < |cs| && Decode(Unlines(EmitAll(cs))) == StrippedAll(cs)
    ensures Clean(cs[i].mid) && NUL !in cs[i].mid && Clean(Strip(cs[i].sdp)) && NUL !in Strip(cs[i].sdp)
  {
    forall k | 0 <= k < |cs| ensures NUL !in EmitAll(cs)[k] {
      EmitNoNul(cs[k]);
    }
    OwnTextNoNul(EmitAll(cs));
    assert StrippedAll(cs)[i] == Stripped(cs[i]);
    DecodedIsClean(Unlines(EmitAll(cs)), Stripped(cs[i]));
  }

  /**
   The whole trip, for any list of candidates: printed by the observer, accumulated by the sending
   widget, parsed by the receiving one.  The same list comes out exactly when every candidate has
   index 0, a non-empty mid, clean escape-free texts, and fits the buffer.
   */
  lemma ObserverRoundTrip(cs: seq<Candidate>)
    ensures Decode(Unlines(EmitAll(cs))) == StrippedAll(cs) <==>
            forall i :: 0 <= i < |cs| ==> Survives(cs[i])
  {
    var lines, xs := EmitAll(cs), StrippedAll(cs);
    var ds := DecodedAll(cs);
    DecodeOwnText(lines, ds);
    if forall i :: 0 <= i < |cs| ==> Survives(cs[i]) {
      forall i | 0 <= i < |cs| ensures ds[i] == [xs[i]] {
        EmitClean(cs[i]);
      }
      FlatSingles(ds, xs);
    }
    if Flat(ds) == xs {
      forall i | 0 <= i < |cs| ensures |ds[i]| <= 1 && (ds[i] == [xs[i]] ==> Survives(cs[i])) {
        ComesBackClean(cs, i);
        EmitClean(cs[i]);
      }
      FlatFull(ds, xs);
    }
  }

  /** A candidate that fits arrives whole, but as one for media line 0. */
  lemma {:induction false} IndexLost(index: int, mid: string, sdp: string)
    requires mid != "" && Clean(mid) && Clean(sdp) && !Contains(sdp, ESCAPE)
    requires |sdp| + 4 <= Room(index, mid)
    ensures Decode(PrintLine(index, mid, sdp)) == [Candidate(0, mid, sdp)]
  {
    PrintedLineNoNewline(index, mid, sdp);
    CleanLineParsed(index, mid, sdp);
    KeptRestored(sdp, Room(index, mid));
  }
}
