/**
 Printing ICE candidates in a fully quoted layout, accumulating the lines as the widget does, and
 reading them back: lossless exactly when no description holds the escape.
 */
module IceText {
  import opened Options
  import opened Text
  import opened Decimal
  import opened Ice

  /* ---------- pieces of a part ---------- */

  lemma PiecesCut(a: string, b: string)
    ensures Pieces(a + "\"" + b) == Pieces(a) + Pieces(b)
  {
    SplitAppendUnbordered(a, b, "\"");
  }

  lemma PiecesPlain(w: string)
    requires '"' !in w
    ensures Pieces(w) == if w == "" then [] else [w]
  {
    OnePart(w, '"');
  }

  /** `"key":"` followed by anything. */
  function Opened(key: string, rest: string): string
  {
    "" + "\"" + (key + "\"" + (":" + "\"" + rest))
  }

  lemma PiecesOpened(key: string, rest: string)
    requires key != "" && '"' !in key
    ensures Pieces(Opened(key, rest)) == [key, ":"] + Pieces(rest)
  {
    var tail := ":" + "\"" + rest;
    PiecesClosed("", key + "\"" + tail);
    PiecesClosed(key, tail);
    PiecesClosed(":", rest);
    Regroup([key], [":"], Pieces(rest));
  }

  lemma PiecesClosed(v: string, rest: string)
    requires '"' !in v
    ensures Pieces(v + "\"" + rest) == (if v == "" then [] else [v]) + Pieces(rest)
  {
    PiecesCut(v, rest);
    PiecesPlain(v);
  }

  /** A quoted value is what its part contributes; an empty one contributes nothing. */
  lemma ThirdOfPair(key: string, v: string)
    requires key != "" && '"' !in key && '"' !in v
    ensures ThirdPiece(Opened(key, v + "\"" + "")) == if v == "" then None else Some(v)
  {
    PiecesOpened(key, v + "\"" + "");
    PiecesClosed(v, "");
    PiecesPlain("");
  }

  /* ---------- lines of three parts ---------- */

  /** The value of a part, as a list of none or one. */
  function Picked(o: Option<string>): seq<string>
  {
    if o.None? then [] else [o.value]
  }

  lemma RemainingThree(pick: Picking, a: string, b: string, c: string)
    ensures Remaining(pick, [a, b, c]) == Picked(pick(a)) + Picked(pick(b)) + Picked(pick(c))
  {
    RemainingSnoc(pick, [], a);
    RemainingSnoc(pick, [a], b);
    RemainingSnoc(pick, [a, b], c);
    assert [] + [a] == [a] && [a] + [b] == [a, b] && [a, b] + [c] == [a, b, c];
  }

  lemma LineOfThree(a: string, b: string, c: string)
    requires ',' !in a && ',' !in b && ',' !in c
    ensures DecodeLine(a + "," + (b + "," + c))
         == Triple(Picked(ThirdPiece(a)) + Picked(ThirdPiece(b)) + Picked(ThirdPiece(c)))
  {
    ThreeParts(a, b, c, ',');
    RemainingThree(ThirdPiece, a, b, c);
  }

  /** Three parts with a value each are one candidate. */
  lemma LineOfValues(a: string, b: string, c: string, x: string, y: string, z: string)
    requires ',' !in a && ',' !in b && ',' !in c
    requires ThirdPiece(a) == Some(x) && ThirdPiece(b) == Some(y) && ThirdPiece(c) == Some(z)
    ensures DecodeLine(a + "," + (b + "," + c)) == [Candidate(Atoi(x), y, Remove(z, ESCAPE))]
  {
    LineOfThree(a, b, c);
    assert Picked(Some(x)) + Picked(Some(y)) + Picked(Some(z)) == [x, y, z];
  }

  lemma RemainingTwo(pick: Picking, a: string, b: string)
    ensures |Remaining(pick, [a])| <= 1 && |Remaining(pick, [a, b])| <= 2
  {
    RemainingSnoc(pick, [], a);
    RemainingSnoc(pick, [a], b);
    assert [] + [a] == [a] && [a] + [b] == [a, b];
  }

  /** Fewer than three parts never make a candidate. */
  lemma ShortLine(a: string, b: string)
    requires ',' !in a && ',' !in b
    ensures DecodeLine(a) == [] && DecodeLine(a + "," + b) == []
  {
    OnePart(a, ',');
    OnePart(b, ',');
    SplitAppendUnbordered(a, b, ",");
    RemainingTwo(ThirdPiece, a, b);
  }

  /* ---------- the quoted layout ---------- */

  predicate Clean(s: string)
  {
    '"' !in s && ',' !in s && '\n' !in s
  }

  datatype Keys = Keys(index: string, mid: string, sdp: string)

  predicate CleanKeys(k: Keys)
  {
    k.index != "" && k.mid != "" && k.sdp != "" && Clean(k.index) && Clean(k.mid) && Clean(k.sdp)
  }

  function QuotedLine(k: Keys, c: Candidate): string
  {
    Opened(k.index, Print(c.index) + "\"" + "") + "," +
    (Opened(k.mid, c.mid + "\"" + "") + "," + Opened(k.sdp, c.sdp + "\"" + ""))
  }

  predicate Plain(c: Candidate)
  {
    IsInt32(c.index) && c.mid != "" && c.sdp != "" && Clean(c.mid) && Clean(c.sdp)
  }

  lemma PrintClean(n: int)
    ensures Print(n) != "" && Clean(Print(n))
  {
    PrintedChars(n);
  }

  lemma OpenedClean(key: string, v: string)
    requires Clean(key) && Clean(v)
    ensures var s := Opened(key, v + "\"" + ""); ',' !in s && '\n' !in s
  {
  }

  /** One quoted line gives back its candidate, the escape removed from the description. */
  lemma QuotedLineReads(k: Keys, c: Candidate)
    requires CleanKeys(k) && Plain(c)
    ensures '\n' !in QuotedLine(k, c)
    ensures DecodeLine(QuotedLine(k, c)) == [c.(sdp := Remove(c.sdp, ESCAPE))]
  {
    PrintClean(c.index);
    OpenedClean(k.index, Print(c.index));
    OpenedClean(k.mid, c.mid);
    OpenedClean(k.sdp, c.sdp);
    ThirdOfPair(k.index, Print(c.index));
    ThirdOfPair(k.mid, c.mid);
    ThirdOfPair(k.sdp, c.sdp);
    LineOfValues(Opened(k.index, Print(c.index) + "\"" + ""), Opened(k.mid, c.mid + "\"" + ""),
                 Opened(k.sdp, c.sdp + "\"" + ""), Print(c.index), c.mid, c.sdp);
    AtoiOfPrint(c.index);
  }

  /* ---------- accumulated text ---------- */

  function Flat<T>(ds: seq<seq<T>>): seq<T>
  {
    if ds == [] then [] else ds[0] + Flat(ds[1..])
  }

  /** The candidates in accumulated text are those of each signal, in order. */
  lemma {:induction false} DecodeOwnText(signals: seq<string>, ds: seq<seq<Candidate>>)
    requires |ds| == |signals| && forall i :: 0 <= i < |ds| ==> ds[i] == Decode(signals[i])
    ensures Decode(Unlines(signals)) == Flat(ds)
    decreases |signals|
  {
    if signals == [] {
      NothingInEmpty();
    } else {
      DecodeHomomorphism(signals[0], Unlines(signals[1..]));
      DecodeOwnText(signals[1..], ds[1..]);
    }
  }

  lemma NothingInEmpty()
    ensures Decode("") == []
  {
    DecodeOneLine("");
    ShortLine("", "");
  }

  lemma {:induction false} FlatSingles<T>(ds: seq<seq<T>>, xs: seq<T>)
    requires |ds| == |xs| && forall i :: 0 <= i < |ds| ==> ds[i] == [xs[i]]
    ensures Flat(ds) == xs
    decreases |ds|
  {
    if ds != [] {
      FlatSingles(ds[1..], xs[1..]);
      assert xs == [xs[0]] + xs[1..];
    }
  }

  /** If each list has at most one element and all places are filled, each has exactly its own. */
  lemma {:induction false} FlatFull<T>(ds: seq<seq<T>>, xs: seq<T>)
    requires Flat(ds) == xs && |ds| == |xs| && forall i :: 0 <= i < |ds| ==> |ds[i]| <= 1
    ensures forall i :: 0 <= i < |ds| ==> ds[i] == [xs[i]]
    decreases |ds|
  {
    if ds != [] {
      FlatShort(ds[1..]);
      assert |ds[0]| == 1;
      assert Flat(ds[1..]) == xs[1..];
      FlatFull(ds[1..], xs[1..]);
      forall i | 0 <= i < |ds| ensures ds[i] == [xs[i]] {
        if i > 0 { assert ds[i] == ds[1..][i - 1] && xs[i] == xs[1..][i - 1]; }
      }
    }
  }

  lemma {:induction false} FlatShort<T>(ds: seq<seq<T>>)
    requires forall i :: 0 <= i < |ds| ==> |ds[i]| <= 1
    ensures |Flat(ds)| <= |ds|
    decreases |ds|
  {
    if ds != [] { FlatShort(ds[1..]); }
  }

  function QuotedLines(k: Keys, cs: seq<Candidate>): (r: seq<string>)
    ensures |r| == |cs|
  {
    seq(|cs|, i requires 0 <= i < |cs| => QuotedLine(k, cs[i]))
  }

  lemma QuotedOne(k: Keys, c: Candidate)
    requires CleanKeys(k) && Plain(c)
    ensures Decode(QuotedLine(k, c)) == [c] <==> !Contains(c.sdp, ESCAPE)
    ensures |Decode(QuotedLine(k, c))| == 1
  {
    QuotedLineReads(k, c);
    DecodeOneLine(QuotedLine(k, c));
    EscapeRemoval(c.sdp);
  }

  /**
   Quoted layout, any number of candidates accumulated line by line: the parser returns exactly
   the same list exactly when no description holds the escape.
   */
  lemma QuotedRoundTrip(k: Keys, cs: seq<Candidate>)
    requires CleanKeys(k) && forall i :: 0 <= i < |cs| ==> Plain(cs[i])
    ensures Decode(Unlines(QuotedLines(k, cs))) == cs <==>
            forall i :: 0 <= i < |cs| ==> !Contains(cs[i].sdp, ESCAPE)
  {
    var lines := QuotedLines(k, cs);
    var ds := seq(|cs|, i requires 0 <= i < |cs| => Decode(lines[i]));
    forall i | 0 <= i < |cs|
      ensures |ds[i]| == 1 && (ds[i] == [cs[i]] <==> !Contains(cs[i].sdp, ESCAPE))
    {
      QuotedOne(k, cs[i]);
    }
    DecodeOwnText(lines, ds);
    if forall i :: 0 <= i < |cs| ==> !Contains(cs[i].sdp, ESCAPE) {
      FlatSingles(ds, cs);
    }
    if Flat(ds) == cs {
      FlatFull(ds, cs);
    }
  }
}
