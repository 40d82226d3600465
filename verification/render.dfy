/**
 The text `renderHTTPRequest` in server/log.go builds: the request line, one
 line per header value, a blank line, then a body section chosen by the peek
 outcome and by whether the peeked bytes are UTF-8; the whole text is then
 trimmed of surrounding whitespace. A peek error replaces everything with a
 single line.
 */
module RequestRender {
  import opened Bytes
  import opened Trim
  import opened ServerLog
  import Utf8
  import Hex
  import Decimal

  // ---------------------------------------------------------------------
  // Header lines
  // ---------------------------------------------------------------------

  /** One header value, as the loop prints it: "name: value" ... */
  function HeaderField(name: Text, value: Text): Text {
    name + Lit(": ") + value
  }

  /** ... and a newline. */
  function HeaderLine(name: Text, value: Text): Text {
    HeaderField(name, value) + Lit("\n")
  }

  /** The (name, value) pairs of one header entry, values in their given order. */
  function EntryPairs(name: Text, values: seq<Text>): (ps: seq<(Text, Text)>)
    ensures |ps| == |values|
    ensures forall k | 0 <= k < |values| :: ps[k] == (name, values[k])
  {
    seq(|values|, k requires 0 <= k < |values| => (name, values[k]))
  }

  /** Every (name, value) pair the nested loop visits, in visiting order. */
  function Pairs(h: seq<(Text, seq<Text>)>): seq<(Text, Text)> {
    if h == [] then [] else EntryPairs(h[0].0, h[0].1) + Pairs(h[1..])
  }

  /** The concatenated lines for a run of pairs. */
  function Lines(ps: seq<(Text, Text)>): Text {
    if ps == [] then [] else HeaderLine(ps[0].0, ps[0].1) + Lines(ps[1..])
  }

  /** A pair is visited exactly when its name is a header name and its value one of that name's values. */
  lemma {:induction false} PairsExact(h: seq<(Text, seq<Text>)>, name: Text, value: Text)
    ensures (name, value) in Pairs(h) <==>
      exists i, j | 0 <= i < |h| && 0 <= j < |h[i].1| :: h[i].0 == name && h[i].1[j] == value
  {
    if h != [] {
      PairsExact(h[1..], name, value);
      var first := EntryPairs(h[0].0, h[0].1);
      assert Pairs(h) == first + Pairs(h[1..]);
      if (name, value) in first {
        var j :| 0 <= j < |first| && first[j] == (name, value);
        assert h[0].0 == name && h[0].1[j] == value;
      }
      if (name, value) in Pairs(h[1..]) {
        var i, j :| 0 <= i < |h[1..]| && 0 <= j < |h[1..][i].1| && h[1..][i].0 == name && h[1..][i].1[j] == value;
        assert h[i + 1].0 == name && h[i + 1].1[j] == value;
      }
      if exists i, j | 0 <= i < |h| && 0 <= j < |h[i].1| :: h[i].0 == name && h[i].1[j] == value {
        var i, j :| 0 <= i < |h| && 0 <= j < |h[i].1| && h[i].0 == name && h[i].1[j] == value;
        if i == 0 {
          assert first[j] == (name, value);
        } else {
          assert h[1..][i - 1].0 == name && h[1..][i - 1].1[j] == value;
        }
      }
    }
  }

  /**
   The values of one header name are visited together and in their order:
   the pairs of entry `i` form one contiguous run between those of the
   entries before and after it.
   */
  lemma {:induction false} PairsContiguous(h: seq<(Text, seq<Text>)>, i: nat)
    requires i < |h|
    ensures Pairs(h) == Pairs(h[..i]) + EntryPairs(h[i].0, h[i].1) + Pairs(h[i + 1..])
  {
    if i == 0 {
      assert h[..0] == [];
    } else {
      PairsContiguous(h[1..], i - 1);
      assert h[1..][..i - 1] == h[..i][1..];
      assert h[1..][i - 1..][1..] == h[i + 1..];
      assert h[1..][i - 1] == h[i];
    }
  }

  /** No two entries carry the same name, as in a Go `http.Header` map. */
  predicate DistinctNames(h: seq<(Text, seq<Text>)>) {
    forall i, j | 0 <= i < j < |h| :: h[i].0 != h[j].0
  }

  /**
   The rendered lines of entry `i` form one run of the header text, between
   the lines of the entries before and after it, in the order of its values.
   */
  lemma EntryLinesContiguous(h: seq<(Text, seq<Text>)>, i: nat)
    requires i < |h|
    ensures Lines(Pairs(h)) == Lines(Pairs(h[..i])) + Lines(EntryPairs(h[i].0, h[i].1)) + Lines(Pairs(h[i + 1..]))
  {
    var before, entry, after := Pairs(h[..i]), EntryPairs(h[i].0, h[i].1), Pairs(h[i + 1..]);
    PairsContiguous(h, i);
    LinesAppend(before + entry, after);
    LinesAppend(before, entry);
  }

  /**
   With distinct names, no pair visited outside entry `i` carries its name:
   together with EntryLinesContiguous, all lines of one name form one run.
   */
  lemma NameInOneEntry(h: seq<(Text, seq<Text>)>, i: nat)
    requires DistinctNames(h) && i < |h|
    ensures forall p | p in Pairs(h[..i]) + Pairs(h[i + 1..]) :: p.0 != h[i].0
  {
    forall p: (Text, Text) | p in Pairs(h[..i]) + Pairs(h[i + 1..])
      ensures p.0 != h[i].0
    {
      if p in Pairs(h[..i]) {
        PairsExact(h[..i], p.0, p.1);
        var i', j' :| 0 <= i' < |h[..i]| && 0 <= j' < |h[..i][i'].1| && h[..i][i'].0 == p.0 && h[..i][i'].1[j'] == p.1;
        assert h[i'].0 == p.0;
      } else {
        PairsExact(h[i + 1..], p.0, p.1);
        var i', j' :| 0 <= i' < |h[i + 1..]| && 0 <= j' < |h[i + 1..][i'].1| && h[i + 1..][i'].0 == p.0 && h[i + 1..][i'].1[j'] == p.1;
        assert h[i + 1 + i'].0 == p.0;
      }
    }
  }

  lemma {:induction false} LinesAppend(a: seq<(Text, Text)>, b: seq<(Text, Text)>)
    ensures Lines(a + b) == Lines(a) + Lines(b)
  {
    if a != [] {
      LinesAppend(a[1..], b);
      assert (a + b)[1..] == a[1..] + b;
    } else {
      assert a + b == b;
    }
  }

  /** Each pair's line occurs in the lines of the run. */
  lemma {:induction false} LineInLines(ps: seq<(Text, Text)>, k: nat)
    requires k < |ps|
    ensures IsInfix(HeaderLine(ps[k].0, ps[k].1), Lines(ps))
  {
    if k == 0 {
      InfixOfConcat([], HeaderLine(ps[0].0, ps[0].1), Lines(ps[1..]));
      assert [] + HeaderLine(ps[0].0, ps[0].1) + Lines(ps[1..]) == Lines(ps);
    } else {
      LineInLines(ps[1..], k - 1);
      InfixOfConcat(HeaderLine(ps[0].0, ps[0].1), Lines(ps[1..]), []);
      assert HeaderLine(ps[0].0, ps[0].1) + Lines(ps[1..]) + [] == Lines(ps);
      InfixTransitive(HeaderLine(ps[k].0, ps[k].1), Lines(ps[1..]), Lines(ps));
    }
  }

  // ---------------------------------------------------------------------
  // The rendered text
  // ---------------------------------------------------------------------

  /** The first line, without its newline: method, target and protocol. */
  function RequestLine(r: Request): Text {
    r.verb + Lit(" ") + r.target + Lit(" ") + r.proto
  }

  /** Request line, header lines and the blank separator line. */
  function Head(r: Request): Text {
    RequestLine(r) + Lit("\n") + Lines(Pairs(r.header)) + Lit("\n")
  }

  /** What follows a UTF-8 body whose peek hit the limit. */
  function LimitMarker(): Text {
    Lit(" ... (peeked ") + Decimal.Format(PeekLimit) + Lit(" bytes)")
  }

  /** The fallback line for a body that is not UTF-8, without its newline. */
  function HexNote(peeked: Text, limitReached: bool): Text {
    if limitReached then
      Lit("(peeked bytes not UTF-8, peek limit of ") + Decimal.Format(PeekLimit) + Lit(" bytes reached, hex: ")
        + Hex.Encode(peeked) + Lit(" ...)")
    else
      Lit("(peeked bytes not UTF-8, ") + Decimal.Format(|peeked|) + Lit(" bytes, hex: ")
        + Hex.Encode(peeked) + Lit(")")
  }

  /** The body section that follows the blank line after a successful peek. */
  function BodySection(peeked: Text, limitReached: bool): Text {
    if Utf8.Valid(peeked) then
      peeked + (if limitReached then LimitMarker() else []) + Lit("\n")
    else
      HexNote(peeked, limitReached) + Lit("\n")
  }

  /** `renderHTTPRequest(r)` with the outcome of peeking at the body given as `peek`. */
  function RenderHttpRequest(r: Request, peek: PeekResult): Text {
    match peek
    case PeekErr(message) => TrimSpace(Lit("(could not read body: ") + message + Lit(")\n"))
    case PeekOk(peeked, limitReached) => TrimSpace(Head(r) + BodySection(peeked, limitReached))
  }

  // ---------------------------------------------------------------------
  // Properties of the rendered text
  // ---------------------------------------------------------------------

  /**
   Go's server only accepts a request whose method is an HTTP token, so the
   rendered text never starts with whitespace that trimming would remove.
   */
  predicate LeadsWithToken(r: Request) {
    r.verb != [] && !IsSpace(r.verb[0])
  }

  /** The `%d` of the peek limit prints as "4096". */
  lemma PeekLimitDigits()
    ensures Decimal.Format(PeekLimit) == Lit("4096")
  {
    assert Decimal.Format(4) == Lit("4");
    assert Decimal.Format(40) == Lit("40");
    assert Decimal.Format(409) == Lit("409");
  }

  lemma PrefixOfConcat(a: Text, b: Text)
    ensures (a + b)[..|a|] == a
  {
  }

  /** The fallback line starts with '(' and ends with ')', so neither end is whitespace. */
  lemma HexNoteTight(peeked: Text, limitReached: bool)
    ensures HexNote(peeked, limitReached) != []
    ensures HexNote(peeked, limitReached)[0] == 40
    ensures HexNote(peeked, limitReached)[|HexNote(peeked, limitReached)| - 1] == 41
    ensures Tight(HexNote(peeked, limitReached))
  {
    var note := HexNote(peeked, limitReached);
    var close := if limitReached then Lit(" ...)") else Lit(")");
    var prefix := note[..|note| - |close|];
    assert note == prefix + close;
    assert note[|note| - 1] == close[|close| - 1];
    assert note[0] == 40 && close[|close| - 1] == 41;
  }

  /** The limit marker ends with ')'. */
  lemma LimitMarkerCloses()
    ensures |LimitMarker()| > 0 && LimitMarker()[|LimitMarker()| - 1] == 41
  {
    var close := Lit(" bytes)");
    assert LimitMarker() == Lit(" ... (peeked ") + Decimal.Format(PeekLimit) + close;
    assert LimitMarker()[|LimitMarker()| - 1] == close[|close| - 1];
  }

  /** Joining a text that starts non-space to one that ends non-space gives a tight text. */
  lemma TightJoin(a: Text, b: Text)
    requires a != [] && !IsSpace(a[0]) && b != [] && !IsSpace(b[|b| - 1])
    ensures Tight(a + b)
  {
  }

  lemma Assoc(a: Text, b: Text, c: Text)
    ensures a + (b + c) == a + b + c
  {
  }

  /** Once the peek has succeeded, the output is the trimmed head followed by the body section. */
  lemma RenderOk(r: Request, peeked: Text, limitReached: bool)
    ensures RenderHttpRequest(r, PeekOk(peeked, limitReached)) == TrimSpace(Head(r) + BodySection(peeked, limitReached))
  {
  }

  /** Whatever follows the head, the trimmed text opens with the request line. */
  lemma RequestLineLeads(r: Request, tail: Text)
    requires LeadsWithToken(r) && r.proto != [] && !IsSpace(r.proto[|r.proto| - 1])
    ensures |RequestLine(r)| <= |TrimSpace(Head(r) + tail)|
    ensures TrimSpace(Head(r) + tail)[..|RequestLine(r)|] == RequestLine(r)
  {
    var line := RequestLine(r);
    PrefixOfConcat(line, Lit("\n"));
    PrefixOfConcat(line + Lit("\n"), Lines(Pairs(r.header)));
    PrefixOfConcat(line + Lit("\n") + Lines(Pairs(r.header)), Lit("\n"));
    PrefixOfConcat(Head(r), tail);
    assert (Head(r) + tail)[..|line|] == line;
    assert line[|line| - 1] == r.proto[|r.proto| - 1];
    TrimSpaceKeepsPrefix(line, Head(r) + tail);
  }

  /** Whatever follows the head, each header value's line survives trimming. */
  lemma HeaderValueSurvives(r: Request, tail: Text, i: nat, j: nat)
    requires i < |r.header| && j < |r.header[i].1|
    ensures IsInfix(TrimSpace(HeaderField(r.header[i].0, r.header[i].1[j])), TrimSpace(Head(r) + tail))
    ensures Tight(HeaderField(r.header[i].0, r.header[i].1[j])) ==>
      IsInfix(HeaderField(r.header[i].0, r.header[i].1[j]), TrimSpace(Head(r) + tail))
  {
    var name, value := r.header[i].0, r.header[i].1[j];
    var ps := Pairs(r.header);
    var k := PairIndex(r.header, i, j);
    LineInLines(ps, k);
    HeaderLinesInHead(r);
    InfixOfPrefix(Head(r), tail);
    InfixTransitive(HeaderLine(name, value), Lines(ps), Head(r));
    InfixTransitive(HeaderLine(name, value), Head(r), Head(r) + tail);
    LineSurvivesTrim(HeaderField(name, value), Lit("\n"), Head(r) + tail);
  }

  /** A body section that ends in a non-space byte and a newline loses only that newline. */
  lemma TightSection(r: Request, x: Text)
    requires LeadsWithToken(r) && x != [] && !IsSpace(x[|x| - 1])
    ensures TrimSpace(Head(r) + (x + Lit("\n"))) == Head(r) + x
  {
    Assoc(Head(r), x, Lit("\n"));
    TightJoin(Head(r), x);
    TrimSpaceDropsTrailing(Head(r) + x, Lit("\n"));
  }

  /** A body section that is only text and a newline: trimming may eat into the text itself. */
  lemma LooseSection(head: Text, x: Text)
    ensures TrimSpace(head + (x + Lit("\n"))) == TrimSpace(head + x)
    ensures IsInfix(TrimSpace(x), TrimSpace(head + x))
  {
    Assoc(head, x, Lit("\n"));
    TrimSpaceIgnoresTrailing(head + x, Lit("\n"));
    InfixOfSuffix(head, x);
    TrimSpaceKeepsInfix(x, head + x);
  }

  /**
   A failed peek discards the request line and headers already built: the
   output is the one explanatory line, whatever the request.
   */
  lemma RenderPeekError(r: Request, message: Text)
    ensures RenderHttpRequest(r, PeekErr(message)) == Lit("(could not read body: ") + message + Lit(")")
  {
    var line := Lit("(could not read body: ") + message + Lit(")");
    assert Tight(line);
    assert Lit(")\n") == Lit(")") + Lit("\n");
    Assoc(Lit("(could not read body: ") + message, Lit(")"), Lit("\n"));
    TrimSpaceDropsTrailing(line, Lit("\n"));
  }

  /** After a successful peek the output opens with "method target proto". */
  lemma RenderStartsWithRequestLine(r: Request, peeked: Text, limitReached: bool)
    requires LeadsWithToken(r) && r.proto != [] && !IsSpace(r.proto[|r.proto| - 1])
    ensures var out := RenderHttpRequest(r, PeekOk(peeked, limitReached));
      |RequestLine(r)| <= |out| && out[..|RequestLine(r)|] == RequestLine(r)
  {
    RenderOk(r, peeked, limitReached);
    RequestLineLeads(r, BodySection(peeked, limitReached));
  }

  /** Where the loop visits value `j` of entry `i`. */
  lemma PairIndex(h: seq<(Text, seq<Text>)>, i: nat, j: nat) returns (k: nat)
    requires i < |h| && j < |h[i].1|
    ensures k < |Pairs(h)| && Pairs(h)[k] == (h[i].0, h[i].1[j])
  {
    PairsContiguous(h, i);
    k := |Pairs(h[..i])| + j;
  }

  /** All header lines sit between the request line and the blank line. */
  lemma HeaderLinesInHead(r: Request)
    ensures IsInfix(Lines(Pairs(r.header)), Head(r))
  {
    var first := RequestLine(r) + Lit("\n");
    var lines := Lines(Pairs(r.header));
    InfixOfSuffix(first, lines);
    InfixOfPrefix(first + lines, Lit("\n"));
    InfixTransitive(lines, first + lines, Head(r));
  }

  /**
   After a successful peek, every value of every header shows up as a
   "name: value" line; only whitespace at the very ends of the whole output
   can be lost, so a line that neither starts nor ends with whitespace
   appears in full.
   */
  lemma RenderShowsHeaderValues(r: Request, peeked: Text, limitReached: bool, i: nat, j: nat)
    requires i < |r.header| && j < |r.header[i].1|
    ensures IsInfix(TrimSpace(HeaderField(r.header[i].0, r.header[i].1[j])), RenderHttpRequest(r, PeekOk(peeked, limitReached)))
    ensures Tight(HeaderField(r.header[i].0, r.header[i].1[j])) ==>
      IsInfix(HeaderField(r.header[i].0, r.header[i].1[j]), RenderHttpRequest(r, PeekOk(peeked, limitReached)))
  {
    RenderOk(r, peeked, limitReached);
    HeaderValueSurvives(r, BodySection(peeked, limitReached), i, j);
  }

  /**
   UTF-8 body, limit reached: the peeked bytes appear verbatim right after the
   blank line, followed by the marker naming the bytes peeked.
   */
  lemma RenderTextBodyAtLimit(r: Request, peeked: Text)
    requires LeadsWithToken(r) && Utf8.Valid(peeked)
    ensures RenderHttpRequest(r, PeekOk(peeked, true)) == Head(r) + (peeked + LimitMarker())
  {
    RenderOk(r, peeked, true);
    var x := peeked + LimitMarker();
    assert BodySection(peeked, true) == x + Lit("\n");
    LimitMarkerCloses();
    assert x[|x| - 1] == LimitMarker()[|LimitMarker()| - 1];
    TightSection(r, x);
  }

  /**
   UTF-8 body, limit not reached: the peeked bytes follow the blank line with
   no marker, and only whitespace at the ends of the whole output is dropped,
   so the body (less its own surrounding whitespace) appears verbatim.
   */
  lemma RenderTextBodyUnderLimit(r: Request, peeked: Text)
    requires Utf8.Valid(peeked)
    ensures RenderHttpRequest(r, PeekOk(peeked, false)) == TrimSpace(Head(r) + peeked)
    ensures IsInfix(TrimSpace(peeked), RenderHttpRequest(r, PeekOk(peeked, false)))
  {
    RenderOk(r, peeked, false);
    assert peeked + [] == peeked;
    assert BodySection(peeked, false) == peeked + Lit("\n");
    LooseSection(Head(r), peeked);
  }

  /**
   Not UTF-8: the fallback line, announcing the limit or the byte count and
   giving the hex of exactly the peeked bytes, ends the output.
   */
  lemma RenderBinaryBody(r: Request, peeked: Text, limitReached: bool)
    requires LeadsWithToken(r) && !Utf8.Valid(peeked)
    ensures RenderHttpRequest(r, PeekOk(peeked, limitReached)) == Head(r) + HexNote(peeked, limitReached)
  {
    RenderOk(r, peeked, limitReached);
    assert BodySection(peeked, limitReached) == HexNote(peeked, limitReached) + Lit("\n");
    HexNoteTight(peeked, limitReached);
    TightSection(r, HexNote(peeked, limitReached));
  }

  /**
   The fallback line read back field by field: the number it reports is the
   limit, or the byte count when the limit was not reached, and its hex
   digits decode to exactly the peeked bytes.
   */
  lemma HexNoteFields(peeked: Text, limitReached: bool) returns (pre: Text, count: Text, mid: Text, hex: Text, post: Text)
    ensures HexNote(peeked, limitReached) == pre + count + mid + hex + post
    ensures Decimal.AllDigits(count) && Decimal.Value(count) == (if limitReached then PeekLimit else |peeked|)
    ensures limitReached ==> count == Lit("4096")
    ensures Hex.Decode(hex) == Hex.Decoded(peeked)
    ensures limitReached ==> pre == Lit("(peeked bytes not UTF-8, peek limit of ") && mid == Lit(" bytes reached, hex: ") && post == Lit(" ...)")
    ensures !limitReached ==> pre == Lit("(peeked bytes not UTF-8, ") && mid == Lit(" bytes, hex: ") && post == Lit(")")
  {
    var n := if limitReached then PeekLimit else |peeked|;
    count, hex := Decimal.Format(n), Hex.Encode(peeked);
    if limitReached {
      pre, mid, post := Lit("(peeked bytes not UTF-8, peek limit of "), Lit(" bytes reached, hex: "), Lit(" ...)");
      PeekLimitDigits();
    } else {
      pre, mid, post := Lit("(peeked bytes not UTF-8, "), Lit(" bytes, hex: "), Lit(")");
    }
    Decimal.ValueFormat(n);
    Hex.DecodeEncode(peeked);
  }

  /**
   The peek limit can cut a text body inside a multi-byte character; the
   peeked bytes are then not UTF-8 and the body is shown as hex, although
   the body itself is text. Here an ASCII run followed by the first byte of
   "é" (C3 A9).
   */
  lemma SplitCharacterShownAsHex(r: Request, ascii: Text)
    requires Utf8.AllAscii(ascii) && LeadsWithToken(r)
    ensures Utf8.Valid(ascii + [0xC3, 0xA9])
    ensures !Utf8.Valid(ascii + [0xC3])
    ensures RenderHttpRequest(r, PeekOk(ascii + [0xC3], true)) == Head(r) + HexNote(ascii + [0xC3], true)
  {
    Utf8.AsciiPrefix(ascii, [0xC3, 0xA9]);
    Utf8.AsciiPrefix(ascii, [0xC3]);
    var e: Text := [0xC3, 0xA9];
    assert Utf8.IsChar(e[..2]) && e[2..] == [];
    var c: Text := [0xC3];
    Utf8.ValidByScan(c);
    RenderBinaryBody(r, ascii + [0xC3], true);
  }
}
