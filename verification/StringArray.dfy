/** The printer and parser of PostgreSQL text arrays, on the bytes of Go strings. */
module StringArray {
  import opened Models

  type Byte = x: int | 0 <= x < 256

  type Text = seq<Byte>

  const QUOTE: Byte := '\"' as int
  const COMMA: Byte := ',' as int
  const OPEN: Byte := '{' as int
  const CLOSE: Byte := '}' as int

  /** A Go slice of strings, which may be nil. */
  datatype Strings = Nil | Slice(items: seq<Text>)

  function Items(a: Strings): seq<Text> {
    if a.Nil? then [] else a.items
  }

  // ---------------------------------------------------------------- printing

  /** The elements, separated by commas. */
  function Join(items: seq<Text>): Text {
    if items == [] then []
    else if |items| == 1 then items[0]
    else Join(items[..|items| - 1]) + [COMMA] + items[|items| - 1]
  }

  function Printed(a: Strings): Text {
    [OPEN] + Join(Items(a)) + [CLOSE]
  }

  /** Where element `n` starts: every element before it takes its own bytes and a separator. */
  function Offset(items: seq<Text>, n: nat): nat
    requires n <= |items|
  {
    if n == 0 then 0 else Offset(items, n - 1) + |items[n - 1]| + 1
  }

  /** Element `i` stands at its offset, after a comma unless it is the first. */
  ghost predicate StandsAt(text: Text, items: seq<Text>, i: nat)
    requires i < |items|
  {
    var start, end := Offset(items, i), Offset(items, i) + |items[i]|;
    && end <= |text| && text[start..end] == items[i]
    && (i > 0 ==> start > 0 && text[start - 1] == ',' as int)
  }

  /** Every element stands at its offset, and nothing else is there. */
  ghost predicate LaidOut(text: Text, items: seq<Text>) {
    && (if items == [] then text == [] else |text| + 1 == Offset(items, |items|))
    && forall i :: 0 <= i < |items| ==> StandsAt(text, items, i)
  }

  lemma {:induction false} OffsetOfFront(front: seq<Text>, last: Text, n: nat)
    requires n <= |front|
    ensures Offset(front + [last], n) == Offset(front, n)
    ensures n < |front| ==> Offset(front, n) + |front[n]| < Offset(front, |front|)
    decreases |front| + n
  {
    if n > 0 { OffsetOfFront(front, last, n - 1); }
    if n < |front| { OffsetGrows(front, n + 1, |front|); }
  }

  lemma {:induction false} OffsetGrows(items: seq<Text>, m: nat, n: nat)
    requires m <= n <= |items|
    ensures Offset(items, m) <= Offset(items, n)
  {
    if m < n { OffsetGrows(items, m, n - 1); }
  }

  lemma {:induction false} JoinLaysOut(items: seq<Text>)
    ensures LaidOut(Join(items), items)
  {
    hide LaidOut;
    if |items| <= 1 {
      LaidOutAtMostOne(items);
    } else {
      var n := |items| - 1;
      var front, last := items[..n], items[n];
      JoinLaysOut(front);
      assert items == front + [last];
      LaidOutSnoc(Join(front), front, last);
    }
  }

  lemma LaidOutAtMostOne(items: seq<Text>)
    requires |items| <= 1
    ensures LaidOut(if items == [] then [] else items[0], items)
  {
    if items != [] { assert Offset(items, 1) == |items[0]| + 1; }
  }

  lemma StaysInFront(text: Text, more: Text, front: seq<Text>, last: Text, i: nat)
    requires i < |front| && StandsAt(text, front, i)
    ensures StandsAt(text + more, front + [last], i)
  {
    OffsetOfFront(front, last, i);
    hide Offset;
    var start, end := Offset(front, i), Offset(front, i) + |front[i]|;
    assert (text + more)[start..end] == text[start..end];
  }

  lemma LaidOutSnoc(text: Text, front: seq<Text>, last: Text)
    requires front != [] && LaidOut(text, front)
    ensures LaidOut(text + [COMMA] + last, front + [last])
  {
    OffsetOfFront(front, last, |front|);
    OffsetOfLast(front, last);
    hide Offset;
    assert StandsAt(text + [COMMA] + last, front + [last], |front|);
    hide StandsAt;
    assert text + [COMMA] + last == text + ([COMMA] + last);
    forall i | 0 <= i < |front| ensures StandsAt(text + [COMMA] + last, front + [last], i) {
      StaysInFront(text, [COMMA] + last, front, last, i);
    }
  }

  lemma OffsetOfLast(front: seq<Text>, last: Text)
    ensures Offset(front + [last], |front| + 1) == Offset(front + [last], |front|) + |last| + 1
  {
  }

  /** A printed array starts and ends with its braces, also when it is nil, and holds its elements in between. */
  lemma PrintedInBraces(a: Strings)
    ensures |Printed(a)| >= 2
    ensures Printed(a)[0] == '{' as int && Printed(a)[|Printed(a)| - 1] == '}' as int
    ensures LaidOut(Printed(a)[1..|Printed(a)| - 1], Items(a))
    ensures Printed(Nil) == Printed(Slice([])) == ['{' as int, '}' as int]
  {
    JoinLaysOut(Items(a));
    assert Printed(a)[1..|Printed(a)| - 1] == Join(Items(a));
  }

  // ---------------------------------------------------------------- splitting

  /** `string(char)` of a byte: the UTF-8 encoding of the code point with that number. */
  function Encoded(b: Byte): Text {
    if b < 0x80 then [b] else [0xC0 + b / 0x40, 0x80 + b % 0x40]
  }

  /** The splitter's variables. */
  datatype Scanner = Scanner(result: seq<Text>, current: Text, inQuotes: bool)

  const FRESH: Scanner := Scanner([], [], false)

  function Step(s: Scanner, b: Byte): Scanner {
    if b == QUOTE then s.(inQuotes := !s.inQuotes)
    else if b == COMMA && !s.inQuotes then Scanner(s.result + [s.current], [], false)
    else s.(current := s.current + Encoded(b))
  }

  function Scanned(s: Scanner, text: Text): Scanner {
    if text == [] then s else Step(Scanned(s, text[..|text| - 1]), text[|text| - 1])
  }

  /** What has been collected, the last element only when it is not empty. */
  function Finished(s: Scanner): seq<Text> {
    if s.current != [] then s.result + [s.current] else s.result
  }

  function Split(text: Text): seq<Text> {
    Finished(Scanned(FRESH, text))
  }

  lemma {:induction false} ScannedConcat(s: Scanner, a: Text, b: Text)
    ensures Scanned(s, a + b) == Scanned(Scanned(s, a), b)
  {
    if b == [] {
      assert a + b == a;
    } else {
      assert (a + b)[..|a + b| - 1] == a + b[..|b| - 1];
      ScannedConcat(s, a, b[..|b| - 1]);
    }
  }

  lemma ScannedByte(s: Scanner, b: Byte)
    ensures Scanned(s, [b]) == Step(s, b)
  {
    assert [b][..0] == [];
    assert Scanned(s, [b][..0]) == s;
  }

  /** ASCII stays one byte; any other byte becomes the two bytes of UTF-8 that hold its upper and lower bits. */
  lemma EncodedIsUtf8(b: Byte)
    ensures b < 0x80 ==> Encoded(b) == [b]
    ensures b >= 0x80 ==>
              && |Encoded(b)| == 2
              && Encoded(b)[0] / 0x20 == 6 && Encoded(b)[1] / 0x40 == 2
              && Encoded(b)[0] % 0x20 * 0x40 + Encoded(b)[1] % 0x40 == b
  {
  }

  // ---------------------------------------------------------------- where a text is cut

  function Count(t: Text, b: Byte): nat {
    if t == [] then 0 else Count(t[..|t| - 1], b) + if t[|t| - 1] == b then 1 else 0
  }

  /** A comma cuts the text when an even number of quotes stands before it. */
  predicate IsCut(t: Text, i: int) {
    0 <= i < |t| && t[i] == ',' as int && Count(t[..i], '\"' as int) % 2 == 0
  }

  function Cuts(t: Text): (r: seq<nat>)
    ensures |r| <= |t|
    ensures forall i :: 0 <= i < |r| ==> r[i] < |t|
  {
    if t == [] then []
    else
      var n := |t| - 1;
      Cuts(t[..n]) + if IsCut(t, n) then [n] else []
  }

  lemma {:induction false} CutsExactly(t: Text)
    ensures forall i, j :: 0 <= i < j < |Cuts(t)| ==> Cuts(t)[i] < Cuts(t)[j]
    ensures forall i :: i in Cuts(t) <==> IsCut(t, i)
  {
    if t != [] {
      var n := |t| - 1;
      CutsExactly(t[..n]);
      forall i | 0 <= i < n ensures IsCut(t[..n], i) <==> IsCut(t, i) {
        assert t[..n][..i] == t[..i];
      }
    }
  }

  /** What is kept of a piece: every byte but the quotes, encoded anew. */
  function Unquoted(t: Text): Text {
    if t == [] then []
    else Unquoted(t[..|t| - 1]) + if t[|t| - 1] == '\"' as int then [] else Encoded(t[|t| - 1])
  }

  /** Where piece `i` of the text starts, which is after the cut before it. */
  function PieceStart(t: Text, i: nat): (start: nat)
    requires i <= |Cuts(t)|
    ensures start <= |t|
  {
    if i == 0 then 0 else Cuts(t)[i - 1] + 1
  }

  lemma PieceBounds(t: Text, i: nat)
    requires i < |Cuts(t)|
    ensures PieceStart(t, i) <= Cuts(t)[i] < |t|
  {
    CutsExactly(t);
  }

  /** What is kept of the piece that ends at cut `i`. */
  function Piece(t: Text, i: nat): Text
    requires i < |Cuts(t)|
  {
    PieceBounds(t, i);
    Unquoted(t[PieceStart(t, i)..Cuts(t)[i]])
  }

  /** What is kept of the last piece, from the last cut on. */
  function Tail(t: Text): Text {
    Unquoted(t[PieceStart(t, |Cuts(t)|)..])
  }

  /** The elements are the pieces between the cuts, in order, and the last piece only when something is kept of it. */
  ghost predicate CutAtEvenQuotes(items: seq<Text>, t: Text) {
    && |items| == |Cuts(t)| + (if Tail(t) == [] then 0 else 1)
    && (forall i :: 0 <= i < |Cuts(t)| ==> items[i] == Piece(t, i))
    && (Tail(t) != [] ==> items[|Cuts(t)|] == Tail(t))
  }

  /** The splitter's variables are determined by the quotes before each comma. */
  ghost predicate ScannedByParity(s: Scanner, t: Text) {
    && (s.inQuotes <==> Count(t, '\"' as int) % 2 == 1)
    && s.current == Tail(t)
    && |s.result| == |Cuts(t)|
    && forall i :: 0 <= i < |Cuts(t)| ==> s.result[i] == Piece(t, i)
  }

  lemma CutsSnoc(t: Text, b: Byte)
    ensures var cut := b == ',' as int && Count(t, '\"' as int) % 2 == 0;
            Cuts(t + [b]) == Cuts(t) + if cut then [|t|] else []
  {
    assert (t + [b])[..|t|] == t;
  }

  lemma UnquotedSnoc(t: Text, b: Byte)
    ensures Unquoted(t + [b]) == Unquoted(t) + if b == '\"' as int then [] else Encoded(b)
  {
    assert (t + [b])[..|t|] == t;
  }

  lemma TailSnoc(t: Text, b: Byte)
    ensures var cut := b == ',' as int && Count(t, '\"' as int) % 2 == 0;
            Tail(t + [b])
            == if cut then [] else Tail(t) + if b == '\"' as int then [] else Encoded(b)
  {
    hide Cuts, Unquoted;
    CutsSnoc(t, b);
    var start := PieceStart(t, |Cuts(t)|);
    if b == ',' as int && Count(t, '\"' as int) % 2 == 0 {
      NothingUnquoted();
      assert (t + [b])[|t| + 1..] == [];
    } else {
      assert PieceStart(t + [b], |Cuts(t + [b])|) == start;
      assert (t + [b])[start..] == t[start..] + [b];
      UnquotedSnoc(t[start..], b);
    }
  }

  lemma NothingUnquoted()
    ensures Unquoted([]) == []
  {
  }

  lemma PieceSnoc(t: Text, b: Byte, i: nat)
    requires i < |Cuts(t + [b])|
    ensures |Cuts(t)| <= |Cuts(t + [b])|
    ensures Piece(t + [b], i) == if i < |Cuts(t)| then Piece(t, i) else Tail(t)
  {
    hide Cuts, Unquoted;
    CutsSnoc(t, b);
    if i < |Cuts(t)| {
      PieceBounds(t, i);
      assert (t + [b])[PieceStart(t + [b], i)..Cuts(t + [b])[i]] == t[PieceStart(t, i)..Cuts(t)[i]];
    } else {
      assert (t + [b])[PieceStart(t + [b], i)..|t|] == t[PieceStart(t, i)..];
    }
  }

  lemma StepByParity(s: Scanner, t: Text, b: Byte)
    requires ScannedByParity(s, t)
    ensures ScannedByParity(Step(s, b), t + [b])
  {
    hide Cuts, Piece, Tail, Count, Encoded;
    CutsSnoc(t, b);
    TailSnoc(t, b);
    CountSnoc(t, b, '\"' as int);
    forall i | 0 <= i < |Cuts(t + [b])| ensures Piece(t + [b], i) == if i < |Cuts(t)| then Piece(t, i) else Tail(t) {
      PieceSnoc(t, b, i);
    }
    assert s.current + [] == s.current;
  }

  lemma FreshByParity()
    ensures ScannedByParity(FRESH, [])
  {
  }

  lemma {:induction false} ScanningByParity(t: Text)
    ensures ScannedByParity(Scanned(FRESH, t), t)
  {
    hide ScannedByParity, Step;
    if t == [] {
      FreshByParity();
    } else {
      var front, b := t[..|t| - 1], t[|t| - 1];
      ScanningByParity(front);
      StepByParity(Scanned(FRESH, front), front, b);
      assert t == front + [b];
    }
  }

  /**
   * For every text, one with an unclosed quote included, splitting cuts at the commas with an even number of quotes
   * before them, drops the quotes, encodes the rest anew, and drops the last piece when nothing is left of it.
   */
  lemma SplitCutsAtEvenQuotes(t: Text)
    ensures CutAtEvenQuotes(Split(t), t)
  {
    ScanningByParity(t);
  }

  lemma {:induction false} NothingButQuotes(t: Text)
    ensures Unquoted(t) == [] <==> forall i :: 0 <= i < |t| ==> t[i] == '\"' as int
  {
    if t != [] {
      var front := t[..|t| - 1];
      NothingButQuotes(front);
      assert forall i :: 0 <= i < |front| ==> front[i] == t[i];
    }
  }

  // ---------------------------------------------------------------- what is collected

  predicate Ascii(t: Text) {
    forall i :: 0 <= i < |t| ==> t[i] < 0x80
  }

  predicate Free(t: Text, b: Byte) {
    forall i :: 0 <= i < |t| ==> t[i] != b
  }

  predicate AllAscii(items: seq<Text>) {
    forall i :: 0 <= i < |items| ==> Ascii(items[i])
  }

  predicate AllFree(items: seq<Text>, b: Byte) {
    forall i :: 0 <= i < |items| ==> Free(items[i], b)
  }

  predicate LastNotEmpty(items: seq<Text>) {
    items == [] || items[|items| - 1] != []
  }

  /** The bytes that collecting a text yields: each byte encoded anew. */
  function Expand(t: Text): Text {
    if t == [] then [] else Expand(t[..|t| - 1]) + Encoded(t[|t| - 1])
  }

  function ExpandAll(items: seq<Text>): (r: seq<Text>)
    ensures |r| == |items|
    ensures forall i :: 0 <= i < |r| ==> r[i] == Expand(items[i])
  {
    if items == [] then [] else ExpandAll(items[..|items| - 1]) + [Expand(items[|items| - 1])]
  }

  lemma {:induction false} ExpandLength(t: Text)
    ensures |Expand(t)| >= |t|
    ensures |Expand(t)| == |t| <==> Ascii(t)
  {
    if t != [] {
      ExpandLength(t[..|t| - 1]);
      assert Ascii(t) <==> Ascii(t[..|t| - 1]) && t[|t| - 1] < 0x80;
    }
  }

  lemma {:induction false} ExpandOfAscii(t: Text)
    requires Ascii(t)
    ensures Expand(t) == t
  {
    if t != [] {
      ExpandOfAscii(t[..|t| - 1]);
      assert t == t[..|t| - 1] + [t[|t| - 1]];
    }
  }

  lemma ExpandKeepsExactlyAscii(t: Text)
    ensures Expand(t) == t <==> Ascii(t)
    ensures Expand(t) == [] <==> t == []
  {
    ExpandLength(t);
    if Ascii(t) { ExpandOfAscii(t); }
  }

  /** Without a quote, and inside quotes or without a comma, text is collected. */
  lemma {:induction false} CollectsText(s: Scanner, t: Text)
    requires Free(t, QUOTE) && (s.inQuotes || Free(t, COMMA))
    ensures Scanned(s, t) == s.(current := s.current + Expand(t))
  {
    if t == [] {
      assert s.current + [] == s.current;
    } else {
      var front, b := t[..|t| - 1], t[|t| - 1];
      CollectsText(s, front);
      assert s.current + Expand(front) + Encoded(b) == s.current + (Expand(front) + Encoded(b));
    }
  }

  /** An element as it is written, in quotes or not. */
  function Written(t: Text, quoted: bool): Text {
    if quoted then [QUOTE] + t + [QUOTE] else t
  }

  function AllWritten(items: seq<Text>, quoted: bool): (r: seq<Text>)
    ensures |r| == |items|
  {
    if items == [] then []
    else AllWritten(items[..|items| - 1], quoted) + [Written(items[|items| - 1], quoted)]
  }

  /** What the splitter can take apart again: quotes nowhere, commas only inside quotes. */
  predicate Separable(items: seq<Text>, quoted: bool) {
    AllFree(items, QUOTE) && (quoted || AllFree(items, COMMA))
  }

  lemma WrittenIsCollected(s: Scanner, t: Text, quoted: bool)
    requires !s.inQuotes && Free(t, QUOTE) && (quoted || Free(t, COMMA))
    ensures Scanned(s, Written(t, quoted)) == s.(current := s.current + Expand(t))
  {
    if quoted {
      ScannedConcat(s, [QUOTE] + t, [QUOTE]);
      ScannedConcat(s, [QUOTE], t);
      ScannedByte(s, QUOTE);
      CollectsText(Step(s, QUOTE), t);
      ScannedByte(Scanned(s, [QUOTE] + t), QUOTE);
    } else {
      CollectsText(s, t);
    }
  }

  lemma ScannedNext(text: Text, s: Scanner, t: Text, quoted: bool)
    requires Scanned(FRESH, text) == s && !s.inQuotes && Free(t, QUOTE) && (quoted || Free(t, COMMA))
    ensures Scanned(FRESH, text + [COMMA] + Written(t, quoted)) == Scanner(s.result + [s.current], Expand(t), false)
  {
    ScannedByte(s, COMMA);
    ScannedConcat(FRESH, text, [COMMA]);
    ScannedConcat(FRESH, text + [COMMA], Written(t, quoted));
    WrittenIsCollected(Step(s, COMMA), t, quoted);
    assert [] + Expand(t) == Expand(t);
  }

  lemma AllWrittenSnoc(front: seq<Text>, last: Text, quoted: bool)
    ensures AllWritten(front + [last], quoted) == AllWritten(front, quoted) + [Written(last, quoted)]
    ensures AllWritten([], quoted) == []
  {
    assert (front + [last])[..|front|] == front;
  }

  lemma ExpandAllSnoc(items: seq<Text>)
    ensures ExpandAll(items)
            == if items == [] then [] else ExpandAll(items[..|items| - 1]) + [Expand(items[|items| - 1])]
  {
  }

  /** Scanning the joined elements collects each of them, the last as the current one. */
  lemma {:induction false} ScannedJoin(items: seq<Text>, quoted: bool)
    requires items != [] && Separable(items, quoted)
    ensures var n := |items| - 1;
            Scanned(FRESH, Join(AllWritten(items, quoted))) == Scanner(ExpandAll(items[..n]), Expand(items[n]), false)
  {
    hide Scanned, Expand, ExpandAll, Written, AllWritten;
    var front, last := items[..|items| - 1], items[|items| - 1];
    AllWrittenSnoc(front, last, quoted);
    ExpandAllSnoc(front);
    assert items == front + [last];
    if front == [] {
      WrittenIsCollected(FRESH, last, quoted);
      assert [] + Expand(last) == Expand(last);
    } else {
      ScannedJoin(front, quoted);
      var m := |front| - 1;
      var s := Scanner(ExpandAll(front[..m]), Expand(front[m]), false);
      ScannedNext(Join(AllWritten(front, quoted)), s, last, quoted);
    }
  }

  lemma ExpandAllKeepsExactlyAscii(items: seq<Text>)
    ensures ExpandAll(items) == items <==> AllAscii(items)
  {
    hide Expand, ExpandAll;
    forall i | 0 <= i < |items| ensures ExpandAll(items)[i] == items[i] <==> Ascii(items[i]) {
      ExpandKeepsExactlyAscii(items[i]);
    }
    if AllAscii(items) {
      assert ExpandAll(items) == items;
    } else {
      var i :| 0 <= i < |items| && !Ascii(items[i]);
      assert ExpandAll(items)[i] != items[i];
    }
  }

  /** Separable elements are recovered exactly when they are ASCII and the last is not empty. */
  lemma SplitOfSeparable(items: seq<Text>, quoted: bool)
    requires Separable(items, quoted)
    ensures Split(Join(AllWritten(items, quoted))) == items <==> AllAscii(items) && LastNotEmpty(items)
  {
    if items != [] {
      ScannedJoin(items, quoted);
      ExpandAllKeepsExactlyAscii(items);
      ExpandKeepsExactlyAscii(items[|items| - 1]);
    }
  }

  lemma {:induction false} WrittenPlain(items: seq<Text>)
    ensures AllWritten(items, false) == items
  {
    if items != [] { WrittenPlain(items[..|items| - 1]); }
  }

  // ---------------------------------------------------------------- what is never collected

  ghost predicate CollectsNo(s: Scanner, b: Byte) {
    Free(s.current, b) && AllFree(s.result, b)
  }

  lemma {:induction false} NoQuoteIsCollected(text: Text)
    ensures CollectsNo(Scanned(FRESH, text), QUOTE)
  {
    if text != [] { NoQuoteIsCollected(text[..|text| - 1]); }
  }

  lemma {:induction false} NoCommaIsCollected(text: Text)
    requires Free(text, QUOTE)
    ensures CollectsNo(Scanned(FRESH, text), COMMA) && !Scanned(FRESH, text).inQuotes
  {
    if text != [] { NoCommaIsCollected(text[..|text| - 1]); }
  }

  lemma {:induction false} JoinFree(items: seq<Text>, b: Byte)
    requires AllFree(items, b) && b != COMMA
    ensures Free(Join(items), b)
  {
    if |items| > 1 { JoinFree(items[..|items| - 1], b); }
  }

  // ---------------------------------------------------------------- round trips

  /** Exactly which elements survive printing and parsing. */
  lemma SplitInvertsJoinExactly(items: seq<Text>)
    ensures Split(Join(items)) == items
            <==> AllFree(items, QUOTE) && AllFree(items, COMMA) && AllAscii(items) && LastNotEmpty(items)
  {
    NoQuoteIsCollected(Join(items));
    if AllFree(items, QUOTE) {
      JoinFree(items, QUOTE);
      NoCommaIsCollected(Join(items));
      if AllFree(items, COMMA) {
        WrittenPlain(items);
        SplitOfSeparable(items, false);
      }
    }
  }

  /** With every element in quotes, commas survive too. */
  lemma SplitInvertsQuotedJoinExactly(items: seq<Text>)
    ensures Split(Join(AllWritten(items, true))) == items
            <==> AllFree(items, QUOTE) && AllAscii(items) && LastNotEmpty(items)
  {
    NoQuoteIsCollected(Join(AllWritten(items, true)));
    if AllFree(items, QUOTE) { SplitOfSeparable(items, true); }
  }

  lemma CountSnoc(t: Text, x: Byte, b: Byte)
    ensures Count(t + [x], b) == Count(t, b) + if x == b then 1 else 0
  {
    assert (t + [x])[..|t|] == t;
  }

  lemma {:induction false} ExpandKeepsCommas(t: Text)
    ensures Count(Expand(t), COMMA) == Count(t, COMMA)
  {
    if t != [] {
      var front, b := t[..|t| - 1], t[|t| - 1];
      ExpandKeepsCommas(front);
      CountSnoc(Expand(front), Encoded(b)[0], COMMA);
      if b >= 0x80 {
        CountSnoc(Expand(front) + [Encoded(b)[0]], Encoded(b)[1], COMMA);
        assert Expand(front) + Encoded(b) == Expand(front) + [Encoded(b)[0]] + [Encoded(b)[1]];
      }
    }
  }

  lemma JoinSnocEmpty(r: seq<Text>)
    requires r != []
    ensures Join(r + [[]]) == Join(r) + [COMMA]
  {
    assert (r + [[]])[..|r|] == r;
    assert Join(r) + [COMMA] + [] == Join(r) + [COMMA];
  }

  lemma JoinExtendLast(r: seq<Text>, last: Text, more: Text)
    ensures Join(r + [last + more]) == Join(r + [last]) + more
  {
    assert (r + [last + more])[..|r|] == r && (r + [last])[..|r|] == r;
    if r != [] { assert Join(r) + [COMMA] + (last + more) == Join(r) + [COMMA] + last + more; }
  }

  /** All that was scanned, the current element included, joined. */
  function Rejoined(s: Scanner): Text {
    Join(s.result + [s.current])
  }

  lemma StepRejoined(s: Scanner, b: Byte)
    requires !s.inQuotes && b != QUOTE
    ensures Rejoined(Step(s, b)) == Rejoined(s) + Encoded(b)
  {
    if b == COMMA { JoinSnocEmpty(s.result + [s.current]); } else { JoinExtendLast(s.result, s.current, Encoded(b)); }
  }

  /** Joining all that was scanned of quote-free text gives the text expanded. */
  lemma {:induction false} JoinOfScanned(t: Text)
    requires Free(t, QUOTE)
    ensures var s := Scanned(FRESH, t);
            && !s.inQuotes && Rejoined(s) == Expand(t)
            && (s.current == [] <==> t == [] || t[|t| - 1] == COMMA)
            && (s.result == [] ==> Free(t, COMMA))
  {
    if t == [] {
      assert FRESH.result + [FRESH.current] == [[]];
    } else {
      JoinOfScanned(t[..|t| - 1]);
      StepRejoined(Scanned(FRESH, t[..|t| - 1]), t[|t| - 1]);
    }
  }

  /** A trailing comma is dropped together with the empty element after it. */
  lemma TrailingCommaIsDropped(t: Text)
    requires Free(t, QUOTE) && t != [] && t[|t| - 1] == COMMA
    ensures Join(Split(t)) == Expand(t[..|t| - 1])
  {
    JoinOfScanned(t);
    var r := Scanned(FRESH, t).result;
    assert r != [];
    JoinSnocEmpty(r);
    var front := t[..|t| - 1];
    assert Expand(t) == Expand(front) + [COMMA];
    assert Join(r) + [COMMA] == Expand(front) + [COMMA];
    assert (Join(r) + [COMMA])[..|Join(r)|] == Join(r);
    assert (Expand(front) + [COMMA])[..|Expand(front)|] == Expand(front);
  }

  /** Exactly which texts survive splitting and joining. */
  lemma JoinInvertsSplitExactly(t: Text)
    ensures Join(Split(t)) == t
            <==> Free(t, QUOTE) && Ascii(t) && (t == [] || t[|t| - 1] != COMMA)
  {
    NoQuoteIsCollected(t);
    JoinFree(Split(t), QUOTE);
    if Free(t, QUOTE) && t != [] {
      JoinOfScanned(t);
      ExpandKeepsExactlyAscii(t);
      var s := Scanned(FRESH, t);
      if t[|t| - 1] == COMMA {
        TrailingCommaIsDropped(t);
        ExpandKeepsCommas(t[..|t| - 1]);
      }
    }
  }

  // ---------------------------------------------------------------- the column

  /** What the database driver hands to `Scan`; only bytes are parsed, not the string that `Value` returns. */
  datatype Source = Null | Bytes(bytes: Text) | Str(text: Text) | Other

  const UNMARSHAL_ERROR := "failed to unmarshal StringArray value"

  /** The splitter's result slice, nil when nothing was ever appended. */
  function SplitSlice(text: Text): Strings {
    if text != [] && Split(text) == [] then Nil else Slice(Split(text))
  }

  predicate OnlyQuotes(t: Text) {
    t != [] && forall i :: 0 <= i < |t| ==> t[i] == '\"' as int
  }

  /** The result is nil exactly for texts of nothing but quotes, at least one. */
  lemma NilExactlyForQuotes(t: Text)
    ensures SplitSlice(t).Nil? <==> OnlyQuotes(t)
    ensures Items(SplitSlice(t)) == Split(t)
  {
    hide Unquoted;
    SplitCutsAtEvenQuotes(t);
    CutsExactly(t);
    NothingButQuotes(t);
    assert t[0..] == t;
    if Cuts(t) != [] {
      assert IsCut(t, Cuts(t)[0]);
    }
  }

  function Parsed(src: Source): Outcome<Strings> {
    match src
    case Null => Ok(Slice([]))
    case Str(_) => Err(UNMARSHAL_ERROR)
    case Other => Err(UNMARSHAL_ERROR)
    case Bytes(str) =>
      if str == [OPEN, CLOSE] then Ok(Slice([]))
      else if |str| < 2 then Panic
      else Ok(SplitSlice(str[1..|str| - 1]))
  }

  /**
   * NULL parses to an empty slice, strings and other values to an error, less than two bytes to a panic, and any other
   * bytes to the pieces of what stands between the first and the last, whatever those two are.
   */
  lemma ParsedSources(str: Text)
    ensures Parsed(Null) == Ok(Slice([]))
    ensures Parsed(Str(str)).Err? && Parsed(Other).Err?
    ensures |str| < 2 ==> Parsed(Bytes(str)).Panic?
    ensures |str| >= 2 ==>
              var inner := str[1..|str| - 1];
              && Parsed(Bytes(str)).Ok?
              && CutAtEvenQuotes(Items(Parsed(Bytes(str)).value), inner)
              && (Parsed(Bytes(str)).value.Nil? <==> OnlyQuotes(inner))
  {
    if |str| >= 2 {
      SplitCutsAtEvenQuotes(str[1..|str| - 1]);
      NilExactlyForQuotes(str[1..|str| - 1]);
    }
  }

  /**
   * Through a driver that returns the printed text as bytes, `Scan` after `Value` gives the elements back for exactly
   * these arrays; nil comes back as an empty slice.
   */
  lemma ScanInvertsValueExactly(a: Strings)
    ensures Parsed(Bytes(Printed(a))).Ok?
    ensures var items := Items(a);
            Items(Parsed(Bytes(Printed(a))).value) == items
            <==> AllFree(items, QUOTE) && AllFree(items, COMMA) && AllAscii(items) && LastNotEmpty(items)
  {
    var items := Items(a);
    assert Printed(a)[1..|Printed(a)| - 1] == Join(items);
    SplitInvertsJoinExactly(items);
  }

  /** `Value` after `Scan` gives the bytes back for exactly these texts. */
  lemma ValueInvertsScanExactly(str: Text)
    ensures Parsed(Bytes(str)).Panic? <==> |str| < 2
    ensures |str| >= 2 ==>
              var inner := str[1..|str| - 1];
              Parsed(Bytes(str)).Ok?
              && (Printed(Parsed(Bytes(str)).value) == str
                  <==> && str[0] == OPEN && str[|str| - 1] == CLOSE
                       && Free(inner, QUOTE) && Ascii(inner) && (inner == [] || inner[|inner| - 1] != COMMA))
  {
    if |str| >= 2 {
      var inner := str[1..|str| - 1];
      assert str == [str[0]] + inner + [str[|str| - 1]];
      JoinInvertsSplitExactly(inner);
      var printed := Printed(Parsed(Bytes(str)).value);
      assert Items(Parsed(Bytes(str)).value) == Split(inner);
      assert printed[1..|printed| - 1] == Join(Split(inner));
    }
  }

  method SplitArray(text: Text) returns (r: Strings)
    ensures r == SplitSlice(text)
    ensures CutAtEvenQuotes(Items(r), text)
    ensures r.Nil? <==> OnlyQuotes(text)
  {
    hide CutAtEvenQuotes, OnlyQuotes;
    SplitCutsAtEvenQuotes(text);
    NilExactlyForQuotes(text);
    if text == [] { return Slice([]); }
    var result: seq<Text> := [];
    var current: Text := [];
    var inQuotes := false;
    for i := 0 to |text|
      invariant Scanner(result, current, inQuotes) == Scanned(FRESH, text[..i])
    {
      var b := text[i];
      assert text[..i + 1][..i] == text[..i];
      if b == QUOTE {
        inQuotes := !inQuotes;
        continue;
      }
      if b == COMMA && !inQuotes {
        result := result + [current];
        current := [];
        continue;
      }
      current := current + Encoded(b);
    }
    assert text[..|text|] == text;
    if current != [] { result := result + [current]; }
    r := if result == [] then Nil else Slice(result);
  }

  class Column {
    var elements: Strings

    constructor (elements: Strings)
      ensures this.elements == elements
    {
      this.elements := elements;
    }

    method Value() returns (r: Text)
      ensures r == Printed(elements)
      ensures elements.Nil? ==> r == ['{' as int, '}' as int]
      ensures |r| >= 2 && r[0] == '{' as int && r[|r| - 1] == '}' as int
      ensures LaidOut(r[1..|r| - 1], Items(elements))
    {
      hide LaidOut;
      PrintedInBraces(elements);
      if elements.Nil? { return [OPEN, CLOSE]; }
      var result: Text := [OPEN];
      for i := 0 to |elements.items|
        invariant result == [OPEN] + Join(elements.items[..i])
      {
        assert elements.items[..i + 1][..i] == elements.items[..i];
        if i > 0 { result := result + [COMMA]; }
        result := result + elements.items[i];
      }
      assert elements.items[..|elements.items|] == elements.items;
      r := result + [CLOSE];
    }

    /** An error or a panic leaves the array as it was. */
    method Scan(src: Source) returns (r: Outcome<()>)
      modifies this
      ensures match Parsed(src)
              case Ok(value) => r == Ok(()) && elements == value
              case Err(message) => r == Err(message) && elements == old(elements)
              case Panic => r == Panic && elements == old(elements)
      ensures src.Null? ==> r == Ok(()) && elements == Slice([])
      ensures src.Str? || src.Other? ==> r.Err? && elements == old(elements)
      ensures src.Bytes? && |src.bytes| < 2 ==> r == Panic && elements == old(elements)
      ensures src.Bytes? && |src.bytes| >= 2 ==>
                && r == Ok(()) && CutAtEvenQuotes(Items(elements), src.bytes[1..|src.bytes| - 1])
                && (elements.Nil? <==> OnlyQuotes(src.bytes[1..|src.bytes| - 1]))
    {
      hide CutAtEvenQuotes, OnlyQuotes, SplitSlice;
      if src.Bytes? { ParsedSources(src.bytes); }
      if src.Null? {
        elements := Slice([]);
        return Ok(());
      }
      if !src.Bytes? { return Err(UNMARSHAL_ERROR); }
      var str := src.bytes;
      if str == [OPEN, CLOSE] {
        elements := Slice([]);
        return Ok(());
      }
      if !(1 <= |str| - 1) { return Panic; }
      elements := SplitArray(str[1..|str| - 1]);
      return Ok(());
    }
  }
}
