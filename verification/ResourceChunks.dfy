/** Bounded chunks of a resource text (app/corpus/resource_parsers.py). */
module ResourceChunks {
  import opened Common
  import opened Whitespace

  const TARGET_CHARACTERS := 2_500
  const MAX_CHARACTERS := 4_000
  const MAX_BYTES := 7_500
  const SLICE_WIDTH := 1_875 // min(TARGET_CHARACTERS, MAX_BYTES / 4)

  /** The UTF-8 encoding of a character (section 3 of RFC 3629). */
  function Utf8(c: char): (bytes: seq<nat>)
    ensures 1 <= |bytes| <= 4
  {
    var n := c as int;
    if n < 0x80 then [n]
    else if n < 0x800 then [0xC0 + n / 64, 0x80 + n % 64]
    else if n < 0x10000 then [0xE0 + n / 4096, 0x80 + n / 64 % 64, 0x80 + n % 64]
    else [0xF0 + n / 262144, 0x80 + n / 4096 % 64, 0x80 + n / 64 % 64, 0x80 + n % 64]
  }

  predicate Continues(byte: nat) {
    0x80 <= byte < 0xC0
  }

  /** The number of the character a sequence of bytes encodes; only the shortest sequence does. */
  function FromUtf8(bytes: seq<nat>): Option<nat> {
    if |bytes| == 1 && bytes[0] < 0x80 then Some(bytes[0])
    else if |bytes| == 2 && 0xC2 <= bytes[0] < 0xE0 && Continues(bytes[1]) then
      Some((bytes[0] - 0xC0) * 64 + (bytes[1] - 0x80))
    else if |bytes| == 3 && 0xE0 <= bytes[0] < 0xF0 && Continues(bytes[1]) && Continues(bytes[2]) then
      var n := (bytes[0] - 0xE0) * 4096 + (bytes[1] - 0x80) * 64 + (bytes[2] - 0x80);
      if n >= 0x800 then Some(n) else None
    else if |bytes| == 4 && 0xF0 <= bytes[0] < 0xF5 && (forall i | 1 <= i < 4 :: Continues(bytes[i])) then
      var n := (bytes[0] - 0xF0) * 262144 + (bytes[1] - 0x80) * 4096 + (bytes[2] - 0x80) * 64 + (bytes[3] - 0x80);
      if n >= 0x10000 then Some(n) else None
    else None
  }

  /** The digits of a number to the base 64. */
  lemma Digits(n: nat)
    ensures n == n / 64 * 64 + n % 64 && n / 64 == n / 4096 * 64 + n / 64 % 64
    ensures n / 4096 == n / 262144 * 64 + n / 4096 % 64
  {
  }

  lemma Utf8Short(c: char)
    requires c as int < 0x800
    ensures FromUtf8(Utf8(c)) == Some(c as int)
  {
  }

  lemma Utf8Three(c: char)
    requires 0x800 <= c as int < 0x10000
    ensures FromUtf8(Utf8(c)) == Some(c as int)
  {
    Digits(c as int);
  }

  lemma Utf8Four(c: char)
    requires 0x10000 <= c as int
    ensures FromUtf8(Utf8(c)) == Some(c as int)
  {
    var n, bytes := c as int, Utf8(c);
    Digits(n);
    assert n < 0x110000;
    assert forall i | 1 <= i < 4 :: Continues(bytes[i]);
  }

  /** Every byte fits in eight bits, and decoding gives the character back. */
  lemma Utf8RoundTrip(c: char)
    ensures forall i | 0 <= i < |Utf8(c)| :: Utf8(c)[i] < 0x100
    ensures FromUtf8(Utf8(c)) == Some(c as int)
  {
    hide FromUtf8;
    if c as int < 0x800 {
      Utf8Short(c);
    } else if c as int < 0x10000 {
      Utf8Three(c);
    } else {
      Utf8Four(c);
    }
  }

  function Utf8Length(c: char): nat {
    |Utf8(c)|
  }

  function Bytes(s: string): nat {
    if s == [] then 0 else Utf8Length(s[0]) + Bytes(s[1..])
  }

  lemma {:induction false} BytesAppend(a: string, b: string)
    ensures Bytes(a + b) == Bytes(a) + Bytes(b)
  {
    if a == [] {
      assert a + b == b;
    } else {
      assert (a + b)[1..] == a[1..] + b;
      BytesAppend(a[1..], b);
    }
  }

  lemma {:induction false} BytesBound(s: string)
    ensures |s| <= Bytes(s) <= 4 * |s|
  {
    if s != [] {
      BytesBound(s[1..]);
    }
  }

  /** A text with the numbers of the first and last paragraph it comes from. */
  datatype Piece = Piece(text: string, first: nat, last: nat)

  /** The texts of the pieces without whitespace, one after the other. */
  function Content(pieces: seq<Piece>): string {
    if pieces == [] then [] else Content(pieces[..|pieces| - 1]) + Squash(pieces[|pieces| - 1].text)
  }

  lemma ContentSnoc(pieces: seq<Piece>, last: Piece)
    ensures Content(pieces + [last]) == Content(pieces) + Squash(last.text)
  {
    assert (pieces + [last])[..|pieces|] == pieces;
  }

  ghost predicate Fits(text: string) {
    text != [] && |text| <= 4_000 && Bytes(text) <= 7_500
  }

  /** The k-th slice of 1,875 characters of a paragraph, stripped. */
  function SliceAt(paragraph: string, k: nat): string {
    Strip(paragraph[Min(1_875 * k, |paragraph|)..Min(1_875 * (k + 1), |paragraph|)])
  }

  /** The first `n` slices that are not blank. */
  function Slices(paragraph: string, n: nat): seq<string> {
    if n == 0 then []
    else Slices(paragraph, n - 1) + if SliceAt(paragraph, n - 1) == [] then [] else [SliceAt(paragraph, n - 1)]
  }

  /** The lines a paragraph contributes: itself if it fits, else its slices. */
  ghost function LinesOf(paragraph: string): seq<string> {
    if Fits(paragraph) then [paragraph] else Slices(paragraph, (|paragraph| + 1_874) / 1_875)
  }

  /** Texts as pieces of one paragraph. */
  function Numbered(lines: seq<string>, number: nat): seq<Piece> {
    seq(|lines|, i requires 0 <= i < |lines| => Piece(lines[i], number, number))
  }

  /** The pieces of the first `n` paragraphs. */
  ghost function Cuts(paragraphs: seq<string>, n: nat): seq<Piece>
    requires n <= |paragraphs|
  {
    if n == 0 then [] else Cuts(paragraphs, n - 1) + Numbered(LinesOf(paragraphs[n - 1]), n)
  }

  lemma NextSlice(paragraph: string, k: nat, end: nat, number: nat)
    requires 1_875 * k < |paragraph| && end == Min(1_875 * k + 1_875, |paragraph|)
    ensures var text := Strip(paragraph[1_875 * k..end]);
            Numbered(Slices(paragraph, k + 1), number)
            == Numbered(Slices(paragraph, k), number) + if text == [] then [] else [Piece(text, number, number)]
  {
  }

  /** Every piece is a whole paragraph that fits, or a slice of one that does not. */
  ghost predicate IsCut(paragraphs: seq<string>, piece: Piece) {
    && 1 <= piece.first == piece.last <= |paragraphs|
    && var paragraph := paragraphs[piece.first - 1];
    && if Fits(paragraph) then piece.text == paragraph
       else piece.text != [] && exists k :: 0 <= k && 1_875 * k < |paragraph| && piece.text == SliceAt(paragraph, k)
  }

  lemma {:induction false} SliceOf(paragraph: string, n: nat, text: string) returns (k: nat)
    requires text in Slices(paragraph, n)
    ensures k < n && 1_875 * k < |paragraph| && text == SliceAt(paragraph, k) && text != []
  {
    if text in Slices(paragraph, n - 1) {
      k := SliceOf(paragraph, n - 1, text);
    } else {
      k := n - 1;
      assert 1_875 * k >= |paragraph| ==> SliceAt(paragraph, k) == Strip([]);
    }
  }

  lemma {:induction false} CutsAre(paragraphs: seq<string>, n: nat, piece: Piece)
    requires n <= |paragraphs| && piece in Cuts(paragraphs, n)
    ensures IsCut(paragraphs, piece)
  {
    hide IsCut, LinesOf, Numbered, Fits;
    if piece in Cuts(paragraphs, n - 1) {
      CutsAre(paragraphs, n - 1, piece);
    } else {
      assert piece in Numbered(LinesOf(paragraphs[n - 1]), n);
      NumberedIsCut(paragraphs, n, piece);
    }
  }

  lemma NumberedIsCut(paragraphs: seq<string>, n: nat, piece: Piece)
    requires 1 <= n <= |paragraphs| && piece in Numbered(LinesOf(paragraphs[n - 1]), n)
    ensures IsCut(paragraphs, piece)
  {
    hide SliceAt, Slices, Bytes, Fits;
    var paragraph := paragraphs[n - 1];
    assert piece.text in LinesOf(paragraph);
    if !Fits(paragraph) {
      var k := SliceOf(paragraph, (|paragraph| + 1_874) / 1_875, piece.text);
    }
  }

  /** Pieces fit, and their paragraph ranges are ordered, from 1 to at most `count`. */
  ghost predicate WellFormed(pieces: seq<Piece>, count: nat) {
    && (forall i | 0 <= i < |pieces| :: Fits(pieces[i].text) && 1 <= pieces[i].first <= pieces[i].last <= count)
    && (forall i | 0 < i < |pieces| :: pieces[i - 1].last <= pieces[i].first)
  }

  /** How much of the text without whitespace the first `n` paragraphs hold. */
  ghost function Upto(paragraphs: seq<string>, n: nat): nat {
    |Squash(Flatten(paragraphs[..Min(n, |paragraphs|)]))|
  }

  /** A text between two positions begins in the first and ends in the last paragraph of its range. */
  ghost predicate LocatedAt(paragraphs: seq<string>, from: nat, to: nat, piece: Piece) {
    && piece.first >= 1 && piece.last >= 1
    && Upto(paragraphs, piece.first - 1) <= from < Upto(paragraphs, piece.first)
    && Upto(paragraphs, piece.last - 1) < to <= Upto(paragraphs, piece.last)
  }

  /** Every piece begins and ends in the paragraphs its range names. */
  ghost predicate Located(paragraphs: seq<string>, pieces: seq<Piece>) {
    pieces == [] ||
    var front, last := pieces[..|pieces| - 1], pieces[|pieces| - 1];
    Located(paragraphs, front) && LocatedAt(paragraphs, |Content(front)|, |Content(pieces)|, last)
  }

  lemma LocatedSnoc(paragraphs: seq<string>, pieces: seq<Piece>, piece: Piece)
    ensures Located(paragraphs, pieces + [piece]) <==>
              (Located(paragraphs, pieces)
               && LocatedAt(paragraphs, |Content(pieces)|, |Content(pieces)| + |Squash(piece.text)|, piece))
  {
    var longer := pieces + [piece];
    assert longer[..|longer| - 1] == pieces && longer[|longer| - 1] == piece;
    ContentSnoc(pieces, piece);
  }

  lemma SquashTrimmed(text: string)
    requires text != [] && Trimmed(text)
    ensures Squash(text) != []
  {
  }

  predicate IsNewline(c: char) {
    c == '\n'
  }

  function SplitNewlines(text: string): seq<string> {
    if text == [] then []
    else
      var i := FirstAt(text, IsNewline);
      if i == |text| then [text] else [text[..i]] + SplitNewlines(text[i + 1..])
  }

  lemma {:induction false} SplitNewlinesSquash(text: string)
    ensures Squash(Flatten(SplitNewlines(text))) == Squash(text)
  {
    var i := FirstAt(text, IsNewline);
    if text != [] && i == |text| {
      FlattenOne(text);
    } else if text != [] {
      var line, rest := text[..i], text[i + 1..];
      SplitNewlinesSquash(rest);
      FlattenCons(line, SplitNewlines(rest));
      SquashAppend(line, Flatten(SplitNewlines(rest)));
      SquashAround(line, text[i], rest);
      assert text == line + [text[i]] + rest;
    }
  }

  /**
    The paragraphs of a text. Splitting at every newline instead of at runs of them
    differs in empty parts only, and those are dropped.
   */
  function Paragraphs(parts: seq<string>): seq<string> {
    if parts == [] then []
    else (if Strip(parts[0]) == [] then [] else [Strip(parts[0])]) + Paragraphs(parts[1..])
  }

  lemma {:induction false} ParagraphsSquash(parts: seq<string>)
    ensures Squash(Flatten(Paragraphs(parts))) == Squash(Flatten(parts))
    ensures forall p | p in Paragraphs(parts) :: p != [] && Trimmed(p)
  {
    if parts != [] {
      ParagraphsSquash(parts[1..]);
      var _ := StripLemma(parts[0]);
      SquashAppend(parts[0], Flatten(parts[1..]));
      var first := if Strip(parts[0]) == [] then [] else [Strip(parts[0])];
      FlattenAppend(first, Paragraphs(parts[1..]));
      SquashAppend(Strip(parts[0]), Flatten(Paragraphs(parts[1..])));
      FlattenOne(Strip(parts[0]));
    }
  }

  /** Splitting loses nothing but the newlines, and no part holds one; a last newline ends the last part. */
  lemma {:induction false} SplitNewlinesJoins(text: string)
    ensures forall part | part in SplitNewlines(text) :: '\n' !in part
    ensures Rejoins(text, SplitNewlines(text))
  {
    if text != [] {
      var i := FirstAt(text, IsNewline);
      if i == |text| {
        assert SplitNewlines(text) == [text];
      } else {
        SplitNewlinesJoins(text[i + 1..]);
        RejoinsLonger(text, i, SplitNewlines(text[i + 1..]));
      }
    }
  }

  ghost predicate Rejoins(text: string, parts: seq<string>) {
    text == Join(parts, '\n') || text == Join(parts, '\n') + ['\n']
  }

  lemma RejoinsLonger(text: string, i: nat, parts: seq<string>)
    requires i < |text| && text[i] == '\n' && Rejoins(text[i + 1..], parts)
    requires parts == [] ==> text[i + 1..] == []
    ensures Rejoins(text, [text[..i]] + parts)
  {
    assert text == text[..i] + ['\n'] + text[i + 1..];
    if parts != [] {
      assert ([text[..i]] + parts)[1..] == parts;
    } else {
      assert [text[..i]] + parts == [text[..i]];
    }
  }

  /** The paragraphs are the lines that are not blank, stripped. */
  lemma {:induction false} ParagraphsAre(parts: seq<string>, paragraph: string)
    ensures paragraph in Paragraphs(parts) <==>
              paragraph != [] && exists i :: 0 <= i < |parts| && paragraph == Strip(parts[i])
  {
    if parts != [] {
      ParagraphsAre(parts[1..], paragraph);
      if i :| 0 <= i < |parts| && paragraph == Strip(parts[i]) && i > 0 {
        assert parts[1..][i - 1] == parts[i];
      }
      if j :| 0 <= j < |parts| - 1 && paragraph == Strip(parts[1..][j]) {
        assert parts[j + 1] == parts[1..][j];
      }
    }
  }

  /** The next text of paragraph `number` still lies in it. */
  ghost predicate Within(paragraphs: seq<string>, pieces: seq<Piece>, text: string, number: nat) {
    && number >= 1 && Located(paragraphs, pieces)
    && Upto(paragraphs, number - 1) <= |Content(pieces)|
    && |Content(pieces)| + |Squash(text)| <= Upto(paragraphs, number)
  }

  /** Appends a non-blank piece of paragraph `number`. */
  lemma PieceAdded(paragraphs: seq<string>, pieces: seq<Piece>, text: string, number: nat)
    requires WellFormed(pieces, number) && number >= 1 && Fits(text) && Trimmed(text)
    requires Within(paragraphs, pieces, text, number)
    ensures WellFormed(pieces + [Piece(text, number, number)], number)
    ensures Content(pieces + [Piece(text, number, number)]) == Content(pieces) + Squash(text)
    ensures Located(paragraphs, pieces + [Piece(text, number, number)])
  {
    hide Squash, Bytes, Content, Upto, Located, Trimmed;
    ContentSnoc(pieces, Piece(text, number, number));
    SquashTrimmed(text);
    LocatedSnoc(paragraphs, pieces, Piece(text, number, number));
    WellFormedSnoc(pieces, Piece(text, number, number), number);
  }

  lemma WellFormedSnoc(pieces: seq<Piece>, piece: Piece, count: nat)
    requires WellFormed(pieces, count) && Fits(piece.text) && 1 <= piece.first <= piece.last <= count
    requires forall i | 0 <= i < |pieces| :: pieces[i].last <= piece.first
    ensures WellFormed(pieces + [piece], count)
  {
  }

  /** Adds one stripped slice of a long paragraph, unless it is blank. */
  method AddSlice(ghost paragraphs: seq<string>, pieces: seq<Piece>, slice: string, number: nat)
    returns (longer: seq<Piece>)
    requires WellFormed(pieces, number) && number >= 1 && |slice| <= SLICE_WIDTH
    requires Within(paragraphs, pieces, slice, number)
    ensures WellFormed(longer, number) && Located(paragraphs, longer)
    ensures Content(longer) == Content(pieces) + Squash(slice)
    ensures longer == pieces + if Strip(slice) == [] then [] else [Piece(Strip(slice), number, number)]
  {
    var text := Strip(slice);
    SliceFits(slice);
    longer := pieces;
    if text != [] {
      PieceAdded(paragraphs, pieces, text, number);
      longer := pieces + [Piece(text, number, number)];
    }
  }

  /** Slices of a width that fits in any encoding. */
  method CutLongParagraph(ghost paragraphs: seq<string>, pieces: seq<Piece>, paragraph: string, number: nat)
    returns (longer: seq<Piece>)
    requires WellFormed(pieces, number) && number >= 1 && Within(paragraphs, pieces, paragraph, number)
    ensures WellFormed(longer, number) && Located(paragraphs, longer)
    ensures Content(longer) == Content(pieces) + Squash(paragraph)
    ensures longer == pieces + Numbered(Slices(paragraph, (|paragraph| + 1_874) / 1_875), number)
  {
    hide Located, Content, Squash, WellFormed, Upto, Numbered, Slices, Strip;
    longer := pieces;
    var offset := 0;
    ghost var k := 0;
    NoSlices(paragraph, number);
    assert Squash(paragraph[..0]) == [] by {
      SquashNothing();
    }
    while offset < |paragraph|
      invariant 0 <= offset <= |paragraph| && WellFormed(longer, number) && Located(paragraphs, longer)
      invariant Content(longer) == Content(pieces) + Squash(paragraph[..offset])
      invariant offset == Min(1_875 * k, |paragraph|) && (k > 0 ==> 1_875 * (k - 1) < |paragraph|)
      invariant longer == pieces + Numbered(Slices(paragraph, k), number)
    {
      var end := Min(offset + SLICE_WIDTH, |paragraph|);
      SquashSlice(paragraph, offset, end);
      SquashSlice(paragraph, end, |paragraph|);
      assert paragraph[..|paragraph|] == paragraph;
      longer := AddSlice(paragraphs, longer, paragraph[offset..end], number);
      NextSlice(paragraph, k, end, number);
      offset, k := end, k + 1;
    }
    assert paragraph[..offset] == paragraph;
  }

  /** Adds the pieces of one paragraph: itself if it fits, else slices. */
  method CutParagraph(ghost paragraphs: seq<string>, pieces: seq<Piece>, paragraph: string, number: nat)
    returns (longer: seq<Piece>)
    requires WellFormed(pieces, number) && number >= 1 && paragraph != [] && Trimmed(paragraph)
    requires Within(paragraphs, pieces, paragraph, number)
    ensures WellFormed(longer, number) && Located(paragraphs, longer)
    ensures Content(longer) == Content(pieces) + Squash(paragraph)
    ensures longer == pieces + Numbered(LinesOf(paragraph), number)
  {
    if |paragraph| <= MAX_CHARACTERS && Bytes(paragraph) <= MAX_BYTES {
      PieceAdded(paragraphs, pieces, paragraph, number);
      longer := pieces + [Piece(paragraph, number, number)];
    } else {
      longer := CutLongParagraph(paragraphs, pieces, paragraph, number);
    }
  }

  lemma NoSlices(paragraph: string, number: nat)
    ensures Numbered(Slices(paragraph, 0), number) == []
  {
  }

  lemma SquashNothing()
    ensures Squash([]) == []
  {
  }

  lemma SquashSlice(text: string, from: nat, to: nat)
    requires from <= to <= |text|
    ensures Squash(text[..to]) == Squash(text[..from]) + Squash(text[from..to])
  {
    assert text[..to] == text[..from] + text[from..to];
    SquashAppend(text[..from], text[from..to]);
  }

  lemma SliceFits(slice: string)
    requires |slice| <= SLICE_WIDTH
    ensures Squash(Strip(slice)) == Squash(slice) && Trimmed(Strip(slice))
    ensures Strip(slice) != [] ==> Fits(Strip(slice))
  {
    var _ := StripLemma(slice);
    BytesBound(Strip(slice));
  }

  lemma NothingCut(paragraphs: seq<string>)
    ensures WellFormed([], 0) && Located(paragraphs, []) && Content([]) == Squash(Flatten(paragraphs[..0]))
  {
  }

  lemma NextWithin(paragraphs: seq<string>, pieces: seq<Piece>, n: nat)
    requires n < |paragraphs| && WellFormed(pieces, n) && Located(paragraphs, pieces)
    requires Content(pieces) == Squash(Flatten(paragraphs[..n]))
    ensures WellFormed(pieces, n + 1) && Within(paragraphs, pieces, paragraphs[n], n + 1)
    ensures Content(pieces) + Squash(paragraphs[n]) == Squash(Flatten(paragraphs[..n + 1]))
  {
    FlattenPrefix(paragraphs, n);
    SquashAppend(Flatten(paragraphs[..n]), paragraphs[n]);
  }

  /** The first loop of `_chunk_text`: numbered pieces of every paragraph. */
  method CutParagraphs(paragraphs: seq<string>) returns (pieces: seq<Piece>)
    requires forall i | 0 <= i < |paragraphs| :: paragraphs[i] != [] && Trimmed(paragraphs[i])
    ensures WellFormed(pieces, |paragraphs|) && Located(paragraphs, pieces)
    ensures Content(pieces) == Squash(Flatten(paragraphs))
    ensures pieces == Cuts(paragraphs, |paragraphs|)
  {
    hide Located, Squash, WellFormed, Upto, LinesOf, Numbered;
    pieces := [];
    var n := 0;
    NothingCut(paragraphs);
    while n < |paragraphs|
      invariant 0 <= n <= |paragraphs|
      invariant WellFormed(pieces, n) && Located(paragraphs, pieces)
      invariant Content(pieces) == Squash(Flatten(paragraphs[..n])) && pieces == Cuts(paragraphs, n)
    {
      NextWithin(paragraphs, pieces, n);
      pieces := CutParagraph(paragraphs, pieces, paragraphs[n], n + 1);
      n := n + 1;
    }
    assert paragraphs[..n] == paragraphs;
  }

  // ----- Grouping

  function TextsOf(pieces: seq<Piece>): seq<string> {
    seq(|pieces|, i requires 0 <= i < |pieces| => pieces[i].text)
  }

  /** A chunk of some pieces: each on a line of its own. */
  function ChunkOf(group: seq<Piece>): Piece
    requires group != []
  {
    Piece(Join(TextsOf(group), '\n'), group[0].first, group[|group| - 1].last)
  }

  /** The running length counts one too many in every chunk but the first. */
  ghost function Counted(group: seq<Piece>, i: nat): nat {
    |Join(TextsOf(group), '\n')| + if i > 0 then 1 else 0
  }

  /** Several pieces form the i-th chunk only if they count at most 2,500 characters and are at most 7,500 bytes. */
  ghost predicate Small(group: seq<Piece>, i: nat) {
    |group| > 1 ==> Counted(group, i) <= 2_500 && Bytes(Join(TextsOf(group), '\n')) <= 7_500
  }

  /** One piece more would be too much for the i-th chunk. */
  ghost predicate Full(group: seq<Piece>, i: nat, next: Piece) {
    Counted(group, i) + 1 + |next.text| > 2_500 || Bytes(Join(TextsOf(group), '\n') + ['\n'] + next.text) > 7_500
  }

  /** Every group is as large as it can be: the next one begins where it is full. */
  ghost predicate Greedy(groups: seq<seq<Piece>>) {
    && (forall i | 0 <= i < |groups| :: groups[i] != [] && Small(groups[i], i))
    && forall i | 0 < i < |groups| :: Full(groups[i - 1], i - 1, groups[i][0])
  }

  /** The chunks are the groups of the pieces, in order. */
  ghost predicate Groups(groups: seq<seq<Piece>>, pieces: seq<Piece>, chunks: seq<Piece>) {
    && Flatten(groups) == pieces && Greedy(groups) && |chunks| == |groups|
    && forall i | 0 <= i < |groups| :: chunks[i] == ChunkOf(groups[i])
  }

  /** The pieces determine the chunks. */
  lemma OneChunking(a: seq<seq<Piece>>, b: seq<seq<Piece>>, pieces: seq<Piece>, x: seq<Piece>, y: seq<Piece>)
    requires Groups(a, pieces, x) && Groups(b, pieces, y)
    ensures x == y
  {
    assert a[0..] == a && b[0..] == b;
    GroupingUnique(a, b, 0);
  }

  lemma TextsSnoc(group: seq<Piece>, piece: Piece)
    ensures TextsOf(group + [piece]) == TextsOf(group) + [piece.text]
    ensures Join(TextsOf(group + [piece]), '\n')
            == if group == [] then piece.text else Join(TextsOf(group), '\n') + ['\n'] + piece.text
  {
    assert TextsOf(group + [piece]) == TextsOf(group) + [piece.text];
    JoinSnoc(TextsOf(group), piece.text, '\n');
  }

  lemma {:induction false} LongerText(group: seq<Piece>, n: nat)
    requires n < |group|
    ensures var text, longer := Join(TextsOf(group[..n + 1]), '\n'), Join(TextsOf(group), '\n');
            |text| <= |longer| && Bytes(text) <= Bytes(longer)
    decreases |group|
  {
    var front, last := group[..|group| - 1], group[|group| - 1];
    assert group == front + [last];
    if n < |front| {
      LongerText(front, n);
      assert front[..n + 1] == group[..n + 1];
      TextsSnoc(front, last);
      BytesAppend(Join(TextsOf(front), '\n') + ['\n'], last.text);
      BytesAppend(Join(TextsOf(front), '\n'), ['\n']);
    } else {
      assert group[..n + 1] == group;
    }
  }

  /** A group that goes on after it was full would be too large. */
  lemma FullEnds(group: seq<Piece>, i: nat, n: nat)
    requires 0 < n < |group| && Full(group[..n], i, group[n])
    ensures !Small(group, i)
  {
    assert group[..n + 1] == group[..n] + [group[n]];
    TextsSnoc(group[..n], group[n]);
    LongerText(group, n);
  }

  lemma FlattenHead(groups: seq<seq<Piece>>)
    requires groups != []
    ensures Flatten(groups) == groups[0] + Flatten(groups[1..])
  {
  }

  lemma SameStart(a: seq<seq<Piece>>, b: seq<seq<Piece>>, i: nat)
    requires Greedy(a) && Greedy(b) && i < |a| && i < |b| && Flatten(a[i..]) == Flatten(b[i..])
    ensures |a[i]| >= |b[i]|
  {
    if |a[i]| < |b[i]| {
      var n := |a[i]|;
      FlattenHead(a[i..]);
      FlattenHead(b[i..]);
      var all := Flatten(a[i..]);
      assert a[i] == all[..n] && b[i] == all[..|b[i]|] && b[i][..n] == a[i];
      assert a[i..][1..] == a[i + 1..] && |Flatten(a[i + 1..])| > 0;
      FlattenHead(a[i + 1..]);
      assert a[i + 1][0] == Flatten(a[i + 1..])[0] == all[n] == b[i][n];
      assert Full(a[i], i, a[i + 1][0]);
      FullEnds(b[i], i, n);
    }
  }

  /** There is only one greedy grouping. */
  lemma {:induction false} GroupingUnique(a: seq<seq<Piece>>, b: seq<seq<Piece>>, i: nat)
    requires Greedy(a) && Greedy(b) && i <= |a| && i <= |b| && Flatten(a[i..]) == Flatten(b[i..])
    ensures a[i..] == b[i..]
    decreases |a| - i
  {
    if i < |a| {
      FlattenHead(a[i..]);
    }
    if i < |b| {
      FlattenHead(b[i..]);
    }
    if i < |a| && i < |b| {
      SameStart(a, b, i);
      SameStart(b, a, i);
      assert a[i] == Flatten(a[i..])[..|a[i]|] && b[i] == Flatten(b[i..])[..|b[i]|];
      assert a[i..][1..] == a[i + 1..] && b[i..][1..] == b[i + 1..];
      assert Flatten(a[i + 1..]) == Flatten(a[i..])[|a[i]|..] && Flatten(b[i + 1..]) == Flatten(b[i..])[|b[i]|..];
      GroupingUnique(a, b, i + 1);
      assert a[i..] == [a[i]] + a[i + 1..] && b[i..] == [b[i]] + b[i + 1..];
    }
  }

  /** `chunks` regroups the pieces `done`, in order. */
  ghost predicate Regroups(paragraphs: seq<string>, chunks: seq<Piece>, done: seq<Piece>, count: nat) {
    && WellFormed(chunks, count) && Located(paragraphs, chunks)
    && Content(chunks) == Content(done)
    && (chunks == [] <==> done == [])
    && (chunks != [] ==> chunks[|chunks| - 1].last == done[|done| - 1].last)
  }

  /** Starting a new chunk with the next piece. */
  lemma StartChunk(paragraphs: seq<string>, chunks: seq<Piece>, done: seq<Piece>, piece: Piece, count: nat)
    requires Regroups(paragraphs, chunks, done, count) && WellFormed(done + [piece], count)
    requires Located(paragraphs, done + [piece])
    ensures Regroups(paragraphs, chunks + [piece], done + [piece], count)
  {
    hide Located, LocatedAt, Content, Squash;
    LocatedSnoc(paragraphs, done, piece);
    LocatedSnoc(paragraphs, chunks, piece);
    ContentSnoc(chunks, piece);
    ContentSnoc(done, piece);
    assert (done + [piece])[|done|] == piece;
    assert done != [] ==> (done + [piece])[|done| - 1] == done[|done| - 1];
  }

  lemma ExtendShape(front: seq<Piece>, last: Piece, longer: Piece, count: nat)
    requires WellFormed(front + [last], count)
    requires Fits(longer.text) && longer.first == last.first && last.last <= longer.last <= count
    requires last.text <= longer.text
    ensures WellFormed(front + [longer], count)
  {
    var before, after := front + [last], front + [longer];
    assert before[|front|] == last;
    assert forall i | 0 <= i < |front| :: before[i] == after[i];
  }

  lemma SquashLines(a: string, b: string)
    ensures Squash(a + ['\n'] + b) == Squash(a) + Squash(b)
  {
    SquashAround(a, '\n', b);
  }

  lemma ExtendText(front: seq<Piece>, last: Piece, longer: Piece, text: string)
    requires longer.text == last.text + ['\n'] + text
    ensures Content(front + [longer]) == Content(front + [last]) + Squash(text)
  {
    var before, squashed := Content(front), Squash(last.text);
    ContentSnoc(front, last);
    ContentSnoc(front, longer);
    SquashLines(last.text, text);
    assert before + (squashed + Squash(text)) == before + squashed + Squash(text);
  }

  /** Adding the next piece to the last chunk, on a line of its own. */
  lemma ExtendChunk(paragraphs: seq<string>, front: seq<Piece>, last: Piece, done: seq<Piece>, piece: Piece, count: nat)
    requires Regroups(paragraphs, front + [last], done, count) && WellFormed(done + [piece], count)
    requires Located(paragraphs, done + [piece]) && Fits(last.text + ['\n'] + piece.text)
    ensures var longer := Piece(last.text + ['\n'] + piece.text, last.first, piece.last);
            Regroups(paragraphs, front + [longer], done + [piece], count)
  {
    hide Squash, Bytes, Upto, Located, Content;
    var longer := Piece(last.text + ['\n'] + piece.text, last.first, piece.last);
    ContentSnoc(done, piece);
    ExtendText(front, last, longer, piece.text);
    assert (done + [piece])[|done|] == piece && (done + [piece])[|done| - 1] == done[|done| - 1];
    ExtendShape(front, last, longer, count);
    ExtendLocated(paragraphs, front, last, done, piece, longer);
  }

  lemma ExtendLocated(paragraphs: seq<string>, front: seq<Piece>, last: Piece, done: seq<Piece>, piece: Piece,
                      longer: Piece)
    requires Located(paragraphs, front + [last]) && Located(paragraphs, done + [piece])
    requires Content(front + [last]) == Content(done) && Content(front + [longer]) == Content(done + [piece])
    requires longer.first == last.first && longer.last == piece.last
    ensures Located(paragraphs, front + [longer])
  {
    hide Located, Content, Squash, Upto;
    LocatedSnoc(paragraphs, front, last);
    LocatedSnoc(paragraphs, done, piece);
    LocatedSnoc(paragraphs, front, longer);
    ContentSnoc(front, longer);
    ContentSnoc(done, piece);
  }

  /** The variables of the grouping loop. */
  datatype Builder = Builder(grouped: seq<Piece>, current: seq<string>, length: nat, start: nat, end: nat) {
    function Open(): Piece {
      Piece(Join(current, '\n'), start, end)
    }

    function Chunks(): seq<Piece> {
      if current == [] then grouped else grouped + [Open()]
    }
  }

  /** The groups so far are closed and the open pieces are the current chunk, counted as the code does. */
  ghost predicate Grouping(b: Builder, groups: seq<seq<Piece>>, open: seq<Piece>, done: seq<Piece>) {
    && b.current == TextsOf(open)
    && if open == [] then groups == [] && b.grouped == [] && done == [] && b.length == 0
       else
         && Groups(groups + [open], done, b.grouped + [b.Open()])
         && b.length == Counted(open, |groups|)
  }

  ghost predicate Building(paragraphs: seq<string>, b: Builder, groups: seq<seq<Piece>>, open: seq<Piece>,
                           done: seq<Piece>, count: nat)
  {
    Regroups(paragraphs, b.Chunks(), done, count) && Grouping(b, groups, open, done)
  }

  /** Closing the open group and starting the next one. */
  lemma CloseGroup(b: Builder, groups: seq<seq<Piece>>, open: seq<Piece>, done: seq<Piece>, piece: Piece)
    requires Grouping(b, groups, open, done) && (open != [] ==> Full(open, |groups|, piece))
    ensures var closed := if open == [] then [] else groups + [open];
            var length := |piece.text| + if open == [] then 0 else 1;
            var b' := Builder(b.Chunks(), [piece.text], length, piece.first, piece.last);
            Grouping(b', closed, [piece], done + [piece])
  {
    var closed := if open == [] then [] else groups + [open];
    TextsSnoc([], piece);
    assert [] + [piece] == [piece];
    assert TextsOf([piece]) == [piece.text] && ChunkOf([piece]) == piece;
    GroupsClosed(closed, done, b.Chunks(), piece);
  }

  /** A further group of one piece. */
  lemma GroupsClosed(groups: seq<seq<Piece>>, done: seq<Piece>, chunks: seq<Piece>, piece: Piece)
    requires Groups(groups, done, chunks)
    requires groups != [] ==> Full(groups[|groups| - 1], |groups| - 1, piece)
    ensures Groups(groups + [[piece]], done + [piece], chunks + [ChunkOf([piece])])
  {
    FlattenSnoc(groups, [piece]);
    var after := groups + [[piece]];
    assert forall i | 0 <= i < |groups| :: after[i] == groups[i];
    forall i | 0 < i < |after| ensures Full(after[i - 1], i - 1, after[i][0]) {
      if i < |groups| {
        assert Full(groups[i - 1], i - 1, groups[i][0]);
      }
    }
  }

  /** One piece more in the open group. */
  lemma GrowGroup(b: Builder, groups: seq<seq<Piece>>, open: seq<Piece>, done: seq<Piece>, piece: Piece)
    requires Grouping(b, groups, open, done) && open != [] && !Full(open, |groups|, piece)
    ensures var b' := Builder(b.grouped, b.current + [piece.text], b.length + |piece.text| + 1, b.start, piece.last);
            Grouping(b', groups, open + [piece], done + [piece])
  {
    var before, after := groups + [open], groups + [open + [piece]];
    TextsSnoc(open, piece);
    FlattenSnoc(groups, open);
    FlattenSnoc(groups, open + [piece]);
    assert done + [piece] == Flatten(groups) + (open + [piece]);
    assert forall i | 0 <= i < |groups| :: after[i] == before[i];
    assert (b.grouped + [b.Open()])[|groups|] == ChunkOf(before[|groups|]);
    forall i | 0 < i < |after| ensures Full(after[i - 1], i - 1, after[i][0]) {
      assert Full(before[i - 1], i - 1, before[i][0]);
    }
    forall i | 0 <= i < |groups| ensures b.grouped[i] == ChunkOf(after[i]) {
      assert (b.grouped + [b.Open()])[i] == ChunkOf(before[i]);
    }
  }

  /** One turn of the grouping loop. */
  method AddPiece(ghost paragraphs: seq<string>, b: Builder, ghost groups: seq<seq<Piece>>, ghost open: seq<Piece>,
                  piece: Piece, ghost done: seq<Piece>, count: nat)
    returns (b': Builder, ghost groups': seq<seq<Piece>>, ghost open': seq<Piece>)
    requires Building(paragraphs, b, groups, open, done, count) && WellFormed(done + [piece], count)
    requires Located(paragraphs, done + [piece])
    ensures Building(paragraphs, b', groups', open', done + [piece], count)
  {
    hide WellFormed, Located, Regroups, Grouping, Groups, Greedy, Content;
    var grouped, current, length, start := b.grouped, b.current, b.length, b.start;
    var joined := Join(current, '\n');
    var addition := |piece.text| + if current != [] then 1 else 0;
    GroupingTells(b, groups, open, done);
    if current != [] && (length + addition > TARGET_CHARACTERS || Bytes(joined + ['\n'] + piece.text) > MAX_BYTES) {
      grouped := grouped + [Piece(joined, start, b.end)];
      current, length := [], 0;
    }
    groups', open' := groups, open + [piece];
    if current == [] {
      StartChunk(paragraphs, b.Chunks(), done, piece, count);
      CloseGroup(b, groups, open, done, piece);
      groups', open' := if open == [] then [] else groups + [open], [piece];
      start := piece.first;
      assert current + [piece.text] == [piece.text] && Join([piece.text], '\n') == piece.text;
      assert grouped == b.Chunks();
    } else {
      GrowGroup(b, groups, open, done, piece);
      FitsLonger(b, groups, open, done, piece);
      ExtendChunk(paragraphs, grouped, b.Open(), done, piece, count);
      JoinSnoc(current, piece.text, '\n');
      assert Join(current + [piece.text], '\n') == joined + ['\n'] + piece.text;
    }
    b' := Builder(grouped, current + [piece.text], length + addition, start, piece.last);
    assert Regroups(paragraphs, b'.Chunks(), done + [piece], count);
    assert Grouping(b', groups', open', done + [piece]);
  }

  lemma GroupingTells(b: Builder, groups: seq<seq<Piece>>, open: seq<Piece>, done: seq<Piece>)
    requires Grouping(b, groups, open, done)
    ensures b.current == TextsOf(open) && (open == [] <==> b.current == []) && (open == [] ==> b.length == 0)
    ensures open != [] ==> b.length == Counted(open, |groups|)
  {
  }

  lemma FitsLonger(b: Builder, groups: seq<seq<Piece>>, open: seq<Piece>, done: seq<Piece>, piece: Piece)
    requires Grouping(b, groups, open, done) && open != [] && !Full(open, |groups|, piece)
    ensures Fits(b.Open().text + ['\n'] + piece.text)
  {
  }

  lemma WellFormedPrefix(pieces: seq<Piece>, n: nat, count: nat)
    requires WellFormed(pieces, count) && n < |pieces|
    ensures pieces[..n] + [pieces[n]] == pieces[..n + 1] && WellFormed(pieces[..n + 1], count)
  {
    PrefixSnoc(pieces, n);
  }

  lemma {:induction false} LocatedPrefix(paragraphs: seq<string>, pieces: seq<Piece>, n: nat)
    requires Located(paragraphs, pieces) && n <= |pieces|
    ensures Located(paragraphs, pieces[..n])
    decreases |pieces|
  {
    if n < |pieces| {
      LocatedPrefix(paragraphs, pieces[..|pieces| - 1], n);
      assert pieces[..|pieces| - 1][..n] == pieces[..n];
    } else {
      assert pieces[..n] == pieces;
    }
  }

  /** The second loop of `_chunk_text`: greedy grouping with a running length. */
  method Group(ghost paragraphs: seq<string>, pieces: seq<Piece>, count: nat)
    returns (grouped: seq<Piece>, ghost groups: seq<seq<Piece>>)
    requires WellFormed(pieces, count) && Located(paragraphs, pieces)
    ensures Regroups(paragraphs, grouped, pieces, count) && Groups(groups, pieces, grouped)
  {
    hide WellFormed, Located, Regroups, Groups;
    var b := Builder([], [], 0, 0, 0);
    var i := 0;
    ghost var open := [];
    groups := [];
    NothingGrouped(paragraphs, count);
    while i < |pieces|
      invariant 0 <= i <= |pieces|
      invariant Building(paragraphs, b, groups, open, pieces[..i], count)
    {
      WellFormedPrefix(pieces, i, count);
      LocatedPrefix(paragraphs, pieces, i + 1);
      b, groups, open := AddPiece(paragraphs, b, groups, open, pieces[i], pieces[..i], count);
      i := i + 1;
    }
    assert pieces[..i] == pieces;
    grouped := b.grouped;
    if b.current != [] {
      grouped, groups := grouped + [b.Open()], groups + [open];
    }
  }

  lemma NothingGrouped(paragraphs: seq<string>, count: nat)
    ensures Building(paragraphs, Builder([], [], 0, 0, 0), [], [], [], count) && Groups([], [], [])
  {
  }

  /** A numbered chunk; its stable id is derived from the ordinal. */
  datatype ResourceChunk = ResourceChunk(piece: Piece, ordinal: nat)

  function PiecesOf(chunks: seq<ResourceChunk>): seq<Piece> {
    seq(|chunks|, i requires 0 <= i < |chunks| => chunks[i].piece)
  }

  method Number(grouped: seq<Piece>, startingOrdinal: nat) returns (chunks: seq<ResourceChunk>)
    ensures PiecesOf(chunks) == grouped
    ensures forall i | 0 <= i < |chunks| :: chunks[i].ordinal == startingOrdinal + i + 1
  {
    chunks := [];
    for i := 0 to |grouped|
      invariant |chunks| == i
      invariant forall j | 0 <= j < i :: chunks[j] == ResourceChunk(grouped[j], startingOrdinal + j + 1)
    {
      chunks := chunks + [ResourceChunk(grouped[i], startingOrdinal + i + 1)];
    }
    assert PiecesOf(chunks) == grouped;
  }

  /**
    `_chunk_text`, for every text: its paragraphs are cut into pieces, and the pieces grouped into
    chunks, in the only way that fills every chunk.
   */
  method ChunkText(text: string, startingOrdinal: nat)
    returns (chunks: seq<ResourceChunk>, ghost groups: seq<seq<Piece>>)
    ensures forall i | 0 <= i < |chunks| :: chunks[i].ordinal == startingOrdinal + i + 1
    ensures WellFormed(PiecesOf(chunks), |Paragraphs(SplitNewlines(text))|)
    ensures Located(Paragraphs(SplitNewlines(text)), PiecesOf(chunks))
    ensures Content(PiecesOf(chunks)) == Squash(text)
    ensures var paragraphs := Paragraphs(SplitNewlines(text));
            Groups(groups, Cuts(paragraphs, |paragraphs|), PiecesOf(chunks))
  {
    hide *;
    var paragraphs := Paragraphs(SplitNewlines(text));
    ParagraphsOf(text);
    var pieces := CutParagraphs(paragraphs);
    var grouped;
    grouped, groups := Group(paragraphs, pieces, |paragraphs|);
    RegroupsTells(paragraphs, grouped, pieces, |paragraphs|);
    chunks := Number(grouped, startingOrdinal);
  }

  lemma RegroupsTells(paragraphs: seq<string>, chunks: seq<Piece>, done: seq<Piece>, count: nat)
    requires Regroups(paragraphs, chunks, done, count)
    ensures WellFormed(chunks, count) && Located(paragraphs, chunks) && Content(chunks) == Content(done)
  {
  }

  lemma ParagraphsOf(text: string)
    ensures var paragraphs := Paragraphs(SplitNewlines(text));
            && Squash(Flatten(paragraphs)) == Squash(text)
            && forall i | 0 <= i < |paragraphs| :: paragraphs[i] != [] && Trimmed(paragraphs[i])
  {
    SplitNewlinesSquash(text);
    ParagraphsSquash(SplitNewlines(text));
    var paragraphs := Paragraphs(SplitNewlines(text));
    assert forall i | 0 <= i < |paragraphs| :: paragraphs[i] in paragraphs;
  }
}
