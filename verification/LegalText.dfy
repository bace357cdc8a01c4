/** Normalising legal text and removing repeated state-law headings (app/ingestion/legal_text.py). */
module LegalText {
  import opened Common
  import opened Whitespace

  // ----- normalize_text

  /** `str.splitlines`: a carriage return and a line feed are one break. */
  function SplitLines(s: string): seq<string> {
    if s == [] then []
    else
      var i := FirstAt(s, IsLineBreak);
      if i == |s| then [s] else [s[..i]] + SplitLines(AfterBreak(s, i))
  }

  /** What follows the line break at `i`. */
  function AfterBreak(s: string, i: nat): string
    requires i < |s|
  {
    if s[i] == '\r' && i + 1 < |s| && s[i + 1] == '\n' then s[i + 2..] else s[i + 1..]
  }

  lemma AfterBreakSquash(s: string, i: nat)
    requires i < |s| && IsLineBreak(s[i])
    ensures Squash(s) == Squash(s[..i]) + Squash(AfterBreak(s, i))
  {
    var rest := s[i + 1..];
    assert s == s[..i] + [s[i]] + rest;
    SquashAround(s[..i], s[i], rest);
    if s[i] == '\r' && rest != [] && rest[0] == '\n' {
      SquashTail(rest);
      assert rest[1..] == s[i + 2..];
    }
  }

  lemma SquashTail(s: string)
    requires s != [] && IsSpace(s[0])
    ensures Squash(s) == Squash(s[1..])
  {
  }

  /** `re.sub(r"\s+", " ", line)`: every run of whitespace becomes one space. */
  function Collapse(s: string): string {
    if s == [] then []
    else if !IsSpace(s[0]) then [s[0]] + Collapse(s[1..])
    else if |s| > 1 && IsSpace(s[1]) then Collapse(s[1..])
    else [' '] + Collapse(s[1..])
  }

  function CleanLine(line: string): string {
    Strip(Collapse(line))
  }

  function CleanLines(lines: seq<string>): seq<string> {
    if lines == [] then []
    else (if CleanLine(lines[0]) == [] then [] else [CleanLine(lines[0])]) + CleanLines(lines[1..])
  }

  function NormalizeText(raw: string): string {
    Join(CleanLines(SplitLines(raw)), '\n')
  }

  /** The only whitespace is single spaces. */
  ghost predicate Collapsed(s: string) {
    && (forall i | 0 <= i < |s| && IsSpace(s[i]) :: s[i] == ' ')
    && (forall i | 0 < i < |s| :: !(IsSpace(s[i - 1]) && IsSpace(s[i])))
  }

  /** A line that normalising leaves alone. */
  ghost predicate Clean(line: string) {
    line != [] && Collapsed(line) && Trimmed(line)
  }

  lemma {:induction false} CollapseLemma(s: string)
    ensures Collapsed(Collapse(s)) && Squash(Collapse(s)) == Squash(s)
    ensures Collapse(s) != [] ==> (IsSpace(Collapse(s)[0]) <==> IsSpace(s[0]))
  {
    if s != [] {
      CollapseLemma(s[1..]);
      var rest := Collapse(s[1..]);
      if !IsSpace(s[0]) {
        assert Squash([s[0]] + rest) == [s[0]] + Squash(rest);
      } else if |s| <= 1 || !IsSpace(s[1]) {
        assert Squash([' '] + rest) == Squash(rest);
      }
    }
  }

  lemma {:induction false} CollapseClean(s: string)
    requires Collapsed(s)
    ensures Collapse(s) == s
  {
    if s != [] {
      assert Collapsed(s[1..]) by {
        assert forall i | 0 <= i < |s| - 1 :: s[1..][i] == s[i + 1];
      }
      CollapseClean(s[1..]);
      assert s == [s[0]] + s[1..];
      assert |s| > 1 ==> !(IsSpace(s[1 - 1]) && IsSpace(s[1]));
    }
  }

  lemma CleanLineLemma(line: string)
    ensures CleanLine(line) != [] ==> Clean(CleanLine(line))
    ensures Squash(CleanLine(line)) == Squash(line)
  {
    CollapseLemma(line);
    var from := StripLemma(Collapse(line));
    var cleaned := CleanLine(line);
    assert forall i | 0 <= i < |cleaned| :: cleaned[i] == Collapse(line)[from + i];
  }

  lemma CleanLineKept(line: string)
    requires Clean(line)
    ensures CleanLine(line) == line
  {
    CollapseClean(line);
    StripTrimmed(line);
  }

  lemma {:induction false} CleanLinesLemma(lines: seq<string>)
    ensures forall l | l in CleanLines(lines) :: Clean(l)
    ensures Squash(Flatten(CleanLines(lines))) == Squash(Flatten(lines))
  {
    if lines != [] {
      CleanLinesLemma(lines[1..]);
      CleanLineLemma(lines[0]);
      SquashAppend(lines[0], Flatten(lines[1..]));
      if CleanLine(lines[0]) != [] {
        FlattenCons(CleanLine(lines[0]), CleanLines(lines[1..]));
        SquashAppend(CleanLine(lines[0]), Flatten(CleanLines(lines[1..])));
      } else {
        assert CleanLines(lines) == CleanLines(lines[1..]);
      }
    }
  }

  lemma {:induction false} CleanLinesKept(lines: seq<string>)
    requires forall i | 0 <= i < |lines| :: Clean(lines[i])
    ensures CleanLines(lines) == lines
  {
    if lines != [] {
      CleanLineKept(lines[0]);
      CleanLinesKept(lines[1..]);
    }
  }

  lemma {:induction false} FirstBreak(line: string, rest: string)
    requires forall i | 0 <= i < |line| :: !IsLineBreak(line[i])
    requires rest == [] || IsLineBreak(rest[0])
    ensures FirstAt(line + rest, IsLineBreak) == |line|
  {
    if line == [] {
      assert line + rest == rest;
    } else {
      assert (line + rest)[1..] == line[1..] + rest;
      FirstBreak(line[1..], rest);
    }
  }

  /** Splitting undoes joining when no line is empty or contains a break. */
  lemma {:induction false} SplitJoined(lines: seq<string>)
    requires forall i | 0 <= i < |lines| :: Clean(lines[i])
    ensures SplitLines(Join(lines, '\n')) == lines
  {
    if lines != [] {
      var line := lines[0];
      assert Clean(line);
      assert forall i | 0 <= i < |line| :: line[i] == ' ' || !IsSpace(line[i]);
      if |lines| == 1 {
        FirstBreak(line, []);
        assert line + [] == line;
      } else {
        var rest := Join(lines[1..], '\n');
        SplitJoined(lines[1..]);
        FirstBreak(line, ['\n'] + rest);
        assert Join(lines, '\n') == line + (['\n'] + rest);
        var joined := Join(lines, '\n');
        assert joined[..|line|] == line && joined[|line| + 1..] == rest;
      }
    }
  }

  lemma {:induction false} SplitLinesSquash(s: string)
    ensures Squash(Flatten(SplitLines(s))) == Squash(s)
    decreases |s|
  {
    var i := FirstAt(s, IsLineBreak);
    if s != [] && i == |s| {
      FlattenOne(s);
    } else if s != [] {
      var rest := AfterBreak(s, i);
      SplitLinesSquash(rest);
      FlattenCons(s[..i], SplitLines(rest));
      SquashAppend(s[..i], Flatten(SplitLines(rest)));
      AfterBreakSquash(s, i);
    }
  }

  /** The words of a text, as `str.split` finds them. */
  function Words(s: string): seq<string> {
    if s == [] then []
    else if IsSpace(s[0]) then Words(s[1..])
    else
      var i := FirstAt(s, IsSpace);
      [s[..i]] + Words(s[i..])
  }

  lemma {:induction false} CollapseWord(word: string, rest: string)
    requires forall i | 0 <= i < |word| :: !IsSpace(word[i])
    ensures Collapse(word + rest) == word + Collapse(rest)
  {
    if word == [] {
      assert word + rest == rest;
    } else {
      assert (word + rest)[1..] == word[1..] + rest;
      CollapseWord(word[1..], rest);
    }
  }

  /** What follows a word: nothing, or one space and the rest from the next word on. */
  lemma {:induction false} CollapseGap(s: string)
    requires s == [] || IsSpace(s[0])
    ensures var rest := StripLeft(s);
            && Words(s) == Words(rest) && (rest == [] || !IsSpace(rest[0])) && |rest| <= |s|
            && Collapse(s) == if rest != [] then [' '] + Collapse(rest) else if s == [] then [] else [' ']
  {
    if s != [] && |s| > 1 && IsSpace(s[1]) {
      CollapseGap(s[1..]);
    }
  }

  lemma {:induction false} StripRightAfter(front: string, back: string)
    requires StripRight(back) != []
    ensures StripRight(front + back) == front + StripRight(back)
  {
    var whole, last := front + back, |back| - 1;
    assert whole[|whole| - 1] == back[last];
    if IsSpace(back[last]) {
      assert whole[..|whole| - 1] == front + back[..last];
      StripRightAfter(front, back[..last]);
    }
  }

  lemma FirstWord(s: string) returns (word: string, rest: string)
    requires s != [] && !IsSpace(s[0])
    ensures s == word + rest && word != [] && |rest| < |s| && (rest == [] || IsSpace(rest[0]))
    ensures forall i | 0 <= i < |word| :: !IsSpace(word[i])
    ensures Words(s) == [word] + Words(rest)
  {
    var i := FirstAt(s, IsSpace);
    word, rest := s[..i], s[i..];
  }

  lemma StripRightWord(word: string)
    requires word != [] && forall i | 0 <= i < |word| :: !IsSpace(word[i])
    ensures StripRight(word) == word && StripRight(word + [' ']) == word
  {
    assert (word + [' '])[..|word|] == word;
  }

  lemma JoinFirst(word: string, more: seq<string>)
    ensures Join([word] + more, ' ') == if more == [] then word else word + [' '] + Join(more, ' ')
  {
    if more == [] {
      assert [word] + more == [word];
    } else {
      assert ([word] + more)[1..] == more;
    }
  }

  /** From its first word on, a line is cleaned to its words with one space between them. */
  lemma {:induction false} CleanWords(s: string)
    requires s != [] && !IsSpace(s[0])
    ensures StripRight(Collapse(s)) == Join(Words(s), ' ') != [] && Words(s) != []
    decreases |s|
  {
    hide Collapse, Words, StripRight, StripLeft, Join;
    var word, rest := FirstWord(s);
    CollapseWord(word, rest);
    CollapseGap(rest);
    JoinFirst(word, Words(rest));
    var next := StripLeft(rest);
    if next == [] {
      NoWords();
      StripRightWord(word);
      assert word + [] == word;
    } else {
      CleanWords(next);
      StripRightAfter(word + [' '], Collapse(next));
      assert word + ([' '] + Collapse(next)) == word + [' '] + Collapse(next);
    }
  }

  lemma NoWords()
    ensures Words([]) == []
  {
  }

  /** A cleaned line is its words with one space between them. */
  lemma CleanLineJoinsWords(line: string)
    ensures CleanLine(line) == Join(Words(line), ' ')
    ensures CleanLine(line) == [] <==> Words(line) == []
  {
    if line == [] || IsSpace(line[0]) {
      CollapseGap(line);
      var rest := StripLeft(line);
      if rest != [] {
        CleanWords(rest);
        CollapseWord(rest[..1], rest[1..]);
        assert rest[..1] + rest[1..] == rest;
        assert StripLeft([' '] + Collapse(rest)) == Collapse(rest);
      }
    } else {
      CleanWords(line);
      CollapseWord(line[..1], line[1..]);
      assert line[..1] + line[1..] == line;
    }
  }

  /** `normalize_text` keeps the words of every line that has any, on a line of their own, a space apart. */
  lemma NormalizeKeepsLines(raw: string)
    ensures SplitLines(NormalizeText(raw)) == WordLines(SplitLines(raw))
    ensures NormalizeText(raw) == Join(WordLines(SplitLines(raw)), '\n')
  {
    var lines := CleanLines(SplitLines(raw));
    CleanLinesLemma(SplitLines(raw));
    assert forall i | 0 <= i < |lines| :: lines[i] in lines;
    SplitJoined(lines);
    CleanLinesJoinWords(SplitLines(raw));
  }

  /** The lines that have words, each as its words with one space between them. */
  function WordLines(lines: seq<string>): seq<string> {
    if lines == [] then []
    else (if Words(lines[0]) == [] then [] else [Join(Words(lines[0]), ' ')]) + WordLines(lines[1..])
  }

  lemma {:induction false} CleanLinesJoinWords(lines: seq<string>)
    ensures CleanLines(lines) == WordLines(lines)
  {
    if lines != [] {
      CleanLineJoinsWords(lines[0]);
      CleanLinesJoinWords(lines[1..]);
    }
  }

  /** A text is its lines with a break after each, except perhaps the last. */
  function Rejoined(lines: seq<string>, breaks: seq<string>): string {
    if lines == [] then []
    else if breaks == [] then lines[0] + Rejoined(lines[1..], [])
    else lines[0] + breaks[0] + Rejoined(lines[1..], breaks[1..])
  }

  ghost predicate IsBreak(s: string) {
    s == ['\r', '\n'] || (|s| == 1 && IsLineBreak(s[0]))
  }

  /** Splitting removes the breaks and nothing else, and no line holds one. */
  lemma {:induction false} SplitLinesRejoins(s: string) returns (breaks: seq<string>)
    ensures Rejoined(SplitLines(s), breaks) == s
    ensures |SplitLines(s)| - 1 <= |breaks| <= |SplitLines(s)| && forall b | b in breaks :: IsBreak(b)
    ensures forall line | line in SplitLines(s) :: NoBreak(line)
    ensures WholeBreaks(SplitLines(s), breaks)
    decreases |s|
  {
    var i := FirstAt(s, IsLineBreak);
    breaks := [];
    if i < |s| {
      var rest := AfterBreak(s, i);
      var more := SplitLinesRejoins(rest);
      breaks := [s[i..|s| - |rest|]] + more;
      RejoinsFirst(s, i, SplitLines(rest), more);
      WholeFirst(s, i, SplitLines(rest), more);
    } else if s != [] {
      assert SplitLines(s) == [s];
    }
  }

  ghost predicate NoBreak(line: string) {
    forall i | 0 <= i < |line| :: !IsLineBreak(line[i])
  }

  /** A carriage return and the line feed behind it are never two breaks. */
  ghost predicate WholeBreaks(lines: seq<string>, breaks: seq<string>) {
    forall i | 0 <= i < |breaks| - 1 && i < |lines| - 1 :: !SplitsPair(breaks[i], lines[i + 1], breaks[i + 1])
  }

  ghost predicate SplitsPair(first: string, line: string, second: string) {
    first == ['\r'] && line == [] && second != [] && second[0] == '\n'
  }

  lemma WholeFirst(s: string, i: nat, lines: seq<string>, more: seq<string>)
    requires i < |s| && IsLineBreak(s[i]) && Rejoined(lines, more) == AfterBreak(s, i) && WholeBreaks(lines, more)
    ensures WholeBreaks([s[..i]] + lines, [s[i..|s| - |AfterBreak(s, i)|]] + more)
  {
    var rest := AfterBreak(s, i);
    var taken := s[i..|s| - |rest|];
    var all, breaks := [s[..i]] + lines, [taken] + more;
    assert forall j | 0 < j < |all| :: all[j] == lines[j - 1];
    assert forall j | 0 < j < |breaks| :: breaks[j] == more[j - 1];
    forall j | 0 <= j < |breaks| - 1 && j < |all| - 1 ensures !SplitsPair(breaks[j], all[j + 1], breaks[j + 1]) {
      if j == 0 && taken == ['\r'] && lines[0] == [] && more[0] != [] {
        assert rest[0] == more[0][0] && rest[0] == s[i + 1];
      } else if j > 0 {
        assert !SplitsPair(more[j - 1], lines[j], more[j]);
      }
    }
  }

  lemma RejoinsFirst(s: string, i: nat, lines: seq<string>, more: seq<string>)
    requires i < |s| && IsLineBreak(s[i]) && Rejoined(lines, more) == AfterBreak(s, i)
    ensures var taken := s[i..|s| - |AfterBreak(s, i)|];
            IsBreak(taken) && Rejoined([s[..i]] + lines, [taken] + more) == s
  {
    var rest := AfterBreak(s, i);
    var taken := s[i..|s| - |rest|];
    assert s[|s| - |rest|..] == rest;
    assert s == s[..i] + taken + rest;
    assert ([s[..i]] + lines)[1..] == lines && ([taken] + more)[1..] == more;
  }

  /** `normalize_text` changes whitespace only, and doing it twice is doing it once. */
  lemma NormalizeIdempotent(raw: string)
    ensures NormalizeText(NormalizeText(raw)) == NormalizeText(raw)
    ensures Squash(NormalizeText(raw)) == Squash(raw)
  {
    var lines := CleanLines(SplitLines(raw));
    SplitLinesSquash(raw);
    CleanLinesLemma(SplitLines(raw));
    SquashJoin(lines, '\n');
    assert forall i | 0 <= i < |lines| :: lines[i] in lines;
    SplitJoined(lines);
    CleanLinesKept(lines);
  }

  // ----- _deduplicate_state_law_sections

  datatype Section = Section(key: string, citation: Option<string>, title: string, text: string, order: nat)

  /** Fewer contents-style lines, then more lead punctuation, then more text. */
  datatype Quality = Quality(contentsLines: nat, leadPoints: nat, length: nat)

  predicate Better(a: Quality, b: Quality) {
    || a.contentsLines < b.contentsLines
    || (a.contentsLines == b.contentsLines &&
        (a.leadPoints > b.leadPoints || (a.leadPoints == b.leadPoints && a.length > b.length)))
  }

  function CountLines(lines: seq<string>, isContents: string -> bool): nat {
    if lines == [] then 0 else (if isContents(lines[0]) then 1 else 0) + CountLines(lines[1..], isContents)
  }

  function CountPoints(line: string): nat {
    if line == [] then 0 else (if line[0] == '.' then 1 else 0) + CountPoints(line[1..])
  }

  /** `isContents` stands for the contents-line pattern. */
  function QualityOf(section: Section, isContents: string -> bool): Quality {
    var lines := SplitLines(section.text);
    Quality(if lines == [] then 0 else CountLines(lines[1..], isContents),
            if lines == [] then 0 else CountPoints(lines[0]),
            |section.text|)
  }

  /** `key` occurs among the first `n` sections. */
  ghost predicate Appears(sections: seq<Section>, n: nat, key: string) {
    exists i :: 0 <= i < n && i < |sections| && sections[i].key == key
  }

  /** The positions below `n` at which a key appears for the first time, in order. */
  ghost function FirstPositions(sections: seq<Section>, n: nat): (positions: seq<nat>)
    requires n <= |sections|
    ensures forall k | 0 <= k < |positions| :: positions[k] < n
  {
    if n == 0 then []
    else
      var front := FirstPositions(sections, n - 1);
      if Appears(sections, n - 1, sections[n - 1].key) then front else front + [n - 1]
  }

  lemma {:induction false} PositionIsFirst(sections: seq<Section>, n: nat, k: nat)
    requires n <= |sections| && k < |FirstPositions(sections, n)|
    ensures var p := FirstPositions(sections, n)[k]; p < n && !Appears(sections, p, sections[p].key)
    ensures forall j | 0 <= j < k :: FirstPositions(sections, n)[j] < FirstPositions(sections, n)[k]
  {
    var front := FirstPositions(sections, n - 1);
    if k < |front| {
      PositionIsFirst(sections, n - 1, k);
      assert forall j | 0 <= j <= k :: FirstPositions(sections, n)[j] == front[j];
    } else {
      assert FirstPositions(sections, n) == front + [n - 1];
    }
  }

  lemma {:induction false} FirstIsPosition(sections: seq<Section>, n: nat, p: nat)
    requires p < n <= |sections| && !Appears(sections, p, sections[p].key)
    ensures p in FirstPositions(sections, n)
  {
    if p < n - 1 {
      FirstIsPosition(sections, n - 1, p);
    }
  }

  /** `a` is no worse: no more contents-style lines; with as many no fewer lead points; and then no shorter. */
  ghost predicate AtLeast(a: Quality, b: Quality) {
    && a.contentsLines <= b.contentsLines
    && (a.contentsLines == b.contentsLines ==> a.leadPoints >= b.leadPoints)
    && (a.contentsLines == b.contentsLines && a.leadPoints == b.leadPoints ==> a.length >= b.length)
  }

  /** Among the first `n` sections, the one at `i` is the earliest of greatest quality with its key. */
  ghost predicate IsBest(sections: seq<Section>, n: nat, i: int, quality: Section -> Quality) {
    && 0 <= i < n <= |sections|
    && (forall j | 0 <= j < n && sections[j].key == sections[i].key ::
          AtLeast(quality(sections[i]), quality(sections[j])))
    && (forall j | 0 <= j < i && sections[j].key == sections[i].key :: quality(sections[j]) != quality(sections[i]))
  }

  /** What the quality of a section counts: contents-style lines after the first, and points in the first. */
  lemma QualityCounts(section: Section, isContents: string -> bool)
    ensures var lines, q := SplitLines(section.text), QualityOf(section, isContents);
            && q.length == |section.text|
            && if lines == [] then q.contentsLines == 0 == q.leadPoints
               else
                 var first, rest := lines[0], lines[1..];
                 && q.contentsLines == |set i | 0 <= i < |rest| && isContents(rest[i])|
                 && q.leadPoints == |set i | 0 <= i < |first| && first[i] == '.'|
  {
    var lines := SplitLines(section.text);
    if lines != [] {
      var first, rest := lines[0], lines[1..];
      LinesCounted(rest, isContents, |rest|);
      PointsCounted(first, |first|);
      assert rest[..|rest|] == rest && first[..|first|] == first;
    }
  }

  lemma {:induction false} CountLinesSnoc(lines: seq<string>, last: string, isContents: string -> bool)
    ensures CountLines(lines + [last], isContents) == CountLines(lines, isContents) + if isContents(last) then 1 else 0
  {
    if lines == [] {
      assert [] + [last] == [last];
      assert CountLines([last], isContents) == (if isContents(last) then 1 else 0) + CountLines([], isContents);
    } else {
      assert (lines + [last])[1..] == lines[1..] + [last];
      CountLinesSnoc(lines[1..], last, isContents);
    }
  }

  lemma {:induction false} LinesCounted(lines: seq<string>, isContents: string -> bool, n: nat)
    requires n <= |lines|
    ensures CountLines(lines[..n], isContents) == |set i | 0 <= i < n && isContents(lines[i])|
  {
    var counted := set i | 0 <= i < n && isContents(lines[i]);
    if n == 0 {
      assert counted == {};
    } else {
      LinesCounted(lines, isContents, n - 1);
      PrefixSnoc(lines, n - 1);
      CountLinesSnoc(lines[..n - 1], lines[n - 1], isContents);
      var front := set i | 0 <= i < n - 1 && isContents(lines[i]);
      assert counted == front + if isContents(lines[n - 1]) then {n - 1} else {};
    }
  }

  lemma {:induction false} CountPointsSnoc(line: string, last: char)
    ensures CountPoints(line + [last]) == CountPoints(line) + if last == '.' then 1 else 0
  {
    if line == [] {
      assert [] + [last] == [last];
      assert CountPoints([last]) == (if last == '.' then 1 else 0) + CountPoints([]);
    } else {
      assert (line + [last])[1..] == line[1..] + [last];
      CountPointsSnoc(line[1..], last);
    }
  }

  lemma {:induction false} PointsCounted(line: string, n: nat)
    requires n <= |line|
    ensures CountPoints(line[..n]) == |set i | 0 <= i < n && line[i] == '.'|
  {
    var counted := set i | 0 <= i < n && line[i] == '.';
    if n == 0 {
      assert counted == {};
    } else {
      PointsCounted(line, n - 1);
      PrefixSnoc(line, n - 1);
      CountPointsSnoc(line[..n - 1], line[n - 1]);
      var front := set i | 0 <= i < n - 1 && line[i] == '.';
      assert counted == front + if line[n - 1] == '.' then {n - 1} else {};
    }
  }

  lemma BestIsUnique(sections: seq<Section>, i: nat, j: nat, quality: Section -> Quality)
    requires IsBest(sections, |sections|, i, quality) && IsBest(sections, |sections|, j, quality)
    requires sections[i].key == sections[j].key
    ensures i == j
  {
  }

  /** What the selection loop does with the next section keeps its choice the best one. */
  lemma BestAfter(sections: seq<Section>, n: nat, best: nat, quality: Section -> Quality)
    requires n < |sections| && IsBest(sections, n, best, quality)
    ensures var better := Better(quality(sections[n]), quality(sections[best]));
            var same := sections[n].key == sections[best].key;
            IsBest(sections, n + 1, if same && better then n else best, quality)
  {
  }

  /** The k-th result: the best section for the k-th key, renumbered. */
  ghost predicate Selects(sections: seq<Section>, first: nat, section: Section, k: nat, quality: Section -> Quality)
  {
    first < |sections| &&
    exists i :: IsBest(sections, |sections|, i, quality) && sections[i].key == sections[first].key
                && section == sections[i].(order := k)
  }

  ghost predicate AllSelected(sections: seq<Section>, positions: seq<nat>, result: seq<Section>,
                              quality: Section -> Quality)
  {
    && |result| == |positions|
    && forall k | 0 <= k < |result| :: Selects(sections, positions[k], result[k], k, quality)
  }

  /** One result per key, in order of first appearance. */
  ghost predicate Deduplicates(sections: seq<Section>, result: seq<Section>, quality: Section -> Quality) {
    AllSelected(sections, FirstPositions(sections, |sections|), result, quality)
  }

  lemma DeduplicatesUnique(sections: seq<Section>, a: seq<Section>, b: seq<Section>, quality: Section -> Quality)
    requires Deduplicates(sections, a, quality) && Deduplicates(sections, b, quality)
    ensures a == b
  {
    var positions := FirstPositions(sections, |sections|);
    forall k | 0 <= k < |a| ensures a[k] == b[k] {
      assert Selects(sections, positions[k], a[k], k, quality) && Selects(sections, positions[k], b[k], k, quality);
      var i :| IsBest(sections, |sections|, i, quality) && sections[i].key == sections[positions[k]].key
               && a[k] == sections[i].(order := k);
      var j :| IsBest(sections, |sections|, j, quality) && sections[j].key == sections[positions[k]].key
               && b[k] == sections[j].(order := k);
      BestIsUnique(sections, i, j, quality);
    }
  }

  ghost predicate DistinctKeys(sections: seq<Section>) {
    forall i, j | 0 <= i < j < |sections| :: sections[i].key != sections[j].key
  }

  ghost predicate HasKey(sections: seq<Section>, key: string) {
    Appears(sections, |sections|, key)
  }

  /** Results have different keys, the keys of the input, and consecutive order indexes. */
  lemma DeduplicatedKeys(sections: seq<Section>, result: seq<Section>, quality: Section -> Quality)
    requires Deduplicates(sections, result, quality)
    ensures DistinctKeys(result)
    ensures forall key :: HasKey(result, key) <==> HasKey(sections, key)
    ensures forall k | 0 <= k < |result| :: result[k].order == k
  {
    var positions := FirstPositions(sections, |sections|);
    forall k | 0 <= k < |result| ensures result[k].key == sections[positions[k]].key && result[k].order == k {
      assert Selects(sections, positions[k], result[k], k, quality);
    }
    forall i, j | 0 <= i < j < |result| ensures result[i].key != result[j].key {
      PositionIsFirst(sections, |sections|, j);
    }
    forall key | HasKey(sections, key) ensures HasKey(result, key) {
      var p := FirstWith(sections, |sections|, key);
      FirstIsPosition(sections, |sections|, p);
      var k :| 0 <= k < |positions| && positions[k] == p;
      assert result[k].key == key;
    }
  }

  lemma {:induction false} FirstWith(sections: seq<Section>, n: nat, key: string) returns (p: nat)
    requires n <= |sections| && Appears(sections, n, key)
    ensures p < n && sections[p].key == key && !Appears(sections, p, key)
  {
    if Appears(sections, n - 1, key) {
      p := FirstWith(sections, n - 1, key);
    } else {
      p := n - 1;
    }
  }

  lemma {:induction false} AllFirst(sections: seq<Section>, n: nat)
    requires DistinctKeys(sections) && n <= |sections|
    ensures |FirstPositions(sections, n)| == n
    ensures forall k | 0 <= k < n :: FirstPositions(sections, n)[k] == k
  {
    if n > 0 {
      AllFirst(sections, n - 1);
    }
  }

  /** Sections with different keys and consecutive order indexes are left alone. */
  lemma DistinctDeduplicate(sections: seq<Section>, quality: Section -> Quality)
    requires DistinctKeys(sections) && forall k | 0 <= k < |sections| :: sections[k].order == k
    ensures Deduplicates(sections, sections, quality)
  {
    AllFirst(sections, |sections|);
    forall k | 0 <= k < |sections| ensures Selects(sections, k, sections[k], k, quality) {
      assert IsBest(sections, |sections|, k, quality) && sections[k] == sections[k].(order := k);
    }
  }

  /** Deduplicating twice is deduplicating once. */
  lemma DeduplicateIdempotent(sections: seq<Section>, once: seq<Section>, twice: seq<Section>,
                              quality: Section -> Quality)
    requires Deduplicates(sections, once, quality) && Deduplicates(once, twice, quality)
    ensures twice == once
  {
    DeduplicatedKeys(sections, once, quality);
    DistinctDeduplicate(once, quality);
    DeduplicatesUnique(once, once, twice, quality);
  }

  /** What the two dictionaries hold under a key: its first position and the section selected so far. */
  datatype Slot = Slot(first: nat, selected: nat)

  type Slots = map<string, Slot>

  ghost predicate SlotOk(sections: seq<Section>, n: nat, key: string, slot: Slot, quality: Section -> Quality) {
    && slot.first < n <= |sections| && sections[slot.first].key == key && !Appears(sections, slot.first, key)
    && IsBest(sections, n, slot.selected, quality) && sections[slot.selected].key == key
  }

  ghost predicate SlotsOk(sections: seq<Section>, n: nat, slots: Slots, quality: Section -> Quality) {
    && (forall key | key in slots :: SlotOk(sections, n, key, slots[key], quality))
    && (forall key | Appears(sections, n, key) :: key in slots)
  }

  lemma SlotAfter(sections: seq<Section>, n: nat, key: string, slot: Slot, quality: Section -> Quality)
    requires n < |sections| && SlotOk(sections, n, key, slot, quality)
    ensures var better := Better(quality(sections[n]), quality(sections[slot.selected]));
            var selected := if sections[n].key == key && better then n else slot.selected;
            SlotOk(sections, n + 1, key, Slot(slot.first, selected), quality)
  {
    BestAfter(sections, n, slot.selected, quality);
  }

  lemma NewSlot(sections: seq<Section>, n: nat, quality: Section -> Quality)
    requires n < |sections| && !Appears(sections, n, sections[n].key)
    ensures SlotOk(sections, n + 1, sections[n].key, Slot(n, n), quality)
  {
  }

  /** One turn of the selection loop. */
  method ReadSection(sections: seq<Section>, n: nat, slots: Slots, quality: Section -> Quality) returns (slots': Slots)
    requires n < |sections| && SlotsOk(sections, n, slots, quality)
    ensures SlotsOk(sections, n + 1, slots', quality)
  {
    var key := sections[n].key;
    slots' := slots;
    forall other | other in slots && other != key ensures SlotOk(sections, n + 1, other, slots[other], quality) {
      SlotAfter(sections, n, other, slots[other], quality);
    }
    if key !in slots {
      NewSlot(sections, n, quality);
      slots' := slots[key := Slot(n, n)];
    } else {
      var slot := slots[key];
      SlotAfter(sections, n, key, slot, quality);
      if Better(quality(sections[n]), quality(sections[slot.selected])) {
        slots' := slots[key := Slot(slot.first, n)];
      }
    }
    assert forall other | Appears(sections, n + 1, other) :: other == key || Appears(sections, n, other);
  }

  /** The positions grow by one exactly when a key appears for the first time. */
  lemma PositionsAfter(sections: seq<Section>, p: nat, first: nat)
    requires p < |sections| && first < |sections|
    requires sections[first].key == sections[p].key && !Appears(sections, first, sections[p].key)
    ensures FirstPositions(sections, p + 1) == FirstPositions(sections, p) + if first == p then [p] else []
  {
  }

  /** The final sort by first position, with fresh order indexes. */
  method InOrderOfAppearance(sections: seq<Section>, slots: Slots, quality: Section -> Quality)
    returns (result: seq<Section>)
    requires SlotsOk(sections, |sections|, slots, quality)
    ensures Deduplicates(sections, result, quality)
  {
    hide Selects, SlotOk, IsBest;
    result := [];
    var p := 0;
    while p < |sections|
      invariant 0 <= p <= |sections|
      invariant AllSelected(sections, FirstPositions(sections, p), result, quality)
    {
      assert Appears(sections, |sections|, sections[p].key);
      var slot := slots[sections[p].key];
      result := AppendSelected(sections, p, slot, result, quality);
      p := p + 1;
    }
  }

  method AppendSelected(sections: seq<Section>, p: nat, slot: Slot, result: seq<Section>, quality: Section -> Quality)
    returns (longer: seq<Section>)
    requires p < |sections| && SlotOk(sections, |sections|, sections[p].key, slot, quality)
    requires AllSelected(sections, FirstPositions(sections, p), result, quality)
    ensures AllSelected(sections, FirstPositions(sections, p + 1), longer, quality)
  {
    PositionsAfter(sections, p, slot.first);
    longer := result;
    if slot.first == p {
      assert Selects(sections, p, sections[slot.selected].(order := |result|), |result|, quality);
      longer := result + [sections[slot.selected].(order := |result|)];
    }
  }

  function StateSectionQuality(isContents: string -> bool): Section -> Quality {
    section => QualityOf(section, isContents)
  }

  /** `_deduplicate_state_law_sections`. */
  method Deduplicate(sections: seq<Section>, isContents: string -> bool) returns (result: seq<Section>)
    ensures Deduplicates(sections, result, StateSectionQuality(isContents))
  {
    var quality := StateSectionQuality(isContents);
    var slots: Slots := map[];
    for n := 0 to |sections|
      invariant SlotsOk(sections, n, slots, quality)
    {
      slots := ReadSection(sections, n, slots, quality);
    }
    result := InOrderOfAppearance(sections, slots, quality);
  }
}
