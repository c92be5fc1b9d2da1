/**
 Greedy line filling (`wordWrap`, src/cli/ansi.ts).
 Characters stand for the string's code units.
 */
module WordWrap {
  import opened Text

  // ---------- Splitting at runs of whitespace ----------

  /** The first position from `i` on where whitespace starts (`space`) or ends (`!space`). */
  function Scan(s: string, i: nat, space: bool): (j: nat)
    requires i <= |s|
    ensures i <= j <= |s|
    ensures forall k :: i <= k < j ==> IsSpace(s[k]) != space
    ensures j < |s| ==> IsSpace(s[j]) == space
    decreases |s| - i
  {
    if i == |s| || IsSpace(s[i]) == space then i else Scan(s, i + 1, space)
  }

  /** `text.split(/\s+/)`: whitespace at either end leaves an empty word there. */
  function Split(text: string): seq<string>
    decreases |text|
  {
    var j := Scan(text, 0, true);
    if j == |text| then [text]
    else [text[..j]] + Split(text[Scan(text, j, false)..])
  }

  /** The words of a text: its maximal runs of characters that are not whitespace. */
  function Words(text: string): seq<string>
    decreases |text|
  {
    if text == "" then []
    else if IsSpace(text[0]) then Words(text[1..])
    else var j := Scan(text, 0, true); [text[..j]] + Words(text[j..])
  }

  predicate EndsInSpace(text: string) {
    text != "" && IsSpace(text[|text| - 1])
  }

  lemma {:induction false} WordsNotEmpty(text: string)
    ensures forall i :: 0 <= i < |Words(text)| ==> Words(text)[i] != ""
    decreases |text|
  {
    if text != "" {
      WordsNotEmpty(if IsSpace(text[0]) then text[1..] else text[Scan(text, 0, true)..]);
    }
  }

  lemma {:induction false} SkipSpace(text: string, k: nat)
    requires k <= |text| && forall i :: 0 <= i < k ==> IsSpace(text[i])
    ensures Words(text) == Words(text[k..])
  {
    if k == 0 {
      assert text[0..] == text;
    } else {
      SkipSpace(text[1..], k - 1);
      assert text[1..][k - 1..] == text[k..];
    }
  }

  /** The characters of a text that are not whitespace. */
  function Ink(text: string): string {
    if text == "" then "" else (if IsSpace(text[0]) then "" else [text[0]]) + Ink(text[1..])
  }

  function Concat(ws: seq<string>): string {
    if ws == [] then "" else ws[0] + Concat(ws[1..])
  }

  lemma {:induction false} InkOfWord(text: string, j: nat)
    requires j <= |text| && forall i :: 0 <= i < j ==> !IsSpace(text[i])
    ensures Ink(text) == text[..j] + Ink(text[j..])
  {
    hide IsSpace;
    if j == 0 {
      assert text[0..] == text;
    } else {
      InkOfWord(text[1..], j - 1);
      assert text[1..][j - 1..] == text[j..];
      assert [text[0]] + text[1..][..j - 1] == text[..j];
      Associate([text[0]], text[1..][..j - 1], Ink(text[j..]));
    }
  }

  /** The words hold every character that is not whitespace, once and in order, and no whitespace. */
  lemma {:induction false} WordsKeepInk(text: string)
    ensures Concat(Words(text)) == Ink(text)
    ensures forall i, k :: 0 <= i < |Words(text)| && 0 <= k < |Words(text)[i]| ==> !IsSpace(Words(text)[i][k])
    decreases |text|
  {
    hide IsSpace;
    if text != "" {
      if IsSpace(text[0]) {
        WordsKeepInk(text[1..]);
      } else {
        var j := Scan(text, 0, true);
        WordsKeepInk(text[j..]);
        InkOfWord(text, j);
        assert Words(text)[0] == text[..j] && Words(text)[1..] == Words(text[j..]);
      }
    }
  }

  /** The words with these gaps around and between them. */
  function Weave(gaps: seq<string>, ws: seq<string>): string
    requires |gaps| == |ws| + 1
  {
    if ws == [] then gaps[0] else gaps[0] + ws[0] + Weave(gaps[1..], ws[1..])
  }

  /** Only whitespace stands around and between the words, and between two words there is some. */
  ghost predicate AreGaps(gaps: seq<string>, ws: seq<string>) {
    && |gaps| == |ws| + 1
    && (forall i :: 0 <= i < |gaps| ==> forall k :: 0 <= k < |gaps[i]| ==> IsSpace(gaps[i][k]))
    && (forall i :: 0 < i < |ws| ==> gaps[i] != "")
  }

  lemma WeaveSpace(c: char, gaps: seq<string>, ws: seq<string>)
    requires AreGaps(gaps, ws) && IsSpace(c)
    ensures AreGaps([[c] + gaps[0]] + gaps[1..], ws) && Weave([[c] + gaps[0]] + gaps[1..], ws) == [c] + Weave(gaps, ws)
  {
    var more := [[c] + gaps[0]] + gaps[1..];
    assert more[1..] == gaps[1..];
    if ws != [] {
      Associate([c], gaps[0], ws[0]);
      Associate([c], gaps[0] + ws[0], Weave(gaps[1..], ws[1..]));
    }
  }

  lemma WeaveWord(w: string, gaps: seq<string>, ws: seq<string>)
    requires AreGaps(gaps, ws) && (ws != [] ==> gaps[0] != "")
    ensures AreGaps([""] + gaps, [w] + ws) && Weave([""] + gaps, [w] + ws) == w + Weave(gaps, ws)
  {
    assert ([""] + gaps)[1..] == gaps && ([w] + ws)[1..] == ws && "" + w == w;
  }

  /** The words are what whitespace separates: with some whitespace around them and between any two they make up the text. */
  lemma {:induction false} WordsSeparated(text: string) returns (gaps: seq<string>)
    ensures |gaps| == |Words(text)| + 1 && AreGaps(gaps, Words(text)) && Weave(gaps, Words(text)) == text
    ensures text != "" && IsSpace(text[0]) ==> gaps[0] != ""
    decreases |text|
  {
    hide IsSpace, Weave, AreGaps;
    if text == "" {
      gaps := [""];
      NoWords();
    } else if IsSpace(text[0]) {
      var later := WordsSeparated(text[1..]);
      WeaveSpace(text[0], later, Words(text));
      gaps := [[text[0]] + later[0]] + later[1..];
      assert text == [text[0]] + text[1..];
    } else {
      var j := Scan(text, 0, true);
      var later := WordsSeparated(text[j..]);
      WeaveWord(text[..j], later, Words(text[j..]));
      gaps := [""] + later;
      assert text == text[..j] + text[j..];
    }
  }

  lemma NoWords()
    ensures Words("") == [] && AreGaps([""], []) && Weave([""], []) == ""
  {
  }

  function Lead(text: string): seq<string> {
    if text == "" || IsSpace(text[0]) then [""] else []
  }

  function Trail(text: string): seq<string> {
    if EndsInSpace(text) then [""] else []
  }

  /** Splitting finds the words, plus an empty one for whitespace at the start or the end. */
  lemma {:induction false} SplitFindsWords(text: string)
    ensures Split(text) == Lead(text) + Words(text) + Trail(text)
    decreases |text|
  {
    var j := Scan(text, 0, true);
    if j == |text| {
      SplitOneWord(text);
    } else {
      var k := Scan(text, j, false);
      SplitFindsWords(text[k..]);
      SplitOff(text, j, k);
    }
  }

  lemma {:induction false} SplitOneWord(text: string)
    requires Scan(text, 0, true) == |text|
    ensures [text] == Lead(text) + Words(text) + Trail(text)
  {
    if text != "" {
      assert text[..|text|] == text && text[|text|..] == "" && Words("") == [];
      assert !IsSpace(text[0]) && !IsSpace(text[|text| - 1]);
    }
  }

  lemma WordsAfterSpace(text: string, j: nat, k: nat)
    requires j <= |text| && k == Scan(text, j, false)
    ensures Words(text[j..]) == Words(text[k..])
  {
    SkipSpace(text[j..], k - j);
    assert text[j..][k - j..] == text[k..];
  }

  /** The first piece is the first word, or empty when whitespace leads. */
  lemma WordsAfterPiece(text: string, j: nat, k: nat)
    requires j == Scan(text, 0, true) < |text| && k == Scan(text, j, false)
    ensures j < k && Lead(text) + Words(text) == [text[..j]] + Words(text[k..])
  {
    WordsAfterSpace(text, j, k);
    if j == 0 {
      assert text[0..] == text && text[..0] == "" && Lead(text) == [""];
    } else {
      assert Lead(text) == [] && Words(text) == [text[..j]] + Words(text[j..]);
    }
  }

  lemma EndsAfterPiece(text: string, k: nat)
    requires 0 < k <= |text| && IsSpace(text[k - 1]) && (k < |text| ==> !IsSpace(text[k]))
    ensures Lead(text[k..]) + Words(text[k..]) + Trail(text[k..]) == Words(text[k..]) + Trail(text)
  {
    var rest := text[k..];
    if k == |text| {
      assert rest == "" && Words(rest) == [];
    } else {
      assert rest[0] == text[k] && rest[|rest| - 1] == text[|text| - 1];
    }
  }

  lemma SplitOff(text: string, j: nat, k: nat)
    requires j == Scan(text, 0, true) < |text| && k == Scan(text, j, false)
    ensures j < k && [text[..j]] + (Lead(text[k..]) + Words(text[k..]) + Trail(text[k..])) == Lead(text) + Words(text) + Trail(text)
  {
    WordsAfterPiece(text, j, k);
    EndsAfterPiece(text, k);
    Associate([text[..j]], Words(text[k..]), Trail(text));
  }

  // ---------- Layouts ----------

  /** Words i..j with single spaces between them. */
  function Line(ws: seq<string>, i: nat, j: nat): string
    requires j <= |ws|
    decreases j
  {
    if j <= i then ""
    else if j == i + 1 then ws[i]
    else Line(ws, i, j - 1) + " " + ws[j - 1]
  }

  /** A line of two or more words must fit the width; a single word always may stand alone. */
  predicate Fits(ws: seq<string>, width: int, i: nat, j: nat)
    requires j <= |ws|
  {
    j == i + 1 || |Line(ws, i, j)| <= width
  }

  /** `ends` cuts the words from `i` on into non-empty lines that fit. */
  ghost predicate IsLayout(ws: seq<string>, width: int, i: nat, ends: seq<nat>)
    decreases |ends|
  {
    if ends == [] then i == |ws|
    else i < ends[0] <= |ws| && Fits(ws, width, i, ends[0]) && IsLayout(ws, width, ends[0], ends[1..])
  }

  ghost function Render(ws: seq<string>, i: nat, ends: seq<nat>): seq<string>
    decreases |ends|
  {
    if ends == [] then []
    else (if ends[0] <= |ws| then [Line(ws, i, ends[0])] else [""]) + Render(ws, ends[0], ends[1..])
  }

  /** How far the line that starts at `i` and holds i..j already will be filled. */
  ghost function LineEnd(ws: seq<string>, width: int, i: nat, j: nat): (e: nat)
    requires i < j <= |ws|
    ensures j <= e <= |ws|
    decreases |ws| - j
  {
    if j < |ws| && |Line(ws, i, j)| + |ws[j]| + 1 <= width then LineEnd(ws, width, i, j + 1) else j
  }

  ghost function Greedy(ws: seq<string>, width: int, i: nat): seq<nat>
    decreases |ws| - i
  {
    if i >= |ws| then [] else var e := LineEnd(ws, width, i, i + 1); [e] + Greedy(ws, width, e)
  }

  // ---------- The greedy layout is a layout, and a shortest one ----------

  lemma {:induction false} LineGrowsRight(ws: seq<string>, i: nat, j: nat, j': nat)
    requires i < j <= j' <= |ws|
    ensures |Line(ws, i, j)| <= |Line(ws, i, j')|
    decreases j'
  {
    if j < j' {
      LineGrowsRight(ws, i, j, j' - 1);
    }
  }

  lemma {:induction false} LineGrowsLeft(ws: seq<string>, i: nat, i': nat, j: nat)
    requires i <= i' < j <= |ws|
    ensures |Line(ws, i', j)| <= |Line(ws, i, j)|
    decreases j
  {
    if i < i' < j - 1 {
      LineGrowsLeft(ws, i, i', j - 1);
    }
  }

  lemma {:induction false} LineEndFits(ws: seq<string>, width: int, i: nat, j: nat)
    requires i < j <= |ws| && Fits(ws, width, i, j)
    ensures Fits(ws, width, i, LineEnd(ws, width, i, j))
    decreases |ws| - j
  {
    if j < |ws| && |Line(ws, i, j)| + |ws[j]| + 1 <= width {
      LineEndFits(ws, width, i, j + 1);
    }
  }

  /** No line from `i` that fits reaches further than the greedy one. */
  lemma {:induction false} LineEndReaches(ws: seq<string>, width: int, i: nat, j: nat, e: nat)
    requires i < j <= e <= |ws| && Fits(ws, width, i, e)
    ensures LineEnd(ws, width, i, j) >= e
    decreases e - j
  {
    hide Line;
    if j < e {
      LineGrowsRight(ws, i, j + 1, e);
      LineWithWord(ws, i, j);
      LineEndReaches(ws, width, i, j + 1, e);
    }
  }

  lemma {:induction false} GreedyIsLayout(ws: seq<string>, width: int, i: nat)
    requires i <= |ws|
    ensures IsLayout(ws, width, i, Greedy(ws, width, i))
    decreases |ws| - i
  {
    if i < |ws| {
      LineEndFits(ws, width, i, i + 1);
      GreedyIsLayout(ws, width, LineEnd(ws, width, i, i + 1));
    }
  }

  /** No line but the last could take the first word of the next. */
  ghost predicate IsFull(ws: seq<string>, width: int, i: nat, ends: seq<nat>)
    decreases |ends|
  {
    ends == [] ||
    ((i < ends[0] < |ws| ==> |Line(ws, i, ends[0])| + |ws[ends[0]]| + 1 > width) && IsFull(ws, width, ends[0], ends[1..]))
  }

  lemma {:induction false} LineEndIsFull(ws: seq<string>, width: int, i: nat, j: nat)
    requires i < j <= |ws|
    ensures var e := LineEnd(ws, width, i, j); e < |ws| ==> |Line(ws, i, e)| + |ws[e]| + 1 > width
    decreases |ws| - j
  {
    hide Line;
    if j < |ws| && |Line(ws, i, j)| + |ws[j]| + 1 <= width {
      LineEndIsFull(ws, width, i, j + 1);
    }
  }

  lemma {:induction false} GreedyIsFull(ws: seq<string>, width: int, i: nat)
    requires i <= |ws|
    ensures IsFull(ws, width, i, Greedy(ws, width, i))
    decreases |ws| - i
  {
    if i < |ws| {
      LineEndIsFull(ws, width, i, i + 1);
      GreedyIsFull(ws, width, LineEnd(ws, width, i, i + 1));
    }
  }

  lemma FullLineIsGreedy(ws: seq<string>, width: int, i: nat, j: nat)
    requires i < j <= |ws| && Fits(ws, width, i, j)
    requires j < |ws| ==> |Line(ws, i, j)| + |ws[j]| + 1 > width
    ensures LineEnd(ws, width, i, i + 1) == j
  {
    hide LineEnd, Line;
    var e := LineEnd(ws, width, i, i + 1);
    LineEndReaches(ws, width, i, i + 1, j);
    LineEndFits(ws, width, i, i + 1);
    if j < e {
      LineGrowsRight(ws, i, j + 1, e);
      LineWithWord(ws, i, j);
    }
  }

  lemma LineWithWord(ws: seq<string>, i: nat, j: nat)
    requires i < j < |ws|
    ensures |Line(ws, i, j + 1)| == |Line(ws, i, j)| + |ws[j]| + 1
  {
  }

  /** A layout that fits and is full is the greedy one: nothing else is left to choose. */
  lemma {:induction false} FullIsGreedy(ws: seq<string>, width: int, i: nat, ends: seq<nat>)
    requires IsLayout(ws, width, i, ends) && IsFull(ws, width, i, ends)
    ensures ends == Greedy(ws, width, i)
    decreases |ends|
  {
    hide Line, LineEnd, Fits;
    if ends != [] {
      FullLineIsGreedy(ws, width, i, ends[0]);
      FullIsGreedy(ws, width, ends[0], ends[1..]);
    }
  }

  /** Starting later never takes more lines. */
  lemma {:induction false} GreedyMonotone(ws: seq<string>, width: int, i: nat, j: nat)
    requires i <= j <= |ws|
    ensures |Greedy(ws, width, j)| <= |Greedy(ws, width, i)|
    decreases |ws| - i
  {
    if i < j < |ws| {
      var e := LineEnd(ws, width, i, i + 1);
      if j >= e {
        GreedyMonotone(ws, width, e, j);
      } else {
        LineEndFits(ws, width, i, i + 1);
        LineGrowsLeft(ws, i, j, e);
        LineEndReaches(ws, width, j, j + 1, e);
        GreedyMonotone(ws, width, e, LineEnd(ws, width, j, j + 1));
      }
    }
  }

  /** No layout of the same words in the same order uses fewer lines. */
  lemma {:induction false} GreedyIsShortest(ws: seq<string>, width: int, i: nat, ends: seq<nat>)
    requires IsLayout(ws, width, i, ends)
    ensures |Greedy(ws, width, i)| <= |ends|
    decreases |ends|
  {
    if ends != [] {
      LineEndReaches(ws, width, i, i + 1, ends[0]);
      GreedyMonotone(ws, width, ends[0], LineEnd(ws, width, i, i + 1));
      GreedyIsShortest(ws, width, ends[0], ends[1..]);
    }
  }

  ghost function Join(lines: seq<string>): string {
    if lines == [] then "" else if |lines| == 1 then lines[0] else lines[0] + " " + Join(lines[1..])
  }

  lemma AssociateSpace(a: string, b: string, c: string)
    ensures a + " " + (b + " " + c) == (a + " " + b) + " " + c
  {
  }

  lemma {:induction false} LineConcat(ws: seq<string>, i: nat, j: nat, n: nat)
    requires i < j < n <= |ws|
    ensures Line(ws, i, n) == Line(ws, i, j) + " " + Line(ws, j, n)
    decreases n
  {
    if j + 1 < n {
      LineConcat(ws, i, j, n - 1);
      AssociateSpace(Line(ws, i, j), Line(ws, j, n - 1), ws[n - 1]);
    }
  }

  /** Joining the lines of a layout gives back the words joined with single spaces. */
  lemma {:induction false} LayoutKeepsWords(ws: seq<string>, width: int, i: nat, ends: seq<nat>)
    requires IsLayout(ws, width, i, ends)
    ensures Join(Render(ws, i, ends)) == Line(ws, i, |ws|)
    decreases |ends|
  {
    if ends != [] {
      var rest := Render(ws, ends[0], ends[1..]);
      assert Render(ws, i, ends) == [Line(ws, i, ends[0])] + rest && ([Line(ws, i, ends[0])] + rest)[1..] == rest;
      LayoutKeepsWords(ws, width, ends[0], ends[1..]);
      if ends[0] < |ws| {
        assert ends[1..] != [];
        LineConcat(ws, i, ends[0], |ws|);
      }
    }
  }

  // ---------- The program ----------

  /** What the loop does with the words still to come. */
  ghost function Pour(words: seq<string>, width: int, current: string): seq<string>
    decreases |words|
  {
    if words == [] then if current == "" then [] else [current]
    else if |current| + |words[0]| + 1 > width && |current| > 0 then [current] + Pour(words[1..], width, words[0])
    else Pour(words[1..], width, if current == "" then words[0] else current + " " + words[0])
  }

  /** The effect of whitespace at the end: one space more on the last line, if it fits. */
  ghost function WithTrailingSpace(lines: seq<string>, width: int): seq<string>
    requires lines != []
  {
    var last := lines[|lines| - 1];
    if |last| + 1 > width then lines else lines[|lines| - 1 := last + " "]
  }

  ghost function Wrapped(text: string, width: int): seq<string> {
    var ws := Words(text);
    if ws == [] then [""]
    else
      var lines := Render(ws, 0, Greedy(ws, width, 0));
      if EndsInSpace(text) then WithTrailingSpace(lines, width) else lines
  }

  lemma LineNotEmpty(ws: seq<string>, i: nat, j: nat)
    requires i < j <= |ws| && forall k :: 0 <= k < |ws| ==> ws[k] != ""
    ensures Line(ws, i, j) != ""
  {
  }

  /** What comes after the first line of the greedy layout is the greedy layout of the rest. */
  lemma GreedyLine(ws: seq<string>, width: int, i: nat)
    requires i < |ws|
    ensures var e := LineEnd(ws, width, i, i + 1);
      && Render(ws, i, Greedy(ws, width, i)) == [Line(ws, i, e)] + Render(ws, e, Greedy(ws, width, e))
      && (e == |ws| ==> Render(ws, i, Greedy(ws, width, i)) == [Line(ws, i, e)])
  {
    assert Greedy(ws, width, i)[1..] == Greedy(ws, width, LineEnd(ws, width, i, i + 1));
  }

  ghost function Finish(lines: seq<string>, width: int, trailing: bool): seq<string>
    requires lines != []
  {
    if trailing then WithTrailingSpace(lines, width) else lines
  }

  lemma PourLast(current: string, width: int, trailing: bool)
    requires current != ""
    ensures Pour(if trailing then [""] else [], width, current) == Finish([current], width, trailing)
  {
    assert [""][1..] == [];
    assert current + " " + "" == current + " ";
  }

  lemma PourHead(words: seq<string>, width: int, current: string, w: string, rest: seq<string>)
    requires words == [w] + rest && current != ""
    ensures Pour(words, width, current) ==
      if |current| + |w| + 1 > width then [current] + Pour(rest, width, w) else Pour(rest, width, current + " " + w)
  {
    assert words[1..] == rest;
  }

  lemma SplitHead(ws: seq<string>, p: nat, post: seq<string>)
    requires p < |ws|
    ensures ws[p..] + post == [ws[p]] + (ws[p + 1..] + post)
  {
  }

  lemma LineIsOver(ws: seq<string>, width: int, i: nat)
    requires i < |ws|
    ensures LineEnd(ws, width, i, |ws|) == |ws|
  {
  }

  /** The next word ends the line, or is one more on it. */
  lemma LineGoesOn(ws: seq<string>, width: int, i: nat, p: nat)
    requires i < p < |ws|
    ensures Line(ws, p, p + 1) == ws[p]
    ensures if |Line(ws, i, p)| + |ws[p]| + 1 > width then LineEnd(ws, width, i, p) == p
      else LineEnd(ws, width, i, p + 1) == LineEnd(ws, width, i, p) && Line(ws, i, p + 1) == Line(ws, i, p) + " " + ws[p]
  {
  }

  /** With words i..p on the current line, the rest of the loop produces the greedy lines from i on. */
  lemma {:induction false} PourIsGreedy(ws: seq<string>, width: int, i: nat, p: nat, trailing: bool)
    requires i < p <= |ws| && forall k :: 0 <= k < |ws| ==> ws[k] != ""
    requires LineEnd(ws, width, i, i + 1) == LineEnd(ws, width, i, p)
    ensures var lines := Render(ws, i, Greedy(ws, width, i));
      lines != [] && Pour(ws[p..] + (if trailing then [""] else []), width, Line(ws, i, p)) == Finish(lines, width, trailing)
    decreases |ws| - p
  {
    hide Pour, Render, Greedy, Finish, Line, LineEnd;
    var line := Line(ws, i, p);
    LineNotEmpty(ws, i, p);
    var post: seq<string> := if trailing then [""] else [];
    if p == |ws| {
      LineIsOver(ws, width, i);
      GreedyLine(ws, width, i);
      assert ws[p..] + post == post;
      PourLast(line, width, trailing);
    } else {
      LineGoesOn(ws, width, i, p);
      SplitHead(ws, p, post);
      PourHead(ws[p..] + post, width, line, ws[p], ws[p + 1..] + post);
      if |line| + |ws[p]| + 1 > width {
        PourIsGreedy(ws, width, p, p + 1, trailing);
        GreedyLine(ws, width, i);
        FinishAfter(line, Render(ws, p, Greedy(ws, width, p)), width, trailing);
      } else {
        PourIsGreedy(ws, width, i, p + 1, trailing);
      }
    }
  }

  lemma FinishAfter(line: string, lines: seq<string>, width: int, trailing: bool)
    requires lines != []
    ensures [line] + Finish(lines, width, trailing) == Finish([line] + lines, width, trailing)
  {
  }

  lemma PourWraps(text: string, width: int)
    ensures var lines := Pour(Split(text), width, "");
      (if lines == [] then [""] else lines) == Wrapped(text, width)
  {
    SplitFindsWords(text);
    WordsNotEmpty(text);
    var todo := Words(text) + Trail(text);
    PourLead(Lead(text), todo, width);
    assert Lead(text) + Words(text) + Trail(text) == Lead(text) + todo;
    PourWords(text, Words(text), width);
  }

  lemma PourLead(lead: seq<string>, rest: seq<string>, width: int)
    requires lead == [] || lead == [""]
    ensures Pour(lead + rest, width, "") == Pour(rest, width, "")
  {
    if lead == [] {
      assert lead + rest == rest;
    } else {
      assert (lead + rest)[0] == "" && (lead + rest)[1..] == rest;
    }
  }

  lemma {:induction false} PourWords(text: string, ws: seq<string>, width: int)
    requires ws == Words(text) && forall k :: 0 <= k < |ws| ==> ws[k] != ""
    ensures var lines := Pour(ws + Trail(text), width, "");
      (if lines == [] then [""] else lines) == Wrapped(text, width)
  {
    if ws == [] {
      assert ws + Trail(text) == Trail(text);
      PourLead(Trail(text), [], width);
      assert Trail(text) + [] == Trail(text);
    } else {
      var todo := ws + Trail(text);
      assert todo[0] == ws[0] && todo[1..] == ws[1..] + Trail(text);
      PourIsGreedy(ws, width, 0, 1, EndsInSpace(text));
    }
  }

  method WordWrap(text: string, width: int) returns (lines: seq<string>)
    ensures lines == Wrapped(text, width)
    ensures Words(text) == [] ==> lines == [""]
  {
    var words := Split(text);
    lines := [];
    var current := "";
    for k := 0 to |words|
      invariant lines + Pour(words[k..], width, current) == Pour(words, width, "")
    {
      var word := words[k];
      assert words[k..][1..] == words[k + 1..];
      if |current| + |word| + 1 > width && |current| > 0 {
        lines := lines + [current];
        current := word;
      } else {
        current := if current == "" then word else current + " " + word;
      }
    }
    if current != "" {
      lines := lines + [current];
    }
    PourWraps(text, width);
    lines := if |lines| > 0 then lines else [""];
  }

  /**
   The promise of the function, for text without whitespace at its end: all words in order, every
   line of two or more words within the width, and no fewer lines possible.
   */
  lemma WrapIsBest(text: string, width: int)
    requires !EndsInSpace(text) && Words(text) != []
    ensures var ws := Words(text);
      && Join(Wrapped(text, width)) == Line(ws, 0, |ws|)
      && (exists ends :: IsLayout(ws, width, 0, ends) && IsFull(ws, width, 0, ends) && Wrapped(text, width) == Render(ws, 0, ends))
      && (forall ends :: IsLayout(ws, width, 0, ends) ==> |Wrapped(text, width)| <= |ends|)
  {
    var ws := Words(text);
    var cuts := Greedy(ws, width, 0);
    GreedyIsLayout(ws, width, 0);
    GreedyIsFull(ws, width, 0);
    LayoutKeepsWords(ws, width, 0, cuts);
    RenderSize(ws, 0, cuts);
    forall ends | IsLayout(ws, width, 0, ends) ensures |cuts| <= |ends| {
      GreedyIsShortest(ws, width, 0, ends);
    }
  }

  lemma {:induction false} RenderSize(ws: seq<string>, i: nat, ends: seq<nat>)
    ensures |Render(ws, i, ends)| == |ends|
    decreases |ends|
  {
    if ends != [] {
      RenderSize(ws, ends[0], ends[1..]);
    }
  }

  /** Whitespace at the end survives as one space exactly when the last line has room for it. */
  lemma TrailingSpace(text: string, width: int)
    requires EndsInSpace(text) && Words(text) != []
    ensures var ws := Words(text); var lines := Render(ws, 0, Greedy(ws, width, 0));
      && lines != []
      && (|lines[|lines| - 1]| + 1 <= width <==> Wrapped(text, width) != lines)
      && Join(Wrapped(text, width)) == Line(ws, 0, |ws|) + if |lines[|lines| - 1]| + 1 <= width then " " else ""
  {
    var ws := Words(text);
    var cuts := Greedy(ws, width, 0);
    GreedyIsLayout(ws, width, 0);
    LayoutKeepsWords(ws, width, 0, cuts);
    RenderSize(ws, 0, cuts);
    JoinSpaced(Render(ws, 0, cuts));
  }

  lemma {:induction false} JoinSpaced(lines: seq<string>)
    requires lines != []
    ensures Join(lines[|lines| - 1 := lines[|lines| - 1] + " "]) == Join(lines) + " "
  {
    var more := lines[|lines| - 1 := lines[|lines| - 1] + " "];
    if |lines| > 1 {
      JoinSpaced(lines[1..]);
      assert more[1..] == lines[1..][|lines| - 2 := lines[|lines| - 1] + " "];
    }
  }

  /** There are words, and the last of their lines can take one character more. */
  ghost predicate HasRoomAtEnd(text: string, width: int) {
    var lines := Render(Words(text), 0, Greedy(Words(text), width, 0));
    lines != [] && |lines[|lines| - 1]| + 1 <= width
  }

  /** The lines of a text joined are its words joined, exactly unless whitespace at its end finds room on the last line. */
  lemma WrapKeepsWordsIff(text: string, width: int)
    ensures Join(Wrapped(text, width)) == Line(Words(text), 0, |Words(text)|) <==> !(EndsInSpace(text) && HasRoomAtEnd(text, width))
  {
    if Words(text) == [] {
      assert Join([""]) == "";
    } else if EndsInSpace(text) {
      TrailingSpace(text, width);
    } else {
      WrapIsBest(text, width);
      RenderSize(Words(text), 0, Greedy(Words(text), width, 0));
    }
  }

  /** One word and a space, wrapped to two columns, keeps the space. */
  lemma SpaceKept()
    ensures Words("a ") == ["a"] && Join(Wrapped("a ", 2)) == "a " != Line(Words("a "), 0, 1)
  {
    var text := "a ";
    assert Scan(text, 1, true) == 1 && Scan(text, 0, true) == 1;
    assert text[..1] == "a" && text[1..] == " " && " "[1..] == "";
    assert Words("") == [] && Words(" ") == Words("") && Words(text) == ["a"];
    WrapKeepsWordsIff(text, 2);
    TrailingSpace(text, 2);
    GreedyLine(["a"], 2, 0);
  }
}
