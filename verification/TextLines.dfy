/** Breaking the text of a text frame into lines (src/tsisp003/Frame.cpp): `CheckSub` counts the lines with one loop and
    `ToStringVector` lays them out with another. */
module TextLines {
  import opened Bytes
  import opened Wrappers

  const SPACE: byte := 0x20

  type Text = seq<byte>

  /** What `Check::Text` lets through. */
  predicate IsText(text: Text) {
    forall c :: c in text ==> 0x20 <= c < 0x7F
  }

  // ----- What the lines are -----

  /** The length of the longest beginning without a space, up to `columns`. */
  function PieceLength(text: Text, columns: nat): (n: nat)
    ensures n <= |text| && n <= columns
    ensures forall i :: 0 <= i < n ==> text[i] != SPACE
    ensures n == columns || n == |text| || text[n] == SPACE
    decreases columns
  {
    if columns == 0 || text == [] || text[0] == SPACE then 0 else 1 + PieceLength(text[1..], columns - 1)
  }

  /** The lines of a text: each as long as it can be, none broken but by a space or the width of the sign. */
  function Lines(text: Text, columns: nat): seq<Text>
    requires columns > 0
    decreases |text|
  {
    if text == [] then []
    else if text[0] == SPACE then Lines(text[1..], columns)
    else
      var n := PieceLength(text, columns);
      [text[..n]] + Lines(text[n..], columns)
  }

  function NoSpaces(text: Text): Text {
    if text == [] then []
    else if text[0] == SPACE then NoSpaces(text[1..])
    else [text[0]] + NoSpaces(text[1..])
  }

  function Joined(lines: seq<Text>): Text {
    if lines == [] then [] else lines[0] + Joined(lines[1..])
  }

  /** Every line has 1 to `columns` characters, none of them a space. */
  lemma {:induction false} LineLengths(text: Text, columns: nat, i: nat)
    requires columns > 0 && i < |Lines(text, columns)|
    ensures 1 <= |Lines(text, columns)[i]| <= columns
    ensures SPACE !in Lines(text, columns)[i]
    decreases |text|
  {
    if text[0] == SPACE {
      LineLengths(text[1..], columns, i);
    } else if i > 0 {
      LineLengths(text[PieceLength(text, columns)..], columns, i - 1);
    }
  }

  /** Put together, the lines are the text without its spaces: nothing is cut off, repeated or moved. */
  lemma {:induction false} LinesJoin(text: Text, columns: nat)
    requires columns > 0
    ensures Joined(Lines(text, columns)) == NoSpaces(text)
    decreases |text|
  {
    if text != [] {
      if text[0] == SPACE {
        LinesJoin(text[1..], columns);
      } else {
        var n := PieceLength(text, columns);
        LinesJoin(text[n..], columns);
        NoSpacesAhead(text, n);
        var lines := Lines(text, columns);
        assert lines[1..] == Lines(text[n..], columns);
      }
    }
  }

  lemma {:induction false} NoSpacesAhead(text: Text, n: nat)
    requires n <= |text| && forall i :: 0 <= i < n ==> text[i] != SPACE
    ensures NoSpaces(text) == text[..n] + NoSpaces(text[n..])
    decreases n
  {
    if n > 0 {
      NoSpacesAhead(text[1..], n - 1);
      assert text[1..][n - 1..] == text[n..];
      assert text[..n] == [text[0]] + text[1..][..n - 1];
    } else {
      assert text[0..] == text;
    }
  }

  /** Lines break no earlier than they must: one that is not full ends at a space or with the text. */
  lemma {:induction false} LinesAreLong(text: Text, columns: nat, i: nat)
    requires columns > 0 && i < |Lines(text, columns)| && |Lines(text, columns)[i]| < columns
    ensures exists at :: 0 <= at <= |text| - |Lines(text, columns)[i]| && StandsAt(text, Lines(text, columns)[i], at)
    decreases |text|
  {
    var line := Lines(text, columns)[i];
    var n := if text[0] == SPACE then 1 else PieceLength(text, columns);
    if text[0] == SPACE || i > 0 {
      LinesAreLong(text[n..], columns, if text[0] == SPACE then i else i - 1);
      hide Lines, PieceLength;
      var at :| 0 <= at <= |text[n..]| - |line| && StandsAt(text[n..], line, at);
      StandsLater(text, n, line, at);
    } else {
      assert text[0..|line|] == line;
      assert StandsAt(text, line, 0);
    }
  }

  lemma StandsLater(text: Text, n: nat, line: Text, at: nat)
    requires n <= |text| && StandsAt(text[n..], line, at)
    ensures StandsAt(text, line, at + n)
  {
    assert text[n..][at..at + |line|] == text[at + n..at + n + |line|];
  }

  /** The line is found in the text at `at`, followed by a space or the end. */
  predicate StandsAt(text: Text, line: Text, at: nat) {
    at + |line| <= |text| && text[at..at + |line|] == line
    && (at + |line| == |text| || text[at + |line|] == SPACE)
  }

  // ----- One character at a time -----

  /** A line that is full, or followed by a space, or by nothing. */
  lemma {:induction false} LineEnds(line: Text, rest: Text, columns: nat)
    requires 0 < |line| <= columns && SPACE !in line
    requires |line| == columns || rest == [] || rest[0] == SPACE
    ensures Lines(line + rest, columns) == [line] + Lines(rest, columns)
  {
    var text := line + rest;
    var n := PieceLength(text, columns);
    assert forall i :: 0 <= i < |line| ==> text[i] == line[i] && line[i] in line;
    assert rest != [] ==> text[|line|] == rest[0];
    assert text[..n] == line && text[n..] == rest;
  }

  lemma {:induction false} SpaceIsSkipped(rest: Text, columns: nat)
    requires columns > 0 && rest != [] && rest[0] == SPACE
    ensures Lines(rest, columns) == Lines(rest[1..], columns)
  {}

  /** What is left to be done after `done` lines, with `line` begun and `rest` to come. */
  ghost predicate Broken(text: Text, columns: nat, done: seq<Text>, line: Text, rest: Text) {
    columns > 0 ==>
      Lines(text, columns) == done + Lines(line + rest, columns) && |line| < columns && SPACE !in line
  }

  lemma CharacterTaken(text: Text, columns: nat, done: seq<Text>, line: Text, rest: Text)
    requires columns > 0 && Broken(text, columns, done, line, rest) && rest != [] && rest[0] != SPACE
    ensures var more := line + [rest[0]];
            if |more| == columns then Broken(text, columns, done + [more], [], rest[1..])
            else Broken(text, columns, done, more, rest[1..])
  {
    var more := line + [rest[0]];
    assert line + rest == more + rest[1..];
    if |more| == columns {
      LineEnds(more, rest[1..], columns);
      assert [] + rest[1..] == rest[1..];
    }
  }

  lemma SpaceTaken(text: Text, columns: nat, done: seq<Text>, line: Text, rest: Text)
    requires columns > 0 && Broken(text, columns, done, line, rest) && rest != [] && rest[0] == SPACE
    ensures Broken(text, columns, if line == [] then done else done + [line], [], rest[1..])
  {
    SpaceIsSkipped(rest, columns);
    hide Lines;
    assert [] + rest[1..] == rest[1..];
    if line == [] {
      assert line + rest == rest;
    } else {
      LineEnds(line, rest, columns);
      assert done + ([line] + Lines(rest, columns)) == (done + [line]) + Lines(rest, columns);
    }
  }

  lemma {:induction false} AllTaken(text: Text, columns: nat, done: seq<Text>, line: Text)
    requires columns > 0 && Broken(text, columns, done, line, [])
    ensures Lines(text, columns) == if line == [] then done else done + [line]
  {
    if line == [] {
      assert line + [] == [];
    } else {
      LineEnds(line, [], columns);
    }
  }

  lemma BreaksFromTheStart(text: Text, columns: nat)
    ensures Broken(text, columns, [], [], text)
  {
    assert [] + text == text;
  }

  /** A line begun, or a character that is no space, makes one line more. */
  lemma {:induction false} SomeLine(text: Text, columns: nat, done: seq<Text>, line: Text, rest: Text)
    requires columns > 0 && Broken(text, columns, done, line, rest) && rest != [] && rest[0] != SPACE
    ensures |Lines(text, columns)| > |done| && |line| < columns
  {
    assert (line + rest)[0] != SPACE by {
      if line != [] {
        assert line[0] in line;
      }
    }
  }

  /** What the table holds when the loop ends, at the end of the text or of the table. */
  lemma {:induction false} LaidOut(text: Text, columns: nat, rows: nat, done: seq<Text>, line: Text, rest: Text)
    requires columns > 0 && Broken(text, columns, done, line, rest)
    requires (rest == [] && (|done| < rows || rows == |done| == 0)) || (|done| == rows && line == [])
    requires rows == 0 ==> line == []
    ensures var v := if line == [] then done else done + [line];
            v == if |Lines(text, columns)| <= rows then Lines(text, columns) else Lines(text, columns)[..rows]
  {
    if rest == [] {
      AllTaken(text, columns, done, line);
    } else {
      assert line + rest == rest;
    }
  }

  // ----- The two loops -----

  /** The width `CheckSub` counts with: a line never has 0 characters, so without columns no line is ever full. */
  function Width(text: Text, columns: nat): (w: nat)
    ensures w > 0
  {
    if columns > 0 then columns else |text| + 1
  }

  predicate Accepted(text: Text, columns: nat, rows: nat) {
    |Lines(text, Width(text, columns))| <= rows
  }

  /** The counting loop of `CheckSub`: whether the text fits. */
  method CheckSub(text: Text, columns: nat, rows: nat) returns (ok: bool)
    ensures ok <==> Accepted(text, columns, rows)
  {
    hide Lines;
    var lines := 0;
    var chars := 0;
    ghost var w := Width(text, columns);
    ghost var done: seq<Text>, line: Text := [], [];
    BreaksFromTheStart(text, w);
    assert text[0..] == text;
    for i := 0 to |text|
      invariant Broken(text, w, done, line, text[i..])
      invariant lines == |done| && chars == |line| <= i
    {
      ghost var rest := text[i..];
      assert rest[1..] == text[i + 1..];
      if text[i] != SPACE {
        CharacterTaken(text, w, done, line, rest);
        line := line + [text[i]];
        chars := chars + 1;
        if chars == columns {
          lines := lines + 1;
          chars := 0;
          done, line := done + [line], [];
        }
      } else {
        SpaceTaken(text, w, done, line, rest);
        if chars > 0 {
          lines := lines + 1;
          chars := 0;
          done := done + [line];
        }
        line := [];
      }
    }
    assert text[|text|..] == [];
    AllTaken(text, w, done, line);
    if chars > 0 {
      lines := lines + 1;
    }
    ok := lines <= rows;
  }

  /** Row r of a table of characters holds a line, ended by zeros. */
  ghost predicate RowHolds(texts: array2<byte>, r: nat, line: Text)
    requires r < texts.Length0
    reads texts
  {
    |line| < texts.Length1
    && forall c :: 0 <= c < texts.Length1 ==> texts[r, c] == if c < |line| then line[c] else 0
  }

  /** The table holds the finished lines, then the line begun, then nothing. */
  ghost predicate TableHolds(texts: array2<byte>, done: seq<Text>, line: Text)
    reads texts
  {
    |done| <= texts.Length0
    && forall r :: 0 <= r < texts.Length0 ==> RowHolds(texts, r, LineOf(done, line, r))
  }

  ghost function LineOf(done: seq<Text>, line: Text, r: nat): Text {
    if r < |done| then done[r] else if r == |done| then line else []
  }

  /** The string in row r of the table. */
  method RowString(texts: array2<byte>, r: nat, ghost line: Text) returns (s: Text)
    requires r < texts.Length0 && RowHolds(texts, r, line) && 0 !in line
    ensures s == line
  {
    s := [];
    while |s| < texts.Length1 && texts[r, |s|] != 0
      invariant |s| <= |line| && s == line[..|s|]
      decreases texts.Length1 - |s|
    {
      s := s + [texts[r, |s|]];
    }
  }

  method NewTable(rows: nat, columns: nat) returns (texts: array2<byte>)
    ensures fresh(texts) && texts.Length0 == rows && texts.Length1 == columns + 1
    ensures TableHolds(texts, [], [])
  {
    texts := new byte[rows, columns + 1];
    forall r, c | 0 <= r < rows && 0 <= c < columns + 1 {
      texts[r, c] := 0;
    }
  }

  /** One more character of the line begun. */
  method Place(texts: array2<byte>, x: byte, ghost done: seq<Text>, ghost line: Text, rx: nat, cx: nat)
    requires TableHolds(texts, done, line) && rx == |done| < texts.Length0 && cx == |line| < texts.Length1 - 1
    modifies texts
    ensures TableHolds(texts, done, line + [x])
  {
    assert RowHolds(texts, rx, LineOf(done, line, rx));
    texts[rx, cx] := x;
    forall r | 0 <= r < texts.Length0
      ensures RowHolds(texts, r, LineOf(done, line + [x], r))
    {
      assert old(RowHolds(texts, r, LineOf(done, line, r)));
    }
  }

  lemma NextRow(texts: array2<byte>, done: seq<Text>, line: Text)
    requires TableHolds(texts, done, line) && |done| < texts.Length0
    ensures TableHolds(texts, done + [line], [])
  {
    forall r | 0 <= r < texts.Length0 ensures RowHolds(texts, r, LineOf(done + [line], [], r)) {
      assert RowHolds(texts, r, LineOf(done, line, r));
    }
  }

  /** The rows that are not empty. */
  method ReadTable(texts: array2<byte>, ghost done: seq<Text>, ghost line: Text) returns (v: seq<Text>)
    requires TableHolds(texts, done, line) && texts.Length1 > 0
    requires |done| == texts.Length0 ==> line == []
    requires (forall l :: l in done ==> l != [] && 0 !in l) && 0 !in line
    ensures v == if line == [] then done else done + [line]
  {
    v := [];
    ghost var all := if line == [] then done else done + [line];
    for r := 0 to texts.Length0
      invariant v == if r <= |all| then all[..r] else all
    {
      ghost var l := LineOf(done, line, r);
      assert RowHolds(texts, r, l);
      assert r < |done| ==> done[r] in done;
      assert r < |all| ==> all[r] == l && l != [];
      assert r >= |all| ==> l == [];
      assert l != [] ==> l[0] in l;
      if texts[r, 0] != 0 {
        var s := RowString(texts, r, l);
        v := v + [s];
      }
    }
  }

  lemma NoZeros(text: Text)
    requires IsText(text)
    ensures 0 !in text
  {}

  predicate Blank(text: Text) {
    forall c :: c in text ==> c == SPACE
  }

  predicate SpacesUpTo(text: Text, i: nat)
    requires i <= |text|
  {
    forall k :: 0 <= k < i ==> text[k] == SPACE
  }

  lemma NotBlank(text: Text, i: nat)
    requires i < |text| && text[i] != SPACE
    ensures !Blank(text)
  {
    assert text[i] in text;
  }

  lemma OnlySpaces(text: Text)
    requires SpacesUpTo(text, |text|)
    ensures Blank(text)
  {}

  /** What `ToStringVector` yields: as many lines as there are rows, and none at all where an index of the table is out of
      range or a row has no room for the zero that ends it. */
  function Layout(text: Text, columns: nat, rows: nat): Option<seq<Text>> {
    if columns == 0 || rows == 0 then if Blank(text) then Some([]) else None
    else
      var lines := Lines(text, columns);
      Some(if |lines| <= rows then lines else lines[..rows])
  }

  /** The laying-out loop of `ToStringVector`. */
  method ToStringVector(text: Text, columns: nat, rows: nat) returns (r: Option<seq<Text>>)
    requires IsText(text)
    ensures r == Layout(text, columns, rows)
  {
    hide TableHolds, RowHolds, LineOf, Lines, Broken, IsText, Blank;
    NoZeros(text);
    var texts := NewTable(rows, columns);
    var rx, cx := 0, 0;
    ghost var done: seq<Text>, line: Text := [], [];
    assert [] + text == text;
    assert text[0..] == text;
    BreaksFromTheStart(text, columns);
    var i := 0;
    while i < |text|
      invariant 0 <= i <= |text|
      invariant rx == |done| && (rx < rows || rows == rx == 0) && cx == |line|
      invariant forall l :: l in done ==> l != [] && 0 !in l
      invariant 0 !in line
      invariant columns > 0 ==> TableHolds(texts, done, line) && Broken(text, columns, done, line, text[i..])
      invariant rows == 0 ==> line == []
      invariant if rx == 0 && cx == 0 then SpacesUpTo(text, i) else !Blank(text)
    {
      ghost var rest := text[i..];
      assert rest[1..] == text[i + 1..] && text[i] in text;
      if text[i] != SPACE {
        NotBlank(text, i);
        if !(rx < rows && cx <= columns) {
          if columns > 0 {
            SomeLine(text, columns, done, line, rest);
          }
          return None;
        }
        if columns > 0 {
          CharacterTaken(text, columns, done, line, rest);
          Place(texts, text[i], done, line, rx, cx);
        } else {
          texts[rx, cx] := text[i];
        }
        line := line + [text[i]];
        cx := cx + 1;
        if cx == columns {
          NextRow(texts, done, line);
          done, line := done + [line], [];
          rx := rx + 1;
          if rx == rows {
            i := i + 1;
            break;
          }
          cx := 0;
        }
      } else {
        if columns > 0 {
          SpaceTaken(text, columns, done, line, rest);
        }
        if cx > 0 {
          if columns > 0 {
            NextRow(texts, done, line);
          }
          done, line := done + [line], [];
          rx := rx + 1;
          if rx == rows {
            i := i + 1;
            break;
          }
          cx := 0;
        }
      }
      i := i + 1;
    }
    if rx == 0 && cx == 0 {
      OnlySpaces(text);
    }
    if columns == 0 {
      return if rx > 0 || cx > 0 then None else Some([]);
    }
    var v := ReadTable(texts, done, line);
    r := Some(v);
    LaidOut(text, columns, rows, done, line, text[i..]);
  }

  lemma {:induction false} BlankHasNoLines(text: Text, columns: nat)
    requires columns > 0
    ensures Lines(text, columns) == [] <==> Blank(text)
    decreases |text|
  {
    if text != [] && text[0] == SPACE {
      var rest := text[1..];
      BlankHasNoLines(rest, columns);
      assert forall c :: c in text <==> c == SPACE || c in rest by {
        assert text == [SPACE] + rest;
      }
    } else if text != [] {
      assert text[0] in text;
    }
  }

  /** The two loops agree on an accepted text, that is, it is laid out in the lines that were counted, exactly when at
      least one column fits the sign or there is nothing to lay out. */
  lemma {:induction false} AcceptedIsLaidOut(text: Text, columns: nat, rows: nat)
    requires Accepted(text, columns, rows)
    ensures Layout(text, columns, rows) == Some(Lines(text, Width(text, columns))) <==> columns > 0 || Blank(text)
    ensures columns == 0 && !Blank(text) ==> Layout(text, columns, rows) == None
  {
    BlankHasNoLines(text, Width(text, columns));
  }

  /** A text that is accepted and then leaves the table of lines. */
  lemma AcceptedButNotLaidOut()
    ensures Accepted([0x41], 0, 1) && Layout([0x41], 0, 1) == None
  {
    var text: Text := [0x41];
    LineEnds(text, [], 2);
    assert text + [] == text;
    NotBlank(text, 0);
  }

  // ----- What fits on a sign -----

  /** How many characters fit a row of pixels, and how many lines fit a column: a cell includes the space that follows. */
  function Capacity(pixels: nat, spacing: nat, cell: nat): nat
    requires cell > 0
  {
    (pixels + spacing) / cell
  }

  /** `n` cells without the last space fit the pixels exactly when n is within the capacity. */
  lemma FitsWithinCapacity(n: nat, pixels: nat, spacing: nat, cell: nat)
    requires cell > 0
    ensures n * cell - spacing <= pixels <==> n <= Capacity(pixels, spacing, cell)
  {
    var q := Capacity(pixels, spacing, cell);
    var r := (pixels + spacing) % cell;
    assert pixels + spacing == q * cell + r;
    if n <= q {
      Multiples(n, q, cell);
    } else {
      Multiples(q + 1, n, cell);
      assert (q + 1) * cell == q * cell + cell;
    }
  }

  lemma Multiples(a: nat, b: nat, cell: nat)
    requires a <= b
    ensures a * cell <= b * cell
  {
    assert b * cell == a * cell + (b - a) * cell;
  }

  /** Every line of an accepted text fits the width of the sign, and all of them together its height, so neither margin
      that `ToBit` computes is negative. */
  lemma {:induction false} AcceptedTextFits(text: Text, width: nat, height: nat, charSpace: nat, cellWidth: nat,
                                            lineSpace: nat, cellHeight: nat, i: nat)
    requires cellWidth > 0 && cellHeight > 0 && Capacity(width, charSpace, cellWidth) > 0
    requires |Lines(text, Capacity(width, charSpace, cellWidth))| <= Capacity(height, lineSpace, cellHeight)
    requires i < |Lines(text, Capacity(width, charSpace, cellWidth))|
    ensures var lines := Lines(text, Capacity(width, charSpace, cellWidth));
            && |lines[i]| * cellWidth - charSpace <= width
            && |lines| * cellHeight - lineSpace <= height
  {
    var lines := Lines(text, Capacity(width, charSpace, cellWidth));
    LineLengths(text, Capacity(width, charSpace, cellWidth), i);
    FitsWithinCapacity(|lines[i]|, width, charSpace, cellWidth);
    FitsWithinCapacity(|lines|, height, lineSpace, cellHeight);
  }
}
