/** ArrayArrayBuffer.cpp: the file held as a vector of lines, each line a
    string that keeps its own terminator, plus one editable line at the end. */
module ArrayArrayBufferModel {
  import opened Native
  import opened Optional
  import opened Lines
  import opened Reading

  /** The constructor's reading loop as a function of what it reads: `None`
      when the file cannot be opened, which leaves the vector empty; otherwise
      each line `getline` yields, normalized, then one empty editable line. */
  function Load(file: Option<seq<string>>): (m: seq<string>)
    ensures file.None? ==> m == []
    ensures file.Some? ==> |m| == |file.value| + 1 && m[|m| - 1] == ""
  {
    match file
    case None => []
    case Some(raws) => NormalizeAll(raws) + [""]
  }

  /** `getLine(lineNum)`: the stored line, or nothing past the last one. */
  function LineAt(m: seq<string>, lineNum: uint32): (r: Option<string>)
    ensures r.Some? <==> lineNum < |m|
  {
    if lineNum < |m| then Some(m[lineNum]) else None
  }

  /** The shape loading gives and `delChar` keeps: every line but the last
      ends in its only terminator, and the last one has none. A buffer whose
      file could not be opened has no lines at all. */
  predicate Shaped(m: seq<string>)
  {
    m == [] || (AllLines(m[..|m| - 1]) && NoNewline(m[|m| - 1]))
  }

  /** The range test of `insertChar`. A negative `int` converted to `size_t`
      exceeds every size, so it fails the test like a too large one. */
  predicate InsertsAt(m: seq<string>, line: int32, col: int32)
  {
    0 <= line < |m| && 0 <= col <= |m[line]|
  }

  /** The range test of `delChar`. */
  predicate DeletesAt(m: seq<string>, line: int32, col: int32)
  {
    0 <= line < |m| && 0 <= col < |m[line]|
  }

  /** `delChar` on a terminator of the last line: the source erases the
      element after the last one, which is undefined behaviour in C++. */
  predicate ErasesPastEnd(m: seq<string>, line: int32, col: int32)
  {
    DeletesAt(m, line, col) && m[line][col] == '\n' && line + 1 == |m|
  }

  /** A position one past a terminator: inside the range test, yet an
      insertion there lands after the line's end. */
  predicate PastTerminator(m: seq<string>, line: int32, col: int32)
  {
    0 <= line < |m| - 1 && col == |m[line]|
  }

  /** The lines after `insertChar(c, line, col)`: out of range nothing
      changes; a line-feed splits the line in two; any other character goes
      into the line. The lines before and after the edited one stay. */
  function Inserted(m: seq<string>, c: char, line: int32, col: int32): (r: seq<string>)
    ensures !InsertsAt(m, line, col) ==> r == m
    ensures InsertsAt(m, line, col) ==>
      |r| == |m| + (if c == '\n' then 1 else 0) &&
      r[..line] == m[..line] && r[|r| - (|m| - line - 1)..] == m[line + 1..]
  {
    if line < 0 || line >= |m| || col < 0 || col > |m[line]| then m
    else if c == '\n' then
      m[..line] + [m[line][..col] + "\n", m[line][col..]] + m[line + 1..]
    else
      m[..line] + [m[line][..col] + [c] + m[line][col..]] + m[line + 1..]
  }

  /** The lines after `delChar(line, col)`: out of range nothing changes;
      deleting a terminator joins the next line onto this one; any other
      character is removed from its line. */
  function Deleted(m: seq<string>, line: int32, col: int32): (r: seq<string>)
    requires !ErasesPastEnd(m, line, col)
    ensures !DeletesAt(m, line, col) ==> r == m
    ensures DeletesAt(m, line, col) ==>
      |r| == |m| - (if m[line][col] == '\n' then 1 else 0) &&
      r[..line] == m[..line] && r[line + 1..] == m[line + 1 + |m| - |r|..]
  {
    if line < 0 || line >= |m| || col < 0 || col >= |m[line]| then m
    else if m[line][col] == '\n' then
      // The source falls back to an empty next line; the precondition leaves
      // the vector's erase defined, so a next line always exists here.
      var next := if line + 1 < |m| then m[line + 1] else "";
      m[..line] + [m[line][..col] + m[line][col + 1..] + next] + m[line + 2..]
    else
      m[..line] + [m[line][..col] + m[line][col + 1..]] + m[line + 1..]
  }

  class ArrayArrayBuffer {
    var fileMemory: seq<string>

    /** Reads the file's lines as `getline` yields them, or `None` when the
        file cannot be opened. */
    constructor (file: Option<seq<string>>)
      ensures fileMemory == Load(file)
    {
      var memory: seq<string> := [];
      if file.Some? {
        var raws := file.value;
        var i := 0;
        while i < |raws|
          invariant 0 <= i <= |raws|
          invariant memory == NormalizeAll(raws[..i])
        {
          var line := raws[i];
          // An empty line leaves nothing to inspect: the source reads `back()`
          // of an empty string there, and the model strips nothing.
          if |line| > 0 && line[|line| - 1] == '\r' {
            line := line[..|line| - 1];
          }
          line := line + "\n";
          assert NormalizeAll(raws[..i + 1]) == NormalizeAll(raws[..i]) + [NormalizeLine(raws[i])];
          memory := memory + [line];
          i := i + 1;
        }
        assert raws[..|raws|] == raws;
        memory := memory + [""];
      }
      fileMemory := memory;
    }

    method GetLine(lineNum: uint32) returns (line: Option<string>)
      ensures line == LineAt(fileMemory, lineNum)
    {
      if lineNum < |fileMemory| {
        line := Some(fileMemory[lineNum]);
      } else {
        line := None;
      }
    }

    /** `save`: the lines written one after another. */
    method Save() returns (text: string)
      ensures text == Concat(fileMemory)
    {
      text := [];
      var i := 0;
      while i < |fileMemory|
        invariant 0 <= i <= |fileMemory|
        invariant text == Concat(fileMemory[..i])
      {
        ConcatAppend(fileMemory[..i], fileMemory[i]);
        assert fileMemory[..i + 1] == fileMemory[..i] + [fileMemory[i]];
        text := text + fileMemory[i];
        i := i + 1;
      }
      assert fileMemory[..i] == fileMemory;
    }

    method DelChar(line: int32, col: int32)
      requires !ErasesPastEnd(fileMemory, line, col)
      modifies this
      ensures fileMemory == Deleted(old(fileMemory), line, col)
    {
      if line < 0 || line >= |fileMemory| || col < 0 || col >= |fileMemory[line]| {
        return;
      }
      if fileMemory[line][col] == '\n' {
        var nextLine := "";
        if line + 1 < |fileMemory| {
          nextLine := fileMemory[line + 1];
        }
        var joined := fileMemory[line][..col] + fileMemory[line][col + 1..];
        joined := joined + nextLine;
        fileMemory := fileMemory[..line] + [joined] + fileMemory[line + 2..];
      } else {
        var shorter := fileMemory[line][..col] + fileMemory[line][col + 1..];
        fileMemory := fileMemory[line := shorter];
      }
    }

    method InsertChar(c: char, line: int32, col: int32)
      modifies this
      ensures fileMemory == Inserted(old(fileMemory), c, line, col)
    {
      if line < 0 || line >= |fileMemory| || col < 0 || col > |fileMemory[line]| {
        return;
      }
      if c == '\n' {
        var restOfLine := fileMemory[line][col..];
        var head := fileMemory[line][..col];
        head := head + "\n";
        fileMemory := fileMemory[..line] + [head, restOfLine] + fileMemory[line + 1..];
      } else {
        var longer := fileMemory[line][..col] + [c] + fileMemory[line][col..];
        fileMemory := fileMemory[line := longer];
      }
    }
  }

  /** What `getline` yields loads into shape; an unopened file loads into
      the empty vector. */
  lemma LoadShaped(file: Option<seq<string>>)
    requires file.Some? ==> FromGetline(file.value)
    ensures Shaped(Load(file))
  {
    if file.Some? {
      var m := Load(file);
      assert m[..|m| - 1] == NormalizeAll(file.value);
    }
  }

  /** In shape, the last line has no terminator, so `delChar` never erases
      past the end of the vector. */
  lemma ShapedErasesInside(m: seq<string>, line: int32, col: int32)
    requires Shaped(m)
    ensures !ErasesPastEnd(m, line, col)
  {
    if DeletesAt(m, line, col) && line + 1 == |m| {
      NoNewlineAt(m[line]);
    }
  }

  /** In shape, the lines hold one terminator fewer than there are lines. */
  lemma ShapedCount(m: seq<string>)
    requires Shaped(m) && m != []
    ensures CountNewlines(Concat(m)) == |m| - 1
  {
    var ls, last := m[..|m| - 1], m[|m| - 1];
    SplitLast(m);
    ConcatAppend(ls, last);
    CountAllLines(ls);
    NoNewlineAt(last);
    assert '\n' !in last;
    assert multiset(Concat(ls) + last) == multiset(Concat(ls)) + multiset(last);
  }

  /** An `insertChar` keeps the shape exactly when it does not land one past
      a terminator. */
  lemma InsertedShaped(m: seq<string>, c: char, line: int32, col: int32)
    requires Shaped(m)
    ensures Shaped(Inserted(m, c, line, col)) <==> !PastTerminator(m, line, col)
  {
    if InsertsAt(m, line, col) {
      if PastTerminator(m, line, col) {
        InsertPastTerminator(m, c, line, col);
      } else if c == '\n' {
        InsertNewlineShaped(m, line, col);
      } else {
        InsertCharShaped(m, c, line, col);
      }
    }
  }

  lemma InsertPastTerminator(m: seq<string>, c: char, line: int32, col: int32)
    requires Shaped(m) && PastTerminator(m, line, col)
    ensures !Shaped(Inserted(m, c, line, col))
  {
    var r := Inserted(m, c, line, col);
    var l := m[line];
    assert IsLine(l) by {
      assert l == m[..|m| - 1][line];
    }
    assert r[line] == l + [c] by {
      assert l[..col] == l && l[col..] == [];
    }
    assert line < |r| - 1 && r[..|r| - 1][line] == r[line];
    if c == '\n' {
      var t := (l + [c])[..|l|];
      assert t == l;
      NoNewlineAt(t);
    }
  }

  lemma InsertNewlineShaped(m: seq<string>, line: int32, col: int32)
    requires Shaped(m) && InsertsAt(m, line, col) && !PastTerminator(m, line, col)
    ensures Shaped(Inserted(m, '\n', line, col))
  {
    var l := m[line];
    var a, b := l[..col], l[col..];
    var r := Inserted(m, '\n', line, col);
    assert r == m[..line] + [a + "\n", b] + m[line + 1..];
    assert IsLine(a + "\n") by {
      assert (a + "\n")[..|a|] == a;
      if line < |m| - 1 {
        assert l == m[..|m| - 1][line];
        SplitLine(l, col);
      } else {
        NoNewlineSlice(l, 0, col);
        assert l[0..col] == a;
      }
    }
    if line < |m| - 1 {
      assert IsLine(l) by {
        assert l == m[..|m| - 1][line];
      }
      SplitLine(l, col);
      assert r[..|r| - 1] == m[..line] + [a + "\n", b] + m[line + 1..|m| - 1];
      assert m[..|m| - 1] == m[..line] + [l] + m[line + 1..|m| - 1];
      AllLinesJoin(m[..line] + [l], m[line + 1..|m| - 1]);
      AllLinesJoin(m[..line], [l]);
      AllLinesJoin(m[..line] + [a + "\n", b], m[line + 1..|m| - 1]);
      AllLinesJoin(m[..line], [a + "\n", b]);
      assert r[|r| - 1] == m[|m| - 1];
    } else {
      NoNewlineSlice(l, col, |l|);
      assert l[col..|l|] == b;
      assert r[..|r| - 1] == m[..line] + [a + "\n"];
      assert m[..line] == m[..|m| - 1];
      AllLinesJoin(m[..line], [a + "\n"]);
    }
  }

  lemma InsertCharShaped(m: seq<string>, c: char, line: int32, col: int32)
    requires Shaped(m) && InsertsAt(m, line, col) && !PastTerminator(m, line, col) && c != '\n'
    ensures Shaped(Inserted(m, c, line, col))
  {
    var l := m[line];
    var l' := l[..col] + [c] + l[col..];
    var r := Inserted(m, c, line, col);
    assert r == m[line := l'];
    if line < |m| - 1 {
      assert IsLine(l) by {
        assert l == m[..|m| - 1][line];
      }
      InsertIntoLine(l, col, c);
      AllLinesUpdate(m[..|m| - 1], line, l');
      assert r[..|r| - 1] == m[..|m| - 1][line := l'];
    } else {
      NoNewlineSlice(l, 0, col);
      NoNewlineSlice(l, col, |l|);
      assert l[0..col] == l[..col] && l[col..|l|] == l[col..];
      NoNewlineConcat(l[..col], [c]);
      NoNewlineConcat(l[..col] + [c], l[col..]);
      assert r[..|r| - 1] == m[..|m| - 1];
    }
  }

  /** Every `delChar` keeps the shape. */
  lemma DeletedShaped(m: seq<string>, line: int32, col: int32)
    requires Shaped(m)
    ensures !ErasesPastEnd(m, line, col) && Shaped(Deleted(m, line, col))
  {
    ShapedErasesInside(m, line, col);
    if DeletesAt(m, line, col) {
      if m[line][col] == '\n' {
        DeleteTerminatorShaped(m, line, col);
      } else {
        DeleteCharShaped(m, line, col);
      }
    }
  }

  lemma DeleteCharShaped(m: seq<string>, line: int32, col: int32)
    requires Shaped(m) && DeletesAt(m, line, col) && m[line][col] != '\n'
    ensures !ErasesPastEnd(m, line, col) && Shaped(Deleted(m, line, col))
  {
    var l := m[line];
    var l' := l[..col] + l[col + 1..];
    var r := Deleted(m, line, col);
    assert r == m[line := l'];
    if line < |m| - 1 {
      assert IsLine(l) by {
        assert l == m[..|m| - 1][line];
      }
      TerminatorAtEnd(l, col);
      DeleteFromLine(l, col);
      AllLinesUpdate(m[..|m| - 1], line, l');
      assert r[..|r| - 1] == m[..|m| - 1][line := l'];
    } else {
      NoNewlineSlice(l, 0, col);
      NoNewlineSlice(l, col + 1, |l|);
      assert l[0..col] == l[..col] && l[col + 1..|l|] == l[col + 1..];
      NoNewlineConcat(l[..col], l[col + 1..]);
      assert r[..|r| - 1] == m[..|m| - 1];
    }
  }

  lemma DeleteTerminatorShaped(m: seq<string>, line: int32, col: int32)
    requires Shaped(m) && DeletesAt(m, line, col) && m[line][col] == '\n'
    ensures !ErasesPastEnd(m, line, col) && Shaped(Deleted(m, line, col))
  {
    ShapedErasesInside(m, line, col);
    var l := m[line];
    assert line < |m| - 1 by {
      if line == |m| - 1 {
        NoNewlineAt(l);
      }
    }
    assert IsLine(l) by {
      assert l == m[..|m| - 1][line];
    }
    TerminatorAtEnd(l, col);
    var a, next := l[..col], m[line + 1];
    assert l[col + 1..] == [];
    assert l[..col] + l[col + 1..] == a;
    var r := Deleted(m, line, col);
    assert r == m[..line] + [a + next] + m[line + 2..];
    if line + 1 < |m| - 1 {
      assert IsLine(next) by {
        assert next == m[..|m| - 1][line + 1];
      }
      PrefixLine(a, next);
      assert r[..|r| - 1] == m[..line] + [a + next] + m[line + 2..|m| - 1];
      assert m[..|m| - 1] == m[..line] + [l, next] + m[line + 2..|m| - 1];
      AllLinesJoin(m[..line] + [l, next], m[line + 2..|m| - 1]);
      AllLinesJoin(m[..line], [l, next]);
      AllLinesJoin(m[..line] + [a + next], m[line + 2..|m| - 1]);
      AllLinesJoin(m[..line], [a + next]);
      assert r[|r| - 1] == m[|m| - 1];
    } else {
      NoNewlineConcat(a, next);
      assert r[..|r| - 1] == m[..line];
      assert m[..|m| - 1] == m[..line] + [l];
      AllLinesJoin(m[..line], [l]);
    }
  }

  /** The invariant behind `Shaped` that every edit keeps, insertions one
      past a terminator included: before each line break the text holds at
      least as many line-feeds as there are breaks, and the whole text holds
      one line-feed per break. */
  predicate Balanced(m: seq<string>)
  {
    m == [] ||
    (CountNewlines(Concat(m)) == |m| - 1 &&
     forall j :: 0 <= j < |m| ==> CountNewlines(Concat(m[..j])) >= j)
  }

  /** Loaded lines, and any lines in shape, are balanced. */
  lemma ShapedBalanced(m: seq<string>)
    requires Shaped(m)
    ensures Balanced(m)
  {
    if m != [] {
      ShapedCount(m);
      forall j | 0 <= j < |m|
        ensures CountNewlines(Concat(m[..j])) >= j
      {
        assert m[..j] == m[..|m| - 1][..j];
        CountAllLines(m[..j]);
      }
    }
  }

  /** Balanced lines leave the last line without a line-feed, so `delChar`
      never erases past the end of the vector. */
  lemma BalancedErasesInside(m: seq<string>, line: int32, col: int32)
    requires Balanced(m)
    ensures !ErasesPastEnd(m, line, col)
  {
    if ErasesPastEnd(m, line, col) {
      var ls, last := m[..|m| - 1], m[|m| - 1];
      SplitLast(m);
      ConcatAppend(ls, last);
      assert false;
    }
  }

  /** The number of line-feeds after one character is put in or taken out. */
  lemma CountSplice(s: string, p: nat, c: char)
    requires p <= |s|
    ensures CountNewlines(s[..p] + [c] + s[p..]) == CountNewlines(s) + (if c == '\n' then 1 else 0)
    ensures p < |s| ==>
      CountNewlines(s[..p] + s[p + 1..]) + (if s[p] == '\n' then 1 else 0) == CountNewlines(s)
  {
    assert s == s[..p] + s[p..];
    if p < |s| {
      assert s[p..] == [s[p]] + s[p + 1..];
    }
  }

  /** Every `insertChar` keeps the lines balanced. */
  lemma InsertedBalanced(m: seq<string>, c: char, line: int32, col: int32)
    requires Balanced(m)
    ensures Balanced(Inserted(m, c, line, col))
  {
    if InsertsAt(m, line, col) {
      var r := Inserted(m, c, line, col);
      SplicedCount(m, c, line, col);
      forall j | 0 <= j < |r|
        ensures CountNewlines(Concat(r[..j])) >= j
      {
        InsertedPrefixCount(m, c, line, col, j);
      }
    }
  }

  lemma InsertedPrefixCount(m: seq<string>, c: char, line: int32, col: int32, j: nat)
    requires Balanced(m) && InsertsAt(m, line, col) && j < |Inserted(m, c, line, col)|
    ensures CountNewlines(Concat(Inserted(m, c, line, col)[..j])) >= j
  {
    var r := Inserted(m, c, line, col);
    if j <= line {
      assert r[..j] == m[..j];
    } else if c == '\n' && j == line + 1 {
      assert CountNewlines(Concat(m[..line])) >= line;
      SplitHeadCount(m, line, col);
    } else {
      var k := j - (if c == '\n' then 1 else 0);
      assert CountNewlines(Concat(m[..k])) >= k;
      InsertedPrefixCountAfter(m, c, line, col, j);
    }
  }

  lemma SplitHeadCount(m: seq<string>, line: int32, col: int32)
    requires InsertsAt(m, line, col)
    ensures CountNewlines(Concat(Inserted(m, '\n', line, col)[..line + 1])) > CountNewlines(Concat(m[..line]))
  {
    assert Inserted(m, '\n', line, col)[..line + 1] == m[..line] + [m[line][..col] + "\n"];
    HeadCount(m[..line], m[line][..col]);
  }

  lemma InsertedPrefixCountAfter(m: seq<string>, c: char, line: int32, col: int32, j: nat)
    requires InsertsAt(m, line, col)
    requires line + (if c == '\n' then 1 else 0) < j < |Inserted(m, c, line, col)|
    ensures j - (if c == '\n' then 1 else 0) < |m|
    ensures CountNewlines(Concat(Inserted(m, c, line, col)[..j])) ==
      CountNewlines(Concat(m[..j - (if c == '\n' then 1 else 0)])) + (if c == '\n' then 1 else 0)
  {
    var mk := m[..j - (if c == '\n' then 1 else 0)];
    InsertedPrefix(m, c, line, col, j);
    SplicedCount(mk, c, line, col);
  }

  /** The lines before a split, then its first half, end in one more line-feed. */
  lemma HeadCount(ls: seq<string>, a: string)
    ensures CountNewlines(Concat(ls + [a + "\n"])) > CountNewlines(Concat(ls))
  {
    var head := a + "\n";
    ConcatAppend(ls, head);
    assert multiset(Concat(ls) + head) == multiset(Concat(ls)) + multiset(head);
    assert head[|head| - 1] in multiset(head);
  }

  /** Inserting into `m` adds one line-feed to the text exactly when `c` is one. */
  lemma SplicedCount(m: seq<string>, c: char, line: int32, col: int32)
    requires InsertsAt(m, line, col)
    ensures CountNewlines(Concat(Inserted(m, c, line, col))) ==
      CountNewlines(Concat(m)) + (if c == '\n' then 1 else 0)
  {
    SavedInsert(m, c, line, col);
    CountSplice(Concat(m), Start(m, line) + col, c);
  }

  lemma InsertedPrefix(m: seq<string>, c: char, line: int32, col: int32, j: nat)
    requires InsertsAt(m, line, col)
    requires line + (if c == '\n' then 1 else 0) < j <= |Inserted(m, c, line, col)|
    ensures InsertsAt(m[..j - (if c == '\n' then 1 else 0)], line, col)
    ensures Inserted(m, c, line, col)[..j] ==
      Inserted(m[..j - (if c == '\n' then 1 else 0)], c, line, col)
  {
    var k := j - (if c == '\n' then 1 else 0);
    var mk := m[..k];
    assert mk[..line] == m[..line] && mk[line] == m[line] && mk[line + 1..] == m[line + 1..k];
  }

  /** Every `delChar` keeps the lines balanced, and is always defined on them. */
  lemma DeletedBalanced(m: seq<string>, line: int32, col: int32)
    requires Balanced(m)
    ensures !ErasesPastEnd(m, line, col) && Balanced(Deleted(m, line, col))
  {
    BalancedErasesInside(m, line, col);
    if DeletesAt(m, line, col) {
      var r := Deleted(m, line, col);
      ShortenedCount(m, line, col);
      forall j | 0 <= j < |r|
        ensures CountNewlines(Concat(r[..j])) >= j
      {
        DeletedPrefixCount(m, line, col, j);
      }
    }
  }

  lemma DeletedPrefixCount(m: seq<string>, line: int32, col: int32, j: nat)
    requires Balanced(m) && DeletesAt(m, line, col) && !ErasesPastEnd(m, line, col)
    requires j < |Deleted(m, line, col)|
    ensures CountNewlines(Concat(Deleted(m, line, col)[..j])) >= j
  {
    var r := Deleted(m, line, col);
    if j <= line {
      assert r[..j] == m[..j];
    } else {
      var k := j + (if m[line][col] == '\n' then 1 else 0);
      DeletedPrefixCountAfter(m, line, col, j);
      assert CountNewlines(Concat(m[..k])) >= k;
    }
  }

  lemma DeletedPrefixCountAfter(m: seq<string>, line: int32, col: int32, j: nat)
    requires DeletesAt(m, line, col) && !ErasesPastEnd(m, line, col)
    requires line < j < |Deleted(m, line, col)|
    ensures j + (if m[line][col] == '\n' then 1 else 0) < |m|
    ensures CountNewlines(Concat(Deleted(m, line, col)[..j])) + (if m[line][col] == '\n' then 1 else 0) ==
      CountNewlines(Concat(m[..j + (if m[line][col] == '\n' then 1 else 0)]))
  {
    var mk := m[..j + (if m[line][col] == '\n' then 1 else 0)];
    DeletedPrefix(m, line, col, j);
    assert mk[line][col] == m[line][col];
    ShortenedCount(mk, line, col);
  }

  /** Deleting from `m` removes one line-feed from the text exactly when the
      deleted character is one. */
  lemma ShortenedCount(m: seq<string>, line: int32, col: int32)
    requires DeletesAt(m, line, col) && !ErasesPastEnd(m, line, col)
    ensures CountNewlines(Concat(Deleted(m, line, col))) + (if m[line][col] == '\n' then 1 else 0) ==
      CountNewlines(Concat(m))
  {
    SavedDelete(m, line, col);
    CountSplice(Concat(m), Start(m, line) + col, 'x');
  }

  lemma DeletedPrefix(m: seq<string>, line: int32, col: int32, j: nat)
    requires DeletesAt(m, line, col) && !ErasesPastEnd(m, line, col)
    requires line < j <= |Deleted(m, line, col)|
    ensures var k := j + (if m[line][col] == '\n' then 1 else 0);
      k <= |m| && DeletesAt(m[..k], line, col) && !ErasesPastEnd(m[..k], line, col) &&
      Deleted(m, line, col)[..j] == Deleted(m[..k], line, col)
  {
    var k := j + (if m[line][col] == '\n' then 1 else 0);
    var mk := m[..k];
    assert mk[..line] == m[..line] && mk[line] == m[line];
    if m[line][col] == '\n' {
      assert mk[line + 1] == m[line + 1] && mk[line + 2..] == m[line + 2..k];
    } else {
      assert mk[line + 1..] == m[line + 1..k];
    }
  }

  /** Deleting at the place of any insertion takes it back: a split line is
      joined again, an inserted character removed. */
  lemma InsertDeleteRoundTrip(m: seq<string>, c: char, line: int32, col: int32)
    ensures !ErasesPastEnd(Inserted(m, c, line, col), line, col)
    ensures Deleted(Inserted(m, c, line, col), line, col) == m
  {
    if InsertsAt(m, line, col) {
      var l := m[line];
      var r := Inserted(m, c, line, col);
      if c == '\n' {
        assert r[line] == l[..col] + "\n" && r[line + 1] == l[col..];
        assert r[line][col] == '\n';
        assert r[line][..col] + r[line][col + 1..] + r[line + 1] == l;
        assert m[..line] + [l] + m[line + 1..] == m;
      } else {
        assert r[line] == l[..col] + [c] + l[col..];
        assert r[line][col] == c;
        assert r[line][..col] + r[line][col + 1..] == l;
        assert m[..line] + [l] + m[line + 1..] == m;
      }
    }
  }

  /** In shape, putting a deleted character back where it was restores the
      lines: a joined line is split again at the same place. */
  lemma DeleteInsertRoundTrip(m: seq<string>, line: int32, col: int32)
    requires Shaped(m) && DeletesAt(m, line, col)
    ensures !ErasesPastEnd(m, line, col)
    ensures Inserted(Deleted(m, line, col), m[line][col], line, col) == m
  {
    ShapedErasesInside(m, line, col);
    var l := m[line];
    var r := Deleted(m, line, col);
    if l[col] == '\n' {
      assert IsLine(l) by {
        if line == |m| - 1 {
          NoNewlineAt(l);
        }
        assert l == m[..|m| - 1][line];
      }
      TerminatorAtEnd(l, col);
      var a, next := l[..col], m[line + 1];
      assert l[col + 1..] == [] && l == a + "\n";
      assert r[line] == a + next;
      assert (a + next)[..col] == a && (a + next)[col..] == next;
      assert m[..line] + [a + "\n", next] + m[line + 2..] == m;
    } else {
      assert r[line] == l[..col] + l[col + 1..];
      assert r[line][..col] + [l[col]] + r[line][col..] == l;
      assert m[..line] + [l] + m[line + 1..] == m;
    }
  }

  /** Saved, an `insertChar` puts exactly one character into the file, at the
      offset of (`line`, `col`). */
  lemma SavedInsert(m: seq<string>, c: char, line: int32, col: int32)
    requires InsertsAt(m, line, col)
    ensures var s, p := Concat(m), Start(m, line) + col;
      p <= |s| && Concat(Inserted(m, c, line, col)) == s[..p] + [c] + s[p..]
  {
    InsertInConcat(m, line, col, c);
    if c == '\n' {
      SplitInConcat(m, line, col);
    } else {
      UpdateAsSplice(m, line, m[line][..col] + [c] + m[line][col..]);
    }
  }

  lemma SplitInConcat(m: seq<string>, line: int32, col: int32)
    requires InsertsAt(m, line, col)
    ensures Concat(Inserted(m, '\n', line, col)) ==
      Concat(m[line := m[line][..col] + ['\n'] + m[line][col..]])
  {
    var l := m[line];
    var x, y := l[..col] + "\n", l[col..];
    assert x + y == l[..col] + ['\n'] + l[col..];
    assert m[line := x + y] == m[..line] + [x + y] + m[line + 1..];
    ConcatPair(m[..line], x, y, m[line + 1..]);
  }

  /** Saved, a `delChar` takes exactly one character out of the file, at the
      offset of (`line`, `col`). */
  lemma SavedDelete(m: seq<string>, line: int32, col: int32)
    requires DeletesAt(m, line, col) && !ErasesPastEnd(m, line, col)
    ensures var s, p := Concat(m), Start(m, line) + col;
      p < |s| && s[p] == m[line][col] && Concat(Deleted(m, line, col)) == s[..p] + s[p + 1..]
  {
    DeleteInConcat(m, line, col);
    if m[line][col] == '\n' {
      JoinInConcat(m, line, col);
    } else {
      UpdateAsSplice(m, line, m[line][..col] + m[line][col + 1..]);
    }
  }

  lemma JoinInConcat(m: seq<string>, line: int32, col: int32)
    requires DeletesAt(m, line, col) && !ErasesPastEnd(m, line, col) && m[line][col] == '\n'
    ensures Concat(Deleted(m, line, col)) ==
      Concat(m[line := m[line][..col] + m[line][col + 1..]])
  {
    var l := m[line];
    var shorter, next := l[..col] + l[col + 1..], m[line + 1];
    assert m[line := shorter] == m[..line] + [shorter, next] + m[line + 2..];
    ConcatPair(m[..line], shorter, next, m[line + 2..]);
  }

  /** Loading a file gives lines that write out to its text with every
      carriage return before a line-feed dropped, and a line-feed added when
      the file lacks a last one. */
  lemma LoadNormalizes(s: string)
    ensures Concat(Load(Some(Getlines(s)))) == DropCrBeforeLf(if EndsInNewline(s) then s else s + "\n")
  {
    if EndsInNewline(s) {
      ReadText(s);
    } else {
      GetlinesUnterminated(s);
      ReadText(s + "\n");
    }
    ConcatAppend(NormalizeAll(Getlines(s)), "");
  }

  /** Saving and opening again gives back the same lines when the editable
      last line is empty and no line ends in a carriage return. */
  lemma SaveOpenRoundTrip(m: seq<string>)
    requires Shaped(m) && m != [] && m[|m| - 1] == "" && NoCrLf(Concat(m))
    ensures Load(Some(Getlines(Concat(m)))) == m
  {
    var ls := m[..|m| - 1];
    SplitLast(m);
    ConcatAppend(ls, "");
    ReloadLines(ls, Concat(m));
  }

  lemma ReloadLines(ls: seq<string>, s: string)
    requires AllLines(ls) && s == Concat(ls) && NoCrLf(s)
    ensures Load(Some(Getlines(s))) == ls + [""]
  {
    ReadLines(ls);
  }
}
