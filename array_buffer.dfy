/** ArrayBuffer.cpp: the whole file held as one contiguous string, with line
    boundaries found on demand by scanning for line-feeds. */
module ArrayBufferModel {
  import opened Native
  import opened Optional
  import opened Lines
  import opened Reading
  import opened Utils

  /** `std::string::find('\n', from)`: the first terminator at or after `from`,
      or `NPOS` when there is none. */
  function Find(s: string, from: nat): (r: nat)
    requires |s| < NPOS
    ensures r == NPOS || (from <= r < |s| && s[r] == '\n')
    decreases |s| - from
  {
    if from >= |s| then NPOS
    else if s[from] == '\n' then from
    else Find(s, from + 1)
  }

  /** `find` stops at the first terminator: none lies between `from` and its result. */
  lemma {:induction false} FindFirst(s: string, from: nat)
    requires |s| < NPOS
    ensures forall i :: from <= i < |s| && i < Find(s, from) ==> s[i] != '\n'
    decreases |s| - from
  {
    if from < |s| && s[from] != '\n' {
      FindFirst(s, from + 1);
    }
  }

  /** The do-while loop of `getLineBounds`, from the state (`lineCount`, `end`)
      it has at the top of a pass; the result is (`begin`, `end`). */
  function Scan(s: string, lineNum: nat, lineCount: nat, end: nat): (r: (nat, nat))
    requires |s| <= MAX_STRING
    requires lineCount <= lineNum
    requires end == 0 || end < |s|
    ensures r.0 <= |s|
    ensures r.1 == NPOS || (r.0 <= r.1 < |s| && s[r.1] == '\n')
    ensures r.1 != NPOS ==> forall i :: r.0 <= i < r.1 ==> s[i] != '\n'
    decreases lineNum - lineCount
  {
    var begin := if end > 0 then end + 1 else 0;
    var next := Find(s, begin);
    if next == NPOS then
      (if lineCount < lineNum then |s| else begin, NPOS)
    else if lineCount < lineNum then
      Scan(s, lineNum, lineCount + 1, next)
    else
      FindFirst(s, begin);
      (begin, next)
  }

  /** `getLineBounds(lineNum)`: where line `lineNum` begins and where its
      terminator is (`NPOS` when no terminator follows `begin`). */
  function LineBounds(s: string, lineNum: uint32): (r: (nat, nat))
    requires |s| <= MAX_STRING
    ensures r.0 <= |s|
    ensures r.1 == NPOS || (r.0 <= r.1 < |s| && s[r.1] == '\n')
    ensures r.1 != NPOS ==> forall i :: r.0 <= i < r.1 ==> s[i] != '\n'
  {
    Scan(s, lineNum, 0, 0)
  }

  /** `getLine(lineNum)`: `substr(begin, end - begin + 1)` with `size_t`
      arithmetic, so that a missing terminator yields the rest of the text, or
      nothing at all when `begin` is 0. */
  function LineAt(s: string, lineNum: uint32): string
    requires |s| <= MAX_STRING
  {
    var (begin, end) := LineBounds(s, lineNum);
    s[begin .. Min(begin + SizeAdd(SizeSub(end, begin), 1), |s|)]
  }

  /** The range test shared by `delChar` and `insertChar`: the absolute position
      an edit of (`line`, `col`) touches, or `None` when the call does nothing.
      A position that passes lies inside the addressed line, at most at its
      terminator, and never past the text. */
  function EditPos(s: string, line: int32, col: int32): (r: Option<nat>)
    requires |s| <= MAX_STRING
    ensures r.Some? ==> 0 <= col && r.value == LineBounds(s, ToUint32(line)).0 + col
    ensures r.Some? ==> r.value < |s| && r.value <= LineBounds(s, ToUint32(line)).1
  {
    var bounds := LineBounds(s, ToUint32(line));
    var begin, end := bounds.0, bounds.1;
    if ToSize(col) > SizeSub(end, begin) || SizeAdd(begin, ToSize(col)) >= |s| then None
    else Some(SizeAdd(begin, ToSize(col)))
  }

  /** The text after `insertChar(c, line, col)`. It either stays the same or
      grows by `c`, and a terminator at the end stays at the end. */
  function Inserted(s: string, c: char, line: int32, col: int32): (r: string)
    requires |s| <= MAX_STRING
    ensures r == s || |r| == |s| + 1
    ensures EndsInNewline(s) ==> EndsInNewline(r)
  {
    match EditPos(s, line, col)
    case None => s
    case Some(p) =>
      assert s == s[..p] + s[p..];
      s[..p] + [c] + s[p..]
  }

  /** The text after `delChar(line, col)`. It either stays the same or loses
      one character, and a terminator at the end stays there. */
  function Deleted(s: string, line: int32, col: int32): (r: string)
    requires |s| <= MAX_STRING
    ensures r == s || |r| + 1 == |s|
    ensures EndsInNewline(s) ==> EndsInNewline(r)
  {
    match EditPos(s, line, col)
    case None => s
    case Some(p) =>
      if s[p] == '\n' then s
      else
        assert s == s[..p] + [s[p]] + s[p + 1..];
        s[..p] + s[p + 1..]
  }

  /** Only an inserted line-feed adds a line; `delChar` never removes a
      terminator, so it never changes the number of lines. */
  lemma EditsCountLines(s: string, c: char, line: int32, col: int32)
    requires |s| <= MAX_STRING
    ensures Inserted(s, c, line, col) != s ==>
      CountNewlines(Inserted(s, c, line, col)) == CountNewlines(s) + (if c == '\n' then 1 else 0)
    ensures CountNewlines(Deleted(s, line, col)) == CountNewlines(s)
  {
    match EditPos(s, line, col)
    case None =>
    case Some(p) =>
      assert s == s[..p] + s[p..];
      assert s == s[..p] + [s[p]] + s[p + 1..];
  }

  /** The constructor's reading loop as a function of the lines `getline`
      yields: each normalized line, in order, and nothing after the last one. */
  function Load(raws: seq<string>): (s: string)
    ensures EndsInNewline(s)
  {
    var ls := NormalizeAll(raws);
    ConcatEndsInNewline(ls);
    Concat(ls)
  }

  /** Text that ends in a terminator, cut into its lines. */
  function SplitLines(s: string): (ls: seq<string>)
    requires |s| <= MAX_STRING && EndsInNewline(s)
    ensures AllLines(ls) && Concat(ls) == s
    ensures |ls| == CountNewlines(s)
    ensures s != [] && s[0] != '\n' ==> ls != [] && ls[0] != "\n"
    decreases |s|
  {
    if s == [] then []
    else
      assert s[|s| - 1] == '\n';
      var e := Find(s, 0);
      FindFirst(s, 0);
      var head, tail := s[..e + 1], s[e + 1..];
      assert IsLine(head) by {
        assert head[..|head| - 1] == s[..e];
        NoNewlineAt(s[..e]);
      }
      assert s == head + tail;
      var rest := SplitLines(tail);
      assert ([head] + rest)[1..] == rest;
      CountAllLines([head] + rest);
      [head] + rest
  }

  class ArrayBuffer {
    var fileMemory: string

    /** The text fits a `std::string` and, as loading leaves it and every
        edit keeps it, is empty or ends in a line-feed. */
    predicate Valid()
      reads this
    {
      |fileMemory| <= MAX_STRING && EndsInNewline(fileMemory)
    }

    /** Reads the file's lines as `getline` yields them; the file itself (and
        the error when it cannot be opened) is outside the model. */
    constructor (raws: seq<string>)
      requires |Load(raws)| <= MAX_STRING
      ensures Valid() && fileMemory == Load(raws)
    {
      var memory: string := [];
      var i := 0;
      while i < |raws|
        invariant 0 <= i <= |raws|
        invariant memory == Load(raws[..i])
        invariant EndsInNewline(memory)
      {
        LoadStep(raws, i);
        var line := raws[i];
        StripStep(memory, line);
        var grown := memory + line;
        // An empty first line leaves nothing to inspect: the source reads
        // `back()` of an empty string there, and the model strips nothing.
        if |grown| > 0 && grown[|grown| - 1] == '\r' {
          grown := grown[..|grown| - 1];
        }
        memory := grown + "\n";
        i := i + 1;
      }
      assert raws[..|raws|] == raws;
      fileMemory := memory;
    }

    method GetLineBounds(lineNum: uint32) returns (begin: nat, end: nat)
      requires Valid()
      ensures (begin, end) == LineBounds(fileMemory, lineNum)
    {
      var lineCount: nat := 0;
      begin, end := 0, 0;
      while true
        invariant lineCount <= lineNum
        invariant end == 0 || end < |fileMemory|
        invariant Scan(fileMemory, lineNum, lineCount, end) == LineBounds(fileMemory, lineNum)
        decreases lineNum - lineCount
      {
        begin := if end > 0 then end + 1 else 0;
        end := Find(fileMemory, begin);
        if end == NPOS {
          if lineCount < lineNum {
            begin := |fileMemory|;
          }
          return;
        }
        var more := lineCount < lineNum;
        lineCount := lineCount + 1;
        if !more {
          return;
        }
      }
    }

    method GetLine(lineNum: uint32) returns (line: string)
      requires Valid()
      ensures line == LineAt(fileMemory, lineNum)
    {
      var begin, end := GetLineBounds(lineNum);
      line := fileMemory[begin .. Min(begin + SizeAdd(SizeSub(end, begin), 1), |fileMemory|)];
    }

    method DelChar(line: int32, col: int32)
      requires Valid()
      modifies this
      ensures Valid() && fileMemory == Deleted(old(fileMemory), line, col)
    {
      var begin, end := GetLineBounds(ToUint32(line));
      if ToSize(col) > SizeSub(end, begin) || SizeAdd(begin, ToSize(col)) >= |fileMemory| {
        return;
      }
      var charPos := SizeAdd(begin, ToSize(col));
      var ch := fileMemory[charPos];
      if ch == '\n' {
        return;
      }
      fileMemory := fileMemory[..charPos] + fileMemory[charPos + 1..];
    }

    method InsertChar(c: char, line: int32, col: int32)
      requires Valid() && |fileMemory| < MAX_STRING
      modifies this
      ensures Valid() && fileMemory == Inserted(old(fileMemory), c, line, col)
    {
      var begin, end := GetLineBounds(ToUint32(line));
      if ToSize(col) > SizeSub(end, begin) || SizeAdd(begin, ToSize(col)) >= |fileMemory| {
        return;
      }
      var pos := SizeAdd(begin, ToSize(col));
      fileMemory := fileMemory[..pos] + [c] + fileMemory[pos..];
    }
  }

  /** Appending a line and then dropping a trailing carriage return touches
      only the new line, because the text so far ends in a terminator. */
  lemma StripStep(memory: string, line: string)
    requires EndsInNewline(memory)
    ensures var g := memory + line;
      (if |g| > 0 && g[|g| - 1] == '\r' then g[..|g| - 1] else g) + "\n" == memory + NormalizeLine(line)
  {
    var g := memory + line;
    if |line| > 0 && line[|line| - 1] == '\r' {
      assert g[..|g| - 1] == memory + line[..|line| - 1];
    }
  }

  /** One more line read extends the text by that line, normalized. */
  lemma LoadStep(raws: seq<string>, i: nat)
    requires i < |raws|
    ensures Load(raws[..i + 1]) == Load(raws[..i]) + NormalizeLine(raws[i])
  {
    assert NormalizeAll(raws[..i + 1]) == NormalizeAll(raws[..i]) + [NormalizeLine(raws[i])];
    ConcatAppend(NormalizeAll(raws[..i]), NormalizeLine(raws[i]));
  }

  /** A first line that is not a bare terminator keeps every later `end` positive. */
  predicate WellFormed(ls: seq<string>)
  {
    AllLines(ls) && (ls != [] ==> ls[0] != "\n") && |Concat(ls)| <= MAX_STRING
  }

  /** Saving writes the text as it is; opening that file again reads the
      same text back, unless a line ended in a carriage return, which the
      reading loop drops. */
  lemma SaveOpenRoundTrip(s: string)
    requires |s| <= MAX_STRING && EndsInNewline(s) && NoCrLf(s)
    ensures Load(Getlines(s)) == s
  {
    ReadLines(SplitLines(s));
  }

  /** Loading a file gives its text with every carriage return before a
      line-feed dropped, and a line-feed added when the file lacks a last one. */
  lemma LoadNormalizes(s: string)
    ensures Load(Getlines(s)) == DropCrBeforeLf(if EndsInNewline(s) then s else s + "\n")
  {
    if EndsInNewline(s) {
      ReadText(s);
    } else {
      GetlinesUnterminated(s);
      ReadText(s + "\n");
    }
  }

  /** Each pass of the scan moves from the start of line `k` to the start of
      line `k + 1`, until the requested line or the end of the text. */
  lemma {:induction false} ScanLines(ls: seq<string>, lineNum: nat, k: nat, end: nat)
    requires WellFormed(ls)
    requires k <= lineNum && k <= |ls|
    requires k == 0 ==> end == 0
    requires k > 0 ==> end + 1 == Start(ls, k)
    ensures end == 0 || end < |Concat(ls)|
    ensures Scan(Concat(ls), lineNum, k, end) ==
      if lineNum < |ls| then (Start(ls, lineNum), Start(ls, lineNum) + |ls[lineNum]| - 1)
      else (|Concat(ls)|, NPOS)
    decreases lineNum - k
  {
    var s := Concat(ls);
    BeginOfLine(ls, k, end);
    if k < |ls| {
      var q := Start(ls, k) + |ls[k]| - 1;
      FindLine(ls, k);
      LineInConcat(ls, k);
      ScanFound(s, lineNum, k, end, q);
      if k < lineNum {
        StartNext(ls, k);
        ScanLines(ls, lineNum, k + 1, q);
      }
    } else {
      StartOfEnd(ls);
      ScanAtEnd(s, lineNum, k, end);
    }
  }

  /** One pass of the scan that finds a terminator at `q`. */
  lemma ScanFound(s: string, lineNum: nat, k: nat, end: nat, q: nat)
    requires |s| <= MAX_STRING && k <= lineNum && (end == 0 || end < |s|)
    requires q < |s| && Find(s, if end > 0 then end + 1 else 0) == q
    ensures Scan(s, lineNum, k, end) ==
      if k < lineNum then Scan(s, lineNum, k + 1, q) else (if end > 0 then end + 1 else 0, q)
  {
  }

  /** A pass that starts at the end of the text finds no terminator. */
  lemma ScanAtEnd(s: string, lineNum: nat, k: nat, end: nat)
    requires |s| <= MAX_STRING && k <= lineNum && (end == 0 || end < |s|)
    requires (if end > 0 then end + 1 else 0) == |s|
    ensures Scan(s, lineNum, k, end) == (|s|, NPOS)
  {
  }

  /** Where the scan's pass over line `k` begins. */
  lemma BeginOfLine(ls: seq<string>, k: nat, end: nat)
    requires WellFormed(ls) && k <= |ls|
    requires k == 0 ==> end == 0
    requires k > 0 ==> end + 1 == Start(ls, k)
    ensures (if end > 0 then end + 1 else 0) == Start(ls, k)
    ensures end == 0 || end < |Concat(ls)|
  {
    if k == 0 {
      assert ls[..0] == [];
    } else {
      assert ls[..k][0] == ls[0];
      assert IsLine(ls[0]);
    }
  }

  /** From the start of line `k` the next terminator is the one ending line `k`. */
  lemma FindLine(ls: seq<string>, k: nat)
    requires AllLines(ls) && k < |ls| && |Concat(ls)| <= MAX_STRING
    ensures Find(Concat(ls), Start(ls, k)) == Start(ls, k) + |ls[k]| - 1
  {
    var s, b, l := Concat(ls), Start(ls, k), ls[k];
    assert IsLine(l);
    LineInConcat(ls, k);
    assert s[b .. b + |l| - 1] == l[..|l| - 1];
    assert s[b + |l| - 1] == s[b .. b + |l|][|l| - 1];
    FindAt(s, b, b + |l| - 1);
  }

  /** `find` from `b` stops at `q` when `q` holds the first terminator from `b` on. */
  lemma {:induction false} FindAt(s: string, b: nat, q: nat)
    requires |s| < NPOS && b <= q < |s| && s[q] == '\n' && NoNewline(s[b..q])
    ensures Find(s, b) == q
    decreases q - b
  {
    if b < q {
      assert s[b..q][0] == s[b] && s[b..q][1..] == s[b + 1..q];
      FindAt(s, b + 1, q);
    }
  }

  /** The bounds the scan finds on well-formed text. */
  lemma LineBoundsOfLines(ls: seq<string>, n: uint32)
    requires WellFormed(ls)
    ensures n < |ls| ==> Start(ls, n) + |ls[n]| <= |Concat(ls)|
    ensures LineBounds(Concat(ls), n) ==
      if n < |ls| then (Start(ls, n), Start(ls, n) + |ls[n]| - 1) else (|Concat(ls)|, NPOS)
  {
    ScanLines(ls, n, 0, 0);
    if n < |ls| {
      ConcatAround(ls, n);
    }
  }

  /** getLine on well-formed text returns line `i` with its terminator, and the
      empty string for every index past the last line. */
  lemma GetLineOfLines(ls: seq<string>, i: uint32)
    requires WellFormed(ls)
    ensures LineAt(Concat(ls), i) == if i < |ls| then ls[i] else ""
  {
    var s := Concat(ls);
    if i < |ls| {
      var begin, end := Start(ls, i), Start(ls, i) + |ls[i]| - 1;
      LineBoundsOfLines(ls, i);
      LineInConcat(ls, i);
      assert SizeAdd(SizeSub(end, begin), 1) == end + 1 - begin;
    } else {
      assert LineBounds(s, i) == (|s|, NPOS) by {
        LineBoundsOfLines(ls, i);
      }
    }
  }

  /** Where an edit lands on well-formed text: at `col` of line
      `ToUint32(line)` when that line exists and `col` is at most its clean
      length, and nowhere otherwise. */
  lemma EditPosOfLines(ls: seq<string>, line: int32, col: int32)
    requires WellFormed(ls)
    ensures ToUint32(line) < |ls| && 0 <= col <= CleanLen(ls[ToUint32(line)]) ==>
      EditPos(Concat(ls), line, col) == Some(Start(ls, ToUint32(line)) + col)
    ensures !(ToUint32(line) < |ls| && 0 <= col <= CleanLen(ls[ToUint32(line)])) ==>
      EditPos(Concat(ls), line, col) == None
  {
    var k := ToUint32(line);
    if k < |ls| && 0 <= col <= CleanLen(ls[k]) {
      EditPosInLine(ls, line, col);
    } else {
      LineBoundsOfLines(ls, k);
      var bounds := LineBounds(Concat(ls), k);
      EditPosFromBounds(Concat(ls), line, col, bounds.0, bounds.1);
      if k < |ls| {
        assert IsLine(ls[k]);
      }
    }
  }

  lemma EditPosInLine(ls: seq<string>, line: int32, col: int32)
    requires WellFormed(ls)
    requires ToUint32(line) < |ls| && 0 <= col <= CleanLen(ls[ToUint32(line)])
    ensures EditPos(Concat(ls), line, col) == Some(Start(ls, ToUint32(line)) + col)
  {
    BoundsInLine(ls, ToUint32(line));
    EditPosAtBounds(ls, line, col);
  }

  lemma EditPosAtBounds(ls: seq<string>, line: int32, col: int32)
    requires |Concat(ls)| <= MAX_STRING
    requires ToUint32(line) < |ls| && 0 <= col <= CleanLen(ls[ToUint32(line)])
    requires LineBounds(Concat(ls), ToUint32(line)).0 == Start(ls, ToUint32(line))
    requires LineBounds(Concat(ls), ToUint32(line)).1 == Start(ls, ToUint32(line)) + |ls[ToUint32(line)]| - 1 < NPOS
    requires CleanLen(ls[ToUint32(line)]) == |ls[ToUint32(line)]| - 1
    ensures EditPos(Concat(ls), line, col) == Some(Start(ls, ToUint32(line)) + col)
  {
    var k := ToUint32(line);
    EditPosInside(Concat(ls), line, col, Start(ls, k), Start(ls, k) + |ls[k]| - 1);
  }

  lemma BoundsInLine(ls: seq<string>, k: uint32)
    requires WellFormed(ls) && k < |ls|
    ensures LineBounds(Concat(ls), k).0 == Start(ls, k)
    ensures LineBounds(Concat(ls), k).1 == Start(ls, k) + |ls[k]| - 1 < NPOS
    ensures CleanLen(ls[k]) == |ls[k]| - 1
  {
    assert IsLine(ls[k]);
    LineBoundsOfLines(ls, k);
  }

  lemma EditPosInside(s: string, line: int32, col: int32, begin: nat, end: nat)
    requires |s| <= MAX_STRING
    requires LineBounds(s, ToUint32(line)).0 == begin
    requires LineBounds(s, ToUint32(line)).1 == end
    requires end < NPOS
    requires 0 <= col
    requires col <= end - begin
    ensures EditPos(s, line, col) == Some(begin + col)
  {
    EditPosFromBounds(s, line, col, begin, end);
  }

  /** The range test in terms of the bounds: on a line with a terminator, any
      `col` from 0 up to the terminator passes; past the last terminator,
      nothing does. */
  lemma EditPosFromBounds(s: string, line: int32, col: int32, begin: nat, end: nat)
    requires |s| <= MAX_STRING && (begin, end) == LineBounds(s, ToUint32(line))
    ensures end != NPOS && 0 <= col <= end - begin ==> EditPos(s, line, col) == Some(begin + col)
    ensures end != NPOS && !(0 <= col <= end - begin) ==> EditPos(s, line, col) == None
    ensures end == NPOS && begin == |s| ==> EditPos(s, line, col) == None
  {
    if end != NPOS {
      if col >= 0 {
        assert ToSize(col) == col;
        assert SizeSub(end, begin) == end - begin;
        if col <= end - begin {
          assert SizeAdd(begin, col) == begin + col;
        }
      }
    } else if begin == |s| {
      if col >= 0 {
        assert SizeAdd(begin, ToSize(col)) == |s| + col;
      } else if ToSize(col) <= SizeSub(end, begin) {
        assert SizeAdd(begin, ToSize(col)) == |s| + col + SIZE_LIMIT;
      }
    }
  }

  /** An in-range `insertChar` puts `c` at `col` of the addressed line and leaves
      every other line as it was. */
  lemma InsertedLines(ls: seq<string>, c: char, line: int32, col: int32)
    requires WellFormed(ls)
    requires ToUint32(line) < |ls| && 0 <= col <= CleanLen(ls[ToUint32(line)])
    ensures var k := ToUint32(line);
      Inserted(Concat(ls), c, line, col) == Concat(ls[k := ls[k][..col] + [c] + ls[k][col..]])
  {
    EditPosInLine(ls, line, col);
    InsertedAt(Concat(ls), c, line, col, Start(ls, ToUint32(line)) + col);
    InsertInConcat(ls, ToUint32(line), col, c);
  }

  /** What the edits do once the range test has passed at `p`. */
  lemma InsertedAt(s: string, c: char, line: int32, col: int32, p: nat)
    requires |s| <= MAX_STRING && EditPos(s, line, col) == Some(p)
    ensures Inserted(s, c, line, col) == s[..p] + [c] + s[p..]
  {
  }

  lemma DeletedAt(s: string, line: int32, col: int32, p: nat)
    requires |s| <= MAX_STRING && EditPos(s, line, col) == Some(p)
    ensures Deleted(s, line, col) == if s[p] == '\n' then s else s[..p] + s[p + 1..]
  {
  }

  /** An in-range `delChar` removes the character at `col` of the addressed
      line, unless it is that line's terminator, which it keeps. */
  lemma DeletedLines(ls: seq<string>, line: int32, col: int32)
    requires WellFormed(ls)
    requires ToUint32(line) < |ls| && 0 <= col <= CleanLen(ls[ToUint32(line)])
    ensures var k := ToUint32(line);
      Deleted(Concat(ls), line, col) ==
        if col == CleanLen(ls[k]) then Concat(ls)
        else Concat(ls[k := ls[k][..col] + ls[k][col + 1..]])
  {
    var k := ToUint32(line);
    assert IsLine(ls[k]);
    EditPosInLine(ls, line, col);
    DeletedAt(Concat(ls), line, col, Start(ls, k) + col);
    DeleteInConcat(ls, k, col);
    TerminatorAtEnd(ls[k], col);
  }

  /** Edits past a line's clean length, or of a line that does not exist, do
      nothing. */
  lemma EditOutOfRange(ls: seq<string>, c: char, line: int32, col: int32)
    requires WellFormed(ls)
    requires ToUint32(line) >= |ls| || col < 0 || col > CleanLen(ls[ToUint32(line)])
    ensures Inserted(Concat(ls), c, line, col) == Concat(ls)
    ensures Deleted(Concat(ls), line, col) == Concat(ls)
  {
    EditPosOfLines(ls, line, col);
  }

  /** Inserting a character other than a line-feed and deleting it again at the
      same place gives back the text. */
  lemma InsertDeleteLines(ls: seq<string>, c: char, line: int32, col: int32)
    requires WellFormed(ls) && |Concat(ls)| < MAX_STRING && c != '\n'
    requires ToUint32(line) < |ls| && 0 <= col <= CleanLen(ls[ToUint32(line)])
    ensures Deleted(Inserted(Concat(ls), c, line, col), line, col) == Concat(ls)
  {
    var k := ToUint32(line);
    var l := ls[k];
    InsertedLines(ls, c, line, col);
    InsertedWellFormed(ls, k, col, c);
    DeletedLines(ls[k := l[..col] + [c] + l[col..]], line, col);
    assert ls[k := l[..col] + [c] + l[col..]][k := l] == ls;
  }

  /** Inserting a character other than a line-feed before a line's terminator
      keeps the lines well formed and the character off the terminator. */
  lemma InsertedWellFormed(ls: seq<string>, k: nat, col: nat, c: char)
    requires WellFormed(ls) && |Concat(ls)| < MAX_STRING && c != '\n'
    requires k < |ls| && col <= CleanLen(ls[k])
    ensures var l' := ls[k][..col] + [c] + ls[k][col..];
      WellFormed(ls[k := l']) && col < CleanLen(l') && l'[..col] + l'[col + 1..] == ls[k]
  {
    var l := ls[k];
    var l' := l[..col] + [c] + l[col..];
    assert IsLine(l);
    InsertIntoLine(l, col, c);
    AllLinesUpdate(ls, k, l');
    ConcatUpdate(ls, k, l');
    ConcatAround(ls, k);
    if k == 0 {
      assert |l'| >= 2;
    }
  }

  /** The same round trip stated on the buffer's text: any content that is
      empty or ends in a terminator and does not start with one. */
  lemma InsertDeleteRoundTrip(s: string, c: char, line: int32, col: int32)
    requires |s| < MAX_STRING && EndsInNewline(s) && (s == [] || s[0] != '\n')
    requires c != '\n' && EditPos(s, line, col).Some?
    ensures Deleted(Inserted(s, c, line, col), line, col) == s
  {
    var ls := SplitLines(s);
    EditPosOfLines(ls, line, col);
    InsertDeleteLines(ls, c, line, col);
  }

  /** getLine on the buffer's text: with `n` terminators and no terminator in
      front, lines `0 .. n - 1` are the text's lines, terminators included, and
      every later index gives the empty string. */
  lemma GetLineOfContent(s: string, i: uint32)
    requires |s| <= MAX_STRING && EndsInNewline(s) && (s == [] || s[0] != '\n')
    ensures i < CountNewlines(s) ==> IsLine(LineAt(s, i)) && LineAt(s, i) == SplitLines(s)[i]
    ensures i >= CountNewlines(s) ==> LineAt(s, i) == ""
  {
    GetLineOfLines(SplitLines(s), i);
  }

  /** After loading, line `i` is the `i`-th line read, normalized, and there is
      no extra line. */
  lemma GetLineAfterLoad(raws: seq<string>, i: uint32)
    requires FromGetline(raws)
    requires raws != [] ==> raws[0] != "" && raws[0] != "\r"
    requires |Load(raws)| <= MAX_STRING
    ensures CountNewlines(Load(raws)) == |raws|
    ensures LineAt(Load(raws), i) == if i < |raws| then NormalizeLine(raws[i]) else ""
  {
    var ls := NormalizeAll(raws);
    if raws != [] {
      assert |ls[0]| >= 2;
    }
    CountAllLines(ls);
    GetLineOfLines(ls, i);
  }

  /** ArrayBuffer.cpp:49 tells a later pass from the first by `end > 0`. When
      the text starts with a terminator, `end` stays 0 and every line number
      resolves to line 0. */
  lemma LeadingNewlineQuirk(s: string, lineNum: uint32)
    requires |s| <= MAX_STRING && s != [] && s[0] == '\n'
    ensures LineBounds(s, lineNum) == (0, 0)
    ensures LineAt(s, lineNum) == "\n"
  {
    ScanStuck(s, lineNum, 0);
  }

  lemma {:induction false} ScanStuck(s: string, lineNum: nat, k: nat)
    requires |s| <= MAX_STRING && s != [] && s[0] == '\n' && k <= lineNum
    ensures Scan(s, lineNum, k, 0) == (0, 0)
    decreases lineNum - k
  {
    if k < lineNum {
      ScanStuck(s, lineNum, k + 1);
    }
  }
}
