/** How the two buffer implementations relate: the vector of lines, written
    out, is the contiguous text. When the first line is not blank, the two
    agree on loading, on `getLine` and on every edit inside the clean length
    of a terminated line. They part ways on a blank first line, on a line's
    terminator and on the vector's editable last line. */
module Agreement {
  import opened Native
  import opened Optional
  import opened Lines
  import opened Reading
  import opened Utils
  import AB = ArrayBufferModel
  import AAB = ArrayArrayBufferModel

  /** The lines of a vector that the text buffer can hold too: all complete
      except an empty editable last one, the first not a bare terminator. */
  predicate Matching(m: seq<string>)
  {
    m != [] && m[|m| - 1] == "" && AB.WellFormed(m[..|m| - 1]) && |Concat(m)| <= MAX_STRING
  }

  lemma MatchingConcat(m: seq<string>)
    requires m != [] && m[|m| - 1] == ""
    ensures Concat(m) == Concat(m[..|m| - 1])
  {
    SplitLast(m);
    ConcatAppend(m[..|m| - 1], "");
  }

  /** Both constructors read the same text from an open file. */
  lemma LoadAgrees(raws: seq<string>)
    ensures Concat(AAB.Load(Some(raws))) == AB.Load(raws)
  {
    MatchingConcat(AAB.Load(Some(raws)));
    assert AAB.Load(Some(raws))[..|raws|] == NormalizeAll(raws);
  }

  /** Loading gives matching lines when the first line read is not blank. */
  lemma LoadMatching(raws: seq<string>)
    requires FromGetline(raws)
    requires raws != [] ==> raws[0] != "" && raws[0] != "\r"
    requires |AB.Load(raws)| <= MAX_STRING
    ensures Matching(AAB.Load(Some(raws)))
  {
    var ls := NormalizeAll(raws);
    forall i | 0 <= i < |ls|
      ensures IsLine(ls[i])
    {
      assert ls[i] == NormalizeLine(raws[i]);
    }
    if raws != [] {
      assert ls[0] == NormalizeLine(raws[0]);
    }
    assert AB.WellFormed(ls);
    var m := AAB.Load(Some(raws));
    assert m[..|m| - 1] == ls;
    LoadAgrees(raws);
  }

  /** On matching lines `getLine` agrees, the text buffer giving the empty
      string where the vector has no line. */
  lemma GetLineAgrees(m: seq<string>, i: uint32)
    requires Matching(m)
    ensures AB.LineAt(Concat(m), i) == match AAB.LineAt(m, i) case Some(l) => l case None => ""
  {
    var ls := m[..|m| - 1];
    MatchingConcat(m);
    AB.GetLineOfLines(ls, i);
  }

  /** Both buffers address (`line`, `col`) at the same offset of the text,
      the vector holding the text's lines `ls` and an empty last line. */
  lemma EditPosAgrees(ls: seq<string>, line: int32, col: int32)
    requires AB.WellFormed(ls) && 0 <= line < |ls| && 0 <= col <= CleanLen(ls[line])
    ensures |Concat(ls + [""])| <= MAX_STRING
    ensures AB.EditPos(Concat(ls + [""]), line, col) == Some(Start(ls + [""], line) + col)
  {
    ConcatAppend(ls, "");
    assert Concat(ls + [""]) == Concat(ls);
    assert (ls + [""])[..line] == ls[..line];
    assert Start(ls + [""], line) == Start(ls, line);
    assert ToUint32(line) == line;
    AB.EditPosInLine(ls, line, col);
  }

  /** Inside a line's clean length, inserting any character, a line-feed
      included, writes out to the same text. */
  lemma InsertAgrees(ls: seq<string>, c: char, line: int32, col: int32)
    requires AB.WellFormed(ls) && 0 <= line < |ls| && 0 <= col <= CleanLen(ls[line])
    ensures |Concat(ls + [""])| <= MAX_STRING
    ensures Concat(AAB.Inserted(ls + [""], c, line, col)) == AB.Inserted(Concat(ls + [""]), c, line, col)
  {
    EditPosAgrees(ls, line, col);
    AB.InsertedAt(Concat(ls + [""]), c, line, col, Start(ls + [""], line) + col);
    AAB.SavedInsert(ls + [""], c, line, col);
  }

  /** Before a line's terminator, deleting writes out to the same text. */
  lemma DeleteAgrees(ls: seq<string>, line: int32, col: int32)
    requires AB.WellFormed(ls) && 0 <= line < |ls| && 0 <= col < CleanLen(ls[line])
    ensures |Concat(ls + [""])| <= MAX_STRING
    ensures !AAB.ErasesPastEnd(ls + [""], line, col)
    ensures Concat(AAB.Deleted(ls + [""], line, col)) == AB.Deleted(Concat(ls + [""]), line, col)
  {
    TerminatorAtEnd(ls[line], col);
    assert (ls + [""])[line] == ls[line];
    EditPosAgrees(ls, line, col);
    var s, p := Concat(ls + [""]), Start(ls + [""], line) + col;
    AB.DeletedAt(s, line, col, p);
    AAB.SavedDelete(ls + [""], line, col);
    assert s[p] != '\n';
  }

  /** On a terminator the two part ways: the text buffer keeps it, while the
      vector joins the next line on and the text loses one line-feed. */
  lemma DeleteTerminatorDiffers(ls: seq<string>, line: int32, col: int32)
    requires AB.WellFormed(ls) && 0 <= line < |ls| && col == CleanLen(ls[line])
    ensures |Concat(ls + [""])| <= MAX_STRING
    ensures AB.Deleted(Concat(ls + [""]), line, col) == Concat(ls + [""])
    ensures !AAB.ErasesPastEnd(ls + [""], line, col)
    ensures |Concat(AAB.Deleted(ls + [""], line, col))| + 1 == |Concat(ls + [""])|
  {
    ConcatAppend(ls, "");
    assert Concat(ls + [""]) == Concat(ls);
    TextKeepsTerminator(ls, line, col);
    VectorJoinsLines(ls, line, col);
  }

  lemma TextKeepsTerminator(ls: seq<string>, line: int32, col: int32)
    requires AB.WellFormed(ls) && 0 <= line < |ls| && col == CleanLen(ls[line])
    ensures AB.Deleted(Concat(ls), line, col) == Concat(ls)
  {
    assert ToUint32(line) == line;
    AB.DeletedLines(ls, line, col);
  }

  lemma VectorJoinsLines(ls: seq<string>, line: int32, col: int32)
    requires AllLines(ls) && 0 <= line < |ls| && col == CleanLen(ls[line])
    ensures !AAB.ErasesPastEnd(ls + [""], line, col)
    ensures |Concat(AAB.Deleted(ls + [""], line, col))| + 1 == |Concat(ls + [""])|
  {
    assert IsLine(ls[line]) && (ls + [""])[line] == ls[line];
    AAB.SavedDelete(ls + [""], line, col);
  }

  /** A blank first line: the text buffer resolves every line number to
      that line and edits at its start, while the vector reaches the line
      asked for. */
  lemma LeadingBlankLineDiffers(ls: seq<string>, c: char, line: int32)
    requires AllLines(ls) && ls != [] && ls[0] == "\n" && |Concat(ls)| <= MAX_STRING
    requires 0 < line < |ls|
    ensures |Concat(ls + [""])| <= MAX_STRING
    ensures AB.LineAt(Concat(ls + [""]), line) == "\n"
    ensures AAB.LineAt(ls + [""], line) == Some(ls[line])
    ensures AB.Inserted(Concat(ls + [""]), c, line, 0) == [c] + Concat(ls + [""])
    ensures var s := Concat(ls + [""]); var p := Start(ls + [""], line);
      0 < p <= |s| && Concat(AAB.Inserted(ls + [""], c, line, 0)) == s[..p] + [c] + s[p..]
  {
    ConcatAppend(ls, "");
    assert Concat(ls + [""]) == Concat(ls) == ls[0] + Concat(ls[1..]);
    TextLeadingBlank(Concat(ls + [""]), c, line);
    LeadingStart(ls + [""], line);
    AAB.SavedInsert(ls + [""], c, line, 0);
  }

  lemma TextLeadingBlank(s: string, c: char, line: int32)
    requires |s| <= MAX_STRING && s != [] && s[0] == '\n' && 0 <= line
    ensures AB.LineAt(s, line) == "\n"
    ensures AB.Inserted(s, c, line, 0) == [c] + s
  {
    assert ToUint32(line) == line && ToSize(0) == 0;
    AB.LeadingNewlineQuirk(s, line);
    assert AB.EditPos(s, line, 0) == Some(0);
    assert s[..0] == [] && s[0..] == s;
  }

  lemma LeadingStart(m: seq<string>, line: nat)
    requires 0 < line <= |m| && m[0] == "\n"
    ensures Start(m, line) > 0
  {
    assert m[..line] == [m[0]] + m[1..line];
    assert Concat(m[..line]) == m[0] + Concat(m[1..line]);
  }

  /** The vector's empty last line takes characters, while the text buffer
      has no such line and ignores the call: a buffer loaded from an empty
      file cannot be typed into at all. */
  lemma LastLineInsertDiffers(ls: seq<string>, c: char, line: int32)
    requires AB.WellFormed(ls) && line == |ls|
    ensures |Concat(ls + [""])| <= MAX_STRING
    ensures AB.Inserted(Concat(ls + [""]), c, line, 0) == Concat(ls + [""])
    ensures Concat(AAB.Inserted(ls + [""], c, line, 0)) == Concat(ls + [""]) + [c]
  {
    ConcatAppend(ls, "");
    assert Concat(ls + [""]) == Concat(ls);
    assert ToUint32(line) == line;
    AB.EditOutOfRange(ls, c, line, 0);
    assert (ls + [""])[..line] == ls;
    assert Start(ls + [""], line) == |Concat(ls)|;
    AAB.SavedInsert(ls + [""], c, line, 0);
    var s := Concat(ls);
    assert s[..|s|] == s && s[|s|..] == [];
  }
}
