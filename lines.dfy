/** What both buffers mean by a line, and how a file's lines are read in and
    written back out. */
module Lines {

  /** Text without a line-feed, checked one character at a time. */
  predicate NoNewline(t: string)
  {
    t == [] || (t[0] != '\n' && NoNewline(t[1..]))
  }

  /** `NoNewline` position by position. */
  lemma {:induction false} NoNewlineAt(t: string)
    ensures NoNewline(t) <==> forall i :: 0 <= i < |t| ==> t[i] != '\n'
  {
    if t != [] {
      NoNewlineAt(t[1..]);
      assert forall i :: 0 < i < |t| ==> t[i] == t[1..][i - 1];
    }
  }

  lemma NoNewlineConcat(a: string, b: string)
    ensures NoNewline(a + b) <==> NoNewline(a) && NoNewline(b)
  {
    NoNewlineAt(a);
    NoNewlineAt(b);
    NoNewlineAt(a + b);
    if NoNewline(a + b) {
      forall i | 0 <= i < |a|
        ensures a[i] != '\n'
      {
        assert (a + b)[i] == a[i];
      }
      forall i | 0 <= i < |b|
        ensures b[i] != '\n'
      {
        assert (a + b)[|a| + i] == b[i];
      }
    }
  }

  lemma NoNewlineSlice(t: string, i: nat, j: nat)
    requires NoNewline(t) && i <= j <= |t|
    ensures NoNewline(t[i..j])
  {
    NoNewlineAt(t);
    NoNewlineAt(t[i..j]);
  }

  /** A complete line: some text without a line-feed, then exactly one `'\n'`. */
  predicate IsLine(l: string)
  {
    |l| > 0 && l[|l| - 1] == '\n' && NoNewline(l[..|l| - 1])
  }

  predicate AllLines(ls: seq<string>)
  {
    forall i :: 0 <= i < |ls| ==> IsLine(ls[i])
  }

  /** The contiguous buffer's invariant: its text is empty or ends in a terminator. */
  predicate EndsInNewline(s: string)
  {
    s == [] || s[|s| - 1] == '\n'
  }

  function CountNewlines(s: string): nat
  {
    multiset(s)['\n']
  }

  /** The lines written one after another: what a save writes. */
  function Concat(ls: seq<string>): string
  {
    if ls == [] then [] else ls[0] + Concat(ls[1..])
  }

  /** Where line `k` starts in `Concat(ls)`. */
  function Start(ls: seq<string>, k: nat): (r: nat)
    requires k <= |ls|
    ensures r <= |Concat(ls)|
  {
    ConcatSplit(ls, k);
    |Concat(ls[..k])|
  }

  /** One line as the constructors store it, from what `getline` yielded: one
      trailing carriage return dropped, a line-feed appended. */
  function NormalizeLine(raw: string): (l: string)
    ensures |l| > 0 && l[|l| - 1] == '\n'
    ensures |raw| > 0 && raw[|raw| - 1] == '\r' ==> l == raw[..|raw| - 1] + "\n"
    ensures !(|raw| > 0 && raw[|raw| - 1] == '\r') ==> l == raw + "\n"
    ensures NoNewline(raw) ==> IsLine(l)
  {
    var text := if |raw| > 0 && raw[|raw| - 1] == '\r' then raw[..|raw| - 1] else raw;
    assert raw == text || raw == text + "\r";
    NoNewlineAt(raw);
    NoNewlineAt(text);
    assert (text + "\n")[..|text|] == text;
    text + "\n"
  }

  function NormalizeAll(raws: seq<string>): (ls: seq<string>)
    ensures |ls| == |raws|
    ensures forall i :: 0 <= i < |raws| ==> ls[i] == NormalizeLine(raws[i])
  {
    seq(|raws|, i requires 0 <= i < |raws| => NormalizeLine(raws[i]))
  }

  lemma {:induction false} ConcatAppend(ls: seq<string>, l: string)
    ensures Concat(ls + [l]) == Concat(ls) + l
  {
    if ls == [] {
      assert [l][1..] == [];
    } else {
      assert (ls + [l])[1..] == ls[1..] + [l];
      ConcatAppend(ls[1..], l);
    }
  }

  lemma {:induction false} ConcatJoin(a: seq<string>, b: seq<string>)
    ensures Concat(a + b) == Concat(a) + Concat(b)
  {
    if a == [] {
      assert a + b == b;
    } else {
      assert (a + b)[1..] == a[1..] + b;
      ConcatJoin(a[1..], b);
    }
  }

  lemma SplitLast(ls: seq<string>)
    requires ls != []
    ensures ls == ls[..|ls| - 1] + [ls[|ls| - 1]]
  {
  }

  lemma UpdateAsSplice(ls: seq<string>, k: nat, l: string)
    requires k < |ls|
    ensures ls[k := l] == ls[..k] + [l] + ls[k + 1..]
  {
  }

  /** Two neighbouring lines written out read the same as their join. */
  lemma ConcatPair(pre: seq<string>, x: string, y: string, post: seq<string>)
    ensures Concat(pre + [x, y] + post) == Concat(pre + [x + y] + post)
  {
    ConcatJoin(pre + [x, y], post);
    ConcatJoin(pre, [x, y]);
    ConcatJoin(pre + [x + y], post);
    ConcatJoin(pre, [x + y]);
    ConcatAppend([x], y);
    ConcatAppend([], x);
    ConcatAppend([], x + y);
  }

  lemma {:induction false} ConcatSplit(ls: seq<string>, k: nat)
    requires k <= |ls|
    ensures Concat(ls) == Concat(ls[..k]) + Concat(ls[k..])
  {
    if k == 0 {
      assert ls[..0] == [] && ls[0..] == ls;
    } else {
      ConcatSplit(ls[1..], k - 1);
      assert ls[1..][..k - 1] == ls[1..k] && ls[1..][k - 1..] == ls[k..];
      assert ls[..k][0] == ls[0] && ls[..k][1..] == ls[1..k];
    }
  }

  /** `Concat(ls)` is the lines before `k`, line `k`, then the lines after it. */
  lemma {:induction false} ConcatAround(ls: seq<string>, k: nat)
    requires k < |ls|
    ensures Concat(ls) == Concat(ls[..k]) + ls[k] + Concat(ls[k + 1..])
    ensures Start(ls, k + 1) == Start(ls, k) + |ls[k]|
    ensures Start(ls, k) + |ls[k]| <= |Concat(ls)|
  {
    ConcatSplit(ls, k);
    var rest := ls[k..];
    assert rest[0] == ls[k] && rest[1..] == ls[k + 1..];
    assert Concat(rest) == ls[k] + Concat(ls[k + 1..]);
    assert ls[..k + 1] == ls[..k] + [ls[k]];
    ConcatAppend(ls[..k], ls[k]);
  }

  /** Replacing one line replaces its stretch of the concatenation. */
  lemma {:induction false} ConcatUpdate(ls: seq<string>, k: nat, l: string)
    requires k < |ls|
    ensures Concat(ls[k := l]) == Concat(ls[..k]) + l + Concat(ls[k + 1..])
  {
    var ls' := ls[k := l];
    ConcatAround(ls', k);
    assert ls'[..k] == ls[..k] && ls'[k + 1..] == ls[k + 1..];
  }

  /** Each complete line holds exactly one line-feed, so `n` complete lines hold `n`. */
  lemma {:induction false} CountAllLines(ls: seq<string>)
    requires AllLines(ls)
    ensures CountNewlines(Concat(ls)) == |ls|
  {
    if ls != [] {
      var l := ls[0];
      assert l == l[..|l| - 1] + [l[|l| - 1]];
      NoNewlineAt(l[..|l| - 1]);
      assert '\n' !in l[..|l| - 1];
      assert multiset(l[..|l| - 1])['\n'] == 0;
      CountAllLines(ls[1..]);
    }
  }

  /** Lines that each end in a terminator concatenate to text that does. */
  lemma {:induction false} ConcatEndsInNewline(ls: seq<string>)
    requires forall i :: 0 <= i < |ls| ==> |ls[i]| > 0 && ls[i][|ls[i]| - 1] == '\n'
    ensures EndsInNewline(Concat(ls))
  {
    if ls != [] {
      ConcatEndsInNewline(ls[1..]);
    }
  }

  /** Inserting at offset `col` of the middle part of `a + l + b`. */
  lemma SpliceInsert(a: string, l: string, b: string, col: nat, c: char)
    requires col <= |l|
    ensures var s, p := a + l + b, |a| + col;
      s[..p] + [c] + s[p..] == a + (l[..col] + [c] + l[col..]) + b
  {
    var s, p := a + l + b, |a| + col;
    assert s[..p] == a + l[..col];
    assert s[p..] == l[col..] + b;
  }

  /** Removing offset `col` of the middle part of `a + l + b`. */
  lemma SpliceDelete(a: string, l: string, b: string, col: nat)
    requires col < |l|
    ensures var s, p := a + l + b, |a| + col;
      s[p] == l[col] && s[..p] + s[p + 1..] == a + (l[..col] + l[col + 1..]) + b
  {
    var s, p := a + l + b, |a| + col;
    assert s[..p] == a + l[..col];
    assert s[p + 1..] == l[col + 1..] + b;
  }

  lemma StartNext(ls: seq<string>, k: nat)
    requires k < |ls|
    ensures Start(ls, k + 1) == Start(ls, k) + |ls[k]|
  {
    ConcatAround(ls, k);
  }

  lemma StartOfEnd(ls: seq<string>)
    ensures Start(ls, |ls|) == |Concat(ls)|
  {
    assert ls[..|ls|] == ls;
  }

  /** Line `k` sits in the concatenation from `Start(ls, k)` on. */
  lemma LineInConcat(ls: seq<string>, k: nat)
    requires k < |ls|
    ensures Start(ls, k) + |ls[k]| <= |Concat(ls)|
    ensures Concat(ls)[Start(ls, k) .. Start(ls, k) + |ls[k]|] == ls[k]
  {
    ConcatAround(ls, k);
    var a, b := Concat(ls[..k]), Concat(ls[k + 1..]);
    assert (a + ls[k] + b)[|a| .. |a| + |ls[k]|] == ls[k];
  }

  /** Inserting at offset `col` of line `k` of the concatenation. */
  lemma InsertInConcat(ls: seq<string>, k: nat, col: nat, c: char)
    requires k < |ls| && col <= |ls[k]|
    ensures var s, p := Concat(ls), Start(ls, k) + col;
      p <= |s| && s[..p] + [c] + s[p..] == Concat(ls[k := ls[k][..col] + [c] + ls[k][col..]])
  {
    var l := ls[k];
    ConcatAround(ls, k);
    SpliceInsert(Concat(ls[..k]), l, Concat(ls[k + 1..]), col, c);
    ConcatUpdate(ls, k, l[..col] + [c] + l[col..]);
  }

  /** Removing offset `col` of line `k` of the concatenation. */
  lemma DeleteInConcat(ls: seq<string>, k: nat, col: nat)
    requires k < |ls| && col < |ls[k]|
    ensures var s, p := Concat(ls), Start(ls, k) + col;
      p < |s| && s[p] == ls[k][col] &&
      s[..p] + s[p + 1..] == Concat(ls[k := ls[k][..col] + ls[k][col + 1..]])
  {
    var l := ls[k];
    ConcatAround(ls, k);
    SpliceDelete(Concat(ls[..k]), l, Concat(ls[k + 1..]), col);
    ConcatUpdate(ls, k, l[..col] + l[col + 1..]);
  }

  /** The only line-feed of a line is its last character. */
  lemma TerminatorAtEnd(l: string, col: nat)
    requires IsLine(l) && col < |l|
    ensures l[col] == '\n' <==> col == |l| - 1
  {
    NoNewlineAt(l[..|l| - 1]);
    if col < |l| - 1 {
      assert l[col] == l[..|l| - 1][col];
    }
  }

  /** A character other than a line-feed inserted before a line's terminator
      keeps it a line, one longer, and removing it again restores the line. */
  lemma InsertIntoLine(l: string, col: nat, c: char)
    requires IsLine(l) && col < |l| && c != '\n'
    ensures var l' := l[..col] + [c] + l[col..];
      IsLine(l') && |l'| == |l| + 1 && l'[col] == c && l'[..col] + l'[col + 1..] == l
  {
    var l' := l[..col] + [c] + l[col..];
    assert l'[..|l'| - 1] == l[..col] + [c] + l[col..|l| - 1];
    NoNewlineAt(l[..|l| - 1]);
    NoNewlineAt(l'[..|l'| - 1]);
    assert l'[..col] == l[..col] && l'[col + 1..] == l[col..];
  }

  /** Removing a character other than the terminator from a line keeps it a line. */
  lemma DeleteFromLine(l: string, col: nat)
    requires IsLine(l) && col < |l| - 1
    ensures IsLine(l[..col] + l[col + 1..])
  {
    var t := l[..|l| - 1];
    var l' := l[..col] + l[col + 1..];
    assert l'[..|l'| - 1] == t[..col] + t[col + 1..];
    assert l'[|l'| - 1] == l[|l| - 1];
    NoNewlineSlice(t, 0, col);
    NoNewlineSlice(t, col + 1, |t|);
    assert t[0..col] == t[..col] && t[col + 1..|t|] == t[col + 1..];
    NoNewlineConcat(t[..col], t[col + 1..]);
  }

  /** Text without a line-feed in front of a complete line gives a complete line. */
  lemma PrefixLine(a: string, l: string)
    requires NoNewline(a) && IsLine(l)
    ensures IsLine(a + l)
  {
    assert (a + l)[..|a + l| - 1] == a + l[..|l| - 1];
    NoNewlineConcat(a, l[..|l| - 1]);
  }

  /** A line split at a point before its terminator: text, then a line. */
  lemma SplitLine(l: string, col: nat)
    requires IsLine(l) && col < |l|
    ensures NoNewline(l[..col]) && IsLine(l[col..])
  {
    var t := l[..|l| - 1];
    assert l[..col] == t[..col];
    NoNewlineSlice(t, 0, col);
    assert t[0..col] == t[..col];
    assert l[col..][..|l| - 1 - col] == t[col..] == t[col..|t|];
    assert l[col..][|l| - 1 - col] == l[|l| - 1];
    NoNewlineSlice(t, col, |t|);
  }

  lemma AllLinesJoin(a: seq<string>, b: seq<string>)
    ensures AllLines(a + b) <==> AllLines(a) && AllLines(b)
  {
    if AllLines(a) && AllLines(b) {
      forall i | 0 <= i < |a + b|
        ensures IsLine((a + b)[i])
      {
        if i >= |a| {
          assert (a + b)[i] == b[i - |a|];
        }
      }
    }
    if AllLines(a + b) {
      forall i | 0 <= i < |a|
        ensures IsLine(a[i])
      {
        assert (a + b)[i] == a[i];
      }
      forall i | 0 <= i < |b|
        ensures IsLine(b[i])
      {
        assert (a + b)[|a| + i] == b[i];
      }
    }
  }

  /** Replacing one line of complete lines by a complete line keeps them complete. */
  lemma AllLinesUpdate(ls: seq<string>, k: nat, l: string)
    requires AllLines(ls) && k < |ls| && IsLine(l)
    ensures AllLines(ls[k := l])
  {
  }
}
