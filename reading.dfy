/** How a saved file is read back in: the lines `std::getline` yields. */
module Reading {
  import opened Lines

  /** What `getline` yields never holds its delimiter. */
  predicate FromGetline(raws: seq<string>)
  {
    forall i :: 0 <= i < |raws| ==> NoNewline(raws[i])
  }

  /** No carriage return right before a line-feed: text the reading loops
      give back unchanged. */
  predicate NoCrLf(s: string)
  {
    forall i :: 0 < i < |s| && s[i] == '\n' ==> s[i - 1] != '\r'
  }

  /** The text with every carriage return that directly precedes a line-feed
      removed, and nothing else changed. */
  function DropCrBeforeLf(s: string): (r: string)
    ensures |r| <= |s|
  {
    if s == [] then []
    else if |s| >= 2 && s[0] == '\r' && s[1] == '\n' then DropCrBeforeLf(s[1..])
    else [s[0]] + DropCrBeforeLf(s[1..])
  }

  /** Where the first line-feed of `s` is, or `|s|` when it has none. */
  function LineLength(s: string): (n: nat)
    ensures n <= |s| && NoNewline(s[..n])
    ensures n < |s| ==> s[n] == '\n'
  {
    if s == [] || s[0] == '\n' then 0
    else
      var n := 1 + LineLength(s[1..]);
      assert s[..n][1..] == s[1..][..n - 1];
      n
  }

  /** The lines `getline` yields from a file holding `s`: the pieces between
      line-feeds, and a last unterminated piece only when it is not empty. */
  function Getlines(s: string): (raws: seq<string>)
    ensures FromGetline(raws)
    decreases |s|
  {
    if s == [] then []
    else
      var n := LineLength(s);
      if n == |s| then
        assert s[..n] == s;
        [s]
      else
        var rest := Getlines(s[n + 1..]);
        assert forall i :: 1 <= i < 1 + |rest| ==> ([s[..n]] + rest)[i] == rest[i - 1];
        [s[..n]] + rest
  }

  lemma {:induction false} LineLengthOfLine(l: string, rest: string)
    requires IsLine(l)
    ensures LineLength(l + rest) == |l| - 1
  {
    if |l| > 1 {
      assert l[0] == l[..|l| - 1][0];
      assert l[1..][..|l| - 2] == l[..|l| - 1][1..];
      assert (l + rest)[1..] == l[1..] + rest;
      LineLengthOfLine(l[1..], rest);
    }
  }

  lemma GetlinesOfLine(l: string, tail: string)
    requires IsLine(l)
    ensures Getlines(l + tail) == [l[..|l| - 1]] + Getlines(tail)
  {
    LineLengthOfLine(l, tail);
    var s := l + tail;
    assert s[..|l| - 1] == l[..|l| - 1] && s[|l|..] == tail;
  }

  /** A last line without a line-feed reads the same as that line with one:
      `getline` yields it either way. */
  lemma {:induction false} GetlinesUnterminated(s: string)
    requires !EndsInNewline(s)
    ensures Getlines(s + "\n") == Getlines(s)
    decreases |s|
  {
    var n := LineLength(s);
    if n == |s| {
      assert s[..n] == s;
      NoNewlineAt(s);
      assert (s + "\n")[..|s|] == s;
      GetlinesOfLine(s + "\n", []);
      assert s + "\n" + [] == s + "\n";
    } else {
      var l, rest := s[..n + 1], s[n + 1..];
      assert l[..n] == s[..n];
      assert s == l + rest && s + "\n" == l + (rest + "\n");
      GetlinesOfLine(l, rest);
      GetlinesOfLine(l, rest + "\n");
      GetlinesUnterminated(rest);
    }
  }

  lemma NoCrLfSuffix(s: string, k: nat)
    requires NoCrLf(s) && k <= |s|
    ensures NoCrLf(s[k..])
  {
    var t := s[k..];
    forall i | 0 < i < |t| && t[i] == '\n'
      ensures t[i - 1] != '\r'
    {
      assert s[k + i] == t[i] && s[k + i - 1] == t[i - 1];
    }
  }

  lemma NormalizeAllCons(raw: string, raws: seq<string>)
    ensures NormalizeAll([raw] + raws) == [NormalizeLine(raw)] + NormalizeAll(raws)
  {
  }

  /** A complete line whose text does not end in a carriage return is what
      normalizing that text gives. */
  lemma NormalizeOfLine(l: string, tail: string)
    requires IsLine(l) && NoCrLf(l + tail)
    ensures NormalizeLine(l[..|l| - 1]) == l
  {
    var n := |l| - 1;
    var s := l + tail;
    if n > 0 {
      assert s[n] == '\n' && s[n - 1] == l[..n][n - 1];
    }
    assert l == l[..n] + "\n";
  }

  /** Reading back text made of complete lines, with no carriage return before
      a terminator, and normalizing each line gives the same lines. */
  lemma {:induction false} ReadLines(ls: seq<string>)
    requires AllLines(ls) && NoCrLf(Concat(ls))
    ensures NormalizeAll(Getlines(Concat(ls))) == ls
  {
    if ls != [] {
      var l, tail := ls[0], Concat(ls[1..]);
      assert IsLine(l) && AllLines(ls[1..]);
      GetlinesOfLine(l, tail);
      NoCrLfSuffix(l + tail, |l|);
      assert (l + tail)[|l|..] == tail;
      ReadLines(ls[1..]);
      NormalizeOfLine(l, tail);
      NormalizeAllCons(l[..|l| - 1], Getlines(tail));
      assert [l] + ls[1..] == ls;
    }
  }

  /** Normalizing a line other than a lone carriage return keeps its first
      character in front. */
  lemma NormalizeCons(t: string)
    requires t != [] && t != "\r"
    ensures NormalizeLine(t) == [t[0]] + NormalizeLine(t[1..])
  {
    var u := t[1..];
    assert t == [t[0]] + u;
    if u != [] {
      assert t[|t| - 1] == u[|u| - 1];
      assert t[..|t| - 1] == [t[0]] + u[..|u| - 1];
    }
  }

  /** One line read and normalized is what dropping the carriage return
      before its line-feed leaves of it. */
  lemma {:induction false} DropCrLine(t: string, rest: string)
    requires NoNewline(t)
    ensures DropCrBeforeLf(t + "\n" + rest) == NormalizeLine(t) + DropCrBeforeLf(rest)
    decreases |t|
  {
    if t == [] {
      DropCrAtLf(rest);
    } else if t == "\r" {
      DropCrAtCrLf(rest);
    } else {
      DropCrStep(t, rest);
      DropCrLine(t[1..], rest);
      NormalizeCons(t);
    }
  }

  lemma DropCrAtLf(rest: string)
    ensures DropCrBeforeLf([] + "\n" + rest) == NormalizeLine([]) + DropCrBeforeLf(rest)
  {
    var s := [] + "\n" + rest;
    assert s[1..] == rest;
  }

  lemma DropCrAtCrLf(rest: string)
    ensures DropCrBeforeLf("\r" + "\n" + rest) == NormalizeLine("\r") + DropCrBeforeLf(rest)
  {
    var s := "\r" + "\n" + rest;
    assert s[1..] == [] + "\n" + rest;
    DropCrAtLf(rest);
  }

  /** Inside a line other than a lone carriage return, the first character
      is kept. */
  lemma DropCrStep(t: string, rest: string)
    requires NoNewline(t) && t != [] && t != "\r"
    ensures NoNewline(t[1..])
    ensures DropCrBeforeLf(t + "\n" + rest) == [t[0]] + DropCrBeforeLf(t[1..] + "\n" + rest)
  {
    var s := t + "\n" + rest;
    assert s[1..] == t[1..] + "\n" + rest;
    if |t| > 1 {
      assert s[1] == t[1] && t[1] == t[1..][0];
    }
  }

  /** Reading a text that ends in a line-feed and normalizing every line gives
      the text with each carriage return before a line-feed dropped. */
  lemma {:induction false} ReadText(s: string)
    requires EndsInNewline(s)
    ensures Concat(NormalizeAll(Getlines(s))) == DropCrBeforeLf(s)
    decreases |s|
  {
    if s != [] {
      var n := LineLength(s);
      assert n < |s| by {
        if n == |s| {
          assert s[..n] == s;
          NoNewlineAt(s);
        }
      }
      var t, rest := s[..n], s[n + 1..];
      assert s == t + "\n" + rest;
      assert Getlines(s) == [t] + Getlines(rest);
      assert EndsInNewline(rest);
      ReadText(rest);
      NormalizeAllCons(t, Getlines(rest));
      var ls := [NormalizeLine(t)] + NormalizeAll(Getlines(rest));
      assert ls[1..] == NormalizeAll(Getlines(rest));
      DropCrLine(t, rest);
    }
  }
}
