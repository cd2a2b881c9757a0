/** The parts of the C++ string library that the shader splitter relies on:
    `std::string::find` (only ever compared with `npos`), `std::getline` on
    '\n', and what `ss << line << '\n'` accumulates in a `std::stringstream`. */
module Strings {

  /** `sub` occurs in `s` starting at index `i`. */
  ghost predicate OccursAt(s: string, sub: string, i: nat)
  {
    i + |sub| <= |s| && s[i..i + |sub|] == sub
  }

  /** Occurrences in `s` past its first character are the occurrences in `s[1..]`, shifted by one. */
  lemma OccursInTail(s: string, sub: string)
    requires s != []
    ensures forall i: nat :: 1 <= i && OccursAt(s, sub, i) ==> OccursAt(s[1..], sub, i - 1)
    ensures forall j: nat :: OccursAt(s[1..], sub, j) ==> OccursAt(s, sub, j + 1)
  {
    forall i: nat | 1 <= i && OccursAt(s, sub, i)
      ensures OccursAt(s[1..], sub, i - 1)
    {
      assert s[1..][i - 1..i - 1 + |sub|] == s[i..i + |sub|];
    }
    forall j: nat | OccursAt(s[1..], sub, j)
      ensures OccursAt(s, sub, j + 1)
    {
      assert s[1..][j..j + |sub|] == s[j + 1..j + 1 + |sub|];
    }
  }

  /** `s.find(sub) != std::string::npos`: compares `sub` with each window of `s` in turn. */
  function Contains(s: string, sub: string): (found: bool)
    decreases |s|
  {
    if |s| < |sub| then false
    else if s[..|sub|] == sub then true
    else Contains(s[1..], sub)
  }

  /** `Contains` holds exactly when `sub` occurs somewhere in `s`. */
  lemma {:induction false} ContainsIsOccurrence(s: string, sub: string)
    ensures Contains(s, sub) <==> exists i: nat :: OccursAt(s, sub, i)
    decreases |s|
  {
    if |s| >= |sub| {
      if s[..|sub|] == sub {
        assert OccursAt(s, sub, 0);
      } else {
        OccursInTail(s, sub);
        ContainsIsOccurrence(s[1..], sub);
        assert !OccursAt(s, sub, 0);
      }
    }
  }

  /** An occurrence at a known index is found. */
  lemma ContainsAt(s: string, sub: string, i: nat)
    requires OccursAt(s, sub, i)
    ensures Contains(s, sub)
  {
    ContainsIsOccurrence(s, sub);
  }

  /** A string none of whose characters starts `sub` does not contain `sub`. */
  lemma NotContainsFirst(s: string, sub: string)
    requires sub != [] && sub[0] !in s
    ensures !Contains(s, sub)
  {
    ContainsIsOccurrence(s, sub);
  }

  /** An occurrence of `sub` that covers a '\n' of `s` puts that '\n' in `sub`. */
  lemma NewlineInside(s: string, sub: string, i: nat, p: nat)
    requires OccursAt(s, sub, i) && i <= p < i + |sub| && s[p] == '\n'
    ensures '\n' in sub
  {
    assert sub[p - i] == s[i..i + |sub|][p - i];
  }

  /** An occurrence in a line terminated by '\n' and followed by more text lies
      on one side of the '\n' when `sub` itself holds no '\n'. */
  lemma {:induction false} ContainsAcrossNewline(a: string, b: string, sub: string)
    requires '\n' !in sub
    requires Contains(a + "\n" + b, sub)
    ensures Contains(a, sub) || Contains(b, sub)
  {
    var s := a + "\n" + b;
    ContainsIsOccurrence(s, sub);
    var i: nat :| OccursAt(s, sub, i);
    if i + |sub| <= |a| {
      OccursBeforeNewline(a, b, sub, i);
      ContainsAt(a, sub, i);
    } else if i > |a| {
      OccursAfterNewline(a, b, sub, i);
      ContainsAt(b, sub, i - |a| - 1);
    } else {
      NewlineInside(s, sub, i, |a|);
      assert false;
    }
  }

  /** An occurrence that ends before the '\n' is an occurrence in `a`. */
  lemma OccursBeforeNewline(a: string, b: string, sub: string, i: nat)
    requires OccursAt(a + "\n" + b, sub, i) && i + |sub| <= |a|
    ensures OccursAt(a, sub, i)
  {
    var s := a + "\n" + b;
    assert s[..|a|] == a;
    assert s[i..i + |sub|] == s[..|a|][i..i + |sub|];
  }

  /** An occurrence that starts after the '\n' is an occurrence in `b`. */
  lemma OccursAfterNewline(a: string, b: string, sub: string, i: nat)
    requires OccursAt(a + "\n" + b, sub, i) && i > |a|
    ensures OccursAt(b, sub, i - |a| - 1)
  {
    var s := a + "\n" + b;
    var j := i - |a| - 1;
    assert s[|a| + 1..] == b;
    assert s[i..i + |sub|] == s[|a| + 1..][j..j + |sub|];
  }

  /** The index of the first '\n' in `s` at or after `i`, or `|s|` when there is none. */
  function LineEnd(s: string, i: nat): (k: nat)
    requires i <= |s|
    ensures i <= k <= |s|
    ensures k < |s| ==> s[k] == '\n'
    ensures forall j :: i <= j < k ==> s[j] != '\n'
    decreases |s| - i
  {
    if i == |s| || s[i] == '\n' then i else LineEnd(s, i + 1)
  }

  /** The lines that successive `std::getline(stream, line)` calls extract from
      `s` before one fails: split at each '\n', the '\n' itself dropped, every
      other character (a '\r' included) kept, and no empty line after a final
      '\n'. A last line without a '\n' is still extracted. */
  function Lines(s: string): (ls: seq<string>)
    decreases |s|
  {
    if s == [] then
      []
    else
      var k := LineEnd(s, 0);
      if k == |s| then [s] else [s[..k]] + Lines(s[k + 1..])
  }

  /** No extracted line holds a '\n', and a text yields no line exactly when it is empty. */
  lemma {:induction false} LinesHaveNoNewline(s: string)
    ensures forall l :: l in Lines(s) ==> '\n' !in l
    ensures s == [] <==> Lines(s) == []
    decreases |s|
  {
    if s != [] {
      var k := LineEnd(s, 0);
      assert forall c :: c in s[..k] ==> c != '\n';
      if k < |s| {
        LinesUnfold(s);
        LinesHaveNoNewline(s[k + 1..]);
      }
    }
  }

  /** What `ss << line << '\n'` leaves in an initially empty stream for each line of `ls` in turn. */
  function JoinLines(ls: seq<string>): (text: string)
  {
    if ls == [] then [] else ls[0] + "\n" + JoinLines(ls[1..])
  }

  /** The number of characters `JoinLines(ls)` holds: each line and its '\n'. */
  function TotalSize(ls: seq<string>): (size: nat)
  {
    if ls == [] then 0 else |ls[0]| + 1 + TotalSize(ls[1..])
  }

  /** Appending the lines of `b` after those of `a` appends their text. */
  lemma {:induction false} JoinLinesAppend(a: seq<string>, b: seq<string>)
    ensures JoinLines(a + b) == JoinLines(a) + JoinLines(b)
  {
    if a != [] {
      assert (a + b)[1..] == a[1..] + b;
      calc {
        JoinLines(a + b);
        a[0] + "\n" + JoinLines(a[1..] + b);
        { JoinLinesAppend(a[1..], b); }
        a[0] + "\n" + (JoinLines(a[1..]) + JoinLines(b));
        JoinLines(a) + JoinLines(b);
      }
    } else {
      assert a + b == b;
    }
  }

  /** An accumulated stream is empty exactly when no line was added, otherwise
      ends in '\n', and holds each line plus one '\n' and nothing else. */
  lemma {:induction false} JoinLinesShape(ls: seq<string>)
    ensures JoinLines(ls) == [] <==> ls == []
    ensures ls != [] ==> JoinLines(ls)[|JoinLines(ls)| - 1] == '\n'
    ensures |JoinLines(ls)| == TotalSize(ls)
  {
    if ls != [] {
      JoinLinesShape(ls[1..]);
    }
  }

  /** When no line of `ls` contains `sub`, and `sub` holds no '\n', the accumulated text does not contain it either. */
  lemma {:induction false} JoinLinesAvoids(ls: seq<string>, sub: string)
    requires '\n' !in sub && sub != []
    requires forall l :: l in ls ==> !Contains(l, sub)
    ensures !Contains(JoinLines(ls), sub)
  {
    if ls != [] {
      JoinLinesAvoids(ls[1..], sub);
      if Contains(JoinLines(ls), sub) {
        ContainsAcrossNewline(ls[0], JoinLines(ls[1..]), sub);
      }
    }
  }

  /** `LineEnd` is determined by its contract: the first '\n' at or after `i`. */
  lemma LineEndIsFirstNewline(s: string, i: nat, k: nat)
    requires i <= k <= |s|
    requires k < |s| ==> s[k] == '\n'
    requires forall j :: i <= j < k ==> s[j] != '\n'
    ensures LineEnd(s, i) == k
  {
  }

  /** The first line of a non-empty `s` runs up to its first '\n' (or to its end), and the
      remaining lines are those of the text after that '\n'. */
  lemma LinesCons(s: string, k: nat)
    requires s != [] && k == LineEnd(s, 0)
    ensures Lines(s) == [s[..k]] + Lines(s[if k < |s| then k + 1 else k..])
  {
    if k == |s| {
      FinalLine(s);
    } else {
      LinesUnfold(s);
    }
  }

  /** `Lines` on a non-empty `s` with a '\n', unfolded once. */
  lemma LinesUnfold(s: string)
    requires s != [] && LineEnd(s, 0) < |s|
    ensures Lines(s) == [s[..LineEnd(s, 0)]] + Lines(s[LineEnd(s, 0) + 1..])
  {
  }

  /** Text without a '\n' is one line. */
  lemma FinalLine(s: string)
    requires s != [] && LineEnd(s, 0) == |s|
    ensures Lines(s) == [s[..|s|]] + Lines(s[|s|..])
  {
    assert s[..|s|] == s && s[|s|..] == [];
  }

  /** Splitting what was accumulated from lines free of '\n' gives those lines back. */
  lemma {:induction false} LinesOfJoinLines(ls: seq<string>)
    requires forall l :: l in ls ==> '\n' !in l
    ensures Lines(JoinLines(ls)) == ls
  {
    if ls != [] {
      var l, rest := ls[0], JoinLines(ls[1..]);
      var s := l + "\n" + rest;
      assert '\n' !in l by { assert l in ls; }
      assert s[..|l|] == l && s[|l| + 1..] == rest;
      LineEndIsFirstNewline(s, 0, |l|);
      LinesCons(s, |l|);
      LinesOfJoinLines(ls[1..]);
    }
  }

  /** A text without '\n' is re-accumulated with one '\n' added. */
  lemma JoinSingleLine(s: string)
    requires s != [] && LineEnd(s, 0) == |s|
    ensures s[|s| - 1] != '\n'
    ensures JoinLines(Lines(s)) == s + "\n"
  {
    FinalLine(s);
    assert [s[..|s|]] + Lines(s[|s|..]) == [s];
    assert JoinLines([s]) == s + "\n" + JoinLines([]);
  }

  /** The accumulated text of a first line followed by more lines. */
  lemma JoinLinesCons(head: string, rest: seq<string>)
    ensures JoinLines([head] + rest) == head + "\n" + JoinLines(rest)
  {
    assert ([head] + rest)[0] == head && ([head] + rest)[1..] == rest;
  }

  /** A text is its part before a '\n' at `k`, that '\n', and its part after. */
  lemma SplitAtNewline(s: string, k: nat)
    requires k < |s| && s[k] == '\n'
    ensures s == s[..k] + "\n" + s[k + 1..]
  {
    assert s[..k + 1] == s[..k] + [s[k]];
  }

  /** Putting a line and its '\n' in front of a text that is already
      '\n'-terminated by `JoinLinesOfLines` keeps it so. */
  lemma PrefixLine(head: string, t: string, j: string)
    requires j == if t == [] || t[|t| - 1] == '\n' then t else t + "\n"
    ensures head + "\n" + j == if (head + "\n" + t)[|head + "\n" + t| - 1] == '\n' then head + "\n" + t else head + "\n" + t + "\n"
  {
    var s := head + "\n" + t;
    if t != [] {
      assert s[|s| - 1] == t[|t| - 1];
    }
  }

  /** Re-accumulating the extracted lines gives the text back, with a final
      '\n' added when the text was non-empty and did not end in one. */
  lemma {:induction false} JoinLinesOfLines(s: string)
    ensures JoinLines(Lines(s)) == if s == [] || s[|s| - 1] == '\n' then s else s + "\n"
    decreases |s|
  {
    if s != [] {
      var k := LineEnd(s, 0);
      if k == |s| {
        JoinSingleLine(s);
      } else {
        var head, t := s[..k], s[k + 1..];
        JoinLinesOfLines(t);
        LinesUnfold(s);
        JoinLinesCons(head, Lines(t));
        PrefixLine(head, t, JoinLines(Lines(t)));
        SplitAtNewline(s, k);
      }
    }
  }

  /** The lines of `s[pos..]` when its first line ends at `end`. */
  lemma LinesFrom(s: string, pos: nat, end: nat)
    requires pos < |s| && pos <= end <= |s|
    requires end < |s| ==> s[end] == '\n'
    requires forall j :: pos <= j < end ==> s[j] != '\n'
    ensures Lines(s[pos..]) == [s[pos..end]] + Lines(s[if end < |s| then end + 1 else end..])
  {
    var t := s[pos..];
    LineEndIsFirstNewline(t, 0, end - pos);
    LinesCons(t, end - pos);
    assert t[..end - pos] == s[pos..end];
    assert t[if end < |s| then end - pos + 1 else end - pos..] == s[if end < |s| then end + 1 else end..];
  }

  /** One call of `std::getline(stream, line)` on a stream positioned at `pos`
      in `s`: it fails at end of input; otherwise it yields the next line
      and leaves the stream after that line's '\n' (or at end of input). */
  method GetLine(s: string, pos: nat) returns (ok: bool, line: string, next: nat)
    requires pos <= |s|
    ensures ok <==> pos < |s|
    ensures !ok ==> next == pos
    ensures ok ==> pos < next <= |s| && Lines(s[pos..]) == [line] + Lines(s[next..])
  {
    if pos == |s| {
      return false, [], pos;
    }
    var end := pos;
    while end < |s| && s[end] != '\n'
      invariant pos <= end <= |s|
      invariant forall j :: pos <= j < end ==> s[j] != '\n'
    {
      end := end + 1;
    }
    ok, line := true, s[pos..end];
    next := if end < |s| then end + 1 else end;
    LinesFrom(s, pos, end);
  }
}
