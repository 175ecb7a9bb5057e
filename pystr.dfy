/** The parts of Python's built-in bytes and str behaviour that the GDM reply
    parser relies on: `bytes.decode('ascii')`, `str.splitlines()`,
    `str.split(sep)` with a one-character separator, `str.strip()` without
    arguments, and the substring test `sub in s`. */
module PyStr {
  import opened Wrappers

  newtype byte = x: int | 0 <= x < 256

  // ---------------------------------------------------------------------
  // bytes.decode('ascii') and str.encode('ascii')
  // ---------------------------------------------------------------------

  predicate IsAscii(s: string) {
    forall i :: 0 <= i < |s| ==> s[i] as int < 128
  }

  /** ASCII decoding: fails with the position of the first byte above 127
      (the start of Python's UnicodeDecodeError). */
  function DecodeAscii(bytes: seq<byte>): (r: Result<string, nat>)
    ensures r.Success? <==> forall i :: 0 <= i < |bytes| ==> bytes[i] < 128
    ensures r.Success? ==> |r.value| == |bytes|
    ensures r.Success? ==> forall i :: 0 <= i < |bytes| ==> r.value[i] as int == bytes[i] as int
    ensures r.Failure? ==> r.error < |bytes| && bytes[r.error] >= 128
    ensures r.Failure? ==> forall i :: 0 <= i < r.error ==> bytes[i] < 128
  {
    if |bytes| == 0 then Success([])
    else if bytes[0] >= 128 then Failure(0)
    else match DecodeAscii(bytes[1..])
      case Success(rest) => Success([bytes[0] as int as char] + rest)
      case Failure(p) => Failure(p + 1)
  }

  /** ASCII encoding of a string every character of which is ASCII. */
  function EncodeAscii(s: string): (bytes: seq<byte>)
    requires IsAscii(s)
    ensures |bytes| == |s|
    ensures forall i :: 0 <= i < |s| ==> bytes[i] as int == s[i] as int
  {
    if |s| == 0 then [] else [s[0] as int as byte] + EncodeAscii(s[1..])
  }

  lemma DecodeEncode(s: string)
    requires IsAscii(s)
    ensures DecodeAscii(EncodeAscii(s)) == Success(s)
  {
    var r := DecodeAscii(EncodeAscii(s));
    assert r.Success?;
    assert r.value == s;
  }

  // ---------------------------------------------------------------------
  // str.splitlines()
  // ---------------------------------------------------------------------

  /** The line boundaries of str.splitlines: \n, \r, \v, \f, \x1c, \x1d,
      \x1e, \x85, U+2028 and U+2029 (and the pair \r\n, see BreakLength). */
  predicate IsLineBreak(c: char) {
    var n := c as int;
    n == 10 || n == 13 || n == 11 || n == 12 || n == 28 || n == 29 || n == 30
    || n == 0x85 || n == 0x2028 || n == 0x2029
  }

  predicate NoLineBreak(s: string) {
    forall i :: 0 <= i < |s| ==> !IsLineBreak(s[i])
  }

  /** Index of the first line boundary of s, or |s| if there is none. */
  function LineEnd(s: string): (n: nat)
    ensures n <= |s|
    ensures NoLineBreak(s[..n])
    ensures n < |s| ==> IsLineBreak(s[n])
  {
    if |s| == 0 || IsLineBreak(s[0]) then 0
    else
      var n := 1 + LineEnd(s[1..]);
      assert s[..n] == [s[0]] + s[1..][..n - 1];
      n
  }

  /** Length of the boundary that starts at s[n]: two for \r\n, else one. */
  function BreakLength(s: string, n: nat): (k: nat)
    requires n < |s|
    ensures 1 <= k <= 2 && n + k <= |s|
  {
    if s[n] == '\r' && n + 1 < |s| && s[n + 1] == '\n' then 2 else 1
  }

  /** str.splitlines(): the lines of s without their boundaries; a final
      boundary does not start another (empty) line, and the empty string has
      no lines at all. */
  function SplitLines(s: string): (lines: seq<string>)
    ensures |lines| == 0 <==> |s| == 0
    ensures |s| > 0 ==> lines[0] == s[..LineEnd(s)]
    ensures forall i :: 0 <= i < |lines| ==> NoLineBreak(lines[i])
    decreases |s|
  {
    if |s| == 0 then []
    else
      var n := LineEnd(s);
      if n == |s| then [s]
      else [s[..n]] + SplitLines(s[n + BreakLength(s, n)..])
  }

  /** A string that splitlines reads as one line boundary. */
  predicate IsTerminator(t: string) {
    t == "\r\n" || (|t| == 1 && IsLineBreak(t[0]))
  }

  /** The lines ls, each followed by the terminator t. */
  function JoinLines(ls: seq<string>, t: string): string {
    if |ls| == 0 then [] else ls[0] + t + JoinLines(ls[1..], t)
  }

  lemma LineEndOfLine(line: string, t: string, rest: string)
    requires NoLineBreak(line) && IsTerminator(t)
    ensures LineEnd(line + t + rest) == |line|
    decreases |line|
  {
    var s := line + t + rest;
    if |line| == 0 {
      assert s[0] == t[0];
    } else {
      assert s[0] == line[0];
      assert s[1..] == line[1..] + t + rest;
      LineEndOfLine(line[1..], t, rest);
    }
  }

  /** A line, a terminator, then text that does not turn a lone \r into
      \r\n: splitlines gives the line, then the lines of the rest. */
  lemma SplitLinesAfterLine(line: string, t: string, rest: string)
    requires NoLineBreak(line) && IsTerminator(t)
    requires t == "\r" ==> |rest| == 0 || rest[0] != '\n'
    ensures SplitLines(line + t + rest) == [line] + SplitLines(rest)
  {
    var s := line + t + rest;
    var n := |line|;
    LineEndOfLine(line, t, rest);
    assert s[n] == t[0];
    if |t| == 1 && n + 1 < |s| {
      assert s[n + 1] == rest[0];
    }
    assert BreakLength(s, n) == |t|;
    assert s[..n] == line;
    assert s[n + |t|..] == rest;
  }

  /** The text after the first line of a join cannot start with \n unless
      the terminator is \n itself. */
  lemma JoinLinesStart(ls: seq<string>, t: string)
    requires IsTerminator(t)
    requires forall i :: 0 <= i < |ls| ==> NoLineBreak(ls[i])
    ensures t == "\r" ==> |JoinLines(ls, t)| == 0 || JoinLines(ls, t)[0] != '\n'
  {
    if |ls| > 0 {
      var s := JoinLines(ls, t);
      if |ls[0]| > 0 {
        assert s[0] == ls[0][0];
      } else {
        assert s[0] == t[0];
      }
    }
  }

  /** splitlines undoes JoinLines, whichever terminator is used. */
  lemma {:induction false} SplitJoinLines(ls: seq<string>, t: string)
    requires IsTerminator(t)
    requires forall i :: 0 <= i < |ls| ==> NoLineBreak(ls[i])
    ensures SplitLines(JoinLines(ls, t)) == ls
  {
    if |ls| > 0 {
      var rest := JoinLines(ls[1..], t);
      JoinLinesStart(ls[1..], t);
      SplitLinesAfterLine(ls[0], t, rest);
      SplitJoinLines(ls[1..], t);
      assert ls == [ls[0]] + ls[1..];
    }
  }

  /** The lines ls, line i followed by its own terminator ts[i]. */
  function JoinEach(ls: seq<string>, ts: seq<string>): string
    requires |ls| == |ts|
  {
    if |ls| == 0 then [] else ls[0] + ts[0] + JoinEach(ls[1..], ts[1..])
  }

  /** Lines without boundaries, each ended by one terminator of its own, except
      that the last line may end the text unterminated if it is not empty; and
      no lone \r is followed by an empty line ended by \n, which would read as
      one \r\n. */
  predicate Terminated(ls: seq<string>, ts: seq<string>) {
    && |ls| == |ts|
    && (forall i :: 0 <= i < |ls| ==> NoLineBreak(ls[i]))
    && (forall i :: 0 <= i < |ts| ==> IsTerminator(ts[i]) || (i == |ts| - 1 && ts[i] == "" && ls[i] != ""))
    && (forall i :: 0 <= i < |ts| - 1 && ts[i] == "\r" ==> ls[i + 1] != "" || ts[i + 1] != "\n")
  }

  lemma TerminatedTail(ls: seq<string>, ts: seq<string>)
    requires Terminated(ls, ts) && |ls| > 0
    ensures Terminated(ls[1..], ts[1..])
  {
    forall i | 0 <= i < |ts| - 1 ensures ts[1..][i] == ts[i + 1] && ls[1..][i] == ls[i + 1] { }
  }

  /** What follows a lone \r in a join never starts with \n. */
  lemma JoinEachAfterBreak(ls: seq<string>, ts: seq<string>)
    requires Terminated(ls, ts) && |ls| > 0
    ensures var rest := JoinEach(ls[1..], ts[1..]);
            ts[0] == "\r" ==> |rest| == 0 || rest[0] != '\n'
  {
    if |ls| > 1 && ts[0] == "\r" {
      var rest := JoinEach(ls[1..], ts[1..]);
      assert ls[1..][0] == ls[1] && ts[1..][0] == ts[1];
      if ls[1] != "" {
        assert rest[0] == ls[1][0];
      } else {
        assert ts[1] != "\n";
        assert rest[0] == ts[1][0];
      }
    }
  }

  /** An unterminated last line: the whole text is that one line. */
  lemma SplitLinesOfLine(line: string)
    requires NoLineBreak(line) && line != ""
    ensures SplitLines(line) == [line]
  {
  }

  /** splitlines undoes joining lines with any mix of terminators, the last
      line possibly unterminated. */
  lemma {:induction false} SplitJoinEach(ls: seq<string>, ts: seq<string>)
    requires Terminated(ls, ts)
    ensures SplitLines(JoinEach(ls, ts)) == ls
  {
    if |ls| > 0 {
      var rest := JoinEach(ls[1..], ts[1..]);
      if ts[0] == "" {
        assert |ls| == 1;
        assert ls[1..] == [];
        assert JoinEach(ls, ts) == ls[0];
        SplitLinesOfLine(ls[0]);
      } else {
        TerminatedTail(ls, ts);
        JoinEachAfterBreak(ls, ts);
        SplitLinesAfterLine(ls[0], ts[0], rest);
        SplitJoinEach(ls[1..], ts[1..]);
        assert ls == [ls[0]] + ls[1..];
      }
    }
  }

  // ---------------------------------------------------------------------
  // str.strip()
  // ---------------------------------------------------------------------

  /** The characters str.isspace accepts: \t \n \v \f \r \x1c-\x1f, space,
      \x85, \xa0, U+1680, U+2000-U+200A, U+2028, U+2029, U+202F, U+205F and
      U+3000. */
  predicate IsSpace(c: char) {
    var n := c as int;
    (9 <= n <= 13) || (28 <= n <= 32) || n == 0x85 || n == 0xA0 || n == 0x1680
    || (0x2000 <= n <= 0x200A) || n == 0x2028 || n == 0x2029 || n == 0x202F
    || n == 0x205F || n == 0x3000
  }

  /** Drops leading whitespace. */
  function LStrip(s: string): (r: string)
    ensures |r| <= |s| && r == s[|s| - |r|..]
    ensures forall i :: 0 <= i < |s| - |r| ==> IsSpace(s[i])
    ensures |r| > 0 ==> !IsSpace(r[0])
  {
    if |s| > 0 && IsSpace(s[0]) then LStrip(s[1..]) else s
  }

  /** Drops trailing whitespace. */
  function RStrip(s: string): (r: string)
    ensures |r| <= |s| && r == s[..|r|]
    ensures forall i :: |r| <= i < |s| ==> IsSpace(s[i])
    ensures |r| > 0 ==> !IsSpace(r[|r| - 1])
  {
    if |s| > 0 && IsSpace(s[|s| - 1]) then RStrip(s[..|s| - 1]) else s
  }

  /** r is the piece of s that starts at a, with only whitespace before and
      after it. */
  predicate StrippedAt(s: string, r: string, a: int) {
    && 0 <= a <= |s| - |r|
    && r == s[a..a + |r|]
    && (forall i :: 0 <= i < a ==> IsSpace(s[i]))
    && (forall i :: a + |r| <= i < |s| ==> IsSpace(s[i]))
  }

  /** str.strip(): s with its leading and trailing whitespace removed; what is
      kept is one contiguous piece of s that neither starts nor ends with
      whitespace. */
  function Strip(s: string): (r: string)
    ensures exists a :: StrippedAt(s, r, a)
    ensures |r| > 0 ==> !IsSpace(r[0]) && !IsSpace(r[|r| - 1])
  {
    var l := LStrip(s);
    var r := RStrip(l);
    StripPiece(s, l, r);
    r
  }

  /** Whitespace dropped from the front of s and then from the back of what
      is left: what remains is a piece of s with only whitespace around it. */
  lemma StripPiece(s: string, l: string, r: string)
    requires |l| <= |s| && l == s[|s| - |l|..] && forall i :: 0 <= i < |s| - |l| ==> IsSpace(s[i])
    requires |r| <= |l| && r == l[..|r|] && forall i :: |r| <= i < |l| ==> IsSpace(l[i])
    ensures StrippedAt(s, r, |s| - |l|)
  {
    var a := |s| - |l|;
    forall i | a + |r| <= i < |s| ensures IsSpace(s[i]) {
      assert s[i] == l[i - a];
    }
    assert s[a..a + |r|] == r;
  }

  // ---------------------------------------------------------------------
  // str.split(sep) for a one-character separator
  // ---------------------------------------------------------------------

  /** Index of the first occurrence of c in s, or |s| if there is none. */
  function IndexOf(s: string, c: char): (n: nat)
    ensures n <= |s|
    ensures n < |s| ==> s[n] == c
    ensures c !in s[..n]
    ensures n < |s| <==> c in s
  {
    if |s| == 0 || s[0] == c then 0
    else
      var n := 1 + IndexOf(s[1..], c);
      assert s[..n] == [s[0]] + s[1..][..n - 1];
      n
  }

  /** str.split(sep): the pieces between the occurrences of sep, empty pieces
      included; there is always one more piece than occurrences. */
  function Split(s: string, sep: char): (parts: seq<string>)
    ensures |parts| == multiset(s)[sep] + 1
    ensures forall i :: 0 <= i < |parts| ==> sep !in parts[i]
    decreases |s|
  {
    var n := IndexOf(s, sep);
    if n == |s| then
      assert s[..n] == s;
      [s]
    else
      assert s == s[..n] + [sep] + s[n + 1..];
      assert multiset(s) == multiset(s[..n]) + multiset([sep]) + multiset(s[n + 1..]);
      [s[..n]] + Split(s[n + 1..], sep)
  }

  lemma SliceAround(s: string, n: nat)
    requires n < |s|
    ensures s == s[..n] + [s[n]] + s[n + 1..]
  {
  }

  /** sep.join(parts) for a one-character separator. */
  function Join(parts: seq<string>, sep: char): string {
    if |parts| == 0 then []
    else if |parts| == 1 then parts[0]
    else parts[0] + [sep] + Join(parts[1..], sep)
  }

  lemma {:induction false} JoinSplit(s: string, sep: char)
    ensures Join(Split(s, sep), sep) == s
    decreases |s|
  {
    var n := IndexOf(s, sep);
    if n < |s| {
      var head, rest := s[..n], s[n + 1..];
      SliceAround(s, n);
      SplitAfterPart(head, sep, rest);
      JoinCons(head, Split(rest, sep), sep);
      JoinSplit(rest, sep);
    } else {
      assert Split(s, sep) == [s];
    }
  }

  lemma JoinCons(head: string, tail: seq<string>, sep: char)
    requires |tail| > 0
    ensures Join([head] + tail, sep) == head + [sep] + Join(tail, sep)
  {
    assert ([head] + tail)[1..] == tail;
  }

  /** A part without the separator, then the separator: split gives the
      part, then the pieces of the rest. */
  lemma SplitAfterPart(p: string, sep: char, rest: string)
    requires sep !in p
    ensures Split(p + [sep] + rest, sep) == [p] + Split(rest, sep)
  {
    var s := p + [sep] + rest;
    assert s[..|p|] == p;
    IndexOfFirst(s, p, sep);
    assert s[|p| + 1..] == rest;
  }

  lemma {:induction false} SplitJoin(parts: seq<string>, sep: char)
    requires |parts| > 0
    requires forall i :: 0 <= i < |parts| ==> sep !in parts[i]
    ensures Split(Join(parts, sep), sep) == parts
  {
    if |parts| == 1 {
      assert IndexOf(parts[0], sep) == |parts[0]|;
    } else {
      SplitAfterPart(parts[0], sep, Join(parts[1..], sep));
      SplitJoin(parts[1..], sep);
      assert parts == [parts[0]] + parts[1..];
    }
  }

  lemma IndexOfFirst(s: string, p: string, c: char)
    requires |p| < |s| && s[..|p|] == p && c !in p && s[|p|] == c
    ensures IndexOf(s, c) == |p|
  {
  }

  /** With exactly one occurrence of sep, split gives the text before it and
      the text after it. */
  lemma SplitOnce(s: string, sep: char)
    requires multiset(s)[sep] == 1
    ensures IndexOf(s, sep) < |s|
    ensures Split(s, sep) == [s[..IndexOf(s, sep)], s[IndexOf(s, sep) + 1..]]
  {
    var n := IndexOf(s, sep);
    var rest := s[n + 1..];
    assert Split(s, sep) == [s[..n]] + Split(rest, sep);
    assert |Split(rest, sep)| == 1;
    assert sep !in rest;
    assert rest[..|rest|] == rest;
  }

  // ---------------------------------------------------------------------
  // sub in s
  // ---------------------------------------------------------------------

  predicate OccursAt(s: string, sub: string, i: int) {
    0 <= i && i + |sub| <= |s| && s[i..i + |sub|] == sub
  }

  /** The substring test `sub in s`. */
  function Contains(s: string, sub: string): (r: bool)
    ensures r <==> exists i :: OccursAt(s, sub, i)
    decreases |s|
  {
    if |sub| <= |s| && s[..|sub|] == sub then
      assert OccursAt(s, sub, 0);
      true
    else if |s| == 0 then
      assert forall i :: !OccursAt(s, sub, i);
      false
    else
      var r := Contains(s[1..], sub);
      assert forall i :: OccursAt(s[1..], sub, i) <==> OccursAt(s, sub, i + 1) by {
        forall i ensures OccursAt(s[1..], sub, i) <==> OccursAt(s, sub, i + 1) {
          if 0 <= i && i + |sub| <= |s[1..]| {
            assert s[1..][i..i + |sub|] == s[i + 1..i + 1 + |sub|];
          }
        }
      }
      assert OccursAt(s, sub, 0) == false;
      assert forall i :: OccursAt(s, sub, i) ==> i == 0 || OccursAt(s[1..], sub, i - 1);
      r
  }
}
