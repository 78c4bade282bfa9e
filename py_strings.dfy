/** The handful of Python `str` operations the Q&A generator relies on:
    `strip()` with no argument, `startswith`, slicing `s[k:]`,
    `split("\n")` and `"\n".join(...)`, on strings of Unicode scalar values. */
module PyStrings {

  /** Python's `str.isspace` on one character: the characters `strip()` removes. */
  predicate IsWhitespace(c: char)
  {
    var n := c as int;
    (0x09 <= n <= 0x0D) || (0x1C <= n <= 0x20) || n == 0x85 || n == 0xA0 || n == 0x1680
    || (0x2000 <= n <= 0x200A) || n == 0x2028 || n == 0x2029 || n == 0x202F
    || n == 0x205F || n == 0x3000
  }

  predicate AllWhitespace(s: string)
  {
    forall k :: 0 <= k < |s| ==> IsWhitespace(s[k])
  }

  /** `s.startswith(prefix)` */
  predicate StartsWith(s: string, prefix: string)
  {
    |prefix| <= |s| && s[..|prefix|] == prefix
  }

  /** `s[k:]`: past the end, Python gives the empty string. */
  function SliceFrom(s: string, k: nat): string
  {
    if k <= |s| then s[k..] else ""
  }

  /** `s.lstrip()` */
  function LStrip(s: string): (r: string)
    ensures |r| <= |s|
    decreases |s|
  {
    if |s| > 0 && IsWhitespace(s[0]) then LStrip(s[1..]) else s
  }

  /** `s.rstrip()` */
  function RStrip(s: string): string
    decreases |s|
  {
    if |s| > 0 && IsWhitespace(s[|s| - 1]) then RStrip(s[..|s| - 1]) else s
  }

  /** `s.strip()`: Python finds the first and the last non-whitespace
      character and keeps what lies between. */
  function Strip(s: string): string
  {
    RStrip(LStrip(s))
  }

  // The meaning of the three functions is stated by the lemmas below rather
  // than by postconditions, so that code which only passes stripped strings
  // around does not pay for these facts.

  /** What `lstrip()` keeps is the longest suffix of `s` that does not start
      with whitespace; all it cuts off is whitespace. */
  lemma {:induction false} LStripSpec(s: string)
    ensures |LStrip(s)| <= |s| && LStrip(s) == s[|s| - |LStrip(s)|..]
    ensures AllWhitespace(s[..|s| - |LStrip(s)|])
    ensures LStrip(s) == [] || !IsWhitespace(LStrip(s)[0])
    decreases |s|
  {
    if |s| > 0 && IsWhitespace(s[0]) {
      LStripSpec(s[1..]);
      var r := LStrip(s[1..]);
      assert s[..|s| - |r|] == [s[0]] + s[1..][..|s| - 1 - |r|];
    }
  }

  /** What `rstrip()` keeps is the longest prefix of `s` that does not end
      with whitespace; all it cuts off is whitespace. */
  lemma {:induction false} RStripSpec(s: string)
    ensures |RStrip(s)| <= |s| && RStrip(s) == s[..|RStrip(s)|]
    ensures AllWhitespace(s[|RStrip(s)|..])
    ensures RStrip(s) == [] || !IsWhitespace(RStrip(s)[|RStrip(s)| - 1])
    decreases |s|
  {
    if |s| > 0 && IsWhitespace(s[|s| - 1]) {
      RStripSpec(s[..|s| - 1]);
      var r := RStrip(s[..|s| - 1]);
      assert s[|r|..] == s[..|s| - 1][|r|..] + [s[|s| - 1]];
    }
  }

  /** How many characters `strip()` removes from the front of `s`. */
  function LeadingWhitespace(s: string): nat
  {
    |s| - |LStrip(s)|
  }

  /** What `strip()` keeps is a contiguous piece of `s` with only whitespace
      before and after it; it neither starts nor ends with whitespace, and it
      is empty exactly when `s` is all whitespace. */
  lemma StripSpec(s: string)
    ensures LeadingWhitespace(s) + |Strip(s)| <= |s|
    ensures s[LeadingWhitespace(s)..LeadingWhitespace(s) + |Strip(s)|] == Strip(s)
    ensures AllWhitespace(s[..LeadingWhitespace(s)])
    ensures AllWhitespace(s[LeadingWhitespace(s) + |Strip(s)|..])
    ensures Strip(s) == [] || (!IsWhitespace(Strip(s)[0]) && !IsWhitespace(Strip(s)[|Strip(s)| - 1]))
    ensures Strip(s) == [] <==> AllWhitespace(s)
  {
    var l := LStrip(s);
    LStripSpec(s);
    RStripSpec(l);
    var r := RStrip(l);
    var a := |s| - |l|;
    assert s[a..a + |r|] == r;
    assert s[a + |r|..] == l[|r|..];
    assert r != [] ==> r[0] == l[0];
    assert r == [] ==> s == s[..a] + s[a..] && s[a..] == l[|r|..];
  }

  /** Number of `'\n'` characters in `s`. */
  function NewlineCount(s: string): nat
  {
    if s == [] then 0 else (if s[0] == '\n' then 1 else 0) + NewlineCount(s[1..])
  }

  /** `"\n".join(parts)` */
  function Join(parts: seq<string>): string
  {
    if parts == [] then ""
    else if |parts| == 1 then parts[0]
    else parts[0] + "\n" + Join(parts[1..])
  }

  /** `s.split("\n")`: the pieces between newlines, empty ones kept; the empty
      string gives one empty piece. */
  function Split(s: string): (r: seq<string>)
    ensures |r| >= 1
    ensures forall k :: 0 <= k < |r| ==> '\n' !in r[k]
    decreases |s|
  {
    if s == [] then [""]
    else if s[0] == '\n' then [""] + Split(s[1..])
    else
      var rest := Split(s[1..]);
      [[s[0]] + rest[0]] + rest[1..]
  }

  /** Joining the pieces with newlines gives the string back. */
  lemma {:induction false} JoinSplit(s: string)
    ensures Join(Split(s)) == s
    decreases |s|
  {
    if s != [] {
      var rest := Split(s[1..]);
      JoinSplit(s[1..]);
      if s[0] == '\n' {
        assert s == "\n" + s[1..];
      } else {
        var r := [[s[0]] + rest[0]] + rest[1..];
        assert r[1..] == rest[1..];
        assert s == [s[0]] + s[1..];
      }
    }
  }

  /** There is one more piece than there are newlines. */
  lemma {:induction false} SplitLength(s: string)
    ensures |Split(s)| == NewlineCount(s) + 1
    decreases |s|
  {
    if s != [] {
      SplitLength(s[1..]);
    }
  }

  /** Splitting a string that starts with a newline-free piece. */
  lemma {:induction false} SplitAfterPiece(p: string, t: string)
    requires '\n' !in p
    ensures Split(p + t) == [p + Split(t)[0]] + Split(t)[1..]
    decreases |p|
  {
    if p == [] {
      assert p + t == t;
      assert p + Split(t)[0] == Split(t)[0];
      assert Split(t) == [Split(t)[0]] + Split(t)[1..];
    } else {
      assert (p + t)[1..] == p[1..] + t;
      assert (p + t)[0] == p[0];
      SplitAfterPiece(p[1..], t);
      assert [p[0]] + (p[1..] + Split(t)[0]) == p + Split(t)[0];
    }
  }

  /** `split` undoes `join` when no piece holds a newline: together with
      `JoinSplit` the two are inverse bijections. */
  lemma {:induction false} SplitJoin(parts: seq<string>)
    requires parts != []
    requires forall k :: 0 <= k < |parts| ==> '\n' !in parts[k]
    ensures Split(Join(parts)) == parts
    decreases |parts|
  {
    if |parts| == 1 {
      SplitAfterPiece(parts[0], "");
      assert parts[0] + "" == parts[0];
    } else {
      var t := Join(parts[1..]);
      assert Join(parts) == parts[0] + ("\n" + t);
      SplitAfterPiece(parts[0], "\n" + t);
      assert ("\n" + t)[1..] == t;
      SplitJoin(parts[1..]);
      assert Split("\n" + t) == [""] + Split(t);
      assert parts[0] + "" == parts[0];
      assert parts == [parts[0]] + parts[1..];
    }
  }

  /** `"\n".join` of a list with one more piece at the end. */
  lemma {:induction false} JoinSnoc(parts: seq<string>, x: string)
    requires parts != []
    ensures Join(parts + [x]) == Join(parts) + "\n" + x
    decreases |parts|
  {
    if |parts| == 1 {
      assert parts + [x] == [parts[0], x];
    } else {
      assert (parts + [x])[1..] == parts[1..] + [x];
      JoinSnoc(parts[1..], x);
    }
  }

  /** A string with no whitespace at either end is its own `strip()`. */
  lemma StripOfTrimmed(s: string)
    requires s == [] || (!IsWhitespace(s[0]) && !IsWhitespace(s[|s| - 1]))
    ensures Strip(s) == s
  {
  }

  /** Leading whitespace does not change `lstrip`. */
  lemma {:induction false} LStripSkipsWhitespace(ws: string, s: string)
    requires AllWhitespace(ws)
    ensures LStrip(ws + s) == LStrip(s)
    decreases |ws|
  {
    if ws == [] {
      assert ws + s == s;
    } else {
      assert (ws + s)[1..] == ws[1..] + s;
      LStripSkipsWhitespace(ws[1..], s);
    }
  }

  /** Trailing whitespace does not change `rstrip`. */
  lemma {:induction false} RStripSkipsWhitespace(s: string, ws: string)
    requires AllWhitespace(ws)
    ensures RStrip(s + ws) == RStrip(s)
    decreases |ws|
  {
    if ws == [] {
      assert s + ws == s;
    } else {
      var n := |s + ws|;
      assert (s + ws)[..n - 1] == s + ws[..|ws| - 1];
      assert (s + ws)[n - 1] == ws[|ws| - 1];
      RStripSkipsWhitespace(s, ws[..|ws| - 1]);
    }
  }

  /** Trailing whitespace passes through `lstrip` unless all of `s` is stripped. */
  lemma {:induction false} LStripKeepsSuffix(s: string, ws: string)
    requires AllWhitespace(ws)
    ensures LStrip(s + ws) == (if AllWhitespace(s) then [] else LStrip(s) + ws)
    decreases |s|
  {
    if s == [] {
      LStripSkipsWhitespace(ws, []);
      assert ws + [] == ws && [] + ws == ws;
    } else if IsWhitespace(s[0]) {
      assert (s + ws)[1..] == s[1..] + ws;
      LStripKeepsSuffix(s[1..], ws);
      assert AllWhitespace(s) <==> AllWhitespace(s[1..]) by {
        assert forall k :: 1 <= k < |s| ==> s[k] == s[1..][k - 1];
      }
    } else {
      assert (s + ws)[0] == s[0];
    }
  }

  /** Whitespace around a string has no effect on `strip()`. */
  lemma StripIgnoresPadding(ws1: string, s: string, ws2: string)
    requires AllWhitespace(ws1) && AllWhitespace(ws2)
    ensures Strip(ws1 + s + ws2) == Strip(s)
  {
    assert ws1 + s + ws2 == ws1 + (s + ws2);
    LStripSkipsWhitespace(ws1, s + ws2);
    LStripKeepsSuffix(s, ws2);
    StripSpec(s);
    if AllWhitespace(s) {
      assert Strip(s) == [];
    } else {
      RStripSkipsWhitespace(LStrip(s), ws2);
    }
  }
}
