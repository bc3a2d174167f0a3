// String operations of the .NET base library that the tool relies on, written
// out over `seq<char>`: LastIndexOf, Substring, Trim, Replace, ToLower,
// `Split(".").Last()` and the splitting of an absolute path into segments.

module Text {

  /** Index of the last occurrence of `c` in `s`, or -1 (String.LastIndexOf). */
  function LastIndexOf(s: string, c: char): (r: int)
    ensures -1 <= r < |s|
    ensures r == -1 <==> c !in s
    ensures r >= 0 ==> s[r] == c && c !in s[r + 1..]
  {
    if |s| == 0 then -1
    else if s[|s| - 1] == c then |s| - 1
    else
      var r := LastIndexOf(s[..|s| - 1], c);
      assert s[..|s| - 1] + [s[|s| - 1]] == s;
      assert r >= 0 ==> s[r + 1..] == s[r + 1..|s| - 1] + [s[|s| - 1]];
      r
  }

  /** The white-space characters String.Trim removes (the ASCII ones). */
  predicate IsSpace(c: char) {
    c == ' ' || c == '\t' || c == '\n' || c == '\r' || c == '\U{B}' || c == '\U{C}'
  }

  function TrimStart(s: string): (r: string)
    ensures |r| <= |s| && r == s[|s| - |r|..]
    ensures |r| > 0 ==> !IsSpace(r[0])
    ensures forall i :: 0 <= i < |s| - |r| ==> IsSpace(s[i])
  {
    if |s| > 0 && IsSpace(s[0]) then TrimStart(s[1..]) else s
  }

  function TrimEnd(s: string): (r: string)
    ensures |r| <= |s| && r == s[..|r|]
    ensures |r| > 0 ==> !IsSpace(r[|r| - 1])
    ensures forall i :: |r| <= i < |s| ==> IsSpace(s[i])
  {
    if |s| > 0 && IsSpace(s[|s| - 1]) then TrimEnd(s[..|s| - 1]) else s
  }

  /** String.Trim: white space removed at both ends, nothing else touched. */
  function Trim(s: string): (r: string)
    ensures |r| <= |s|
    ensures |r| > 0 ==> !IsSpace(r[0]) && !IsSpace(r[|r| - 1])
    ensures var k := |s| - |TrimStart(s)|; k + |r| <= |s| && r == s[k..k + |r|]
    ensures forall i :: 0 <= i < |s| - |TrimStart(s)| ==> IsSpace(s[i])
    ensures forall i :: |s| - |TrimStart(s)| + |r| <= i < |s| ==> IsSpace(s[i])
  {
    var t := TrimStart(s);
    var r := TrimEnd(t);
    assert r == s[|s| - |t|..][..|r|] == s[|s| - |t|..|s| - |t| + |r|];
    r
  }

  /** A string that no white space surrounds is its own trim. */
  lemma {:induction false} TrimTrimmed(s: string)
    requires |s| > 0 ==> !IsSpace(s[0]) && !IsSpace(s[|s| - 1])
    ensures Trim(s) == s
  {
  }

  /** Text made only of white space trims away entirely from the front. */
  lemma {:induction false} TrimStartSpaces(ws: string)
    requires forall i :: 0 <= i < |ws| ==> IsSpace(ws[i])
    ensures TrimStart(ws) == []
  {
    if |ws| > 0 {
      TrimStartSpaces(ws[1..]);
    }
  }

  /** White space after text that does not end in white space is exactly
      what TrimEnd removes. */
  lemma {:induction false} TrimEndSpaces(a: string, ws: string)
    requires |a| > 0 ==> !IsSpace(a[|a| - 1])
    requires forall i :: 0 <= i < |ws| ==> IsSpace(ws[i])
    ensures TrimEnd(a + ws) == a
  {
    if |ws| == 0 {
      assert a + ws == a;
    } else {
      var init := ws[..|ws| - 1];
      assert (a + ws)[|a + ws| - 1] == ws[|ws| - 1];
      assert (a + ws)[..|a + ws| - 1] == a + init;
      TrimEndSpaces(a, init);
    }
  }

  /** Trailing white space makes no difference to the trim of text with no
      white space at its ends. */
  lemma TrimTrailing(a: string, ws: string)
    requires |a| > 0 ==> !IsSpace(a[0]) && !IsSpace(a[|a| - 1])
    requires forall i :: 0 <= i < |ws| ==> IsSpace(ws[i])
    ensures Trim(a + ws) == a
  {
    if |a| == 0 {
      assert a + ws == ws;
      TrimStartSpaces(ws);
    } else {
      assert (a + ws)[0] == a[0];
      TrimEndSpaces(a, ws);
    }
  }

  /** Leading white space makes no difference to the trim. */
  lemma TrimSkipsSpace(s: string)
    requires |s| > 0 && IsSpace(s[0])
    ensures Trim(s) == Trim(s[1..])
  {
  }

  /** The trim holds only characters of the original text. */
  lemma TrimChars(s: string)
    ensures forall c :: c in Trim(s) ==> c in s
  {
    var r := Trim(s);
    var k := |s| - |TrimStart(s)|;
    forall c | c in r ensures c in s {
      var i :| 0 <= i < |r| && r[i] == c;
      assert s[k + i] == c;
    }
  }

  /** Does `pat` occur in `s` at position `i`? */
  predicate OccursAt(s: string, pat: string, i: nat) {
    i + |pat| <= |s| && s[i..i + |pat|] == pat
  }

  /** String.Replace(pat, rep): every occurrence of `pat`, scanned left to
      right without overlap, replaced by `rep`. */
  function Replace(s: string, pat: string, rep: string): (r: string)
    requires |pat| > 0
    decreases |s|
  {
    if |s| < |pat| then s
    else if s[..|pat|] == pat then rep + Replace(s[|pat|..], pat, rep)
    else [s[0]] + Replace(s[1..], pat, rep)
  }

  /** Text in which the placeholder does not occur is left as it is. */
  lemma {:induction false} ReplaceAbsent(s: string, pat: string, rep: string)
    requires |pat| > 0
    requires forall i :: 0 <= i <= |s| - |pat| ==> !OccursAt(s, pat, i)
    ensures Replace(s, pat, rep) == s
    decreases |s|
  {
    if |s| >= |pat| {
      assert !OccursAt(s, pat, 0);
      forall i | 0 <= i <= |s[1..]| - |pat| ensures !OccursAt(s[1..], pat, i) {
        assert !OccursAt(s, pat, i + 1);
        assert s[1..][i..i + |pat|] == s[i + 1..i + 1 + |pat|];
      }
      ReplaceAbsent(s[1..], pat, rep);
    }
  }

  /** No occurrence of `pat` starts inside `a`, in `a + pat`. */
  predicate NoneBefore(a: string, pat: string) {
    forall i :: 0 <= i < |a| ==> !OccursAt(a + pat, pat, i)
  }

  lemma NoneBeforeTail(a: string, pat: string)
    requires |a| > 0 && NoneBefore(a, pat)
    ensures NoneBefore(a[1..], pat)
  {
    forall i | 0 <= i < |a[1..]| ensures !OccursAt(a[1..] + pat, pat, i) {
      assert !OccursAt(a + pat, pat, i + 1);
      assert (a[1..] + pat)[i..i + |pat|] == (a + pat)[i + 1..i + 1 + |pat|];
    }
  }

  /** The placeholder at the front is replaced, the rest scanned after it. */
  lemma ReplaceHead(pat: string, rep: string, b: string)
    requires |pat| > 0
    ensures Replace(pat + b, pat, rep) == rep + Replace(b, pat, rep)
  {
    var s := pat + b;
    assert s[..|pat|] == pat && s[|pat|..] == b;
  }

  /** With no occurrence at the front, the first character is kept. */
  lemma ReplaceSkip(a: string, pat: string, rep: string, b: string)
    requires |pat| > 0 && |a| > 0 && !OccursAt(a + pat, pat, 0)
    ensures Replace(a + pat + b, pat, rep) == [a[0]] + Replace(a[1..] + pat + b, pat, rep)
  {
    var s := a + pat + b;
    assert s[..|pat|] == (a + pat)[..|pat|];
    assert s[1..] == a[1..] + pat + b;
  }

  /** Replacement distributes over text glued around one placeholder whose
      left part holds no occurrence of it. */
  lemma {:induction false} ReplaceAround(a: string, pat: string, rep: string, b: string)
    requires |pat| > 0 && NoneBefore(a, pat)
    ensures Replace(a + pat + b, pat, rep) == Replace(a, pat, rep) + rep + Replace(b, pat, rep)
    decreases |a|
  {
    if |a| == 0 {
      assert a + pat + b == pat + b;
      ReplaceHead(pat, rep, b);
    } else {
      var x := Replace(a[1..], pat, rep);
      var y := Replace(b, pat, rep);
      ReplaceSkip(a, pat, rep, b);
      NoneBeforeTail(a, pat);
      ReplaceAround(a[1..], pat, rep, b);
      ReplaceFront(a, pat, rep);
      assert [a[0]] + (x + rep + y) == ([a[0]] + x) + rep + y;
    }
  }

  /** When no occurrence starts at 0, replacement keeps the first character. */
  lemma ReplaceFront(a: string, pat: string, rep: string)
    requires |pat| > 0 && |a| > 0
    requires !OccursAt(a + pat, pat, 0)
    ensures Replace(a, pat, rep) == [a[0]] + Replace(a[1..], pat, rep)
  {
    if |a| >= |pat| {
      assert a[..|pat|] == (a + pat)[..|pat|];
    } else {
      assert Replace(a[1..], pat, rep) == a[1..];
      assert [a[0]] + a[1..] == a;
    }
  }

  /** ASCII lower-casing of one character. */
  function LowerChar(c: char): char {
    if 'A' <= c <= 'Z' then (c as int + 32) as char else c
  }

  /** ASCII lower-casing (String.ToLower on the platform names). */
  function ToLower(s: string): (r: string)
    ensures |r| == |s|
    ensures forall i :: 0 <= i < |s| ==> r[i] == LowerChar(s[i])
  {
    seq(|s|, i requires 0 <= i < |s| => LowerChar(s[i]))
  }

  /** Lower-casing leaves no upper-case letter and changes nothing the
      second time. */
  lemma ToLowerIdempotent(s: string)
    ensures forall i :: 0 <= i < |s| ==> !('A' <= ToLower(s)[i] <= 'Z')
    ensures ToLower(ToLower(s)) == ToLower(s)
  {
  }

  /** `s.Split(sep).Last()`: the part after the last separator. */
  function LastSegment(s: string, sep: char): (r: string)
    ensures sep !in r
    ensures |r| <= |s| && r == s[|s| - |r|..]
  {
    s[LastIndexOf(s, sep) + 1..]
  }

  /** The last segment of `a + [sep] + b` is `b` when `b` holds no separator. */
  lemma LastSegmentAfter(a: string, sep: char, b: string)
    requires sep !in b
    ensures LastSegment(a + [sep] + b, sep) == b
  {
    var s := a + [sep] + b;
    var k := LastIndexOf(s, sep);
    assert s[|a|] == sep;
    assert s[|a| + 1..] == b;
  }

  /** The segments of a path text: split at '/', empty parts dropped. */
  function ParsePath(s: string): (r: seq<string>)
    ensures forall i :: 0 <= i < |r| ==> |r[i]| > 0 && '/' !in r[i]
    decreases |s|
  {
    var k := LastIndexOf(s, '/');
    if k < 0 then (if |s| == 0 then [] else [s])
    else
      var last := s[k + 1..];
      ParsePath(s[..k]) + (if |last| == 0 then [] else [last])
  }

  /** An absolute path text built from its segments. */
  function JoinPath(p: seq<string>): (r: string)
  {
    if |p| == 0 then [] else JoinPath(p[..|p| - 1]) + "/" + p[|p| - 1]
  }

  /** A path segment: non-empty, no '/' inside. */
  predicate Segment(s: string) {
    |s| > 0 && '/' !in s
  }

  /** Parsing a path with one more segment at the end. */
  lemma ParseSnoc(a: string, last: string)
    requires Segment(last)
    ensures ParsePath(a + "/" + last) == ParsePath(a) + [last]
  {
    var s := a + "/" + last;
    assert s == a + ['/'] + last;
    LastSegmentAfter(a, '/', last);
    var k := LastIndexOf(s, '/');
    assert s[k + 1..] == last;
    assert k == |a|;
    assert s[..k] == a;
  }

  predicate Segments(p: seq<string>) {
    forall i :: 0 <= i < |p| ==> Segment(p[i])
  }

  /** One more segment: parsing the longer path adds it at the end. */
  lemma ParseJoinSnoc(init: seq<string>, last: string)
    requires Segment(last) && ParsePath(JoinPath(init)) == init
    ensures ParsePath(JoinPath(init + [last])) == init + [last]
  {
    var p := init + [last];
    assert p[..|p| - 1] == init && p[|p| - 1] == last;
    assert JoinPath(p) == JoinPath(init) + "/" + last;
    ParseSnoc(JoinPath(init), last);
  }

  /** ParsePath undoes JoinPath for segments that are non-empty and hold no '/'. */
  lemma {:induction false} ParseJoin(p: seq<string>)
    requires Segments(p)
    ensures ParsePath(JoinPath(p)) == p
  {
    if |p| > 0 {
      var init, last := p[..|p| - 1], p[|p| - 1];
      assert Segments(init) by {
        forall i | 0 <= i < |init| ensures Segment(init[i]) {
          assert init[i] == p[i];
        }
      }
      ParseJoin(init);
      ParseJoinSnoc(init, last);
      assert init + [last] == p;
    }
  }
}
