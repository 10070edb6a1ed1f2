/** The pieces of the JavaScript string library that the handlers of main.js
    rely on (`trim`, `split` on a character, `split(/\s+/)`, `includes`,
    `startsWith`), written out over `seq<char>`. */
module JsText {

  /** An ECMAScript LineTerminator: the characters that `.` in a regular
      expression never matches. */
  predicate IsLineTerminator(c: char) {
    c == '\n' || c == '\r' || c == '\U{2028}' || c == '\U{2029}'
  }

  /** The ECMAScript WhiteSpace characters (the Zs category spelled out)
      and the LineTerminators. */
  const Blanks: set<char> :=
    {'\t', '\U{B}', '\U{C}', ' ', '\U{A0}', '\U{FEFF}', '\U{1680}',
     '\U{2000}', '\U{2001}', '\U{2002}', '\U{2003}', '\U{2004}', '\U{2005}',
     '\U{2006}', '\U{2007}', '\U{2008}', '\U{2009}', '\U{200A}',
     '\U{202F}', '\U{205F}', '\U{3000}',
     '\n', '\r', '\U{2028}', '\U{2029}'}

  /** What `trim` removes and what `\s` in a regular expression matches. */
  predicate IsWhitespace(c: char) {
    // Every blank lies at or below the space or at or above U+00A0.
    (c <= ' ' || c >= '\U{A0}') && c in Blanks
  }

  predicate NoWhitespace(s: string) {
    forall k :: 0 <= k < |s| ==> !IsWhitespace(s[k])
  }

  // ---------------------------------------------------------------------
  // trim

  /** The number of whitespace characters `s` starts with. */
  function LeadingBlanks(s: string): (n: nat)
    ensures n <= |s|
    ensures forall k :: 0 <= k < n ==> IsWhitespace(s[k])
    ensures n < |s| ==> !IsWhitespace(s[n])
  {
    if s != [] && IsWhitespace(s[0]) then
      var m := LeadingBlanks(s[1..]);
      assert forall k :: 1 <= k < 1 + m ==> s[k] == s[1..][k - 1];
      1 + m
    else 0
  }

  /** The number of whitespace characters `s` ends with. */
  function TrailingBlanks(s: string): (n: nat)
    ensures n <= |s|
    ensures forall k :: |s| - n <= k < |s| ==> IsWhitespace(s[k])
    ensures n < |s| ==> !IsWhitespace(s[|s| - n - 1])
  {
    if s != [] && IsWhitespace(s[|s| - 1]) then
      var p := s[..|s| - 1];
      var m := TrailingBlanks(p);
      assert forall k :: |p| - m <= k < |p| ==> s[k] == p[k];
      1 + m
    else 0
  }

  /** `String.prototype.trimStart`. */
  function TrimStart(s: string): string {
    s[LeadingBlanks(s)..]
  }

  /** `String.prototype.trimEnd`. */
  function TrimEnd(s: string): string {
    s[..|s| - TrailingBlanks(s)]
  }

  /** `String.prototype.trim`. */
  function Trim(s: string): string {
    TrimEnd(TrimStart(s))
  }

  /** The trimmed string is what is left of `s` once the whitespace at both
      ends is removed, and it neither starts nor ends with whitespace. */
  lemma TrimSpec(s: string)
    ensures var r, i := Trim(s), LeadingBlanks(s);
      && i + |r| <= |s|
      && r == s[i..i + |r|]
      && (forall k :: 0 <= k < i ==> IsWhitespace(s[k]))
      && (forall k :: i + |r| <= k < |s| ==> IsWhitespace(s[k]))
      && (r == [] || (!IsWhitespace(r[0]) && !IsWhitespace(r[|r| - 1])))
  {
    var i := LeadingBlanks(s);
    TrimEndOfSuffix(s, i);
  }

  lemma TrimEndOfSuffix(s: string, i: nat)
    requires i <= |s|
    requires i < |s| ==> !IsWhitespace(s[i])
    ensures var t := s[i..]; var r := TrimEnd(t);
      && i + |r| <= |s|
      && r == s[i..i + |r|]
      && (forall k :: i + |r| <= k < |s| ==> IsWhitespace(s[k]))
      && (r == [] || (!IsWhitespace(r[0]) && !IsWhitespace(r[|r| - 1])))
  {
    var t := s[i..];
    var j := TrailingBlanks(t);
    var r := t[..|t| - j];
    forall k | i + |r| <= k < |s| ensures IsWhitespace(s[k]) {
      assert s[k] == t[k - i];
    }
    if r != [] {
      assert r[0] == s[i];
      assert r[|r| - 1] == t[|t| - j - 1];
    }
  }

  /** A string without whitespace at either end is left as it is. */
  lemma {:induction false} TrimKeepsTrimmed(s: string)
    requires s == [] || (!IsWhitespace(s[0]) && !IsWhitespace(s[|s| - 1]))
    ensures Trim(s) == s
  {
    assert LeadingBlanks(s) == 0;
    assert s[0..] == s;
    assert TrailingBlanks(s) == 0;
  }

  /** Trimming leaves nothing exactly when there is only whitespace. */
  lemma TrimAllWhitespace(s: string)
    ensures Trim(s) == [] <==> forall k :: 0 <= k < |s| ==> IsWhitespace(s[k])
  {
    TrimSpec(s);
    var r, i := Trim(s), LeadingBlanks(s);
    assert r != [] ==> r[0] == s[i];
  }

  // ---------------------------------------------------------------------
  // split on one character, and its inverse

  /** `s.split(sep)` for a one-character separator: the pieces between the
      occurrences of `sep`. */
  function Split(s: string, sep: char): (r: seq<string>)
    ensures |r| >= 1
  {
    if s == [] then [[]]
    else
      var rest := Split(s[1..], sep);
      if s[0] == sep then [[]] + rest
      else [[s[0]] + rest[0]] + rest[1..]
  }

  /** No piece holds the separator; a text without it is one piece, a text
      with it is several. */
  lemma {:induction false} SplitPieces(s: string, sep: char)
    ensures forall k :: 0 <= k < |Split(s, sep)| ==> sep !in Split(s, sep)[k]
    ensures sep !in s ==> Split(s, sep) == [s]
    ensures sep in s ==> |Split(s, sep)| >= 2
  {
    if s != [] {
      SplitPieces(s[1..], sep);
      var rest, r := Split(s[1..], sep), Split(s, sep);
      assert s == [s[0]] + s[1..];
      if s[0] == sep {
        assert |r| >= 2;
      } else {
        assert r == [[s[0]] + rest[0]] + rest[1..];
        assert sep in s <==> sep in s[1..];
        if sep !in s[1..] {
          assert rest == [s[1..]];
        }
        forall k | 0 <= k < |r| ensures sep !in r[k] {
          if k > 0 { assert r[k] == rest[k]; }
        }
      }
    }
  }

  /** A text without the separator is a single piece. */
  lemma {:induction false} SplitWithoutSep(s: string, sep: char)
    requires sep !in s
    ensures Split(s, sep) == [s]
  {
    if s != [] {
      assert s == [s[0]] + s[1..];
      SplitWithoutSep(s[1..], sep);
    }
  }

  /** `pieces.join(sep)`. */
  function Join(pieces: seq<string>, sep: char): string
    requires |pieces| >= 1
  {
    if |pieces| == 1 then pieces[0] else pieces[0] + [sep] + Join(pieces[1..], sep)
  }

  /** Splitting on a separator that joins two strings splits each of them. */
  lemma {:induction false} SplitConcat(a: string, sep: char, b: string)
    ensures Split(a + [sep] + b, sep) == Split(a, sep) + Split(b, sep)
  {
    if a == [] {
      assert a + [sep] + b == [sep] + b;
      assert ([sep] + b)[1..] == b;
    } else {
      assert (a + [sep] + b)[1..] == a[1..] + [sep] + b;
      SplitConcat(a[1..], sep, b);
    }
  }

  /** Joining the pieces gives back the text that was split. */
  lemma {:induction false} JoinSplit(s: string, sep: char)
    ensures Join(Split(s, sep), sep) == s
  {
    if s != [] {
      var rest := Split(s[1..], sep);
      JoinSplit(s[1..], sep);
      if s[0] == sep {
        assert s == [sep] + s[1..];
      } else if |rest| == 1 {
        assert s == [s[0]] + s[1..];
      } else {
        assert Join(rest, sep) == rest[0] + [sep] + Join(rest[1..], sep);
        assert s == [s[0]] + s[1..];
      }
    }
  }

  /** Splitting a join of separator-free pieces gives back the pieces. */
  lemma {:induction false} SplitJoin(pieces: seq<string>, sep: char)
    requires |pieces| >= 1
    requires forall k :: 0 <= k < |pieces| ==> sep !in pieces[k]
    ensures Split(Join(pieces, sep), sep) == pieces
  {
    if |pieces| == 1 {
      SplitPieces(pieces[0], sep);
    } else {
      SplitJoin(pieces[1..], sep);
      SplitPieces(pieces[0], sep);
      SplitConcat(pieces[0], sep, Join(pieces[1..], sep));
      assert pieces == [pieces[0]] + pieces[1..];
    }
  }

  /** Index of the first `c` in `s`, or `|s|` when there is none. */
  function IndexOf(s: string, c: char): (i: nat)
    ensures i <= |s|
    ensures c !in s[..i]
    ensures i < |s| <==> c in s
    ensures i < |s| ==> s[i] == c
  {
    if s == [] then 0
    else if s[0] == c then 0
    else
      assert s[..1 + IndexOf(s[1..], c)] == [s[0]] + s[1..][..IndexOf(s[1..], c)];
      1 + IndexOf(s[1..], c)
  }

  /** The first piece is the text before the first separator; the remaining
      pieces are those of the text after it. */
  lemma SplitAtFirst(s: string, sep: char)
    requires sep in s
    ensures var i := IndexOf(s, sep);
      Split(s, sep) == [s[..i]] + Split(s[i + 1..], sep)
  {
    var i := IndexOf(s, sep);
    assert s == s[..i] + [sep] + s[i + 1..];
    SplitConcat(s[..i], sep, s[i + 1..]);
    SplitWithoutSep(s[..i], sep);
  }

  /** The first two pieces: the text before the first separator, and the
      text between it and the next separator or the end. */
  lemma SplitFirstTwo(s: string, sep: char)
    requires sep in s
    ensures var i := IndexOf(s, sep);
            var rest := s[i + 1..];
            && |Split(s, sep)| >= 2
            && Split(s, sep)[0] == s[..i]
            && Split(s, sep)[1] == rest[..IndexOf(rest, sep)]
  {
    var i := IndexOf(s, sep);
    var rest := s[i + 1..];
    SplitAtFirst(s, sep);
    if sep in rest {
      SplitAtFirst(rest, sep);
    } else {
      SplitPieces(rest, sep);
      assert rest[..|rest|] == rest;
    }
  }

  /** The last piece, what `split(sep).pop()` returns: the text after the
      last separator, or all of `s` when it holds none. */
  lemma {:induction false} SplitLast(s: string, sep: char)
    ensures var ps := Split(s, sep); var r := ps[|ps| - 1];
      && |r| <= |s| && r == s[|s| - |r|..]
      && sep !in r
      && (|r| < |s| ==> s[|s| - |r| - 1] == sep)
  {
    SplitPieces(s, sep);
    if s != [] {
      var rest := Split(s[1..], sep);
      SplitLast(s[1..], sep);
      SplitPieces(s[1..], sep);
      var r' := rest[|rest| - 1];
      if s[0] != sep && |rest| == 1 {
        assert r' == s[1..];
        assert s == [s[0]] + s[1..];
      } else if s[0] != sep {
        assert r' != s[1..];
        assert s[1..][|s| - 1 - |r'|..] == s[|s| - |r'|..];
      } else {
        assert s[1..][|s| - 1 - |r'|..] == s[|s| - |r'|..];
      }
    }
  }

  /** A text without the separator followed by one separator: the text and
      the empty piece after it. */
  lemma SplitOneTerminated(s: string, sep: char)
    requires sep !in s
    ensures Split(s + [sep], sep) == [s, []]
  {
    assert s + [sep] == s + [sep] + [];
    SplitConcat(s, sep, []);
    SplitPieces(s, sep);
  }

  // ---------------------------------------------------------------------
  // split(/\s+/)

  /** The end of the run of non-whitespace characters that starts at `i`. */
  function WordEnd(t: string, i: nat): (j: nat)
    requires i <= |t|
    ensures i <= j <= |t|
    ensures forall k :: i <= k < j ==> !IsWhitespace(t[k])
    ensures j < |t| ==> IsWhitespace(t[j])
    decreases |t| - i
  {
    if i == |t| || IsWhitespace(t[i]) then i else WordEnd(t, i + 1)
  }

  /** The end of the run of whitespace characters that starts at `i`. */
  function GapEnd(t: string, i: nat): (j: nat)
    requires i <= |t|
    ensures i <= j <= |t|
    ensures forall k :: i <= k < j ==> IsWhitespace(t[k])
    ensures j < |t| ==> !IsWhitespace(t[j])
    decreases |t| - i
  {
    if i == |t| || !IsWhitespace(t[i]) then i else GapEnd(t, i + 1)
  }

  /** `t.split(/\s+/)`: the pieces between maximal runs of whitespace. */
  function SplitWs(t: string): (r: seq<string>)
    ensures |r| >= 1
    ensures forall k :: 0 <= k < |r| ==> NoWhitespace(r[k])
    decreases |t|
  {
    var i := WordEnd(t, 0);
    if i == |t| then [t]
    else [t[..i]] + SplitWs(t[GapEnd(t, i)..])
  }

  /** The whitespace-separated fields of a line, `line.trim().split(/\s+/)`. */
  function Fields(line: string): seq<string> {
    SplitWs(Trim(line))
  }

  /** In a string with no whitespace at either end, no field is empty. */
  lemma {:induction false} SplitWsOfTrimmed(t: string)
    requires t != [] && !IsWhitespace(t[0]) && !IsWhitespace(t[|t| - 1])
    ensures forall k :: 0 <= k < |SplitWs(t)| ==> SplitWs(t)[k] != []
    decreases |t|
  {
    var i := WordEnd(t, 0);
    if i < |t| {
      var g := GapEnd(t, i);
      assert IsWhitespace(t[i]);
      assert g < |t|;
      SplitWsOfTrimmed(t[g..]);
      assert t[..i] != [];
    }
  }

  predicate AllWhitespace(s: string) {
    forall k :: 0 <= k < |s| ==> IsWhitespace(s[k])
  }

  /** A run that `\s+` matches: one or more whitespace characters. */
  predicate IsGap(g: string) {
    g != [] && AllWhitespace(g)
  }

  /** The shape of what `split(/\s+/)` returns: pieces without whitespace,
      of which only the first and the last may be empty. */
  predicate IsWsSplit(pieces: seq<string>) {
    && |pieces| >= 1
    && (forall k :: 0 <= k < |pieces| ==> NoWhitespace(pieces[k]))
    && (forall k :: 0 < k < |pieces| - 1 ==> pieces[k] != [])
  }

  /** `pieces[0] + gaps[0] + pieces[1] + ... + pieces[n - 1]`. */
  function Interleave(pieces: seq<string>, gaps: seq<string>): string
    requires |pieces| >= 1 && |gaps| == |pieces| - 1
  {
    if |pieces| == 1 then pieces[0]
    else pieces[0] + gaps[0] + Interleave(pieces[1..], gaps[1..])
  }

  /** The whitespace runs that `split(/\s+/)` cuts `t` at, in order. */
  function WsGaps(t: string): (gaps: seq<string>)
    ensures |gaps| == |SplitWs(t)| - 1
    ensures forall k :: 0 <= k < |gaps| ==> IsGap(gaps[k])
    decreases |t|
  {
    var i := WordEnd(t, 0);
    if i == |t| then []
    else [t[i..GapEnd(t, i)]] + WsGaps(t[GapEnd(t, i)..])
  }

  /** The pieces of every text have the shape `IsWsSplit` describes. */
  lemma {:induction false} SplitWsShape(t: string)
    ensures IsWsSplit(SplitWs(t))
    decreases |t|
  {
    var i := WordEnd(t, 0);
    if i < |t| {
      var rest := t[GapEnd(t, i)..];
      SplitWsShape(rest);
      var r, r' := SplitWs(t), SplitWs(rest);
      assert r == [t[..i]] + r';
      if |r'| > 1 {
        assert rest != [];
        assert r'[0] == rest[..WordEnd(rest, 0)];
        assert WordEnd(rest, 0) > 0;
      }
      assert forall k :: 0 < k < |r| - 1 ==> r[k] == r'[k - 1];
    }
  }

  /** Every text is its `split(/\s+/)` pieces interleaved with the
      whitespace runs between them. */
  lemma {:induction false} SplitWsDecomposes(t: string)
    ensures t == Interleave(SplitWs(t), WsGaps(t))
    decreases |t|
  {
    var i := WordEnd(t, 0);
    if i < |t| {
      var g := GapEnd(t, i);
      var rest := t[g..];
      SplitWsDecomposes(rest);
      SplitWsStep(t);
      InterleaveCons(t[..i], t[i..g], SplitWs(rest), WsGaps(rest));
      assert t == t[..i] + t[i..g] + rest;
    }
  }

  /** One step of `split(/\s+/)`: the first piece, the first gap, and the
      pieces and gaps of what follows. */
  lemma SplitWsStep(t: string)
    requires WordEnd(t, 0) < |t|
    ensures var i := WordEnd(t, 0); var g := GapEnd(t, i);
      && SplitWs(t) == [t[..i]] + SplitWs(t[g..])
      && WsGaps(t) == [t[i..g]] + WsGaps(t[g..])
  {
  }

  lemma InterleaveCons(w: string, g: string, pieces: seq<string>, gaps: seq<string>)
    requires |pieces| >= 1 && |gaps| == |pieces| - 1
    ensures Interleave([w] + pieces, [g] + gaps) == w + g + Interleave(pieces, gaps)
  {
    assert ([w] + pieces)[1..] == pieces && ([g] + gaps)[1..] == gaps;
  }

  /** In `w + g + rest`, with `g` a whitespace run and `rest` starting
      with a non-whitespace character (or empty), the first piece is `w`
      and the others are those of `rest`. */
  lemma FirstPiece(w: string, g: string, rest: string)
    requires NoWhitespace(w) && IsGap(g)
    requires rest == [] || !IsWhitespace(rest[0])
    ensures SplitWs(w + g + rest) == [w] + SplitWs(rest)
  {
    var t := w + g + rest;
    assert forall k :: 0 <= k < |w| ==> t[k] == w[k];
    assert forall k :: |w| <= k < |w| + |g| ==> t[k] == g[k - |w|];
    assert t[|w|] == g[0];
    assert WordEnd(t, 0) == |w|;
    if rest != [] {
      assert t[|w| + |g|] == rest[0];
    }
    assert GapEnd(t, |w|) == |w| + |g|;
    assert t[..|w|] == w && t[|w| + |g|..] == rest;
  }

  /** An interleaving starts with the first character of its first piece. */
  lemma {:induction false} InterleaveHead(pieces: seq<string>, gaps: seq<string>)
    requires |pieces| >= 1 && |gaps| == |pieces| - 1 && pieces[0] != []
    ensures Interleave(pieces, gaps) != [] && Interleave(pieces, gaps)[0] == pieces[0][0]
  {
  }

  /** Pieces of the `IsWsSplit` shape, joined by any whitespace runs, are
      split back into the same pieces by `split(/\s+/)`. */
  lemma {:induction false} SplitWsInterleave(pieces: seq<string>, gaps: seq<string>)
    requires IsWsSplit(pieces)
    requires |gaps| == |pieces| - 1 && forall k :: 0 <= k < |gaps| ==> IsGap(gaps[k])
    ensures SplitWs(Interleave(pieces, gaps)) == pieces
    decreases |pieces|
  {
    var t := Interleave(pieces, gaps);
    if |pieces| == 1 {
      assert WordEnd(t, 0) == |t|;
    } else {
      var rest := Interleave(pieces[1..], gaps[1..]);
      if pieces[1] != [] {
        InterleaveHead(pieces[1..], gaps[1..]);
      }
      FirstPiece(pieces[0], gaps[0], rest);
      SplitWsInterleave(pieces[1..], gaps[1..]);
      assert pieces == [pieces[0]] + pieces[1..];
    }
  }

  /** The number of leading and trailing whitespace characters of a text
      padded with whitespace around a trimmed core is the padding. */
  lemma TrimPadded(lead: string, t: string, trail: string)
    requires AllWhitespace(lead) && AllWhitespace(trail)
    requires t != [] && !IsWhitespace(t[0]) && !IsWhitespace(t[|t| - 1])
    ensures Trim(lead + t + trail) == t
  {
    var s := lead + t + trail;
    assert s[|lead|] == t[0];
    assert forall k :: 0 <= k < |lead| ==> s[k] == lead[k];
    assert LeadingBlanks(s) == |lead|;
    var u := s[|lead|..];
    assert u == t + trail;
    assert u[|t| - 1] == t[|t| - 1];
    assert forall k :: |t| <= k < |u| ==> u[k] == trail[k - |t|];
    assert TrailingBlanks(u) == |trail|;
    assert u[..|u| - |trail|] == t;
  }

  /** A row of non-empty fields separated by any whitespace runs, with any
      whitespace before and after it, has exactly those fields. */
  lemma {:induction false} FieldsOfPadded(lead: string, fields: seq<string>, gaps: seq<string>, trail: string)
    requires AllWhitespace(lead) && AllWhitespace(trail)
    requires |fields| >= 1 && forall k :: 0 <= k < |fields| ==> fields[k] != [] && NoWhitespace(fields[k])
    requires |gaps| == |fields| - 1 && forall k :: 0 <= k < |gaps| ==> IsGap(gaps[k])
    ensures Fields(lead + Interleave(fields, gaps) + trail) == fields
  {
    var t := Interleave(fields, gaps);
    InterleaveHead(fields, gaps);
    InterleaveLast(fields, gaps);
    TrimPadded(lead, t, trail);
    SplitWsInterleave(fields, gaps);
  }

  /** An interleaving ends with the last character of its last piece. */
  lemma {:induction false} InterleaveLast(pieces: seq<string>, gaps: seq<string>)
    requires |pieces| >= 1 && |gaps| == |pieces| - 1 && pieces[|pieces| - 1] != []
    ensures var t, last := Interleave(pieces, gaps), pieces[|pieces| - 1];
      t != [] && t[|t| - 1] == last[|last| - 1]
    decreases |pieces|
  {
    if |pieces| > 1 {
      InterleaveLast(pieces[1..], gaps[1..]);
    }
  }

  // ---------------------------------------------------------------------
  // includes, startsWith

  /** `s.includes(sub)`: `sub` occurs in `s` at some position. */
  function Contains(s: string, sub: string): (r: bool)
    ensures r <==> exists i :: 0 <= i <= |s| && sub <= s[i..]
    decreases |s|
  {
    if sub <= s then
      assert sub <= s[0..];
      true
    else if s == [] then false
    else
      var r := Contains(s[1..], sub);
      assert forall i :: 1 <= i <= |s| ==> s[1..][i - 1..] == s[i..];
      r
  }

  /** `s.startsWith(prefix)`. */
  predicate StartsWith(s: string, prefix: string) {
    prefix <= s
  }
}
