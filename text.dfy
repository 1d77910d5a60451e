/** The string primitives the answer checker chains together: lower-casing,
    trimming, deleting basic punctuation, and splitting on the `|` that
    separates accepted alternatives. Strings are sequences of characters. */
module Text {

  /** The characters JavaScript's `String.prototype.trim` removes: the
      WhiteSpace and LineTerminator code points of ECMAScript. */
  predicate IsSpace(c: char) {
    c == ' ' || c == '\t' || c == '\n' || c == '\r' || c == '\U{B}' || c == '\U{C}'
    || c == '\U{A0}' || c == '\U{FEFF}' || c == '\U{1680}' || ('\U{2000}' <= c <= '\U{200A}')
    || c == '\U{2028}' || c == '\U{2029}' || c == '\U{202F}' || c == '\U{205F}' || c == '\U{3000}'
  }

  /** The characters of the class `[.,!?'"]` that normalisation deletes. */
  predicate IsPunctuation(c: char) {
    c == '.' || c == ',' || c == '!' || c == '?' || c == '\'' || c == '"'
  }

  predicate IsUpper(c: char) {
    'A' <= c <= 'Z'
  }

  /** The separator between accepted alternatives of a canonical answer. */
  const Delimiter: char := '|'

  predicate NoPunctuation(s: string) {
    forall c :: c in s ==> !IsPunctuation(c)
  }

  predicate AllSpace(s: string) {
    forall k :: 0 <= k < |s| ==> IsSpace(s[k])
  }

  /** A string `trim` leaves as it is: empty, or bounded by non-space characters. */
  predicate IsTrimmed(s: string) {
    s == [] || (!IsSpace(s[0]) && !IsSpace(s[|s| - 1]))
  }

  // ---------------------------------------------------------------------
  // toLowerCase (ASCII letters only)
  // ---------------------------------------------------------------------

  function LowerChar(c: char): (d: char)
    ensures IsUpper(c) ==> d as int == c as int + 32 && 'a' <= d <= 'z'
    ensures !IsUpper(c) ==> d == c
    ensures !IsUpper(d)
  {
    if IsUpper(c) then (c as int + 32) as char else c
  }

  /** Lower-cases every ASCII capital and changes nothing else. */
  function Lower(s: string): (r: string)
    ensures |r| == |s|
    ensures forall k :: 0 <= k < |s| ==> r[k] == LowerChar(s[k])
    ensures forall c :: c in r ==> !IsUpper(c)
  {
    if s == [] then [] else [LowerChar(s[0])] + Lower(s[1..])
  }

  /** Lower-casing only produces letters, so every other character of the
      result was already in the input, and trimmed strings stay trimmed. */
  lemma LowerKeeps(s: string)
    ensures forall c :: c in Lower(s) && !('a' <= c <= 'z') ==> c in s
    ensures NoPunctuation(s) ==> NoPunctuation(Lower(s))
    ensures Delimiter !in s ==> Delimiter !in Lower(s)
    ensures IsTrimmed(s) ==> IsTrimmed(Lower(s))
  {
    var r := Lower(s);
    forall c | c in r && !('a' <= c <= 'z') ensures c in s {
      var k :| 0 <= k < |r| && r[k] == c;
      assert s[k] == c;
    }
  }

  // ---------------------------------------------------------------------
  // trim
  // ---------------------------------------------------------------------

  /** Drops the leading white space: the result is the suffix of `s` that
      starts at its first non-space character. */
  function TrimStart(s: string): (r: string)
    ensures |r| <= |s|
    ensures AllSpace(s[..|s| - |r|])
    ensures r == [] || !IsSpace(r[0])
    ensures forall c :: c in r ==> c in s
  {
    if |s| > 0 && IsSpace(s[0]) then
      var r := TrimStart(s[1..]);
      TrimStartStep(s, r);
      r
    else s
  }

  /** The step of `TrimStart` past one leading space keeps its contract. */
  lemma TrimStartStep(s: string, r: string)
    requires |s| > 0 && IsSpace(s[0])
    requires |r| <= |s| - 1
    requires AllSpace(s[1..][..|s| - 1 - |r|])
    requires forall c :: c in r ==> c in s[1..]
    ensures AllSpace(s[..|s| - |r|])
    ensures forall c :: c in r ==> c in s
  {
    var t := s[1..];
    var pre := s[..|s| - |r|];
    forall k | 0 <= k < |pre| ensures IsSpace(pre[k]) {
      if k > 0 { assert pre[k] == t[..|t| - |r|][k - 1]; }
    }
  }

  /** Drops the trailing white space: the result is the prefix of `s` that
      ends at its last non-space character. */
  function TrimEnd(s: string): (r: string)
    ensures |r| <= |s|
    ensures AllSpace(s[|r|..])
    ensures r == [] || !IsSpace(r[|r| - 1])
    ensures forall c :: c in r ==> c in s
  {
    if |s| > 0 && IsSpace(s[|s| - 1]) then
      var r := TrimEnd(s[..|s| - 1]);
      TrimEndStep(s, r);
      r
    else s
  }

  /** The step of `TrimEnd` past one trailing space keeps its contract. */
  lemma TrimEndStep(s: string, r: string)
    requires |s| > 0 && IsSpace(s[|s| - 1])
    requires |r| <= |s| - 1
    requires AllSpace(s[..|s| - 1][|r|..])
    requires forall c :: c in r ==> c in s[..|s| - 1]
    ensures AllSpace(s[|r|..])
    ensures forall c :: c in r ==> c in s
  {
    var t := s[..|s| - 1];
    var post := s[|r|..];
    forall k | 0 <= k < |post| ensures IsSpace(post[k]) {
      if k < |post| - 1 { assert post[k] == t[|r|..][k]; }
    }
  }

  /** JavaScript's `trim`: white space removed from both ends. */
  function Trim(s: string): (r: string)
    ensures IsTrimmed(r)
    ensures |r| <= |s|
    ensures forall c :: c in r ==> c in s
  {
    var t := TrimStart(s);
    var r := TrimEnd(t);
    assert r == [] || !IsSpace(r[0]) by {
      if r != [] {
        TrimEndPrefix(t);
        assert r[0] == t[0];
      }
    }
    r
  }

  // ---------------------------------------------------------------------
  // replace(/[.,!?'"]+/g, '')
  // ---------------------------------------------------------------------

  /** Deletes every punctuation character and keeps the others in order. */
  function StripPunctuation(s: string): (r: string)
    ensures |r| <= |s|
    ensures NoPunctuation(r)
    ensures forall c :: c in r <==> c in s && !IsPunctuation(c)
  {
    if s == [] then []
    else (if IsPunctuation(s[0]) then [] else [s[0]]) + StripPunctuation(s[1..])
  }

  // ---------------------------------------------------------------------
  // split('|') and its inverse
  // ---------------------------------------------------------------------

  /** JavaScript's `split('|')`: the pieces between delimiters, empty ones
      included, and always at least one piece. */
  function Split(s: string): (r: seq<string>)
    ensures |r| >= 1
    ensures forall i :: 0 <= i < |r| ==> Delimiter !in r[i]
  {
    if s == [] then [[]]
    else if s[0] == Delimiter then [[]] + Split(s[1..])
    else
      var rest := Split(s[1..]);
      [[s[0]] + rest[0]] + rest[1..]
  }

  /** The pieces glued back together with the delimiter. */
  function Join(parts: seq<string>): string
    requires |parts| >= 1
  {
    if |parts| == 1 then parts[0] else parts[0] + [Delimiter] + Join(parts[1..])
  }

  /** The text before the first `|`, or the whole string when it has none. */
  function FirstAlternative(s: string): (r: string)
    ensures |r| <= |s| && r == s[..|r|]
    ensures Delimiter !in r
    ensures |r| == |s| || s[|r|] == Delimiter
  {
    JoinSplit(s);
    var parts := Split(s);
    assert |parts| > 1 ==> s == parts[0] + ([Delimiter] + Join(parts[1..]));
    parts[0]
  }

  // ---------------------------------------------------------------------
  // Lemmas: split and join are inverse
  // ---------------------------------------------------------------------

  /** Splitting and re-joining gives back the original string. */
  lemma {:induction false} JoinSplit(s: string)
    ensures Join(Split(s)) == s
    decreases |s|
  {
    if s == [] {
    } else if s[0] == Delimiter {
      JoinSplit(s[1..]);
      var rest := Split(s[1..]);
      assert Split(s) == [[]] + rest;
      assert ([[]] + rest)[1..] == rest;
      assert s == [Delimiter] + s[1..];
    } else {
      JoinSplit(s[1..]);
      var rest := Split(s[1..]);
      var parts := [[s[0]] + rest[0]] + rest[1..];
      assert Split(s) == parts;
      assert s == [s[0]] + s[1..];
      if |rest| > 1 {
        assert parts[1..] == rest[1..];
        assert Join(rest) == rest[0] + [Delimiter] + Join(rest[1..]);
      }
    }
  }

  /** Splitting a string whose first piece is `a` (no delimiter in it). */
  lemma {:induction false} SplitPrefix(a: string, b: string)
    requires Delimiter !in a
    ensures Split(a + b) == [a + Split(b)[0]] + Split(b)[1..]
    decreases |a|
  {
    if a == [] {
      assert a + b == b;
      var parts := Split(b);
      assert a + parts[0] == parts[0];
      assert parts == [parts[0]] + parts[1..];
    } else {
      assert (a + b)[0] == a[0] && (a + b)[1..] == a[1..] + b;
      SplitPrefix(a[1..], b);
      var rest := Split(a[1..] + b);
      assert rest[0] == a[1..] + Split(b)[0];
      assert [a[0]] + rest[0] == a + Split(b)[0];
    }
  }

  /** Joining delimiter-free pieces and splitting again gives back the pieces. */
  lemma {:induction false} SplitJoin(parts: seq<string>)
    requires |parts| >= 1
    requires forall i :: 0 <= i < |parts| ==> Delimiter !in parts[i]
    ensures Split(Join(parts)) == parts
    decreases |parts|
  {
    if |parts| == 1 {
      SplitPrefix(parts[0], []);
      assert parts[0] + [] == parts[0];
    } else {
      var tail := Join(parts[1..]);
      SplitJoin(parts[1..]);
      assert Join(parts) == parts[0] + ([Delimiter] + tail);
      assert ([Delimiter] + tail)[1..] == tail;
      assert Split([Delimiter] + tail) == [[]] + Split(tail);
      SplitPrefix(parts[0], [Delimiter] + tail);
      assert parts[0] + [] == parts[0];
      assert parts == [parts[0]] + parts[1..];
    }
  }

  // ---------------------------------------------------------------------
  // Lemmas: trim
  // ---------------------------------------------------------------------

  /** Leading white space is only removed from the front of a concatenation
      when it does not reach past `a`. */
  lemma {:induction false} TrimStartAppend(a: string, b: string)
    requires !AllSpace(a) || (b != [] && !IsSpace(b[0]))
    ensures TrimStart(a + b) == TrimStart(a) + b
    decreases |a|
  {
    if a == [] {
      assert a + b == b;
    } else if IsSpace(a[0]) {
      assert (a + b)[1..] == a[1..] + b;
      assert !AllSpace(a) ==> !AllSpace(a[1..]) by {
        if !AllSpace(a) {
          var k :| 0 <= k < |a| && !IsSpace(a[k]);
          assert a[1..][k - 1] == a[k];
        }
      }
      TrimStartAppend(a[1..], b);
    }
  }

  /** Trailing white space is only removed from the back of a concatenation
      when it does not reach past `b`. */
  lemma {:induction false} TrimEndAppend(a: string, b: string)
    requires !AllSpace(b) || (a != [] && !IsSpace(a[|a| - 1]))
    ensures TrimEnd(a + b) == a + TrimEnd(b)
    decreases |b|
  {
    if b == [] {
      assert a + b == a;
    } else if IsSpace(b[|b| - 1]) {
      var b' := b[..|b| - 1];
      assert (a + b)[..|a + b| - 1] == a + b';
      assert !AllSpace(b) ==> !AllSpace(b') by {
        if !AllSpace(b) {
          var k :| 0 <= k < |b| && !IsSpace(b[k]);
          assert b'[k] == b[k];
        }
      }
      TrimEndAppend(a, b');
    }
  }

  /** Appending white space does not change what `TrimEnd` keeps. */
  lemma {:induction false} TrimEndSpaceSuffix(t: string, q: string)
    requires AllSpace(q)
    ensures TrimEnd(t + q) == TrimEnd(t)
    decreases |q|
  {
    if q == [] {
      assert t + q == t;
    } else {
      assert (t + q)[..|t + q| - 1] == t + q[..|q| - 1];
      TrimEndSpaceSuffix(t, q[..|q| - 1]);
    }
  }

  /** What `TrimStart` keeps is a suffix of its argument. */
  lemma {:induction false} TrimStartSuffix(s: string)
    ensures TrimStart(s) == s[|s| - |TrimStart(s)|..]
    decreases |s|
  {
    if |s| > 0 && IsSpace(s[0]) {
      TrimStartSuffix(s[1..]);
      var r := TrimStart(s);
      assert s[1..][|s| - 1 - |r|..] == s[|s| - |r|..];
    }
  }

  /** What `TrimEnd` keeps is a prefix of its argument. */
  lemma {:induction false} TrimEndPrefix(s: string)
    ensures TrimEnd(s) == s[..|TrimEnd(s)|]
    decreases |s|
  {
    if |s| > 0 && IsSpace(s[|s| - 1]) {
      TrimEndPrefix(s[..|s| - 1]);
      var r := TrimEnd(s);
      assert s[..|s| - 1][..|r|] == s[..|r|];
    }
  }

  /** A string of white space only trims to nothing. */
  lemma TrimStartAllSpace(s: string)
    requires AllSpace(s)
    ensures TrimStart(s) == []
  {
    TrimStartSuffix(s);
  }

  lemma TrimOfTrimStart(x: string)
    ensures Trim(TrimStart(x)) == Trim(x)
  {
  }

  lemma {:induction false} TrimOfTrimEnd(x: string)
    ensures Trim(TrimEnd(x)) == Trim(x)
  {
    var e := TrimEnd(x);
    var q := x[|e|..];
    TrimEndPrefix(x);
    assert x == e + q;
    if e == [] {
      TrimStartAllSpace(x);
    } else {
      assert !AllSpace(e) by { assert !IsSpace(e[|e| - 1]); }
      TrimStartAppend(e, q);
      TrimEndSpaceSuffix(TrimStart(e), q);
    }
  }

  /** Trimming twice is trimming once. */
  lemma TrimIdempotent(x: string)
    ensures Trim(Trim(x)) == Trim(x)
  {
    TrimOfTrimEnd(TrimStart(x));
    TrimOfTrimStart(x);
  }

  /** `trim` returns exactly the part of `p + t + q` between white-space
      padding on both sides, when that part is itself trimmed. */
  lemma {:induction false} TrimOfPadded(p: string, t: string, q: string)
    requires AllSpace(p) && AllSpace(q) && IsTrimmed(t)
    ensures Trim(p + t + q) == t
  {
    if t == [] {
      var s := p + t + q;
      assert AllSpace(s) by {
        forall k | 0 <= k < |s| ensures IsSpace(s[k]) {
          if k < |p| { assert s[k] == p[k]; } else { assert s[k] == q[k - |p|]; }
        }
      }
      TrimStartAllSpace(s);
    } else {
      assert p + t + q == p + (t + q);
      TrimStartAppend(p, t + q);
      TrimStartAllSpace(p);
      assert TrimStart(p) + (t + q) == t + q;
      TrimEndSpaceSuffix(t, q);
    }
  }

  /** The strings `trim` leaves unchanged are exactly the trimmed ones. */
  lemma TrimFixedPoint(s: string)
    ensures Trim(s) == s <==> IsTrimmed(s)
  {
    if IsTrimmed(s) {
      TrimOfPadded([], s, []);
      assert [] + s + [] == s;
    }
  }

  // ---------------------------------------------------------------------
  // Lemmas: punctuation removal and lower-casing
  // ---------------------------------------------------------------------

  lemma {:induction false} StripAppend(a: string, b: string)
    ensures StripPunctuation(a + b) == StripPunctuation(a) + StripPunctuation(b)
    decreases |a|
  {
    if a == [] {
      assert a + b == b;
    } else {
      assert (a + b)[0] == a[0] && (a + b)[1..] == a[1..] + b;
      StripAppend(a[1..], b);
    }
  }

  /** A string with no punctuation is left as it is. */
  lemma {:induction false} StripNoPunctuation(s: string)
    requires NoPunctuation(s)
    ensures StripPunctuation(s) == s
    decreases |s|
  {
    if s != [] {
      StripNoPunctuation(s[1..]);
      assert s == [s[0]] + s[1..];
    }
  }

  lemma LowerAppend(a: string, b: string)
    ensures Lower(a + b) == Lower(a) + Lower(b)
  {
  }

  // ---------------------------------------------------------------------
  // Lemmas: each operation applied to a joined string acts piece by piece
  // ---------------------------------------------------------------------

  function LowerEach(parts: seq<string>): (r: seq<string>)
    ensures |r| == |parts| && forall i :: 0 <= i < |r| ==> r[i] == Lower(parts[i])
  {
    seq(|parts|, i requires 0 <= i < |parts| => Lower(parts[i]))
  }

  function StripEach(parts: seq<string>): (r: seq<string>)
    ensures |r| == |parts| && forall i :: 0 <= i < |r| ==> r[i] == StripPunctuation(parts[i])
  {
    seq(|parts|, i requires 0 <= i < |parts| => StripPunctuation(parts[i]))
  }

  /** The pieces of `Join(parts)` after `trim`: only the first loses its
      leading and only the last its trailing white space. */
  function TrimOuter(parts: seq<string>): seq<string>
    requires |parts| >= 1
  {
    var front := parts[0 := TrimStart(parts[0])];
    front[|front| - 1 := TrimEnd(front[|front| - 1])]
  }

  lemma {:induction false} LowerJoin(parts: seq<string>)
    requires |parts| >= 1
    ensures Lower(Join(parts)) == Join(LowerEach(parts))
    decreases |parts|
  {
    if |parts| > 1 {
      var tail := Join(parts[1..]);
      LowerJoin(parts[1..]);
      LowerAppend(parts[0] + [Delimiter], tail);
      LowerAppend(parts[0], [Delimiter]);
      assert Lower([Delimiter]) == [Delimiter];
      assert LowerEach(parts)[1..] == LowerEach(parts[1..]);
    }
  }

  lemma {:induction false} StripJoin(parts: seq<string>)
    requires |parts| >= 1
    ensures StripPunctuation(Join(parts)) == Join(StripEach(parts))
    decreases |parts|
  {
    if |parts| > 1 {
      var tail := Join(parts[1..]);
      StripJoin(parts[1..]);
      StripAppend(parts[0] + [Delimiter], tail);
      StripAppend(parts[0], [Delimiter]);
      assert StripPunctuation([Delimiter]) == [Delimiter];
      assert StripEach(parts)[1..] == StripEach(parts[1..]);
    }
  }

  lemma TrimStartJoin(parts: seq<string>)
    requires |parts| >= 1
    ensures TrimStart(Join(parts)) == Join(parts[0 := TrimStart(parts[0])])
  {
    if |parts| > 1 {
      var front := parts[0 := TrimStart(parts[0])];
      var d := [Delimiter] + Join(parts[1..]);
      assert Join(parts) == parts[0] + d by { JoinCons(parts); }
      assert Join(front) == TrimStart(parts[0]) + d by {
        JoinCons(front);
        assert front[1..] == parts[1..];
      }
      assert TrimStart(parts[0] + d) == TrimStart(parts[0]) + d by {
        assert d[0] == Delimiter;
        TrimStartAppend(parts[0], d);
      }
    }
  }

  /** The first piece, the delimiter, and the rest joined. */
  lemma JoinCons(parts: seq<string>)
    requires |parts| > 1
    ensures Join(parts) == parts[0] + ([Delimiter] + Join(parts[1..]))
  {
  }

  lemma {:induction false} TrimEndJoin(parts: seq<string>)
    requires |parts| >= 1
    ensures TrimEnd(Join(parts)) == Join(parts[|parts| - 1 := TrimEnd(parts[|parts| - 1])])
    decreases |parts|
  {
    if |parts| > 1 {
      var n := |parts|;
      var rest := parts[1..];
      var tail := Join(rest);
      var d := [Delimiter] + tail;
      assert Join(parts) == parts[0] + d;
      assert !AllSpace(d) by { assert d[0] == Delimiter; }
      TrimEndAppend(parts[0], d);
      TrimEndAppend([Delimiter], tail);
      TrimEndJoin(rest);
      var back := parts[n - 1 := TrimEnd(parts[n - 1])];
      var restBack := rest[n - 2 := TrimEnd(rest[n - 2])];
      assert back[1..] == restBack;
      assert Join(back) == back[0] + [Delimiter] + Join(back[1..]);
      assert TrimEnd(Join(parts)) == parts[0] + ([Delimiter] + Join(restBack));
    }
  }

  lemma TrimJoin(parts: seq<string>)
    requires |parts| >= 1
    ensures Trim(Join(parts)) == Join(TrimOuter(parts))
  {
    TrimStartJoin(parts);
    TrimEndJoin(parts[0 := TrimStart(parts[0])]);
  }

  /** Trimming a piece of `TrimOuter(parts)` gives the trimmed original
      piece, and introduces no new characters. */
  lemma TrimOuterPiece(parts: seq<string>, i: nat)
    requires |parts| >= 1 && i < |parts|
    ensures |TrimOuter(parts)| == |parts|
    ensures Trim(TrimOuter(parts)[i]) == Trim(parts[i])
    ensures forall c :: c in TrimOuter(parts)[i] ==> c in parts[i]
  {
    TrimOuterShape(parts, i);
    TrimOfPartlyTrimmed(parts[i], TrimOuter(parts)[i]);
  }

  /** A piece of `TrimOuter(parts)` is the original piece, trimmed at the
      front, at the back, at both ends or not at all. */
  lemma TrimOuterShape(parts: seq<string>, i: nat)
    requires |parts| >= 1 && i < |parts|
    ensures |TrimOuter(parts)| == |parts|
    ensures var m := TrimOuter(parts)[i];
      m == parts[i] || m == TrimStart(parts[i]) || m == TrimEnd(parts[i]) || m == TrimEnd(TrimStart(parts[i]))
  {
    var n := |parts|;
    var front := parts[0 := TrimStart(parts[0])];
    var m := TrimOuter(parts)[i];
    assert TrimOuter(parts) == front[n - 1 := TrimEnd(front[n - 1])];
    if i == n - 1 {
      assert m == TrimEnd(front[i]);
      if i == 0 {
        assert front[i] == TrimStart(parts[i]);
      } else {
        assert front[i] == parts[i];
      }
    } else {
      assert m == front[i];
    }
  }

  lemma TrimOfPartlyTrimmed(p: string, m: string)
    requires m == p || m == TrimStart(p) || m == TrimEnd(p) || m == TrimEnd(TrimStart(p))
    ensures Trim(m) == Trim(p)
    ensures forall c :: c in m ==> c in p
  {
    if m == TrimStart(p) {
      TrimOfTrimStart(p);
    } else if m == TrimEnd(p) {
      TrimOfTrimEnd(p);
    } else if m == TrimEnd(TrimStart(p)) {
      TrimIdempotent(p);
    }
  }

  // ---------------------------------------------------------------------
  // Trimming around the punctuation deletion
  // ---------------------------------------------------------------------

  /** White space is never deleted punctuation. */
  lemma SpaceNoPunctuation(p: string)
    requires AllSpace(p)
    ensures NoPunctuation(p)
  {
    forall c | c in p
      ensures !IsPunctuation(c)
    {
      var k :| 0 <= k < |p| && p[k] == c;
    }
  }

  lemma {:induction false} TrimStartSpacePrefix(p: string, s: string)
    requires AllSpace(p)
    ensures TrimStart(p + s) == TrimStart(s)
    decreases |p|
  {
    if p == [] {
      assert p + s == s;
    } else {
      assert (p + s)[0] == p[0];
      assert (p + s)[1..] == p[1..] + s;
      assert AllSpace(p[1..]) by {
        forall k | 0 <= k < |p| - 1
          ensures IsSpace(p[1..][k])
        {
          assert p[1..][k] == p[k + 1];
        }
      }
      TrimStartSpacePrefix(p[1..], s);
    }
  }

  /** White space in front of a string does not change its trimmed form. */
  lemma TrimSpacePrefix(p: string, s: string)
    requires AllSpace(p)
    ensures Trim(p + s) == Trim(s)
  {
    TrimStartSpacePrefix(p, s);
  }

  /** White space behind a string does not change its trimmed form. */
  lemma TrimSpaceSuffix(s: string, q: string)
    requires AllSpace(q)
    ensures Trim(s + q) == Trim(s)
  {
    if AllSpace(s) {
      assert AllSpace(s + q) by {
        forall k | 0 <= k < |s + q|
          ensures IsSpace((s + q)[k])
        {
          if k < |s| {
            assert (s + q)[k] == s[k];
          } else {
            assert (s + q)[k] == q[k - |s|];
          }
        }
      }
      TrimStartAllSpace(s + q);
      TrimStartAllSpace(s);
    } else {
      TrimStartAppend(s, q);
      TrimEndSpaceSuffix(TrimStart(s), q);
    }
  }

  /** Trimming the front before the deletion changes nothing once the result is trimmed. */
  lemma TrimStripTrimStart(x: string)
    ensures Trim(StripPunctuation(TrimStart(x))) == Trim(StripPunctuation(x))
  {
    var t := TrimStart(x);
    var p := x[..|x| - |t|];
    TrimStartSuffix(x);
    assert x == p + t;
    StripAppend(p, t);
    SpaceNoPunctuation(p);
    StripNoPunctuation(p);
    TrimSpacePrefix(p, StripPunctuation(t));
  }

  /** Trimming the back before the deletion changes nothing once the result is trimmed. */
  lemma TrimStripTrimEnd(x: string)
    ensures Trim(StripPunctuation(TrimEnd(x))) == Trim(StripPunctuation(x))
  {
    var t := TrimEnd(x);
    var q := x[|t|..];
    TrimEndPrefix(x);
    assert x == t + q;
    StripAppend(t, q);
    SpaceNoPunctuation(q);
    StripNoPunctuation(q);
    TrimSpaceSuffix(StripPunctuation(t), q);
  }

  lemma TrimStripPartlyTrimmed(p: string, m: string)
    requires m == p || m == TrimStart(p) || m == TrimEnd(p) || m == TrimEnd(TrimStart(p))
    ensures Trim(StripPunctuation(m)) == Trim(StripPunctuation(p))
  {
    if m == TrimStart(p) {
      TrimStripTrimStart(p);
    } else if m == TrimEnd(p) {
      TrimStripTrimEnd(p);
    } else if m == TrimEnd(TrimStart(p)) {
      TrimStripTrimEnd(TrimStart(p));
      TrimStripTrimStart(p);
    }
  }
}
