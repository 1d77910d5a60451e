/** `checkAnswer` of script.js: one free-form answer compared with its
    canonical answer, either as text (normalised, any `|`-separated
    alternative) or as a number (absolute tolerance 0.001). */
module AnswerMatcher {
  import opened Wrappers
  import opened Text

  /** The tag that selects the numeric comparison; every other tag compares text. */
  const NumberKind: string := "number"

  /** Two parsed numbers match when they differ by strictly less than this. */
  const Tolerance: real := 0.001

  /** `parseFloat`, abstracted: `None` stands for NaN. */
  type Parser = string -> Option<real>

  function Abs(x: real): real {
    if x < 0.0 then -x else x
  }

  // ---------------------------------------------------------------------
  // Text answers
  // ---------------------------------------------------------------------

  /** `normalize`: lower-case, then trim, then delete every `. , ! ? ' "`.
      Trimming comes before the deletion, so a space left in front of
      deleted punctuation survives. */
  function Normalize(s: string): (r: string)
    ensures NoPunctuation(r)
    ensures forall c :: c in r ==> !IsUpper(c)
    ensures |r| <= |s|
  {
    StripPunctuation(Trim(Lower(s)))
  }

  /** The accepted alternatives: the normalised canonical answer split on
      `|`, each piece trimmed again. */
  function Alternatives(canonical: string): (r: seq<string>)
    ensures |r| >= 1
    ensures forall i :: 0 <= i < |r| ==> IsTrimmed(r[i]) && Delimiter !in r[i] && NoPunctuation(r[i])
  {
    var n := Normalize(canonical);
    var parts := Split(n);
    var r := seq(|parts|, i requires 0 <= i < |parts| => Trim(parts[i]));
    forall i | 0 <= i < |r|
      ensures IsTrimmed(r[i]) && Delimiter !in r[i] && NoPunctuation(r[i])
    {
      TrimmedPiece(n, i);
    }
    r
  }

  /** A trimmed piece of a punctuation-free string split on `|`. */
  lemma TrimmedPiece(n: string, i: nat)
    requires NoPunctuation(n) && i < |Split(n)|
    ensures var t := Trim(Split(n)[i]);
      IsTrimmed(t) && Delimiter !in t && NoPunctuation(t)
  {
    PiecesOfSplit(n, i);
  }

  /** A text answer matches when its normalised form equals one of the
      alternatives exactly. */
  function TextMatches(user: string, canonical: string): (r: bool)
    ensures r ==> IsTrimmed(Normalize(user)) && Delimiter !in Normalize(user)
  {
    Normalize(user) in Alternatives(canonical)
  }

  // ---------------------------------------------------------------------
  // Numeric answers
  // ---------------------------------------------------------------------

  /** Both sides parsed; a parse failure (NaN) makes the comparison false. */
  function NumericMatches(user: string, canonical: string, parse: Parser): (r: bool)
    ensures r <==> parse(user).Some? && parse(canonical).Some?
                   && Abs(parse(user).value - parse(canonical).value) < Tolerance
  {
    match (parse(user), parse(canonical))
    case (Some(u), Some(c)) => Abs(u - c) < Tolerance
    case _ => false
  }

  /** `checkAnswer(userAnswer, correctAnswer, type)`. */
  function Matches(user: string, canonical: string, kind: string, parse: Parser): (r: bool)
    ensures kind == NumberKind ==> (r ==> parse(user).Some? && parse(canonical).Some?)
    ensures kind != NumberKind ==> (r ==> IsTrimmed(Normalize(user)) && Delimiter !in Normalize(user))
  {
    if kind == NumberKind then NumericMatches(user, canonical, parse)
    else TextMatches(user, canonical)
  }

  // ---------------------------------------------------------------------
  // Properties of text matching
  // ---------------------------------------------------------------------

  /** A string with no capital letter is left alone by lower-casing. */
  lemma LowerOfLowered(s: string)
    requires forall c :: c in s ==> !IsUpper(c)
    ensures Lower(s) == s
  {
    assert forall k :: 0 <= k < |s| ==> !IsUpper(s[k]) by {
      forall k | 0 <= k < |s| ensures !IsUpper(s[k]) { assert s[k] in s; }
    }
  }

  /** Normalising a normalised string only trims it again, so normalisation
      is idempotent exactly on the strings whose normal form has no white
      space left at either end. */
  lemma NormalizeFixedPoint(s: string)
    ensures Normalize(Normalize(s)) == Trim(Normalize(s))
    ensures Normalize(Normalize(s)) == Normalize(s) <==> IsTrimmed(Normalize(s))
  {
    var n := Normalize(s);
    LowerOfLowered(n);
    StripNoPunctuation(Trim(n));
    TrimFixedPoint(n);
  }

  /** Trimming comes before deleting punctuation, so a word followed by
      " ." normalises to the word and a trailing space ("Paris ." becomes
      "paris "), and normalising that again removes the space. */
  lemma NormalizeNotIdempotent(w: string)
    requires w != [] && IsTrimmed(w) && NoPunctuation(w)
    ensures Normalize(w + " .") == Lower(w) + " "
    ensures Normalize(Normalize(w + " .")) == Lower(w) != Normalize(w + " .")
  {
    var once := Normalize(w + " .");
    assert once == Lower(w) + " " by { NormalizeWordSpaceDot(w); }
    assert Normalize(once) == Trim(once) by { NormalizeFixedPoint(w + " ."); }
    LowerKeeps(w);
    TrimWordSpace(Lower(w));
  }

  lemma TrimWordSpace(w: string)
    requires IsTrimmed(w)
    ensures Trim(w + " ") == w
  {
    TrimOfPadded([], w, " ");
    assert [] + w + " " == w + " ";
  }

  lemma NormalizeWordSpaceDot(w: string)
    requires w != [] && IsTrimmed(w) && NoPunctuation(w)
    ensures Normalize(w + " .") == Lower(w) + " "
  {
    LowerSpaceDot(w);
    LowerKeeps(w);
    TrimSpaceDot(Lower(w));
    StripSpaceDot(Lower(w));
  }

  lemma LowerSpaceDot(w: string)
    ensures Lower(w + " .") == Lower(w) + " ."
  {
    LowerAppend(w, " .");
    assert Lower(" .") == " .";
  }

  lemma TrimSpaceDot(w: string)
    requires w != [] && IsTrimmed(w)
    ensures Trim(w + " .") == w + " ."
  {
    var t := w + " .";
    assert IsTrimmed(t) by {
      assert t[0] == w[0];
    }
    TrimFixedPoint(t);
  }

  lemma StripSpaceDot(w: string)
    requires NoPunctuation(w)
    ensures StripPunctuation(w + " .") == w + " "
  {
    StripAppend(w, " .");
    StripNoPunctuation(w);
    assert StripPunctuation(" .") == " ";
  }

  /** The alternatives of a canonical answer written as delimiter-free
      pieces joined by the delimiter: one per piece, in order, each the
      piece lower-cased, stripped of the deleted punctuation and trimmed.
      The trimming of the whole text before the split only touches the
      ends of the first and last piece, which the trimming of each piece
      after the split covers. */
  lemma AlternativesOfJoin(alts: seq<string>)
    requires |alts| >= 1
    requires forall j :: 0 <= j < |alts| ==> Delimiter !in alts[j]
    ensures |Alternatives(Join(alts))| == |alts|
    ensures forall j :: 0 <= j < |alts| ==>
      Alternatives(Join(alts))[j] == Trim(StripPunctuation(Lower(alts[j])))
  {
    var lowered := LowerEach(alts);
    var trimmed := TrimOuter(lowered);
    var stripped := StripEach(trimmed);
    assert Normalize(Join(alts)) == Join(stripped) by {
      LowerJoin(alts);
      TrimJoin(lowered);
      StripJoin(trimmed);
    }
    assert Split(Normalize(Join(alts))) == stripped by {
      forall j | 0 <= j < |stripped|
        ensures Delimiter !in stripped[j]
      {
        LowerKeeps(alts[j]);
        TrimOuterPiece(lowered, j);
      }
      SplitJoin(stripped);
    }
    forall j | 0 <= j < |alts|
      ensures Alternatives(Join(alts))[j] == Trim(StripPunctuation(Lower(alts[j])))
    {
      TrimOuterShape(lowered, j);
      TrimStripPartlyTrimmed(lowered[j], trimmed[j]);
    }
  }

  /** Text matching against pieces joined by the delimiter, both
      directions: the answer matches exactly when its normal form equals
      some piece lower-cased, stripped and trimmed. */
  lemma TextMatchesJoin(user: string, alts: seq<string>)
    requires |alts| >= 1
    requires forall j :: 0 <= j < |alts| ==> Delimiter !in alts[j]
    ensures TextMatches(user, Join(alts)) <==>
      exists j :: 0 <= j < |alts| && Normalize(user) == Trim(StripPunctuation(Lower(alts[j])))
  {
    AlternativesOfJoin(alts);
    var a := Alternatives(Join(alts));
    if TextMatches(user, Join(alts)) {
      var j :| 0 <= j < |a| && a[j] == Normalize(user);
      assert Normalize(user) == Trim(StripPunctuation(Lower(alts[j])));
    }
  }

  /** The same for any canonical answer, through its pieces: text matching
      is membership of the normal form among the pieces of the canonical
      answer, each lower-cased, stripped and trimmed. */
  lemma TextMatchesPieces(user: string, canonical: string)
    ensures TextMatches(user, canonical) <==>
      exists j :: 0 <= j < |Split(canonical)|
        && Normalize(user) == Trim(StripPunctuation(Lower(Split(canonical)[j])))
  {
    JoinSplit(canonical);
    TextMatchesJoin(user, Split(canonical));
  }

  /** Every alternative written in the canonical answer, typed back exactly
      as written, is accepted, provided it contains none of the deleted
      punctuation characters. */
  lemma AlternativeAccepted(alts: seq<string>, i: nat)
    requires |alts| >= 1 && i < |alts|
    requires forall j :: 0 <= j < |alts| ==> Delimiter !in alts[j]
    requires NoPunctuation(alts[i])
    ensures TextMatches(alts[i], Join(alts))
  {
    AlternativesOfJoin(alts);
    var l := Lower(alts[i]);
    LowerKeeps(alts[i]);
    StripNoPunctuation(l);
    StripNoPunctuation(Trim(l));
    assert Normalize(alts[i]) == Alternatives(Join(alts))[i];
  }

  /** The answer shown for a wrong response, the canonical text before the
      first `|`, is itself accepted when it contains no deleted punctuation. */
  lemma ShownAnswerAccepted(canonical: string)
    requires NoPunctuation(FirstAlternative(canonical))
    ensures TextMatches(FirstAlternative(canonical), canonical)
  {
    JoinSplit(canonical);
    AlternativeAccepted(Split(canonical), 0);
  }

  /** With punctuation after a space the shown answer is rejected: for a
      canonical answer such as "Paris .|Lutecia" the text shown is "Paris .",
      whose normal form "paris " is not the alternative "paris". */
  lemma ShownAnswerMayBeRejected(w: string, rest: string)
    requires w != [] && IsTrimmed(w) && NoPunctuation(w) && Delimiter !in w
    ensures FirstAlternative(w + " ." + [Delimiter] + rest) == w + " ."
    ensures !TextMatches(w + " .", w + " ." + [Delimiter] + rest)
  {
    var shown := w + " .";
    assert Delimiter !in shown;
    assert shown + [Delimiter] + rest == shown + ([Delimiter] + rest);
    SplitPrefix(shown, [Delimiter] + rest);
    assert Split([Delimiter] + rest)[0] == [];
    assert shown + [] == shown;
    NormalizeNotIdempotent(w);
    assert !IsTrimmed(Normalize(shown));
  }

  /** With a single alternative the normalised answer must equal the whole
      normalised (and trimmed) canonical text; a part of it is not enough. */
  lemma SingleAlternative(user: string, canonical: string)
    requires Delimiter !in canonical
    ensures TextMatches(user, canonical) <==> Normalize(user) == Trim(Normalize(canonical))
  {
    assert Alternatives(canonical) == [Trim(Normalize(canonical))] by {
      AlternativesWithoutDelimiter(canonical);
    }
  }

  lemma AlternativesWithoutDelimiter(canonical: string)
    requires Delimiter !in canonical
    ensures Alternatives(canonical) == [Trim(Normalize(canonical))]
  {
    var n := Normalize(canonical);
    assert Split(n) == [n] by {
      NormalizeKeepsDelimiterOut(canonical);
      SplitJoin([n]);
    }
    var r := Alternatives(canonical);
    assert |r| == 1 && r[0] == Trim(n);
  }

  lemma NormalizeKeepsDelimiterOut(s: string)
    requires Delimiter !in s
    ensures Delimiter !in Normalize(s)
  {
    LowerKeeps(s);
  }

  // ---------------------------------------------------------------------
  // Properties of numeric matching
  // ---------------------------------------------------------------------

  /** The numeric comparison does not depend on which side is the user's. */
  lemma NumericSymmetric(a: string, b: string, parse: Parser)
    ensures NumericMatches(a, b, parse) == NumericMatches(b, a, parse)
  {
  }

  /** A number matches itself exactly when it parses. */
  lemma NumericReflexive(a: string, parse: Parser)
    ensures NumericMatches(a, a, parse) <==> parse(a).Some?
  {
  }

  // ---------------------------------------------------------------------
  // Helpers
  // ---------------------------------------------------------------------

  /** Every piece of a split is a run of characters of the original. */
  lemma {:induction false} PiecesOfSplit(s: string, i: nat)
    requires i < |Split(s)|
    ensures forall c :: c in Split(s)[i] ==> c in s
    decreases |s|
  {
    if s != [] {
      var rest := Split(s[1..]);
      if s[0] == Delimiter {
        if i > 0 { PiecesOfSplit(s[1..], i - 1); }
      } else {
        PiecesOfSplit(s[1..], i);
        if i > 0 { PiecesOfSplit(s[1..], i); }
      }
    }
  }
}
