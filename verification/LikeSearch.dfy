/** User search by mask: the SQL pattern the service builds, a LIKE matcher (PostgreSQL 14, section 9.7.1), and the
    substring search it replaced. */
module LikeSearch {

  predicate IsSpecial(c: char) {
    c == '%' || c == '_' || c == '\\'
  }

  predicate FreeOf(mask: string, c: char) {
    forall i :: 0 <= i < |mask| ==> mask[i] != c
  }

  /** No wildcard and no escape character. */
  predicate Plain(mask: string) {
    forall i :: 0 <= i < |mask| ==> !IsSpecial(mask[i])
  }

  function MakeLikePattern(mask: string): string {
    if mask == "" then "%" else "%" + mask + "%"
  }

  /** `value LIKE pattern`. A lone backslash at the end of the pattern is an error in SQL; see PatternIsWellFormed. */
  predicate Like(value: string, pattern: string)
    decreases |pattern|, |value|
  {
    if pattern == "" then value == ""
    else if pattern[0] == '%' then
      Like(value, pattern[1..]) || (value != "" && Like(value[1..], pattern))
    else if pattern[0] == '_' then
      value != "" && Like(value[1..], pattern[1..])
    else if pattern[0] == '\\' then
      |pattern| > 1 && value != "" && value[0] == pattern[1] && Like(value[1..], pattern[2..])
    else
      value != "" && value[0] == pattern[0] && Like(value[1..], pattern[1..])
  }

  /** Whether the pattern ends in the middle of an escape. */
  predicate DanglingEscape(pattern: string) {
    pattern != "" &&
    if pattern[0] == '\\' then |pattern| == 1 || DanglingEscape(pattern[2..]) else DanglingEscape(pattern[1..])
  }

  predicate OccursAt(s: string, part: string, i: nat) {
    i + |part| <= |s| && s[i..i + |part|] == part
  }

  /** `s` contains `part`, as `std::string::find` sees it. */
  ghost predicate Contains(s: string, part: string) {
    exists i: nat :: OccursAt(s, part, i)
  }

  /** The two-line body of `MatchesMask`, with the search loop of `find` written out. */
  method MatchesMask(value: string, mask: string) returns (matches: bool)
    ensures matches <==> Contains(value, mask)
  {
    if mask == "" {
      assert OccursAt(value, mask, 0);
      return true;
    }
    var i: nat := 0;
    while i + |mask| <= |value|
      invariant forall j: nat :: j < i ==> !OccursAt(value, mask, j)
    {
      if OccursAt(value, mask, i) {
        return true;
      }
      i := i + 1;
    }
    return false;
  }

  // ---------- case folding ----------

  function Fold(fold: char -> char, s: string): string {
    seq(|s|, i requires 0 <= i < |s| => fold(s[i]))
  }

  /** Case folding leaves the special characters alone and makes no other character special. */
  ghost predicate KeepsSpecials(fold: char -> char) {
    forall c :: if IsSpecial(c) then fold(c) == c else !IsSpecial(fold(c))
  }

  predicate ILike(fold: char -> char, value: string, pattern: string) {
    Like(Fold(fold, value), Fold(fold, pattern))
  }

  /** Folding of ASCII letters, an instance. */
  function AsciiLower(c: char): char {
    if 'A' <= c <= 'Z' then c - 'A' + 'a' else c
  }

  lemma AsciiLowerKeepsSpecials()
    ensures KeepsSpecials(AsciiLower)
  {
  }

  lemma FoldPattern(fold: char -> char, mask: string)
    requires KeepsSpecials(fold)
    ensures Fold(fold, MakeLikePattern(mask)) == MakeLikePattern(Fold(fold, mask))
  {
  }

  // ---------- the translation on masks without an escape ----------

  /** A percent sign at the end accepts any rest. */
  lemma {:induction false} PercentAcceptsAll(value: string)
    ensures Like(value, "%")
  {
    if value != "" {
      PercentAcceptsAll(value[1..]);
      assert Like(value[1..], "%");
    } else {
      assert "%"[1..] == "";
    }
  }

  /** A mask without an escape matches itself: wildcards accept their own character too. */
  lemma {:induction false} MaskAcceptsItself(mask: string, rest: string)
    requires FreeOf(mask, '\\')
    ensures Like(mask + rest, mask + "%")
  {
    if mask == "" {
      assert mask + rest == rest && mask + "%" == "%";
      PercentAcceptsAll(rest);
    } else {
      MaskAcceptsItself(mask[1..], rest);
      assert (mask + rest)[1..] == mask[1..] + rest;
      assert (mask + "%")[1..] == mask[1..] + "%";
      if mask[0] == '%' {
        PercentSkips(mask[1..] + rest, mask + "%");
      }
    }
  }

  lemma PercentSkips(value: string, pattern: string)
    requires pattern != "" && pattern[0] == '%' && Like(value, pattern[1..])
    ensures forall c :: Like([c] + value, pattern)
  {
    forall c
      ensures Like([c] + value, pattern)
    {
      assert ([c] + value)[1..] == value;
      assert Like(value, pattern);
    }
  }

  /** A leading percent sign accepts anything in front of a match. */
  lemma {:induction false} PercentSkipsPrefix(front: string, value: string, pattern: string)
    requires Like(value, pattern)
    ensures Like(front + value, "%" + pattern)
  {
    assert ("%" + pattern)[1..] == pattern;
    if front == "" {
      assert front + value == value;
    } else {
      PercentSkipsPrefix(front[1..], value, pattern);
      assert (front + value)[1..] == front[1..] + value;
    }
  }

  lemma SplitAt(value: string, mask: string, i: nat)
    requires OccursAt(value, mask, i)
    ensures value == value[..i] + (mask + value[i + |mask|..])
  {
    assert value[i..] == value[i..i + |mask|] + value[i + |mask|..];
    assert value == value[..i] + value[i..];
  }

  /** Every substring hit is a LIKE hit, for every mask without an escape, wildcards or not. */
  lemma SubstringHitIsLikeHit(value: string, mask: string)
    requires FreeOf(mask, '\\') && Contains(value, mask)
    ensures Like(value, MakeLikePattern(mask))
  {
    var i: nat :| OccursAt(value, mask, i);
    var rest := value[i + |mask|..];
    MaskAcceptsItself(mask, rest);
    PercentSkipsPrefix(value[..i], mask + rest, mask + "%");
    SplitAt(value, mask, i);
    assert mask != "" ==> "%" + (mask + "%") == MakeLikePattern(mask);
    if mask == "" {
      PercentAcceptsAll(value);
    }
  }

  /** The same under ILIKE, both sides case folded. */
  lemma SubstringHitIsILikeHit(fold: char -> char, value: string, mask: string)
    requires KeepsSpecials(fold)
    requires FreeOf(mask, '\\') && Contains(Fold(fold, value), Fold(fold, mask))
    ensures ILike(fold, value, MakeLikePattern(mask))
  {
    FoldPattern(fold, mask);
    SubstringHitIsLikeHit(Fold(fold, value), Fold(fold, mask));
  }

  /** A plain mask followed by a percent sign accepts exactly the strings it is a prefix of. */
  lemma {:induction false} PlainIsPrefix(value: string, mask: string)
    requires Plain(mask) && Like(value, mask + "%")
    ensures mask <= value
  {
    if mask != "" {
      assert (mask + "%")[1..] == mask[1..] + "%";
      PlainIsPrefix(value[1..], mask[1..]);
    }
  }

  lemma {:induction false} PercentFinds(value: string, pattern: string) returns (i: nat)
    requires Like(value, "%" + pattern)
    ensures i <= |value| && Like(value[i..], pattern)
  {
    assert ("%" + pattern)[1..] == pattern;
    if Like(value, pattern) {
      i := 0;
      assert value[0..] == value;
    } else {
      var j := PercentFinds(value[1..], pattern);
      i := j + 1;
      assert value[1..][j..] == value[i..];
    }
  }

  /** The translation preserves meaning on plain masks: LIKE accepts exactly the strings that contain the mask. */
  lemma PlainLikeIsSubstring(value: string, mask: string)
    requires Plain(mask)
    ensures Like(value, MakeLikePattern(mask)) <==> Contains(value, mask)
  {
    if Like(value, MakeLikePattern(mask)) {
      if mask == "" {
        assert OccursAt(value, mask, 0);
      } else {
        assert "%" + (mask + "%") == MakeLikePattern(mask);
        var i := PercentFinds(value, mask + "%");
        PlainIsPrefix(value[i..], mask);
        assert value[i..i + |mask|] == value[i..][..|mask|];
        assert OccursAt(value, mask, i);
      }
    }
    if Contains(value, mask) {
      SubstringHitIsLikeHit(value, mask);
    }
  }

  // ---------- exactly when the translation is faithful ----------

  /** A string the pattern accepts although it does not contain the mask: percent signs match nothing, underscores
      match an `x`, escapes match the character they protect. */
  function Decoy(mask: string): string {
    if mask == "" then ""
    else if mask[0] == '%' then Decoy(mask[1..])
    else if mask[0] == '_' then "x" + Decoy(mask[1..])
    else if mask[0] == '\\' then
      if |mask| == 1 then "%" else [mask[1]] + Decoy(mask[2..])
    else [mask[0]] + Decoy(mask[1..])
  }

  lemma {:induction false} DecoyAccepted(fold: char -> char, mask: string)
    requires KeepsSpecials(fold)
    ensures Like(Fold(fold, Decoy(mask)), Fold(fold, mask) + "%")
    decreases |mask|
  {
    var value, pattern := Fold(fold, Decoy(mask)), Fold(fold, mask) + "%";
    if mask == "" {
      assert value == "" && pattern == "%";
      PercentAcceptsAll("");
    } else if mask[0] == '\\' && |mask| == 1 {
      assert pattern == "\\%" && value == "%" && pattern[2..] == "" && value[1..] == "";
    } else {
      var taken := if mask[0] == '\\' then 2 else 1;
      DecoyAccepted(fold, mask[taken..]);
      assert pattern[taken..] == Fold(fold, mask[taken..]) + "%";
      assert mask[0] != '%' ==> value[1..] == Fold(fold, Decoy(mask[taken..]));
      assert mask[0] == '%' ==> value == Fold(fold, Decoy(mask[1..]));
    }
  }

  /** The decoy of a mask with a special character is no longer than the mask and differs from it. */
  lemma {:induction false} DecoyDiffers(fold: char -> char, mask: string)
    requires KeepsSpecials(fold)
    ensures |Decoy(mask)| <= |mask|
    ensures !Plain(mask) ==> Fold(fold, Decoy(mask)) != Fold(fold, mask)
    decreases |mask|
  {
    if mask != "" {
      DecoyDiffers(fold, mask[1..]);
      if mask[0] == '\\' && |mask| > 1 {
        DecoyDiffers(fold, mask[2..]);
      } else if Fold(fold, Decoy(mask)) == Fold(fold, mask) {
        assert Fold(fold, Decoy(mask))[0] == fold(mask[0]);
        assert Fold(fold, Decoy(mask))[1..] == Fold(fold, mask[1..]);
      }
    }
  }

  /** Whether the pattern search for `mask` and the search for the substring `part` agree on every value, with the
      values passed through `prepare` before the substring search. */
  ghost predicate AgreesWithSubstring(fold: char -> char, mask: string, prepare: string -> string, part: string) {
    forall value :: ILike(fold, value, MakeLikePattern(mask)) <==> Contains(prepare(value), part)
  }

  /** The decoy is found behind any text. */
  lemma DecoyFoundBehind(fold: char -> char, front: string, mask: string)
    requires KeepsSpecials(fold)
    ensures ILike(fold, front + Decoy(mask), MakeLikePattern(mask))
  {
    FoldPattern(fold, mask);
    if mask == "" {
      PercentAcceptsAll(Fold(fold, front + Decoy(mask)));
      assert Fold(fold, mask) == "";
    } else {
      DecoyAccepted(fold, mask);
      PercentSkipsPrefix(Fold(fold, front), Fold(fold, Decoy(mask)), Fold(fold, mask) + "%");
      FoldConcat(fold, front, Decoy(mask));
      assert MakeLikePattern(Fold(fold, mask)) == "%" + (Fold(fold, mask) + "%");
    }
  }

  lemma FoldConcat(fold: char -> char, a: string, b: string)
    ensures Fold(fold, a + b) == Fold(fold, a) + Fold(fold, b)
  {
  }

  lemma DecoyFoundByPattern(fold: char -> char, mask: string)
    requires KeepsSpecials(fold)
    ensures ILike(fold, Decoy(mask), MakeLikePattern(mask))
  {
    DecoyFoundBehind(fold, "", mask);
    assert "" + Decoy(mask) == Decoy(mask);
  }

  /** The search by pattern agrees with the case-folded substring search on every value exactly when the mask has no
      percent sign, no underscore and no backslash. */
  lemma LikeIsSubstringIffPlain(fold: char -> char, mask: string)
    requires KeepsSpecials(fold)
    ensures Plain(mask) <==> AgreesWithSubstring(fold, mask, value => Fold(fold, value), Fold(fold, mask))
  {
    FoldPattern(fold, mask);
    if Plain(mask) {
      forall value
        ensures ILike(fold, value, MakeLikePattern(mask)) <==> Contains(Fold(fold, value), Fold(fold, mask))
      {
        PlainLikeIsSubstring(Fold(fold, value), Fold(fold, mask));
      }
    } else {
      DecoyFoundByPattern(fold, mask);
      DecoyDiffers(fold, mask);
      assert !Contains(Fold(fold, Decoy(mask)), Fold(fold, mask));
    }
  }

  // ---------- against the case-sensitive search it replaced ----------

  /** No other character folds to what a character of the mask folds to: the mask has no letter with two cases. */
  ghost predicate Caseless(fold: char -> char, mask: string) {
    forall i, c :: 0 <= i < |mask| && fold(c) == fold(mask[i]) ==> c == mask[i]
  }

  lemma CaselessOccurrence(fold: char -> char, value: string, mask: string, i: nat)
    requires Caseless(fold, mask)
    ensures OccursAt(Fold(fold, value), Fold(fold, mask), i) <==> OccursAt(value, mask, i)
  {
    var v, m := Fold(fold, value), Fold(fold, mask);
    if OccursAt(v, m, i) {
      forall k | 0 <= k < |mask|
        ensures value[i..i + |mask|][k] == mask[k]
      {
        assert v[i..i + |m|][k] == m[k];
      }
    }
    if OccursAt(value, mask, i) {
      assert v[i..i + |m|] == Fold(fold, value[i..i + |mask|]);
    }
  }

  lemma CaselessContains(fold: char -> char, value: string, mask: string)
    requires Caseless(fold, mask)
    ensures Contains(Fold(fold, value), Fold(fold, mask)) <==> Contains(value, mask)
  {
    forall i: nat
      ensures OccursAt(Fold(fold, value), Fold(fold, mask), i) <==> OccursAt(value, mask, i)
    {
      CaselessOccurrence(fold, value, mask, i);
    }
  }

  /** A value no longer than the mask contains it only by being it. */
  lemma ContainsSameLength(value: string, mask: string)
    requires |value| <= |mask|
    ensures Contains(value, mask) ==> value == mask
  {
    if Contains(value, mask) {
      var i: nat :| OccursAt(value, mask, i);
      assert value[i..i + |mask|] == value;
    }
  }

  /** The failing input a plain mask can have: the mask with one character in its other case. */
  lemma OtherCaseIsFound(fold: char -> char, mask: string, i: nat, c: char)
    requires KeepsSpecials(fold) && Plain(mask)
    requires i < |mask| && fold(c) == fold(mask[i]) && c != mask[i]
    ensures ILike(fold, mask[i := c], MakeLikePattern(mask)) && !Contains(mask[i := c], mask)
  {
    var value := mask[i := c];
    assert Fold(fold, value) == Fold(fold, mask);
    LikeIsSubstringIffPlain(fold, mask);
    assert OccursAt(Fold(fold, value), Fold(fold, mask), 0);
    ContainsSameLength(value, mask);
  }

  /** The search by pattern agrees with `MatchesMask`, the case-sensitive search it replaced, on every value exactly
      when the mask has no special character and no letter with two cases. */
  lemma LikeIsMatchesMaskIff(fold: char -> char, mask: string)
    requires KeepsSpecials(fold)
    ensures Plain(mask) && Caseless(fold, mask) <==> AgreesWithSubstring(fold, mask, value => value, mask)
  {
    LikeIsSubstringIffPlain(fold, mask);
    if !Plain(mask) {
      DecoyFoundByPattern(fold, mask);
      DecoyDiffers(fold, mask);
      ContainsSameLength(Decoy(mask), mask);
    } else if !Caseless(fold, mask) {
      var i, c :| 0 <= i < |mask| && fold(c) == fold(mask[i]) && c != mask[i];
      OtherCaseIsFound(fold, mask, i, c);
    } else {
      forall value
        ensures ILike(fold, value, MakeLikePattern(mask)) <==> Contains(value, mask)
      {
        CaselessContains(fold, value, mask);
        assert ILike(fold, value, MakeLikePattern(mask)) <==> Contains(Fold(fold, value), Fold(fold, mask));
      }
    }
  }

  lemma FoldAnn()
    ensures Fold(AsciiLower, "ann") == "ann" && Fold(AsciiLower, "ANN") == "ann"
  {
    assert forall i :: 0 <= i < 3 ==> "ann"[i] == AsciiLower("ANN"[i]) == AsciiLower("ann"[i]);
  }

  /** A concrete failing input: the mask `ann` finds the value `ANN`, which does not contain it. */
  lemma AnnFindsAnotherCase()
    ensures ILike(AsciiLower, "ANN", MakeLikePattern("ann")) && !Contains("ANN", "ann")
  {
    FoldAnn();
    AsciiLowerKeepsSpecials();
    LikeIsSubstringIffPlain(AsciiLower, "ann");
    assert OccursAt("ann", "ann", 0);
    ContainsSameLength("ANN", "ann");
  }

  // ---------- substring hits that the pattern loses ----------

  /** Text after a match does not spoil it, unless the mask ends in an escape that protects the closing wildcard. */
  lemma {:induction false} ExtendRight(value: string, mask: string, rest: string)
    requires !DanglingEscape(mask) && Like(value, mask + "%")
    ensures Like(value + rest, mask + "%")
    decreases |mask|, |value|
  {
    var pattern := mask + "%";
    if mask == "" {
      PercentAcceptsAll(value + rest);
      assert pattern == "%";
    } else if mask[0] == '%' {
      assert pattern[1..] == mask[1..] + "%";
      if Like(value, pattern[1..]) {
        ExtendRight(value, mask[1..], rest);
      } else {
        ExtendRight(value[1..], mask, rest);
        assert (value + rest)[1..] == value[1..] + rest;
      }
    } else {
      var taken := if mask[0] == '\\' then 2 else 1;
      assert pattern[taken..] == mask[taken..] + "%";
      ExtendRight(value[1..], mask[taken..], rest);
      assert (value + rest)[1..] == value[1..] + rest;
    }
  }

  /** A mask that ends in the middle of an escape ends in a backslash, and accepts only what ends in a percent. */
  lemma {:induction false} DanglingEnds(value: string, mask: string)
    requires DanglingEscape(mask)
    ensures mask[|mask| - 1] == '\\'
    ensures Like(value, mask + "%") ==> value != "" && value[|value| - 1] == '%'
    decreases |mask|, |value|
  {
    var pattern := mask + "%";
    if mask == "\\" {
      assert pattern == "\\%" && pattern[2..] == "";
      assert Like(value, pattern) ==> value != "" && value[0] == '%' && Like(value[1..], pattern[2..]);
    } else {
      var taken := if mask[0] == '\\' then 2 else 1;
      assert pattern[taken..] == mask[taken..] + "%";
      DanglingEnds(if value == "" then "" else value[1..], mask[taken..]);
      if mask[0] == '%' {
        DanglingEnds(value, mask[1..]);
        if value != "" {
          DanglingEnds(value[1..], mask);
        }
      }
    }
  }

  lemma PercentFoundAtEnd(value: string, mask: string)
    requires mask != "" && DanglingEscape(mask) && Like(value, MakeLikePattern(mask))
    ensures value != "" && value[|value| - 1] == '%'
  {
    assert "%" + (mask + "%") == MakeLikePattern(mask);
    var i := PercentFinds(value, mask + "%");
    DanglingEnds(value[i..], mask);
  }

  /** Whether every value that contains the mask is found, for any mask, is decided by one value: the mask itself. */
  lemma NoHitLostIffFindsItself(mask: string)
    ensures Like(mask, MakeLikePattern(mask)) <==>
            (forall value :: Contains(value, mask) ==> Like(value, MakeLikePattern(mask)))
  {
    assert OccursAt(mask, mask, 0);
    if Like(mask, MakeLikePattern(mask)) {
      forall value | Contains(value, mask)
        ensures Like(value, MakeLikePattern(mask))
      {
        var i: nat :| OccursAt(value, mask, i);
        HitAround(value[..i], mask, value[i + |mask|..]);
        SplitAt(value, mask, i);
      }
    }
  }

  lemma SelfHitNotDangling(mask: string)
    requires mask != "" && Like(mask, MakeLikePattern(mask))
    ensures !DanglingEscape(mask)
  {
    if DanglingEscape(mask) {
      PercentFoundAtEnd(mask, mask);
      DanglingEnds(mask, mask);
    }
  }

  lemma Regroup(front: string, mask: string, rest: string, i: nat)
    requires i <= |mask|
    ensures front + (mask + rest) == (front + mask[..i]) + (mask[i..] + rest)
  {
    assert mask == mask[..i] + mask[i..];
  }

  /** A match of the mask's end reaches over anything around the mask. */
  lemma MatchAround(front: string, mask: string, rest: string, i: nat)
    requires i <= |mask| && !DanglingEscape(mask) && Like(mask[i..], mask + "%")
    ensures Like(front + (mask + rest), "%" + (mask + "%"))
  {
    ExtendRight(mask[i..], mask, rest);
    PercentSkipsPrefix(front + mask[..i], mask[i..] + rest, mask + "%");
    Regroup(front, mask, rest, i);
  }

  lemma HitAround(front: string, mask: string, rest: string)
    requires Like(mask, MakeLikePattern(mask))
    ensures Like(front + (mask + rest), MakeLikePattern(mask))
  {
    if mask == "" {
      PercentAcceptsAll(front + (mask + rest));
    } else {
      assert "%" + (mask + "%") == MakeLikePattern(mask);
      SelfHitNotDangling(mask);
      var i := PercentFinds(mask, mask + "%");
      MatchAround(front, mask, rest, i);
    }
  }

  /** A mask that ends in an unescaped backslash loses hits, itself among them. */
  lemma DanglingLosesHits(mask: string)
    requires DanglingEscape(mask)
    ensures Contains(mask, mask) && !Like(mask, MakeLikePattern(mask))
  {
    assert OccursAt(mask, mask, 0);
    if Like(mask, MakeLikePattern(mask)) {
      SelfHitNotDangling(mask);
    }
  }

  /** And so does one with a backslash in the middle: it is an escape, so the backslash itself is not looked for. */
  lemma InnerBackslashLosesHits()
    ensures Contains("a\\b", "a\\b") && !Like("a\\b", MakeLikePattern("a\\b"))
  {
    assert OccursAt("a\\b", "a\\b", 0);
  }

  /** Every escape of the mask starts a segment between percent signs, and is complete. `atStart` says whether the mask
      is at the start of one. */
  predicate EscapesLead(mask: string, atStart: bool) {
    mask == "" ||
    if mask[0] == '%' then EscapesLead(mask[1..], true)
    else if mask[0] == '\\' then atStart && |mask| > 1 && EscapesLead(mask[2..], false)
    else EscapesLead(mask[1..], false)
  }

  /** Such a mask matches itself, and after a percent sign even when it starts with an escape: the backslash is
      skipped. */
  lemma {:induction false} LeadingEscapesMatch(mask: string, atStart: bool)
    requires EscapesLead(mask, atStart)
    ensures Like(mask, if atStart then "%" + (mask + "%") else mask + "%")
    decreases |mask|, atStart
  {
    var pattern := mask + "%";
    assert ("%" + pattern)[1..] == pattern;
    if mask == "" {
      PercentAcceptsAll("");
      assert pattern == "%" && "%" + pattern == "%%";
    } else if mask[0] == '\\' {
      assert pattern[2..] == mask[2..] + "%" && mask[1..][1..] == mask[2..];
      LeadingEscapesMatch(mask[2..], false);
      assert Like(mask[1..], pattern);
      PercentSkipsPrefix(mask[..1], mask[1..], pattern);
      assert mask == mask[..1] + mask[1..];
    } else if atStart {
      LeadingEscapesMatch(mask, false);
      PercentSkipsPrefix("", mask, pattern);
      assert "" + mask == mask;
    } else {
      assert pattern[1..] == mask[1..] + "%";
      LeadingEscapesMatch(mask[1..], mask[0] == '%');
      if mask[0] == '%' {
        assert pattern == "%" + (mask[1..] + "%");
      }
    }
  }

  /** A mask whose escapes all start a segment loses no hit. Masks without a backslash are the simplest of these. */
  lemma LeadingEscapesLoseNone(value: string, mask: string)
    requires EscapesLead(mask, true) && Contains(value, mask)
    ensures Like(value, MakeLikePattern(mask))
  {
    LeadingEscapesMatch(mask, true);
    if mask == "" {
      PercentAcceptsAll(value);
    } else {
      assert "%" + (mask + "%") == MakeLikePattern(mask);
      NoHitLostIffFindsItself(mask);
    }
  }

  lemma {:induction false} EscapesLeadFolded(fold: char -> char, mask: string, atStart: bool)
    requires KeepsSpecials(fold) && EscapesLead(mask, atStart)
    ensures EscapesLead(Fold(fold, mask), atStart)
    decreases |mask|
  {
    if mask != "" {
      var taken := if mask[0] == '\\' then 2 else 1;
      EscapesLeadFolded(fold, mask[taken..], mask[0] == '%');
      assert Fold(fold, mask)[taken..] == Fold(fold, mask[taken..]);
    }
  }

  /** The same under ILIKE, both sides case folded. */
  lemma LeadingEscapesLoseNoneFolded(fold: char -> char, value: string, mask: string)
    requires KeepsSpecials(fold)
    requires EscapesLead(mask, true) && Contains(Fold(fold, value), Fold(fold, mask))
    ensures ILike(fold, value, MakeLikePattern(mask))
  {
    FoldPattern(fold, mask);
    EscapesLeadFolded(fold, mask, true);
    LeadingEscapesLoseNone(Fold(fold, value), Fold(fold, mask));
  }

  /** The same decision under ILIKE, both sides case folded. */
  lemma NoFoldedHitLostIffFindsItself(fold: char -> char, mask: string)
    requires KeepsSpecials(fold)
    ensures ILike(fold, mask, MakeLikePattern(mask)) <==>
            forall value :: Contains(Fold(fold, value), Fold(fold, mask)) ==> ILike(fold, value, MakeLikePattern(mask))
  {
    FoldPattern(fold, mask);
    NoHitLostIffFindsItself(Fold(fold, mask));
    assert OccursAt(Fold(fold, mask), Fold(fold, mask), 0);
  }

  /** The pattern of a mask never ends in the middle of an escape, so the SQL error cannot occur. */
  lemma {:induction false} NoDanglingEscape(mask: string)
    ensures !DanglingEscape(mask + "%")
    decreases |mask|
  {
    if mask != "" {
      var taken := if mask[0] == '\\' && |mask| > 1 then 2 else 1;
      NoDanglingEscape(mask[taken..]);
      assert (mask + "%")[taken..] == mask[taken..] + "%";
    }
  }

  lemma PatternIsWellFormed(mask: string)
    ensures !DanglingEscape(MakeLikePattern(mask))
  {
    NoDanglingEscape("%" + mask);
    assert mask != "" ==> ("%" + mask) + "%" == MakeLikePattern(mask);
  }
}
