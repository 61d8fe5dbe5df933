/**
 * What the fraction/ordinal engine promises: how the ordinal is chosen in
 * each magnitude band, how overrides merge with generated words, that the
 * numerator matters only through its plurality, that the recursion is at
 * most two levels deep, the shape of the reverse-lookup keys, and some
 * worked examples.
 */
module FractionProperties {
  import opened Wrappers
  import opened Text
  import opened Fractions

  // ---------------------------------------------------------------------
  // Reference definitions of the decomposition
  // ---------------------------------------------------------------------

  /** Denominators above 100 split on hundreds, the others on tens. */
  function Modulus(d: Positive): Positive {
    if d > 100 then 100 else 10
  }

  /** " and " between hundreds and the rest, a hyphen between tens and units. */
  function JoinWord(d: Positive): string {
    if d > 100 then " and " else "-"
  }

  /** The denominator a generated ordinal recurses on, if any. */
  function SubDenominator(d: Positive): (r: Option<Positive>)
    ensures r.Some? ==> r.value < d && r.value < Modulus(d) && d >= 20
    ensures r.Some? <==> d >= 20 && d % Modulus(d) != 0
  {
    if d <= 19 || d % Modulus(d) == 0 then None else Some(d % Modulus(d))
  }

  /** How many nested sub-fractions the generated ordinal of `d` builds. */
  function Depth(d: Positive): nat
    decreases d
  {
    match SubDenominator(d)
    case None => 0
    case Some(rest) => 1 + Depth(rest)
  }

  /** The leading part of the generated ordinal: the cardinal of the
      hundreds (or tens), without a leading "one " when plural. */
  function MainWords(lex: Lexicon, f: Fraction): string
    requires f.denominator.Finite?
  {
    var d := f.denominator.value;
    var main := lex.cardinal(d - d % Modulus(d));
    if Pluralize(f) then DropLeadingOne(main) else main
  }

  /** The idiomatic fraction word the record supplies for the number the
      numerator asks for, if any. */
  function NeededForm(f: Fraction): Option<string> {
    match f.attributes.fraction
    case Forms(singular, plural) => if f.numerator > 1 then plural else singular
    case _ => None
  }

  /** A fraction over `rest` built the way the engine builds its sub-fractions. */
  function SubFraction(lex: Lexicon, f: Fraction, rest: Positive): Fraction {
    NewFraction(lex.table, Finite(rest), Some(f.numerator), None)
  }

  predicate StartsWithOne(s: string) {
    |s| >= 4 && s[..4] == "one "
  }

  // ---------------------------------------------------------------------
  // The ordinal, band by band
  // ---------------------------------------------------------------------

  /** An `:ordinal` override short-circuits the generated word, even for
      the infinite denominator; its plural is the override with "s" appended. */
  lemma OrdinalOverride(lex: Lexicon, f: Fraction)
    requires f.attributes.ordinal.Some?
    ensures Ordinal(lex, f) == f.attributes.ordinal.value + (if f.numerator > 1 then "s" else "")
  {
  }

  /** Without an override, the ordinal is the generated one. */
  lemma GeneratedOrdinal(lex: Lexicon, f: Fraction)
    requires f.denominator.Finite? && f.attributes.ordinal.None?
    ensures Ordinal(lex, f) == DenominatorOrdinalInWords(lex, f)
  {
  }

  /** From 20 up, the generated ordinal is the split on the band's modulus. */
  lemma GeneratedSplit(lex: Lexicon, f: Fraction)
    requires f.denominator.Finite? && f.attributes.ordinal.None? && f.denominator.value >= 20
    ensures var d := f.denominator.value;
            Ordinal(lex, f) == WithRemainder(lex, f, Modulus(d), JoinWord(d))
  {
    GeneratedOrdinal(lex, f);
  }

  /** Below 20: the cardinal with "th", and "s" after it when plural. */
  lemma OrdinalBase(lex: Lexicon, f: Fraction)
    requires f.denominator.Finite? && f.attributes.ordinal.None?
    requires f.denominator.value <= 19
    ensures Ordinal(lex, f) ==
              lex.cardinal(f.denominator.value) + "th" + (if f.numerator > 1 then "s" else "")
  {
    GeneratedOrdinal(lex, f);
  }

  /** From 20 up, with no remainder: the leading words and "th"/"ths",
      and no sub-fraction. */
  lemma OrdinalZeroRemainder(lex: Lexicon, f: Fraction)
    requires f.denominator.Finite? && f.attributes.ordinal.None?
    requires f.denominator.value >= 20 && SubDenominator(f.denominator.value).None?
    ensures MainWords(lex, f) ==
              var main := lex.cardinal(f.denominator.value);
              if f.numerator > 1 then DropLeadingOne(main) else main
    ensures Ordinal(lex, f) == MainWords(lex, f) + (if f.numerator > 1 then "ths" else "th")
  {
    GeneratedSplit(lex, f);
  }

  /** From 20 up, with a remainder: the leading words, the join word, and
      the ordinal of a fresh fraction over the remainder, whose own table
      entry applies. */
  lemma OrdinalWithRemainder(lex: Lexicon, f: Fraction)
    requires f.denominator.Finite? && f.attributes.ordinal.None?
    requires SubDenominator(f.denominator.value).Some?
    ensures var rest := SubDenominator(f.denominator.value).value;
            Ordinal(lex, f) ==
              MainWords(lex, f) + JoinWord(f.denominator.value) + Ordinal(lex, SubFraction(lex, f, rest))
  {
    GeneratedSplit(lex, f);
  }

  /** The recursion terminates after at most two nested sub-fractions:
      hundreds, then tens, then units. */
  lemma {:induction false} DepthAtMostTwo(d: Positive)
    ensures Depth(d) <= 2
  {
    match SubDenominator(d)
    case None =>
    case Some(rest) =>
      match SubDenominator(rest)
      case None =>
      case Some(units) =>
        assert rest < 100 && units < 10;
        assert Depth(units) == 0;
  }

  // ---------------------------------------------------------------------
  // Plurality
  // ---------------------------------------------------------------------

  /** The numerator reaches the ordinal and the fraction word only through
      `numerator > 1`, in every branch and every sub-fraction. */
  lemma {:induction false} PluralityDecides(lex: Lexicon, f: Fraction, g: Fraction)
    requires f.denominator.Finite? && g.denominator == f.denominator
    requires g.attributes == f.attributes
    requires (f.numerator > 1) == (g.numerator > 1)
    ensures Ordinal(lex, f) == Ordinal(lex, g)
    ensures FractionWord(lex, f) == FractionWord(lex, g)
    decreases f.denominator.value
  {
    var d := f.denominator.value;
    if f.attributes.ordinal.Some? {
      OrdinalOverride(lex, f);
      OrdinalOverride(lex, g);
    } else {
      match SubDenominator(d)
      case None =>
        if d >= 20 {
          OrdinalZeroRemainder(lex, f);
          OrdinalZeroRemainder(lex, g);
        } else {
          OrdinalBase(lex, f);
          OrdinalBase(lex, g);
        }
      case Some(rest) =>
        OrdinalWithRemainder(lex, f);
        OrdinalWithRemainder(lex, g);
        PluralityDecides(lex, SubFraction(lex, f, rest), SubFraction(lex, g, rest));
    }
    assert NeededForm(f) == NeededForm(g);
    if NeededForm(f).Some? {
      FractionOverride(lex, f);
      FractionOverride(lex, g);
    } else {
      FractionFallsBackToOrdinal(lex, f);
      FractionFallsBackToOrdinal(lex, g);
    }
  }

  /** When neither the tens nor the leading part of the denominator reads
      "one ...", the plural ordinal is the singular one with "s" appended,
      whatever the overrides: 2/35 against 1/35, 2/205 against 1/205. */
  lemma {:induction false} PluralAddsS(lex: Lexicon, f: Fraction, g: Fraction)
    requires forall k :: 20 <= k < 100 ==> !StartsWithOne(lex.cardinal(k))
    requires f.denominator.Finite? && g.denominator == f.denominator
    requires var d := f.denominator.value;
             d >= 20 ==> !StartsWithOne(lex.cardinal(d - d % Modulus(d)))
    requires g.attributes == f.attributes
    requires f.numerator > 1 && g.numerator <= 1
    ensures Ordinal(lex, f) == Ordinal(lex, g) + "s"
    decreases f.denominator.value
  {
    var d := f.denominator.value;
    if f.attributes.ordinal.Some? {
      OrdinalOverride(lex, f);
      OrdinalOverride(lex, g);
    } else {
      match SubDenominator(d)
      case None =>
        if d >= 20 {
          OrdinalZeroRemainder(lex, f);
          OrdinalZeroRemainder(lex, g);
        } else {
          OrdinalBase(lex, f);
          OrdinalBase(lex, g);
        }
      case Some(rest) =>
        OrdinalWithRemainder(lex, f);
        OrdinalWithRemainder(lex, g);
        assert rest < 100;
        if rest >= 20 {
          assert !StartsWithOne(lex.cardinal(rest - rest % Modulus(rest)));
        }
        PluralAddsS(lex, SubFraction(lex, f, rest), SubFraction(lex, g, rest));
    }
  }

  /** The leading "one " of the hundreds is dropped in the plural only:
      1/100 and 2/100 read "one hundredth" and "hundredths". */
  lemma PluralDropsLeadingOne(lex: Lexicon, f: Fraction, g: Fraction, tail: string)
    requires f.denominator.Finite? && f.attributes.ordinal.None?
    requires g.denominator == f.denominator && g.attributes == f.attributes
    requires f.numerator > 1 && g.numerator <= 1
    requires f.denominator.value >= 20 && SubDenominator(f.denominator.value).None?
    requires lex.cardinal(f.denominator.value) == "one " + tail
    ensures Ordinal(lex, f) == tail + "ths"
    ensures Ordinal(lex, g) == "one " + tail + "th"
  {
    OrdinalZeroRemainder(lex, f);
    OrdinalZeroRemainder(lex, g);
    assert ("one " + tail)[..4] == "one " && ("one " + tail)[4..] == tail;
  }

  /** A plural ordinal is at most one character longer than the singular
      one: the only additions are the "s" of an override or a suffix. */
  lemma {:induction false} PluralAtMostOneLonger(lex: Lexicon, f: Fraction, g: Fraction)
    requires f.denominator.Finite? && g.denominator == f.denominator
    requires g.attributes == f.attributes
    requires f.numerator > 1 && g.numerator <= 1
    ensures |Ordinal(lex, f)| <= |Ordinal(lex, g)| + 1
    decreases f.denominator.value
  {
    var d := f.denominator.value;
    if f.attributes.ordinal.Some? {
      OrdinalOverride(lex, f);
      OrdinalOverride(lex, g);
    } else {
      match SubDenominator(d)
      case None =>
        if d >= 20 {
          OrdinalZeroRemainder(lex, f);
          OrdinalZeroRemainder(lex, g);
        } else {
          OrdinalBase(lex, f);
          OrdinalBase(lex, g);
        }
      case Some(rest) =>
        OrdinalWithRemainder(lex, f);
        OrdinalWithRemainder(lex, g);
        PluralAtMostOneLonger(lex, SubFraction(lex, f, rest), SubFraction(lex, g, rest));
    }
  }

  /** With a remainder the leading "one " is dropped in the plural too, so
      the plural is not the singular with "s": 1/105 ends in "one hundred
      and fifth", 2/105 in "hundred and fifths". */
  lemma PluralDropsLeadingOneWithRemainder(lex: Lexicon, f: Fraction, g: Fraction, tail: string)
    requires f.denominator.Finite? && f.attributes.ordinal.None?
    requires g.denominator == f.denominator && g.attributes == f.attributes
    requires f.numerator > 1 && g.numerator <= 1
    requires SubDenominator(f.denominator.value).Some?
    requires var d := f.denominator.value; lex.cardinal(d - d % Modulus(d)) == "one " + tail
    ensures var d := f.denominator.value;
            var rest := SubDenominator(d).value;
            && Ordinal(lex, f) == tail + JoinWord(d) + Ordinal(lex, SubFraction(lex, f, rest))
            && Ordinal(lex, g) == "one " + tail + JoinWord(d) + Ordinal(lex, SubFraction(lex, g, rest))
    ensures Ordinal(lex, f) != Ordinal(lex, g) + "s"
  {
    OrdinalWithRemainder(lex, f);
    OrdinalWithRemainder(lex, g);
    assert ("one " + tail)[..4] == "one " && ("one " + tail)[4..] == tail;
    var rest := SubDenominator(f.denominator.value).value;
    PluralAtMostOneLonger(lex, SubFraction(lex, f, rest), SubFraction(lex, g, rest));
  }

  /** The fraction word over 105: "hundred and fifths" in the plural,
      "one hundred and fifth" in the singular. */
  lemma HundredAndFifth(lex: Lexicon, f: Fraction, tail: string, suffix: string)
    requires lex.cardinal(100) == "one hundred"
    requires 5 in lex.table && lex.table[5].ordinal == Some("fifth")
    requires f.denominator == Finite(105) && f.attributes == NoAttributes
    requires tail == (if f.numerator > 1 then "hundred" else "one hundred")
    requires suffix == (if f.numerator > 1 then "fifths" else "fifth")
    ensures FractionWord(lex, f) == tail + " and " + suffix
  {
    var sub := SubFraction(lex, f, 5);
    assert Ordinal(lex, sub) == suffix by {
      OrdinalOverride(lex, sub);
    }
    assert MainWords(lex, f) == tail by {
      assert "one hundred"[..4] == "one " && "one hundred"[4..] == "hundred";
    }
    assert SubDenominator(105) == Some(5);
    OrdinalWithRemainder(lex, f);
    FractionFallsBackToOrdinal(lex, f);
  }

  /** 2/105 drops the "one " of the hundreds: "two hundred and fifths". */
  lemma TwoHundredAndFifths(lex: Lexicon, f: Fraction)
    requires lex.cardinal(2) == "two" && lex.cardinal(100) == "one hundred"
    requires 105 !in lex.table
    requires 5 in lex.table && lex.table[5].ordinal == Some("fifth")
    requires f == NewFraction(lex.table, Finite(105), Some(2), None)
    ensures InWords(lex, f) == "two hundred and fifths"
  {
    HundredAndFifth(lex, f, "hundred", "fifths");
    PhraseShape(lex, lex, f);
  }

  /** 1/105 keeps it, so the phrase repeats "one": "one one hundred and fifth". */
  lemma OneOneHundredAndFifth(lex: Lexicon, f: Fraction)
    requires lex.cardinal(1) == "one" && lex.cardinal(100) == "one hundred"
    requires 105 !in lex.table
    requires 5 in lex.table && lex.table[5].ordinal == Some("fifth")
    requires f == NewFraction(lex.table, Finite(105), Some(1), None)
    ensures InWords(lex, f) == "one one hundred and fifth"
  {
    HundredAndFifth(lex, f, "one hundred", "fifth");
    PhraseShape(lex, lex, f);
  }

  // ---------------------------------------------------------------------
  // The fraction word and the phrase
  // ---------------------------------------------------------------------

  /** The record's fraction word wins when it supplies the needed form,
      even for the infinite denominator. */
  lemma FractionOverride(lex: Lexicon, f: Fraction)
    requires NeededForm(f).Some?
    ensures FractionWord(lex, f) == NeededForm(f).value
  {
  }

  /** When `:fraction` is absent, not a Hash, or lacks the needed form,
      the fraction word is the ordinal. */
  lemma FractionFallsBackToOrdinal(lex: Lexicon, f: Fraction)
    requires HasOrdinal(f) && NeededForm(f).None?
    ensures FractionWord(lex, f) == Ordinal(lex, f)
  {
  }

  /** The infinite denominator reads "googolplexth(s)" whatever the
      cardinal writer says: it is never consulted. A finite one reads the
      numerator's cardinal, a space and the fraction word. */
  lemma PhraseShape(lex: Lexicon, other: Lexicon, f: Fraction)
    ensures f.denominator.Infinite? ==>
              InWords(lex, f) == InWords(other, f) &&
              InWords(lex, f) == (if f.numerator > 1 then "googolplexths" else "googolplexth")
    ensures f.denominator.Finite? ==>
              InWords(lex, f) == lex.cardinal(f.numerator) + " " + FractionWord(lex, f)
  {
  }

  // ---------------------------------------------------------------------
  // Reverse-lookup keys
  // ---------------------------------------------------------------------

  /** The first four candidates when the stripped key equals the key. */
  lemma UniqOfEqualKeysPrefix(key: string, a: string, an: string)
    requires a == "a " + key && an == "an " + key
    ensures Uniq([key, key, a, an]) == [key, a, an]
  {
    assert |a| != |key| && |an| != |key| && |a| != |an|;
    assert Uniq([key]) == [key] by {
      UniqSnoc([], key);
      assert [] + [key] == [key];
    }
    assert Uniq([key, key]) == [key] by {
      UniqSnoc([key], key);
      assert [key] + [key] == [key, key];
    }
    assert Uniq([key, key, a]) == [key, a] by {
      UniqSnoc([key, key], a);
      assert [key, key] + [a] == [key, key, a];
    }
    UniqSnoc([key, key, a], an);
    assert [key, key, a] + [an] == [key, key, a, an];
  }

  /** When the stripped key equals the key, `uniq` leaves three keys. */
  lemma UniqOfEqualKeys(key: string)
    ensures Uniq(KeyCandidates(key, key)) == [key, "a " + key, "an " + key]
  {
    var a, an := "a " + key, "an " + key;
    UniqOfEqualKeysPrefix(key, a, an);
    assert Uniq([key, key, a, an, a]) == [key, a, an] by {
      UniqSnoc([key, key, a, an], a);
      assert [key, key, a, an] + [a] == [key, key, a, an, a];
    }
    UniqSnoc([key, key, a, an, a], an);
    assert [key, key, a, an, a] + [an] == KeyCandidates(key, key);
  }

  /** A phrase of plain words separated by single spaces gives exactly
      three keys: the phrase, "a " + phrase and "an " + phrase. */
  lemma LookupKeysOfPlainPhrase(lex: Lexicon, f: Fraction, words: seq<string>)
    requires forall i :: 0 <= i < |words| ==> IsWord(words[i])
    requires forall i :: 0 <= i < |words| ==> ReplaceLeadingAToZ(words[i]) == words[i]
    requires InWords(lex, f) == Join(words, " ")
    ensures var key := InWords(lex, f);
            LookupKeys(lex, f) == [key, "a " + key, "an " + key]
  {
    var key := InWords(lex, f);
    assert StrippedKey(key) == key by {
      SplitJoin([], words, " ", []);
      assert [] + Join(words, " ") + [] == Join(words, " ");
      assert StripPunctuation(words) == words;
    }
    UniqOfEqualKeys(key);
  }

  // ---------------------------------------------------------------------
  // Worked examples
  // ---------------------------------------------------------------------

  /** 2/5 with "fifth" as 5's ordinal override: "two fifths". */
  lemma TwoFifths(lex: Lexicon)
    requires lex.cardinal(2) == "two"
    requires 5 in lex.table && lex.table[5] == Attributes(Some("fifth"), NoEntry)
    ensures InWords(lex, NewFraction(lex.table, Finite(5), Some(2), None)) == "two fifths"
  {
  }

  /** 1/35, with 5's override applying in the sub-fraction: "one thirty-fifth". */
  lemma OneThirtyFifth(lex: Lexicon)
    requires lex.cardinal(1) == "one" && lex.cardinal(30) == "thirty"
    requires 35 !in lex.table
    requires 5 in lex.table && lex.table[5] == Attributes(Some("fifth"), NoEntry)
    ensures InWords(lex, NewFraction(lex.table, Finite(35), Some(1), None)) == "one thirty-fifth"
  {
    var f := NewFraction(lex.table, Finite(35), Some(1), None);
    OrdinalWithRemainder(lex, f);
    OrdinalOverride(lex, SubFraction(lex, f, 5));
  }

  lemma HundredAndSeconds(lex: Lexicon, f: Fraction)
    requires lex.cardinal(100) == "one hundred"
    requires 2 in lex.table && lex.table[2].ordinal == Some("second")
    requires f == Fraction(Finite(102), 2, NoAttributes)
    ensures FractionWord(lex, f) == "hundred and seconds"
  {
    var sub := SubFraction(lex, f, 2);
    assert Ordinal(lex, sub) == "seconds" by {
      OrdinalOverride(lex, sub);
    }
    assert MainWords(lex, f) == "hundred" by {
      assert "one hundred"[..4] == "one " && "one hundred"[4..] == "hundred";
    }
    assert SubDenominator(102) == Some(2);
    OrdinalWithRemainder(lex, f);
    FractionFallsBackToOrdinal(lex, f);
  }

  /** 2/102: the plural drops "one " and pluralises the sub-ordinal:
      "two hundred and seconds". */
  lemma TwoHundredAndSeconds(lex: Lexicon, f: Fraction)
    requires lex.cardinal(2) == "two" && lex.cardinal(100) == "one hundred"
    requires 102 !in lex.table
    requires 2 in lex.table && lex.table[2].ordinal == Some("second")
    requires f == NewFraction(lex.table, Finite(102), Some(2), None)
    ensures InWords(lex, f) == "two hundred and seconds"
  {
    HundredAndSeconds(lex, f);
    PhraseShape(lex, lex, f);
  }

  /** 1/2 and 3/2 with the idiomatic words "half" and "halves". */
  lemma Halves(lex: Lexicon)
    requires lex.cardinal(1) == "one" && lex.cardinal(3) == "three"
    requires 2 in lex.table && lex.table[2].fraction == Forms(Some("half"), Some("halves"))
    ensures InWords(lex, NewFraction(lex.table, Finite(2), Some(1), None)) == "one half"
    ensures InWords(lex, NewFraction(lex.table, Finite(2), Some(3), None)) == "three halves"
  {
  }
}
