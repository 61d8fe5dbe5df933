/**
 * What the dispatcher promises: the fixed order of the modes, that a
 * negative value recurses exactly once, how decimal digits are read out,
 * which numbers take the tens path and what that path produces.
 */
module ToWordProperties {
  import opened Wrappers
  import opened Text
  import opened ToWords

  // ---------------------------------------------------------------------
  // Dispatch order
  // ---------------------------------------------------------------------

  /** Five `||` alternatives before a last resort: the first present one
      decides, and the last resort only when none is present. */
  lemma FirstOfFive(a: Option<string>, b: Option<string>, c: Option<string>,
                    d: Option<string>, e: Option<string>, last: string)
    ensures var r := FirstPresent([a, b, c, d, e], last);
      && (a.Some? ==> r == a.value)
      && (a.None? && b.Some? ==> r == b.value)
      && (a.None? && b.None? && c.Some? ==> r == c.value)
      && (a.None? && b.None? && c.None? && d.Some? ==> r == d.value)
      && (a.None? && b.None? && c.None? && d.None? && e.Some? ==> r == e.value)
      && (a.None? && b.None? && c.None? && d.None? && e.None? ==> r == last)
  {
    FirstPresentStep(e, [], last);
    FirstPresentStep(d, [e], last);
    FirstPresentStep(c, [d, e], last);
    FirstPresentStep(b, [c, d, e], last);
    FirstPresentStep(a, [b, c, d, e], last);
    assert [a] + [b, c, d, e] == [a, b, c, d, e];
  }

  /** One step of the `||` chain: a present first result decides it,
      an absent one passes to the rest. */
  lemma FirstPresentStep(o: Option<string>, rest: seq<Option<string>>, last: string)
    ensures FirstPresent([o] + rest, last) == if o.Some? then o.value else FirstPresent(rest, last)
  {
    assert ([o] + rest)[1..] == rest;
  }

  /** The first applicable mode wins: fraction, exceptional number,
      currency, decimals, negative, and the plain output last. */
  lemma DispatchOrder(tw: ToWord, fraction: bool, w: Writers)
    ensures var r := InWords(tw, fraction, w);
      && (fraction ==> r == FractionInWords(tw.that, w))
      && (!fraction && HandleExceptionalNumbers(tw, w).Some? ==>
            r == HandleExceptionalNumbers(tw, w).value)
      && (!fraction && HandleExceptionalNumbers(tw, w).None? && Currency(tw, w).Some? ==>
            r == Currency(tw, w).value)
      && (!fraction && HandleExceptionalNumbers(tw, w).None? && Currency(tw, w).None? &&
          DecimalsWords(tw, w).Some? ==>
            r == DecimalsWords(tw, w).value)
      && (!fraction && HandleExceptionalNumbers(tw, w).None? && Currency(tw, w).None? &&
          DecimalsWords(tw, w).None? && Negative(tw, w).Some? ==>
            r == Negative(tw, w).value)
      && (!fraction && HandleExceptionalNumbers(tw, w).None? && Currency(tw, w).None? &&
          DecimalsWords(tw, w).None? && Negative(tw, w).None? ==>
            r == Output(tw, w))
  {
    FirstOfFive(AsFraction(tw, fraction, w), HandleExceptionalNumbers(tw, w),
                Currency(tw, w), DecimalsWords(tw, w), Negative(tw, w), Output(tw, w));
  }

  /** A negative value that no earlier mode claims reads "minus " and the
      words of its negation, and the negation is not negative again, so
      "minus" is added once. */
  lemma NegativeRecursesOnce(tw: ToWord, w: Writers)
    requires ToI(tw.that) < 0
    requires HandleExceptionalNumbers(tw, w).None? && tw.format != Some("currency")
    requires w.splitDecimals(tw.that).None?
    ensures InWords(tw, false, w) == "minus " + ValueInWords(Negate(tw.that), w)
    ensures Negative(NewToWord(Negate(tw.that), None, None), w).None?
  {
    DispatchOrder(tw, false, w);
  }

  // ---------------------------------------------------------------------
  // Decimals
  // ---------------------------------------------------------------------

  /** The words of each digit, in order. */
  function DigitList(digits: seq<int>, cardinal: int -> string): (r: seq<string>)
    ensures |r| == |digits|
    ensures forall i :: 0 <= i < |r| ==> r[i] == cardinal(digits[i])
  {
    seq(|digits|, i requires 0 <= i < |digits| => cardinal(digits[i]))
  }

  /** The digit buffer is the digits' words joined by single spaces, with
      one trailing space. */
  lemma {:induction false} DigitWordsJoined(digits: seq<int>, cardinal: int -> string)
    requires digits != []
    ensures DigitWords(digits, cardinal) == Join(DigitList(digits, cardinal), " ") + " "
    decreases |digits|
  {
    var init := digits[..|digits| - 1];
    var last := digits[|digits| - 1];
    if init == [] {
      assert DigitList(digits, cardinal) == [cardinal(last)];
    } else {
      DigitWordsJoined(init, cardinal);
      assert DigitList(digits, cardinal) == DigitList(init, cardinal) + [cardinal(last)];
      JoinSnoc(DigitList(init, cardinal), cardinal(last), " ");
    }
  }

  /** Stripping a buffer that starts with a non-space and ends with a
      word and one space removes exactly that space. */
  lemma StripBuffer(head: string, words: seq<string>)
    requires head != [] && !IsStripSpace(head[0])
    requires words != [] && words[|words| - 1] != [] && Trimmed(words[|words| - 1])
    ensures Strip(head + Join(words, " ") + " ") == head + Join(words, " ")
  {
    var joined := Join(words, " ");
    var body := head + joined;
    JoinLastChar(words, " ");
    assert body[|body| - 1] == joined[|joined| - 1];
    assert Trimmed(body);
    assert AllStripSpace(" ");
    StripUnique([], body, " ");
    assert [] + body + " " == head + joined + " ";
  }

  /** With trimmed, non-empty words, the decimal reading is the integer's
      words, the connector and the digits' words separated by single
      spaces: the trailing space of the buffer is stripped and nothing else. */
  lemma DecimalsReadDigits(tw: ToWord, w: Writers, whole: int, digits: seq<int>)
    requires w.splitDecimals(tw.that) == Some((whole, digits))
    requires digits != []
    requires w.lexicon.cardinal(whole) != [] && Trimmed(w.lexicon.cardinal(whole))
    requires forall i :: 0 <= i < |digits| ==>
               w.lexicon.cardinal(digits[i]) != [] && Trimmed(w.lexicon.cardinal(digits[i]))
    ensures DecimalsWords(tw, w) ==
              Some(w.lexicon.cardinal(whole) + tw.connector + Join(DigitList(digits, w.lexicon.cardinal), " "))
  {
    var cardinal := w.lexicon.cardinal;
    var words := DigitList(digits, cardinal);
    var head := cardinal(whole) + tw.connector;
    assert DigitWords(digits, cardinal) == Join(words, " ") + " " by {
      DigitWordsJoined(digits, cardinal);
    }
    assert head[0] == cardinal(whole)[0];
    assert words[|words| - 1] == cardinal(digits[|digits| - 1]);
    StripBuffer(head, words);
    assert head + DigitWords(digits, cardinal) == head + Join(words, " ") + " ";
  }

  // ---------------------------------------------------------------------
  // The tens path
  // ---------------------------------------------------------------------

  lemma {:induction false} DigitCountBounds(n: nat)
    ensures DigitCount(n) == 1 <==> n < 10
    ensures DigitCount(n) == 2 <==> 10 <= n < 100
  {
    if n >= 10 {
      DigitCountBounds(n / 10);
    }
  }

  /** `to_s` has two characters exactly for 10..99 and for -9..-1. */
  lemma DecimalLengthTwo(n: int)
    ensures DecimalLength(n) == 2 <==> (10 <= n <= 99 || -9 <= n <= -1)
  {
    if n < 0 {
      DigitCountBounds(-n);
    } else {
      DigitCountBounds(n);
    }
  }

  /** For a two-digit number the tens word is joined to the units word by
      a hyphen; a zero units digit leaves the tens word alone, never "zero". */
  lemma TensPhraseOfTwoDigits(n: int, w: Writers)
    requires 10 <= n <= 99
    ensures n % 10 == 0 ==> TensPhrase(n, w) == w.lookup(n)
    ensures n % 10 != 0 ==> TensPhrase(n, w) == w.lookup(n - n % 10) + "-" + w.lexicon.cardinal(n % 10)
  {
    var (tens, digit) := TensAndUnits(n);
    assert digit == n % 10;
  }

  /** A two-digit value that reaches the plain output reads as its tens
      word, then a hyphen and its units word (when the digit is not zero),
      provided those words are trimmed and non-empty. */
  lemma OutputOfTwoDigits(tw: ToWord, w: Writers)
    requires var n := ToI(tw.that); 10 <= n <= 99
    requires var n := ToI(tw.that); w.lookup(n - n % 10) != [] && Trimmed(w.lookup(n - n % 10))
    requires var n := ToI(tw.that); w.lexicon.cardinal(n % 10) != [] && Trimmed(w.lexicon.cardinal(n % 10))
    ensures var n := ToI(tw.that);
      Output(tw, w) ==
        if n % 10 == 0 then w.lookup(n) else w.lookup(n - n % 10) + "-" + w.lexicon.cardinal(n % 10)
  {
    var n := ToI(tw.that);
    DecimalLengthTwo(n);
    TensPhraseOfTwoDigits(n, w);
    var s := TensPhrase(n, w);
    if n % 10 != 0 {
      var a, b := w.lookup(n - n % 10), w.lexicon.cardinal(n % 10);
      assert s == a + "-" + b;
      assert s[0] == a[0] && s[|s| - 1] == b[|b| - 1];
    }
    assert Trimmed(s);
    assert [] + s + [] == s;
    StripUnique([], s, []);
  }
}
