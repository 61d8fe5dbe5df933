/**
 * The rendering dispatcher of numbers_in_words (`NumbersInWords::ToWord`).
 *
 * A value is rendered by the first mode that applies, in a fixed order:
 * as a fraction (on request), through the table of exceptional numbers
 * (integers only), as currency (on request), as a decimal, as a negative
 * number ("minus " and the words of its negation), and otherwise by the
 * plain writer, with a tens-and-units path for two-character numbers.
 *
 * The collaborators are not defined here; they are the fields of a
 * `Writers` record: the cardinal writer and exception table of the
 * fraction engine, `NumbersInWords.lookup`, the exceptional-number lookup,
 * `NumberGroup#split_decimals`, `Writer#call`, `Float#rationalize` and the
 * dollars-and-cents text.
 */
module ToWords {
  import opened Wrappers
  import opened Text
  import Fractions

  /** A Ruby numeric value. */
  datatype Number = Integer(i: int) | Float(x: real)

  /** `to_i`: an integer as it is, a float truncated toward zero. */
  function ToI(v: Number): (n: int)
    ensures v.Integer? ==> n == v.i
    ensures v.Float? && v.x >= 0.0 ==> n as real <= v.x < n as real + 1.0
    ensures v.Float? && v.x < 0.0 ==> n as real - 1.0 < v.x <= n as real
  {
    match v
    case Integer(i) => i
    case Float(x) => if x >= 0.0 then x.Floor else -((-x).Floor)
  }

  /** Unary minus, `-@that`. */
  function Negate(v: Number): (r: Number)
    ensures r.Integer? == v.Integer?
    ensures ToI(r) == -ToI(v)
  {
    match v
    case Integer(i) => Integer(-i)
    case Float(x) => Float(-x)
  }

  datatype Writers = Writers(
    lexicon: Fractions.Lexicon,                            // cardinal writer and exception table
    lookup: int -> string,                                 // NumbersInWords.lookup
    exceptional: int -> Option<string>,                    // exceptional_numbers.lookup
    splitDecimals: Number -> Option<(int, seq<int>)>,      // NumberGroup#split_decimals
    write: Number -> string,                               // Writer.new(that).call
    rationalize: Number -> (int, Fractions.Positive),      // that.rationalize(EPSILON)
    currencyWords: Number -> string)                       // the "%s and %s cents" text

  /** A renderer for one value; set once, at construction. */
  datatype ToWord = ToWord(that: Number, connector: string, format: Option<string>)

  const DefaultConnector := " point "

  /** `ToWord.new(that, connector:, format:)`. */
  function NewToWord(that: Number, connector: Option<string>, format: Option<string>): (tw: ToWord)
    ensures tw.that == that && tw.format == format
    ensures connector.Some? ==> tw.connector == connector.value
    ensures connector.None? ==> tw.connector == DefaultConnector
  {
    ToWord(that, connector.GetOr(DefaultConnector), format)
  }

  /** Ruby's `a || b || ... || last` over results that are a string or nil:
      the first present result, or `last` when there is none. */
  function FirstPresent(options: seq<Option<string>>, last: string): (r: string)
    ensures (forall k :: 0 <= k < |options| ==> options[k].None?) ==> r == last
    ensures forall k :: 0 <= k < |options| && options[k].Some? && (forall j :: 0 <= j < k ==> options[j].None?)
                        ==> r == options[k].value
    decreases |options|
  {
    if options == [] then last
    else if options[0].Some? then options[0].value
    else FirstPresent(options[1..], last)
  }

  /** Distinguishes the negative values, whose rendering recurses once. */
  function Rank(v: Number): nat {
    if ToI(v) < 0 then 1 else 0
  }

  /** `in_words(fraction:)`: the first mode that applies. */
  function InWords(tw: ToWord, fraction: bool, w: Writers): string
    decreases Rank(tw.that), 1
  {
    FirstPresent([AsFraction(tw, fraction, w), HandleExceptionalNumbers(tw, w),
                  Currency(tw, w), DecimalsWords(tw, w), Negative(tw, w)],
                 Output(tw, w))
  }

  /** `NumbersInWords.in_words(x)` on a value: a fresh renderer with the
      default connector and no format. */
  function ValueInWords(v: Number, w: Writers): string
    decreases Rank(v), 2
  {
    InWords(NewToWord(v, None, None), false, w)
  }

  /** `as_fraction`: only on request. */
  function AsFraction(tw: ToWord, fraction: bool, w: Writers): (r: Option<string>)
    ensures r.Some? <==> fraction
  {
    if fraction then Some(FractionInWords(tw.that, w)) else None
  }

  /** `Fraction.in_words`: the rationalised value rendered by the fraction engine. */
  function FractionInWords(that: Number, w: Writers): string {
    var (numerator, denominator) := w.rationalize(that);
    Fractions.InWords(w.lexicon,
      Fractions.NewFraction(w.lexicon.table, Fractions.Finite(denominator), Some(numerator), None))
  }

  /** `handle_exceptional_numbers`: the exceptional lookup, for integers only. */
  function HandleExceptionalNumbers(tw: ToWord, w: Writers): (r: Option<string>)
    ensures r.Some? ==> tw.that.Integer?
    ensures tw.that.Integer? ==> r == w.exceptional(tw.that.i)
  {
    if tw.that.Integer? then w.exceptional(tw.that.i) else None
  }

  /** `currency`: only when the format names currency. */
  function Currency(tw: ToWord, w: Writers): (r: Option<string>)
    ensures r.Some? <==> tw.format == Some("currency")
  {
    if tw.format == Some("currency") then Some(w.currencyWords(tw.that)) else None
  }

  /** `negative`: "minus " and the words of the negation, for a negative `to_i`. */
  function Negative(tw: ToWord, w: Writers): (r: Option<string>)
    ensures r.Some? <==> ToI(tw.that) < 0
    decreases Rank(tw.that), 0
  {
    if ToI(tw.that) < 0 then Some("minus " + ValueInWords(Negate(tw.that), w)) else None
  }

  // ---------------------------------------------------------------------
  // Decimals
  // ---------------------------------------------------------------------

  /** Each digit's words followed by a space, in order. */
  function DigitWords(digits: seq<int>, cardinal: int -> string): string
    decreases |digits|
  {
    if digits == [] then ""
    else DigitWords(digits[..|digits| - 1], cardinal) + cardinal(digits[|digits| - 1]) + " "
  }

  /** What `decimals` returns: nothing when the splitter finds no integer
      part, else the integer's words, the connector and the digits' words,
      stripped. */
  function DecimalsWords(tw: ToWord, w: Writers): (r: Option<string>)
    ensures r.Some? <==> w.splitDecimals(tw.that).Some?
  {
    match w.splitDecimals(tw.that)
    case None => None
    case Some((whole, digits)) =>
      Some(Strip(w.lexicon.cardinal(whole) + tw.connector + DigitWords(digits, w.lexicon.cardinal)))
  }

  /** `decimals`, appending each digit's words to the buffer in turn. */
  method Decimals(tw: ToWord, w: Writers) returns (result: Option<string>)
    ensures result == DecimalsWords(tw, w)
  {
    var split := w.splitDecimals(tw.that);
    if split.None? {
      return None;
    }
    var (whole, digits) := split.value;
    var out := w.lexicon.cardinal(whole) + tw.connector;
    var i := 0;
    while i < |digits|
      invariant 0 <= i <= |digits|
      invariant out == w.lexicon.cardinal(whole) + tw.connector + DigitWords(digits[..i], w.lexicon.cardinal)
    {
      assert digits[..i + 1][..i] == digits[..i];
      out := out + (w.lexicon.cardinal(digits[i]) + " ");
      i := i + 1;
    }
    assert digits[..i] == digits;
    return Some(Strip(out));
  }

  // ---------------------------------------------------------------------
  // Plain output and the tens path
  // ---------------------------------------------------------------------

  /** The number of decimal digits of `n`. */
  function DigitCount(n: nat): (k: nat)
    ensures k >= 1
    decreases n
  {
    if n < 10 then 1 else 1 + DigitCount(n / 10)
  }

  /** `n.to_s.length`: the digits, and a sign for a negative number. */
  function DecimalLength(n: int): nat {
    if n < 0 then 1 + DigitCount(-n) else DigitCount(n)
  }

  /** `output`: the tens path for a two-character `to_i`, the writer
      otherwise; stripped either way. */
  function Output(tw: ToWord, w: Writers): (r: string)
    ensures Trimmed(r)
  {
    var n := ToI(tw.that);
    Strip(if DecimalLength(n) == 2 then TensPhrase(n, w) else w.write(tw.that))
  }

  /** The tens part and the units digit: `tens = (number / 10).round * 10`,
      `digit = number - tens`, with Ruby's flooring integer division. */
  function TensAndUnits(number: int): (r: (int, int))
    ensures r.0 + r.1 == number
    ensures r.0 % 10 == 0 && 0 <= r.1 < 10
  {
    var tens := (number / 10) * 10;
    (tens, number - tens)
  }

  /** What `handle_tens` returns: the tens word, then the units word after
      a hyphen (a space from 100 up) when the units digit is not zero. */
  function TensPhrase(number: int, w: Writers): string {
    var (tens, digit) := TensAndUnits(number);
    if digit == 0 then w.lookup(tens)
    else w.lookup(tens) + (if number < 100 then "-" else " ") + w.lexicon.cardinal(digit)
  }

  /** `handle_tens`, building its result in a buffer. */
  method HandleTens(number: int, w: Writers) returns (output: string)
    ensures output == TensPhrase(number, w)
  {
    output := "";
    var tens := (number / 10) * 10;
    output := output + w.lookup(tens);
    var digit := number - tens;
    // With a zero digit the Ruby `handle_tens` evaluates the literal 'zero' and drops it.
    if digit != 0 {
      var join := if number < 100 then "-" else " ";
      output := output + (join + w.lexicon.cardinal(digit));
    }
  }
}
