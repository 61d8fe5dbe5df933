/**
 * The fraction/ordinal phrase engine of numbers_in_words
 * (`NumbersInWords::Fraction`).
 *
 * A fraction is a numerator, a denominator and an exception record taken
 * from a table of irregular words. From these the engine builds the
 * ordinal word for the denominator ("thirty-fifth", "hundred and
 * seconds"), the fraction word (an idiomatic override such as "half", or
 * else the ordinal), the full phrase (the numerator's cardinal, a space,
 * and the fraction word) and the keys under which a reverse lookup finds
 * the fraction.
 *
 * The cardinal writer (`NumbersInWords.in_words` on an integer) and the
 * exception table are not defined here: they are the fields of a
 * `Lexicon` passed to every operation.
 */
module Fractions {
  import opened Wrappers
  import opened Text

  type Positive = n: nat | 1 <= n witness 1

  /** A denominator: a positive integer, or the `Float::INFINITY`
      sentinel that stands for magnitudes beyond a googolplex. */
  datatype Denominator = Finite(value: Positive) | Infinite

  /** What an exception record holds under `:fraction`. */
  datatype FractionEntry =
    | NoEntry                                              // the key is absent
    | NotAHash                                             // present, but not a Hash
    | Forms(singular: Option<string>, plural: Option<string>)

  /** An exception record: an optional `:ordinal` word and a `:fraction` entry. */
  datatype Attributes = Attributes(ordinal: Option<string>, fraction: FractionEntry)

  /** The empty record `{}`. */
  const NoAttributes := Attributes(None, NoEntry)

  /** The exception table (`ExceptionalNumbers::DEFINITIONS`), keyed by denominator. */
  type Table = map<nat, Attributes>

  /** The collaborators every operation reads: the table and the cardinal writer. */
  datatype Lexicon = Lexicon(table: Table, cardinal: int -> string)

  /** A fraction; its fields are set once, at construction. */
  datatype Fraction = Fraction(denominator: Denominator, numerator: int, attributes: Attributes)

  /** `Fraction.new(denominator:, numerator: 1, attributes: nil)`: the
      numerator defaults to 1; explicit attributes win, else the table's
      entry for the denominator, else `{}`. */
  function NewFraction(table: Table, denominator: Denominator, numerator: Option<int>,
                       attributes: Option<Attributes>): (f: Fraction)
    ensures f.denominator == denominator
    ensures numerator.Some? ==> f.numerator == numerator.value
    ensures numerator.None? ==> f.numerator == 1
    ensures attributes.Some? ==> f.attributes == attributes.value
    ensures attributes.None? && denominator.Finite? && denominator.value in table ==>
              f.attributes == table[denominator.value]
    ensures attributes.None? && (denominator.Infinite? || denominator.value !in table) ==>
              f.attributes == NoAttributes
  {
    var definition := if denominator.Finite? && denominator.value in table
                      then Some(table[denominator.value]) else None;
    Fraction(denominator, numerator.GetOr(1), attributes.Or(definition).GetOr(NoAttributes))
  }

  /** `pluralize?`: the one predicate that picks every plural form. */
  predicate Pluralize(f: Fraction) {
    f.numerator > 1
  }

  /** The ordinal is defined without arithmetic on the denominator when the
      record overrides it; otherwise the denominator must be finite. */
  predicate HasOrdinal(f: Fraction) {
    f.denominator.Finite? || f.attributes.ordinal.Some?
  }

  /** The fraction word is defined when the ordinal is, or when the record
      supplies the form the numerator asks for. */
  predicate HasFractionWord(f: Fraction) {
    HasOrdinal(f) || (if Pluralize(f) then FractionPlural(f) else FractionSingular(f)).Some?
  }

  /** The measure of the ordinal's recursion: a sub-fraction's denominator
      is smaller than its parent's. */
  function Size(d: Denominator): nat {
    if d.Finite? then d.value else 0
  }

  // ---------------------------------------------------------------------
  // The phrase and the fraction word
  // ---------------------------------------------------------------------

  /** `in_words`: the full phrase. */
  function InWords(lex: Lexicon, f: Fraction): string {
    if f.denominator.Infinite? then
      if Pluralize(f) then "googolplexths" else "googolplexth"
    else
      lex.cardinal(f.numerator) + " " + FractionWord(lex, f)
  }

  /** `fraction`: the fraction word in the number the numerator asks for. */
  function FractionWord(lex: Lexicon, f: Fraction): string
    requires HasFractionWord(f)
  {
    if Pluralize(f) then PluralizedFraction(lex, f) else SingularFraction(lex, f)
  }

  function PluralizedFraction(lex: Lexicon, f: Fraction): string
    requires HasOrdinal(f) || FractionPlural(f).Some?
  {
    match FractionPlural(f)
    case Some(word) => word
    case None => PluralizedOrdinalInWords(lex, f)
  }

  function SingularFraction(lex: Lexicon, f: Fraction): string
    requires HasOrdinal(f) || FractionSingular(f).Some?
  {
    match FractionSingular(f)
    case Some(word) => word
    case None => SingularOrdinalInWords(lex, f)
  }

  /** `exception?`: the `:fraction` entry is a Hash. */
  predicate IsException(f: Fraction) {
    f.attributes.fraction.Forms?
  }

  function FractionSingular(f: Fraction): Option<string> {
    if IsException(f) then f.attributes.fraction.singular else None
  }

  function FractionPlural(f: Fraction): Option<string> {
    if IsException(f) then f.attributes.fraction.plural else None
  }

  // ---------------------------------------------------------------------
  // The ordinal
  // ---------------------------------------------------------------------

  /** `ordinal`: the denominator's ordinal word, plural when the numerator is. */
  function Ordinal(lex: Lexicon, f: Fraction): string
    requires HasOrdinal(f)
    decreases Size(f.denominator), 4
  {
    if Pluralize(f) then PluralizedOrdinalInWords(lex, f) else SingularOrdinalInWords(lex, f)
  }

  function PluralizedOrdinalInWords(lex: Lexicon, f: Fraction): string
    requires HasOrdinal(f)
    decreases Size(f.denominator), 3
  {
    match PluralizedOrdinal(f)
    case Some(word) => word
    case None => DenominatorOrdinalInWords(lex, f)
  }

  function SingularOrdinalInWords(lex: Lexicon, f: Fraction): string
    requires HasOrdinal(f)
    decreases Size(f.denominator), 3
  {
    match SingularOrdinal(f)
    case Some(word) => word
    case None => DenominatorOrdinalInWords(lex, f)
  }

  function SingularOrdinal(f: Fraction): Option<string> {
    f.attributes.ordinal
  }

  /** The override ordinal with "s" appended. */
  function PluralizedOrdinal(f: Fraction): Option<string> {
    match SingularOrdinal(f)
    case Some(word) => Some(word + "s")
    case None => None
  }

  /** The generated ordinal, by the magnitude of the denominator. */
  function DenominatorOrdinalInWords(lex: Lexicon, f: Fraction): string
    requires f.denominator.Finite?
    decreases Size(f.denominator), 2
  {
    var d := f.denominator.value;
    if d > 100 then
      WithRemainder(lex, f, 100, " and ")    // one hundred and second
    else if d > 19 then
      WithRemainder(lex, f, 10, "-")         // two thirty-fifths
    else
      var singular := lex.cardinal(d) + "th"; // one seventh
      if Pluralize(f) then singular + "s" else singular
  }

  /** Splits the denominator into `main` (a multiple of `modulus`) and `rest`. */
  function WithRemainder(lex: Lexicon, f: Fraction, modulus: Positive, joinWord: string): string
    requires f.denominator.Finite? && modulus <= f.denominator.value
    decreases Size(f.denominator), 1
  {
    var d := f.denominator.value;
    var rest := d % modulus;
    var main := lex.cardinal(d - rest);
    var main := if Pluralize(f) then DropLeadingOne(main) else main;
    match RestZero(f, rest, main)
    case Some(word) => word
    case None => Joined(lex, f, main, rest, joinWord)
  }

  /** `main`, the join word, and the ordinal of a fresh fraction over `rest`. */
  function Joined(lex: Lexicon, f: Fraction, main: string, rest: nat, joinWord: string): string
    requires f.denominator.Finite? && 1 <= rest < f.denominator.value
    decreases Size(f.denominator), 0
  {
    main + joinWord + Ordinal(lex, NewFraction(lex.table, Finite(rest), Some(f.numerator), None))
  }

  /** `main` with the ordinal suffix, when there is no remainder. */
  function RestZero(f: Fraction, rest: nat, main: string): (r: Option<string>)
    ensures r.None? <==> rest != 0
  {
    if rest != 0 then None
    else if Pluralize(f) then Some(main + "ths")
    else Some(main + "th")
  }

  /** `gsub(/^one /, '')` on a one-line string. */
  function DropLeadingOne(s: string): string {
    if |s| >= 4 && s[..4] == "one " then s[4..] else s
  }

  // ---------------------------------------------------------------------
  // Reverse-lookup keys
  // ---------------------------------------------------------------------

  /** `gsub(/^a-z/, ' ')` on one word: a literal "a-z" at its start becomes a space. */
  function ReplaceLeadingAToZ(w: string): string {
    if |w| >= 3 && w[..3] == "a-z" then " " + w[3..] else w
  }

  /** `strip_punctuation`. */
  function StripPunctuation(words: seq<string>): (r: seq<string>)
    ensures |r| == |words|
    ensures forall i :: 0 <= i < |r| ==> r[i] == ReplaceLeadingAToZ(words[i])
  {
    if words == [] then [] else [ReplaceLeadingAToZ(words[0])] + StripPunctuation(words[1..])
  }

  /** The six surface forms, in the order they are generated. */
  function KeyCandidates(key: string, key2: string): seq<string> {
    [key, key2, "a " + key, "an " + key, "a " + key2, "an " + key2]
  }

  /** The phrase with punctuation stripped word by word. */
  function StrippedKey(key: string): string {
    Join(StripPunctuation(SplitWords(key)), " ")
  }

  /** `lookup_keys`: the phrase first, then the other surface forms in
      generation order, each at most once. */
  function LookupKeys(lex: Lexicon, f: Fraction): (r: seq<string>)
    ensures r != [] && r[0] == InWords(lex, f)
    ensures NoDuplicates(r)
    ensures 3 <= |r| <= 6
    ensures "a " + InWords(lex, f) in r && "an " + InWords(lex, f) in r
    ensures forall x :: x in r <==> x in KeyCandidates(InWords(lex, f), StrippedKey(InWords(lex, f)))
  {
    var key := InWords(lex, f);
    var candidates := KeyCandidates(key, StrippedKey(key));
    var r := Uniq(candidates);
    UniqSpec(candidates);
    assert candidates[2] == "a " + key && candidates[3] == "an " + key;
    ThreeDistinct(r, key, "a " + key, "an " + key);
    r
  }

  lemma ThreeDistinct(r: seq<string>, a: string, b: string, c: string)
    requires NoDuplicates(r) && a in r && b in r && c in r
    requires |a| < |b| < |c|
    ensures |r| >= 3
  {
    var i :| 0 <= i < |r| && r[i] == a;
    var j :| 0 <= j < |r| && r[j] == b;
    var k :| 0 <= k < |r| && r[k] == c;
    assert i != j && j != k && i != k;
  }
}
