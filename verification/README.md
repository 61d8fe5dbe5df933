# numbers_in_words: the fraction engine and the rendering dispatcher

This is a Dafny model of two parts of the Ruby library `numbers_in_words`.
The library writes numbers as English words, such as "two thirty-fifths",
"minus seven", "three point one four" and "eighty-four".

- **`NumbersInWords::Fraction`** (module `Fractions`, properties in
  `FractionProperties`). A fraction is a numerator, a denominator and an
  exception record taken from a table of irregular words. From these it
  builds three things:
  - the denominator's ordinal. Below 20 this is the cardinal plus "th".
    From 20 it is split on tens ("thirty-fifth"). Above 100 it is split on
    hundreds ("hundred and seconds"). A record's `:ordinal` override always
    wins.
  - the fraction word. This is an idiomatic override such as
    "half"/"halves", or else the ordinal.
  - the phrase and its reverse-lookup keys.

  The numerator decides every plural form, through `numerator > 1`.
- **`NumbersInWords::ToWord`** (module `ToWords`, properties in
  `ToWordProperties`). This dispatcher renders a value with the first mode
  that applies, in this order:
  1. as a fraction, on request;
  2. through the exceptional-number table, for integers;
  3. as currency, on request;
  4. as a decimal, reading the digits one by one after a connector;
  5. as a negative number: "minus " and the words of its negation;
  6. otherwise by the plain writer. A two-character number takes a
     tens-and-units path instead.

`decimals` builds a buffer in a loop, so it is a method proved against
`DecimalsWords`. `handle_tens` builds a buffer too, so it is a method
proved against `TensPhrase`.

The library's own collaborators are not defined here. They are parameters:
the record `Fractions.Lexicon` and the record `ToWords.Writers`. These hold:
- the cardinal writer (`NumbersInWords.in_words` on an integer);
- the exception table;
- `NumbersInWords.lookup` and the exceptional-number lookup;
- `NumberGroup#split_decimals` and `Writer#call`;
- `Float#rationalize`;
- the dollars-and-cents text.

The Ruby builtins the code relies on are modelled in module `Text`.
`strip` and `uniq` carry the properties that determine them. `split(' ')`
comes with what it does to separators before, between and after words.
`join` is its plain recursive definition.

## Model

| member | source | states |
|---|---|---|
| Fractions.NewFraction | lib/numbers_in_words/fraction.rb:15-19 | the numerator defaults to 1; explicit attributes win; else the table's record for the denominator; else the empty record; the denominator is kept |
| Fractions.Pluralize | lib/numbers_in_words/fraction.rb:87-89 | the single plurality test; PluralityDecides shows the numerator reaches the words only through it |
| Fractions.InWords | lib/numbers_in_words/fraction.rb:38-47 | characterised by PhraseShape and the worked examples |
| Fractions.Ordinal | lib/numbers_in_words/fraction.rb:49-51 | characterised by OrdinalOverride, OrdinalBase, OrdinalZeroRemainder and OrdinalWithRemainder |
| Fractions.FractionWord | lib/numbers_in_words/fraction.rb:53-55 | characterised by FractionOverride and FractionFallsBackToOrdinal |
| Fractions.PluralizedFraction | lib/numbers_in_words/fraction.rb:63-65 | characterised by FractionOverride and FractionFallsBackToOrdinal (plural case) |
| Fractions.SingularFraction | lib/numbers_in_words/fraction.rb:67-69 | characterised by FractionOverride and FractionFallsBackToOrdinal (singular case) |
| Fractions.PluralizedOrdinalInWords | lib/numbers_in_words/fraction.rb:71-73 | characterised by OrdinalOverride and GeneratedOrdinal (plural case) |
| Fractions.SingularOrdinalInWords | lib/numbers_in_words/fraction.rb:75-77 | characterised by OrdinalOverride and GeneratedOrdinal (singular case) |
| Fractions.SingularOrdinal | lib/numbers_in_words/fraction.rb:79-81 | the record's `:ordinal`; characterised by OrdinalOverride |
| Fractions.PluralizedOrdinal | lib/numbers_in_words/fraction.rb:83-85 | the override with "s"; characterised by OrdinalOverride |
| Fractions.DenominatorOrdinalInWords | lib/numbers_in_words/fraction.rb:91-103 | characterised by GeneratedSplit and OrdinalBase |
| Fractions.WithRemainder | lib/numbers_in_words/fraction.rb:113-121 | characterised by OrdinalZeroRemainder and OrdinalWithRemainder |
| Fractions.Joined | lib/numbers_in_words/fraction.rb:123-127 | characterised by OrdinalWithRemainder |
| Fractions.DropLeadingOne | lib/numbers_in_words/fraction.rb:118 | characterised by PluralDropsLeadingOne and PluralDropsLeadingOneWithRemainder |
| Fractions.IsException | lib/numbers_in_words/fraction.rb:139-145 | characterised by FractionOverride and FractionFallsBackToOrdinal |
| Fractions.FractionSingular | lib/numbers_in_words/fraction.rb:147-149 | characterised by FractionOverride and FractionFallsBackToOrdinal |
| Fractions.FractionPlural | lib/numbers_in_words/fraction.rb:151-153 | characterised by FractionOverride and FractionFallsBackToOrdinal |
| Fractions.ReplaceLeadingAToZ | lib/numbers_in_words/fraction.rb:60 | characterised by StripPunctuation and LookupKeysOfPlainPhrase |
| Fractions.StrippedKey | lib/numbers_in_words/fraction.rb:29 | characterised by LookupKeys and LookupKeysOfPlainPhrase |
| Fractions.KeyCandidates | lib/numbers_in_words/fraction.rb:29-35 | the six surface forms in generation order; characterised by LookupKeys |
| Fractions.StripPunctuation | lib/numbers_in_words/fraction.rb:59-61 | maps every word to itself with a leading literal "a-z" replaced by a space; same number of words |
| Fractions.RestZero | lib/numbers_in_words/fraction.rb:129-137 | gives a word exactly when the remainder is zero |
| Fractions.LookupKeys | lib/numbers_in_words/fraction.rb:27-36 | the phrase comes first; no key twice; between 3 and 6 keys; "a "/"an " + phrase are always present; the keys are exactly the six generated forms |
| FractionProperties.SubDenominator | lib/numbers_in_words/fraction.rb:113-115 | the engine recurses only from 20 up and only on a non-zero remainder, which is below both the modulus and the denominator |
| FractionProperties.OrdinalOverride | lib/numbers_in_words/fraction.rb:71-85 | an `:ordinal` override is the ordinal, for any denominator including the infinite one, with "s" appended when the numerator is above 1 |
| FractionProperties.GeneratedOrdinal | lib/numbers_in_words/fraction.rb:49-51 | with no override, the ordinal is the generated `denominator_ordinal_in_words` |
| FractionProperties.GeneratedSplit | lib/numbers_in_words/fraction.rb:91-97 | from 20 up, the generated ordinal splits on 100 with " and " above 100 and on 10 with "-" otherwise |
| FractionProperties.OrdinalBase | lib/numbers_in_words/fraction.rb:98-102 | below 20, the ordinal is the cardinal and "th", plus "s" when plural |
| FractionProperties.OrdinalZeroRemainder | lib/numbers_in_words/fraction.rb:113-137 | from 20 up with no remainder, the ordinal is the denominator's cardinal (without a leading "one " when plural) and "th"/"ths" |
| FractionProperties.OrdinalWithRemainder | lib/numbers_in_words/fraction.rb:113-127 | with a remainder, the ordinal is the leading words, the join word and the ordinal of a fresh fraction over the remainder with that remainder's own table record |
| FractionProperties.DepthAtMostTwo | lib/numbers_in_words/fraction.rb:91-127 | the recursion through sub-fractions is at most two deep: hundreds, then tens, then units |
| FractionProperties.PluralityDecides | lib/numbers_in_words/fraction.rb:49-55 | two fractions that differ only in the numerator, with the same plurality, have the same ordinal and fraction word |
| FractionProperties.PluralAddsS | lib/numbers_in_words/fraction.rb:71-137 | when no tens word reads "one ..." and neither does the denominator's leading part, the plural ordinal is the singular ordinal with "s" appended, through every band and override (2/35, 2/205) |
| FractionProperties.PluralDropsLeadingOne | lib/numbers_in_words/fraction.rb:113-118 | a round denominator whose cardinal is "one X" reads "Xths" in the plural and "one Xth" in the singular |
| FractionProperties.PluralAtMostOneLonger | lib/numbers_in_words/fraction.rb:71-137 | a plural ordinal is at most one character longer than the singular one, through every band and override |
| FractionProperties.PluralDropsLeadingOneWithRemainder | lib/numbers_in_words/fraction.rb:113-127 | with a remainder and a leading part "one X", the plural reads "X", the join word and the plural sub-ordinal, the singular keeps "one X", so the plural is not the singular with "s" |
| FractionProperties.FractionOverride | lib/numbers_in_words/fraction.rb:139-153 | a `:fraction` Hash that supplies the needed form gives the fraction word, for any denominator including the infinite one |
| FractionProperties.FractionFallsBackToOrdinal | lib/numbers_in_words/fraction.rb:63-69 | with no usable `:fraction` form, the fraction word is the ordinal |
| FractionProperties.PhraseShape | lib/numbers_in_words/fraction.rb:38-47 | an infinite denominator reads "googolplexth(s)" without consulting the cardinal writer; a finite one reads the numerator's cardinal, a space and the fraction word |
| FractionProperties.UniqOfEqualKeys | lib/numbers_in_words/fraction.rb:35 | when the stripped key equals the key, `uniq` leaves the key, "a " + key and "an " + key |
| FractionProperties.LookupKeysOfPlainPhrase | lib/numbers_in_words/fraction.rb:27-36 | a phrase of plain words separated by single spaces has exactly three lookup keys |
| FractionProperties.TwoFifths | lib/numbers_in_words/fraction.rb:38-55 | 2/5 reads "two fifths" |
| FractionProperties.OneThirtyFifth | lib/numbers_in_words/fraction.rb:91-127 | 1/35 reads "one thirty-fifth", with 5's override applied in the sub-fraction |
| FractionProperties.HundredAndFifth | lib/numbers_in_words/fraction.rb:113-127 | over 105 without a record, the fraction word is "hundred and fifths" in the plural and "one hundred and fifth" in the singular |
| FractionProperties.TwoHundredAndFifths | lib/numbers_in_words/fraction.rb:38-47 | 2/105 reads "two hundred and fifths" |
| FractionProperties.OneOneHundredAndFifth | lib/numbers_in_words/fraction.rb:38-47 | 1/105 reads "one one hundred and fifth" |
| FractionProperties.TwoHundredAndSeconds | lib/numbers_in_words/fraction.rb:113-127 | 2/102 reads "two hundred and seconds" |
| FractionProperties.Halves | lib/numbers_in_words/fraction.rb:63-69 | 1/2 and 3/2 read "one half" and "three halves" |
| Text.Strip | lib/numbers_in_words/to_word.rb:68 | the result is a trimmed infix of the input, and only whitespace is cut off on either side |
| Text.StripUnique | lib/numbers_in_words/to_word.rb:58 | stripping whitespace off both ends of a trimmed string gives back exactly that string |
| Text.SplitWords | lib/numbers_in_words/fraction.rb:29 | every field is a non-empty word without separators; characterised by SplitSkipsSpace, SplitWordFirst and SplitJoin |
| Text.Join | lib/numbers_in_words/fraction.rb:29 | `join(' ')`; characterised by SplitJoin, JoinSnoc and JoinLastChar |
| Text.JoinSnoc | lib/numbers_in_words/to_word.rb:55-57 | joining a list extended by one element appends the separator and that element |
| Text.JoinLastChar | lib/numbers_in_words/to_word.rb:58 | a join ends with the last character of its last element |
| Text.Uniq | lib/numbers_in_words/fraction.rb:35 | `uniq`; characterised by UniqSpec and UniqSnoc |
| Text.SplitSkipsSpace | lib/numbers_in_words/fraction.rb:29 | separators before a string yield no field |
| Text.SplitWordFirst | lib/numbers_in_words/fraction.rb:29 | a word followed by a separator or by the end is the first field |
| Text.SplitJoin | lib/numbers_in_words/fraction.rb:29 | splitting words joined by a run of separators, with separators before and after, gives exactly the words back |
| Text.UniqSnoc | lib/numbers_in_words/fraction.rb:35 | `uniq` of a list extended by one element keeps it only when it is new |
| Text.UniqSpec | lib/numbers_in_words/fraction.rb:35 | `uniq` has no duplicates, the same elements, the first element first and the elements in order of first occurrence |
| ToWords.InWords | lib/numbers_in_words/to_word.rb:30-37 | characterised by DispatchOrder |
| ToWords.ValueInWords | lib/numbers_in_words/to_word.rb:27 | characterised by NegativeRecursesOnce |
| ToWords.FractionInWords | lib/numbers_in_words/fraction.rb:7-13 | the rationalised value as a fresh fraction's phrase; characterised by DispatchOrder and PhraseShape |
| ToWords.DigitWords | lib/numbers_in_words/to_word.rb:54-57 | characterised by DigitWordsJoined and the Decimals loop |
| ToWords.TensPhrase | lib/numbers_in_words/to_word.rb:71-88 | characterised by TensPhraseOfTwoDigits and the HandleTens method |
| ToWords.DigitCount | lib/numbers_in_words/to_word.rb:62 | at least one digit; characterised by DecimalLengthTwo |
| ToWords.DecimalLength | lib/numbers_in_words/to_word.rb:62 | characterised by DecimalLengthTwo |
| ToWords.NewToWord | lib/numbers_in_words/to_word.rb:14-18 | the value and format are kept; the connector defaults to " point " |
| ToWords.ToI | lib/numbers_in_words/to_word.rb:20-22 | an integer is kept; a float is truncated toward zero |
| ToWords.Negate | lib/numbers_in_words/to_word.rb:27 | negation keeps the kind of number and negates `to_i` |
| ToWords.FirstPresent | lib/numbers_in_words/to_word.rb:30-37 | the `a \|\| b \|\| ... \|\| last` chain gives the first present result, or the last one when none is present |
| ToWords.AsFraction | lib/numbers_in_words/to_word.rb:39-41 | a fraction reading exactly when one is requested |
| ToWords.Currency | lib/numbers_in_words/to_word.rb:43-48 | a currency reading exactly when the format is currency |
| ToWords.Negative | lib/numbers_in_words/to_word.rb:24-28 | a reading exactly when `to_i` is negative |
| ToWords.HandleExceptionalNumbers | lib/numbers_in_words/to_word.rb:90-94 | only integers are looked up, and for them the result is the lookup's |
| ToWords.DecimalsWords | lib/numbers_in_words/to_word.rb:50-53 | a decimal reading exactly when the splitter finds an integer part |
| ToWords.Decimals | lib/numbers_in_words/to_word.rb:50-59 | the loop appends each digit's words and a space, then strips; the result is `DecimalsWords` |
| ToWords.Output | lib/numbers_in_words/to_word.rb:61-69 | the plain output is always trimmed |
| ToWords.TensAndUnits | lib/numbers_in_words/to_word.rb:74-78 | the tens part is a multiple of ten, the digit is 0..9 and they add up to the number |
| ToWords.HandleTens | lib/numbers_in_words/to_word.rb:71-88 | the buffer ends as the tens word, then a hyphen (a space from 100 up) and the digit's words, or the tens word alone for a zero digit |
| ToWordProperties.FirstOfFive | lib/numbers_in_words/to_word.rb:31-36 | in a chain of five `\|\|` alternatives and a last resort, the first present alternative decides, and the last resort only when none is present |
| ToWordProperties.DispatchOrder | lib/numbers_in_words/to_word.rb:30-37 | the first applicable mode decides the reading: fraction, exceptional number, currency, decimals, negative, plain output |
| ToWordProperties.NegativeRecursesOnce | lib/numbers_in_words/to_word.rb:24-37 | a negative value no earlier mode claims reads "minus " and the words of its negation, and the negation is not negative again |
| ToWordProperties.DigitWordsJoined | lib/numbers_in_words/to_word.rb:54-57 | the buffer of digits is their words joined by single spaces, with one trailing space |
| ToWordProperties.DecimalsReadDigits | lib/numbers_in_words/to_word.rb:50-59 | with trimmed words, the decimal reading is the integer's words, the connector and the digits' words separated by single spaces |
| ToWordProperties.DecimalLengthTwo | lib/numbers_in_words/to_word.rb:62 | `to_s` has two characters exactly for 10..99 and -9..-1 |
| ToWordProperties.TensPhraseOfTwoDigits | lib/numbers_in_words/to_word.rb:71-88 | for 10..99: the tens word, a hyphen and the units word, or the tens word alone for a zero digit |
| ToWordProperties.OutputOfTwoDigits | lib/numbers_in_words/to_word.rb:61-88 | a two-digit value reaching the plain output reads as its tens word and hyphenated units word, stripped |

## Left out

- `Fraction#to_r` and the `EPSILON` rationalisation are floating-point arithmetic and are not modelled. `Float#rationalize` is a `Writers` parameter returning a numerator and a positive denominator.
- The dollars-and-cents text of `currency` (`to_s.split('.')` and the format string) is a `Writers` parameter. Only the choice of the currency mode is modelled.
- The cardinal writer, `NumbersInWords.lookup`, the exceptional-number lookup, `NumberGroup`, `Writer` and the contents of `ExceptionalNumbers::DEFINITIONS` are parameters. `lib/numbers_in_words.rb` is not part of this model.
- `NumbersInWords.in_words` is modelled two ways. In `negative` it is the recursion into the dispatcher, `ToWords.ValueInWords`. Elsewhere it is the cardinal writer.
- The private methods `plural` and `singular` (fraction.rb:105-111) are not modelled. Nothing calls `plural`, and `singular` is called only from `plural`. `plural` also calls `ordinal_plural`, which is not defined.
- `Fractions.Ordinal` and `Fractions.FractionWord` on `Float::INFINITY` are modelled only where the record decides them: an `:ordinal` override (`HasOrdinal`), or a `:fraction` form for the needed number (`HasFractionWord`). Without one, the Ruby `with_remainder` computes `Float::INFINITY % 100`, which is NaN, and hands NaN-valued arithmetic to the cardinal writer. That path is outside the model. `in_words` never takes it, because it answers "googolplexth(s)" first.
- Denominators are positive integers. A zero or negative denominator is outside the model.
- `Fractions.DropLeadingOne` models `gsub(/^one /, '')` only at the start of the string. This assumes the cardinal writer's output has no line breaks, where `^` would match again.
- `Fractions.ReplaceLeadingAToZ` has the same line-break assumption for `gsub(/^a-z/, ' ')`, applied to single words.
- An exception record's values are strings or absent. Ruby `false` values and non-string `:ordinal` values are not modelled.
- `ToWords.Output`: the tens path is taken for every `to_s` of length 2. That is 10..99 and also -9..-1, which the dispatcher never sends there because `negative` comes first. The comment in the Ruby `output` says "20-99". For 10..19 the path calls `lookup` on 10 and appends the units, as the code does.
- `ToWords.HandleTens`: for a zero digit the Ruby `handle_tens` evaluates the literal 'zero' and discards it. The result is the buffer, and the model returns that.
