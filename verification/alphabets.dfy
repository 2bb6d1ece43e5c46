/** Alphabets: an ordered sequence of capital letters with a parallel
    sequence of the same letters in small form, and the two alphabets the
    application ships (Ukrainian, 33 letters; English, 26 letters). */
module Alphabets {
  import Letters

  datatype Alphabet = Alphabet(upper: string, lower: string) {

    /** N, the number of letters. */
    function Size(): nat {
      |upper|
    }

    /** Equal lengths, at least one letter, and every letter distinct: no
        repeat among the capitals, none among the small forms, and no
        character that is both. */
    predicate Valid() {
      && |upper| == |lower|
      && |upper| > 0
      && Distinct(upper)
      && Distinct(lower)
      && (forall i, j | 0 <= i < |upper| && 0 <= j < |lower| :: Apart(upper, lower, i, j))
    }
  }

  /** Positions `i` and `j` of `s` hold different characters. (A named
      predicate, so that distinctness is used only where a proof asks.) */
  predicate Differ(s: string, i: int, j: int)
    requires 0 <= i < |s| && 0 <= j < |s|
  {
    s[i] != s[j]
  }

  /** Position `i` of `s` and position `j` of `t` hold different characters. */
  predicate Apart(s: string, t: string, i: int, j: int)
    requires 0 <= i < |s| && 0 <= j < |t|
  {
    s[i] != t[j]
  }

  /** No character occurs twice. */
  predicate Distinct(s: string) {
    forall i, j | 0 <= i < j < |s| :: Differ(s, i, j)
  }

  /** `s.indexOf(c)` for one character: the first position holding `c`, or
      -1 when there is none. */
  function IndexOf(s: string, c: char): (i: int)
    ensures -1 <= i < |s|
    ensures i == -1 ==> c !in s
    ensures i >= 0 ==> s[i] == c
    ensures forall j | 0 <= j < i :: s[j] != c
  {
    if s == [] then -1
    else if s[0] == c then 0
    else
      var k := IndexOf(s[1..], c);
      if k == -1 then -1 else k + 1
  }

  lemma IndexOfDistinct(s: string, i: int)
    requires 0 <= i < |s| && Distinct(s)
    ensures IndexOf(s, s[i]) == i
  {
    forall j | 0 <= j < i
      ensures s[j] != s[i]
    {
      assert Differ(s, j, i);
    }
  }

  /** Upper-casing through the alphabet pair: the small form of a letter
      becomes its capital; any other character is left as it is. */
  function ToUpper(a: Alphabet, c: char): char {
    var i := IndexOf(a.lower, c);
    if 0 <= i < |a.upper| then a.upper[i] else c
  }

  /** Lower-casing through the alphabet pair. */
  function ToLower(a: Alphabet, c: char): char {
    var i := IndexOf(a.upper, c);
    if 0 <= i < |a.lower| then a.lower[i] else c
  }

  /** A letter of the alphabet, in either case. */
  predicate IsLetter(a: Alphabet, c: char) {
    c in a.upper || c in a.lower
  }

  /** A letter given in capital form. */
  predicate IsCapitalLetter(a: Alphabet, c: char) {
    c in a.upper
  }

  /** The position of a letter in the alphabet, whichever its case; -1 for
      anything else. */
  function LetterIndex(a: Alphabet, c: char): (i: int)
    requires a.Valid()
    ensures -1 <= i < a.Size()
    ensures i >= 0 <==> IsLetter(a, c)
    ensures i >= 0 ==> (a.upper[i] == c <==> IsCapitalLetter(a, c))
    ensures i >= 0 ==> (a.upper[i] == c || a.lower[i] == c)
  {
    if c in a.upper then IndexOf(a.upper, c) else IndexOf(a.lower, c)
  }

  /** The letter at position `i`, in capital or small form. */
  function LetterAt(a: Alphabet, i: int, capital: bool): char
    requires a.Valid() && 0 <= i < a.Size()
  {
    if capital then a.upper[i] else a.lower[i]
  }

  /** A letter is recovered from its position and case, and the position and
      case are recovered from the letter. */
  lemma LetterAtIndex(a: Alphabet, i: int, capital: bool)
    requires a.Valid() && 0 <= i < a.Size()
    ensures IsLetter(a, LetterAt(a, i, capital))
    ensures LetterIndex(a, LetterAt(a, i, capital)) == i
    ensures IsCapitalLetter(a, LetterAt(a, i, capital)) == capital
  {
    var c := LetterAt(a, i, capital);
    if capital {
      IndexOfDistinct(a.upper, i);
    } else {
      NotCapital(a, i);
      IndexOfDistinct(a.lower, i);
    }
  }

  /** A small form is never a capital, and a capital never a small form. */
  lemma NotCapital(a: Alphabet, i: int)
    requires a.Valid() && 0 <= i < a.Size()
    ensures a.lower[i] !in a.upper
    ensures a.upper[i] !in a.lower
  {
    forall k | 0 <= k < a.Size()
      ensures a.upper[k] != a.lower[i] && a.upper[i] != a.lower[k]
    {
      assert Apart(a.upper, a.lower, k, i) && Apart(a.upper, a.lower, i, k);
    }
  }

  lemma LetterOfIndex(a: Alphabet, c: char)
    requires a.Valid() && IsLetter(a, c)
    ensures LetterAt(a, LetterIndex(a, c), IsCapitalLetter(a, c)) == c
  {
  }

  /** Through the pair, upper-casing sends a letter to its capital form and
      lower-casing to its small form, keeping its position; characters
      outside the alphabet are left alone. */
  lemma PairCaseMapping(a: Alphabet, c: char)
    requires a.Valid()
    ensures IsLetter(a, c) ==> ToUpper(a, c) == LetterAt(a, LetterIndex(a, c), true)
    ensures IsLetter(a, c) ==> ToLower(a, c) == LetterAt(a, LetterIndex(a, c), false)
    ensures IsLetter(a, c) ==> (c == ToLower(a, c) <==> !IsCapitalLetter(a, c))
    ensures !IsLetter(a, c) ==> ToUpper(a, c) == c && ToLower(a, c) == c
    ensures IndexOf(a.upper, ToUpper(a, c)) == LetterIndex(a, c)
  {
    if IsLetter(a, c) {
      var i := LetterIndex(a, c);
      NotCapital(a, i);
      IndexOfDistinct(a.upper, i);
      if IsCapitalLetter(a, c) {
        IndexOfDistinct(a.upper, i);
      } else {
        IndexOfDistinct(a.lower, i);
      }
    }
  }

  /* ---------------------------------------------------------------------
     The shipped alphabets
     --------------------------------------------------------------------- */

  datatype Language = Ukrainian | English

  const UkrainianUpper: string := "АБВГҐДЕЄЖЗИІЇЙКЛМНОПРСТУФХЦЧШЩЬЮЯ"
  const UkrainianLower: string := "абвгґдеєжзиіїйклмнопрстуфхцчшщьюя"
  const EnglishUpper: string := "ABCDEFGHIJKLMNOPQRSTUVWXYZ"
  const EnglishLower: string := "abcdefghijklmnopqrstuvwxyz"

  function AlphabetOf(lang: Language): Alphabet {
    match lang
    case Ukrainian => Alphabet(UkrainianUpper, UkrainianLower)
    case English => Alphabet(EnglishUpper, EnglishLower)
  }

  /** Alphabetical position of a Ukrainian capital, computed from its code
      point; -1 for other characters. */
  function UkrainianRank(c: char): int {
    var x := c as int;
    if 0x410 <= x <= 0x413 then x - 0x410
    else if x == 0x490 then 4
    else if 0x414 <= x <= 0x415 then x - 0x414 + 5
    else if x == 0x404 then 7
    else if 0x416 <= x <= 0x418 then x - 0x416 + 8
    else if 0x406 <= x <= 0x407 then x - 0x406 + 11
    else if 0x419 <= x <= 0x429 then x - 0x419 + 13
    else if x == 0x42C then 30
    else if 0x42E <= x <= 0x42F then x - 0x42E + 31
    else -1
  }

  function EnglishRank(c: char): int {
    if 'A' <= c <= 'Z' then c as int - 'A' as int else -1
  }

  /** What each position of a shipped alphabet holds: a capital of the letter
      class with the given rank, whose Unicode small form is the entry of the
      lowercase sequence at the same position. */
  ghost predicate WellPaired(upper: string, lower: string, rank: char -> int, i: int)
    requires 0 <= i < |upper| && i < |lower|
  {
    && rank(upper[i]) == i
    && Letters.IsCapital(upper[i])
    && Letters.IsSmall(lower[i])
    && Letters.LowerOf(upper[i]) == lower[i]
    && Letters.UpperOf(lower[i]) == upper[i]
  }

  lemma UkrainianPosition(i: int)
    requires 0 <= i < 33
    ensures |UkrainianUpper| == |UkrainianLower| == 33
    ensures WellPaired(UkrainianUpper, UkrainianLower, UkrainianRank, i)
  {
    if i < 8 {
      assert i == 0 || i == 1 || i == 2 || i == 3 || i == 4 || i == 5 || i == 6 || i == 7;
    } else if i < 16 {
      assert i == 8 || i == 9 || i == 10 || i == 11 || i == 12 || i == 13 || i == 14 || i == 15;
    } else if i < 24 {
      assert i == 16 || i == 17 || i == 18 || i == 19 || i == 20 || i == 21 || i == 22 || i == 23;
    } else {
      assert i == 24 || i == 25 || i == 26 || i == 27 || i == 28 || i == 29 || i == 30 || i == 31 || i == 32;
    }
  }

  lemma EnglishPosition(i: int)
    requires 0 <= i < 26
    ensures |EnglishUpper| == |EnglishLower| == 26
    ensures WellPaired(EnglishUpper, EnglishLower, EnglishRank, i)
  {
    if i < 9 {
      assert i == 0 || i == 1 || i == 2 || i == 3 || i == 4 || i == 5 || i == 6 || i == 7 || i == 8;
    } else if i < 18 {
      assert i == 9 || i == 10 || i == 11 || i == 12 || i == 13 || i == 14 || i == 15 || i == 16 || i == 17;
    } else {
      assert i == 18 || i == 19 || i == 20 || i == 21 || i == 22 || i == 23 || i == 24 || i == 25;
    }
  }

  /** Positions that rank to themselves hold distinct capitals, and distinct
      small forms as well; capitals and small forms never coincide. */
  lemma WellPairedIsValid(upper: string, lower: string, rank: char -> int)
    requires |upper| == |lower| > 0
    requires forall i | 0 <= i < |upper| :: WellPaired(upper, lower, rank, i)
    ensures Alphabet(upper, lower).Valid()
  {
    forall i, j | 0 <= i < j < |lower|
      ensures Differ(lower, i, j)
    {
      assert WellPaired(upper, lower, rank, i) && WellPaired(upper, lower, rank, j);
    }
    forall i, j | 0 <= i < |upper| && 0 <= j < |lower|
      ensures Apart(upper, lower, i, j)
    {
      assert WellPaired(upper, lower, rank, i) && WellPaired(upper, lower, rank, j);
    }
    forall i, j | 0 <= i < j < |upper|
      ensures Differ(upper, i, j)
    {
      assert WellPaired(upper, lower, rank, i) && WellPaired(upper, lower, rank, j);
    }
  }

  /** The four facts a shipped alphabet offers at every position, stated
      without the rank used to prove distinctness. */
  ghost predicate CasePaired(upper: string, lower: string)
    requires |upper| == |lower|
  {
    forall i | 0 <= i < |upper| ::
      && Letters.IsCapital(upper[i])
      && Letters.IsSmall(lower[i])
      && Letters.LowerOf(upper[i]) == lower[i]
      && Letters.UpperOf(lower[i]) == upper[i]
  }

  lemma UkrainianAlphabet()
    ensures |UkrainianUpper| == |UkrainianLower| == 33
    ensures Alphabet(UkrainianUpper, UkrainianLower).Valid()
    ensures CasePaired(UkrainianUpper, UkrainianLower)
  {
    UkrainianPosition(0);
    forall i | 0 <= i < 33
      ensures WellPaired(UkrainianUpper, UkrainianLower, UkrainianRank, i)
    {
      UkrainianPosition(i);
    }
    WellPairedIsValid(UkrainianUpper, UkrainianLower, UkrainianRank);
    forall i | 0 <= i < 33
      ensures Letters.IsCapital(UkrainianUpper[i]) && Letters.IsSmall(UkrainianLower[i])
      ensures Letters.LowerOf(UkrainianUpper[i]) == UkrainianLower[i]
      ensures Letters.UpperOf(UkrainianLower[i]) == UkrainianUpper[i]
    {
      assert WellPaired(UkrainianUpper, UkrainianLower, UkrainianRank, i);
    }
  }

  lemma EnglishAlphabet()
    ensures |EnglishUpper| == |EnglishLower| == 26
    ensures Alphabet(EnglishUpper, EnglishLower).Valid()
    ensures CasePaired(EnglishUpper, EnglishLower)
  {
    EnglishPosition(0);
    forall i | 0 <= i < 26
      ensures WellPaired(EnglishUpper, EnglishLower, EnglishRank, i)
    {
      EnglishPosition(i);
    }
    WellPairedIsValid(EnglishUpper, EnglishLower, EnglishRank);
    forall i | 0 <= i < 26
      ensures Letters.IsCapital(EnglishUpper[i]) && Letters.IsSmall(EnglishLower[i])
      ensures Letters.LowerOf(EnglishUpper[i]) == EnglishLower[i]
      ensures Letters.UpperOf(EnglishLower[i]) == EnglishUpper[i]
    {
      assert WellPaired(EnglishUpper, EnglishLower, EnglishRank, i);
    }
  }

  /** Both shipped alphabets are valid, have 33 and 26 letters, consist of
      letters of the book-cipher class, and pair each capital with its own
      Unicode small form. */
  lemma ShippedAlphabets(lang: Language)
    ensures AlphabetOf(lang).Valid()
    ensures lang == Ukrainian ==> AlphabetOf(lang).Size() == 33
    ensures lang == English ==> AlphabetOf(lang).Size() == 26
    ensures CasePaired(AlphabetOf(lang).upper, AlphabetOf(lang).lower)
  {
    match lang
    case Ukrainian => UkrainianAlphabet();
    case English => EnglishAlphabet();
  }

  /* ---------------------------------------------------------------------
     Capital strings. The Trithemius cipher is handed only the capital
     string of an alphabet and lower-cases it itself.
     --------------------------------------------------------------------- */

  /** The alphabet pair formed by a capital string and its `toLowerCase`. */
  function PairOf(capitals: string): Alphabet {
    Alphabet(capitals, Letters.LowerCased(capitals))
  }

  /** Capital letters of the book-cipher class whose lower-casing forms a
      valid alphabet pair. */
  predicate Cased(capitals: string) {
    && (forall i | 0 <= i < |capitals| :: Letters.IsCapital(capitals[i]))
    && PairOf(capitals).Valid()
  }

  /** Distinct capitals are enough: their small forms are then distinct too,
      and no small form is a capital. */
  lemma CasedFromCapitals(capitals: string)
    requires |capitals| > 0 && Distinct(capitals)
    requires forall i | 0 <= i < |capitals| :: Letters.IsCapital(capitals[i])
    ensures Cased(capitals)
    ensures CasePaired(capitals, Letters.LowerCased(capitals))
  {
    var lower := Letters.LowerCased(capitals);
    forall i, j | 0 <= i < j < |lower|
      ensures Differ(lower, i, j)
    {
      assert Differ(capitals, i, j);
      Letters.CaseRoundTrip(capitals[i]);
      Letters.CaseRoundTrip(capitals[j]);
    }
    forall i, j | 0 <= i < |capitals| && 0 <= j < |lower|
      ensures Apart(capitals, lower, i, j)
    {
    }
    forall i | 0 <= i < |capitals|
      ensures Letters.UpperOf(lower[i]) == capitals[i]
    {
      Letters.CaseRoundTrip(capitals[i]);
    }
  }

  /** The capital string of each shipped alphabet lower-cases to exactly the
      shipped small forms. */
  lemma ShippedCased(lang: Language)
    ensures Cased(AlphabetOf(lang).upper)
    ensures PairOf(AlphabetOf(lang).upper) == AlphabetOf(lang)
  {
    ShippedAlphabets(lang);
    var a := AlphabetOf(lang);
    assert Letters.LowerCased(a.upper) == a.lower;
    CasedFromCapitals(a.upper);
  }
}
