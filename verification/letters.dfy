/** The letter class the book cipher filters with, `[а-яіїєґА-ЯІЇЄҐA-Za-z]`
    (Basic Latin letters, the Cyrillic block U+0410–U+044F and the four
    Ukrainian letters outside it), and the Unicode case mapping restricted to
    that class. Both language alphabets are drawn from this class, so the
    same mapping also says what "the same letter in the two cases" means. */
module Letters {

  /** Capital letters of the class. */
  predicate IsCapital(c: char) {
    || ('A' <= c <= 'Z')
    || ('\U{0410}' <= c <= '\U{042F}')
    || c == '\U{0404}' || c == '\U{0406}' || c == '\U{0407}' || c == '\U{0490}'
  }

  /** Small letters of the class. */
  predicate IsSmall(c: char) {
    || ('a' <= c <= 'z')
    || ('\U{0430}' <= c <= '\U{044F}')
    || c == '\U{0454}' || c == '\U{0456}' || c == '\U{0457}' || c == '\U{0491}'
  }

  /** A character matched by the class. */
  predicate IsClassLetter(c: char) {
    IsCapital(c) || IsSmall(c)
  }

  /** `toUpperCase` on a letter of the class; other characters are left as
      they are. */
  function UpperOf(c: char): char {
    if ('a' <= c <= 'z') || ('\U{0430}' <= c <= '\U{044F}') then (c as int - 0x20) as char
    else if c == '\U{0454}' || c == '\U{0456}' || c == '\U{0457}' then (c as int - 0x50) as char
    else if c == '\U{0491}' then '\U{0490}'
    else c
  }

  /** `toLowerCase` on a letter of the class; other characters are left as
      they are. */
  function LowerOf(c: char): char {
    if ('A' <= c <= 'Z') || ('\U{0410}' <= c <= '\U{042F}') then (c as int + 0x20) as char
    else if c == '\U{0404}' || c == '\U{0406}' || c == '\U{0407}' then (c as int + 0x50) as char
    else if c == '\U{0490}' then '\U{0491}'
    else c
  }

  /** `toLowerCase` on a whole string, character by character. */
  function LowerCased(s: string): (r: string)
    ensures |r| == |s|
    ensures forall i | 0 <= i < |s| :: r[i] == LowerOf(s[i])
  {
    seq(|s|, i requires 0 <= i < |s| => LowerOf(s[i]))
  }

  /** What the two mappings do to each part of the class: a small letter
      becomes a capital and back, everything else is left alone. */
  lemma CaseFacts(c: char)
    ensures IsSmall(c) ==> IsCapital(UpperOf(c))
    ensures IsCapital(c) || !IsSmall(c) ==> UpperOf(c) == c
    ensures IsClassLetter(c) <==> IsCapital(UpperOf(c))
    ensures IsCapital(c) ==> IsSmall(LowerOf(c))
    ensures IsSmall(c) || !IsCapital(c) ==> LowerOf(c) == c
  {
  }

  /** Upper- and lower-casing are inverse on the class: a capital and its
      small form map to each other. */
  lemma CaseRoundTrip(c: char)
    ensures IsCapital(c) ==> UpperOf(LowerOf(c)) == c
    ensures IsSmall(c) ==> LowerOf(UpperOf(c)) == c
  {
  }

  /** Lower-casing a string leaves no capital of the class, keeps every
      character's letter (its capital form is unchanged), keeps characters
      outside the class, and is idempotent. */
  lemma LowerCasedLetters(s: string)
    ensures var r := LowerCased(s);
      && (forall i | 0 <= i < |r| :: !IsCapital(r[i]))
      && (forall i | 0 <= i < |r| :: UpperOf(r[i]) == UpperOf(s[i]))
      && (forall i | 0 <= i < |r| :: !IsClassLetter(s[i]) ==> r[i] == s[i])
      && LowerCased(r) == r
  {
    var r := LowerCased(s);
    forall i | 0 <= i < |r| ensures !IsCapital(r[i]) && UpperOf(r[i]) == UpperOf(s[i]) {
      CaseFacts(s[i]);
      CaseRoundTrip(s[i]);
    }
  }
}
