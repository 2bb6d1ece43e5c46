/** The Caesar cipher: key validation against the alphabet size, the range
    shown to the user, and the shift of every letter by the key (encrypting)
    or by N minus the key (decrypting). */
module Caesar {
  import opened Results
  import opened JsText
  import opened Alphabets
  import opened Preferences

  /** The key as the validator receives it: `null`/`undefined`, the text
      the user typed, or an integer (the brute-force attack passes its loop
      counter). */
  datatype KeyArg = Absent | Typed(text: string) | Number(n: int)

  /** The key values the validator refuses as empty. */
  predicate IsEmptyKey(key: KeyArg) {
    key == Absent || key == Typed("")
  }

  /** What `parseInt(key)` reads from a key. An integer is converted to its
      decimal string first, which reads back as the same integer
      (`NumberReadsAsText`). */
  function ParsedKey(key: KeyArg): Option<int> {
    match key
    case Absent => None
    case Typed(t) => ParseInt(t)
    case Number(n) => Some(n)
  }

  /** The four ways a key is refused, in the order they are checked. */
  datatype KeyError =
    | EmptyKey              // "key must not be empty"
    | NotANumber            // "key must be a number"
    | NotPositive           // "key must be greater than 0"
    | AboveMax(maxKey: int) // "key cannot exceed maxKey"

  datatype Verdict = Accepted(key: int) | Rejected(error: KeyError)

  /** N - 1, the largest key the alphabet admits. */
  function MaxKey(a: Alphabet): int {
    a.Size() - 1
  }

  /** `KeyValidator.validate`: empty, then not a number, then below 1, then
      above N - 1; anything else is accepted, with the parsed value. */
  function Validate(a: Alphabet, key: KeyArg): (v: Verdict)
    ensures v == Rejected(EmptyKey) <==> IsEmptyKey(key)
    ensures v == Rejected(NotANumber) <==> !IsEmptyKey(key) && ParsedKey(key).None?
    ensures v.Accepted? <==>
      !IsEmptyKey(key) && ParsedKey(key).Some? && 1 <= ParsedKey(key).value <= MaxKey(a)
    ensures v.Accepted? ==> v.key == ParsedKey(key).value
    ensures v == Rejected(NotPositive) <==>
      !IsEmptyKey(key) && ParsedKey(key).Some? && ParsedKey(key).value < 1
    ensures v == Rejected(AboveMax(MaxKey(a))) <==>
      !IsEmptyKey(key) && ParsedKey(key).Some? && 1 <= ParsedKey(key).value && ParsedKey(key).value > MaxKey(a)
    ensures v.Rejected? && v.error.AboveMax? ==> v.error.maxKey == MaxKey(a)
  {
    if IsEmptyKey(key) then Rejected(EmptyKey)
    else
      match ParsedKey(key)
      case None => Rejected(NotANumber)
      case Some(k) =>
        if k < 1 then Rejected(NotPositive)
        else if k > MaxKey(a) then Rejected(AboveMax(MaxKey(a)))
        else Accepted(k)
  }

  /** On a typed integer the verdict depends only on where the integer lies:
      below 1 it is refused as not positive, above N - 1 as too large, and
      every key in between is accepted. */
  lemma ValidateInteger(a: Alphabet, k: int)
    ensures Validate(a, Typed(IntText(k))) ==
      if k < 1 then Rejected(NotPositive)
      else if k > MaxKey(a) then Rejected(AboveMax(MaxKey(a)))
      else Accepted(k)
  {
    ParseIntText(k);
    assert IntText(k) != "";
  }

  /** An integer key is read as its decimal string would be, so the
      validator treats it exactly as that string typed by the user. */
  lemma NumberReadsAsText(a: Alphabet, k: int)
    ensures ParsedKey(Number(k)) == ParsedKey(Typed(IntText(k)))
    ensures Validate(a, Number(k)) == Validate(a, Typed(IntText(k)))
  {
    ParseIntText(k);
    ValidateInteger(a, k);
  }

  /** `KeyValidator.getRange`: the text "1-(N-1)". */
  function GetRange(a: Alphabet): string
    requires a.Size() >= 1
  {
    "1-" + Decimal(MaxKey(a))
  }

  /** The range text splits at its dash into two integers, and they are the
      least and the greatest key the validator accepts. */
  lemma RangeMatchesValidator(a: Alphabet)
    requires a.Size() >= 2
    ensures var parts := SplitChar(GetRange(a), '-');
      && |parts| == 2
      && ParseInt(parts[0]) == Some(1)
      && ParseInt(parts[1]) == Some(MaxKey(a))
      && Validate(a, Typed(parts[0])) == Accepted(1)
      && Validate(a, Typed(parts[1])) == Accepted(MaxKey(a))
  {
    var d := Decimal(MaxKey(a));
    assert '-' !in d;
    assert GetRange(a) == "1" + ['-'] + d;
    SplitCharFirst("1", '-', d);
    SplitCharNoSeparator(d, '-');
    ParseDecimal(1);
    assert Decimal(1) == "1";
    ParseDecimal(MaxKey(a));
  }

  /** The shift added to a letter's position: the key when encrypting, N
      minus the key when decrypting. */
  function Shift(a: Alphabet, key: int, isEncrypt: bool): int {
    if isEncrypt then key else a.Size() - key
  }

  /** One iteration of `processText`: a letter moves `Shift` places along
      the alphabet, cyclically, and is emitted in the case the policy asks
      for; any other character is copied, dropped or replaced by a space. */
  function ProcessChar(a: Alphabet, c: char, key: int, isEncrypt: bool, s: Settings): (r: string)
    requires a.Valid() && 1 <= key <= MaxKey(a)
    ensures IsLetter(a, c) ==>
      r == [LetterAt(a, (LetterIndex(a, c) + Shift(a, key, isEncrypt)) % a.Size(),
                     EmitCapital(s.caseHandling, IsCapitalLetter(a, c)))]
    ensures !IsLetter(a, c) ==> r == NonAlphaOutput(s.nonAlphaHandling, c)
  {
    var n := a.Size();
    var upperIndex := IndexOf(a.upper, ToUpper(a, c));
    var lowerIndex := IndexOf(a.lower, c);
    var shift := Shift(a, key, isEncrypt);
    PairCaseMapping(a, c);
    if upperIndex != -1 then
      var newIndex := Rem(upperIndex + shift, n);
      if s.caseHandling == PreserveCase && c == ToLower(a, c) then [a.lower[newIndex]]
      else if s.caseHandling == LowerCase then [a.lower[newIndex]]
      else [a.upper[newIndex]]
    else if lowerIndex != -1 then
      // The source has a separate branch for a small letter whose capital is
      // not found; through the alphabet pair every small letter's capital is
      // found, so that branch is never taken.
      assert false;
      ""
    else
      NonAlphaOutput(s.nonAlphaHandling, c)
  }

  /** `processText`: every character of the text in turn. */
  function ProcessText(a: Alphabet, text: string, key: int, isEncrypt: bool, s: Settings): string
    requires a.Valid() && 1 <= key <= MaxKey(a)
  {
    if text == [] then "" else ProcessChar(a, text[0], key, isEncrypt, s) + ProcessText(a, text[1..], key, isEncrypt, s)
  }

  /** `encrypt`: refused with the validator's error, or the text shifted by
      the parsed key. */
  function Encrypt(a: Alphabet, text: string, key: KeyArg, s: Settings): (r: Result<string, KeyError>)
    requires a.Valid()
    ensures r.Failure? <==> Validate(a, key).Rejected?
    ensures r.Failure? ==> r.error == Validate(a, key).error
  {
    match Validate(a, key)
    case Rejected(e) => Failure(e)
    case Accepted(k) => Success(ProcessText(a, text, k, true, s))
  }

  /** `decrypt`: as `Encrypt`, shifting the other way. */
  function Decrypt(a: Alphabet, text: string, key: KeyArg, s: Settings): (r: Result<string, KeyError>)
    requires a.Valid()
    ensures r.Failure? <==> Validate(a, key).Rejected?
    ensures r.Failure? ==> r.error == Validate(a, key).error
  {
    match Validate(a, key)
    case Rejected(e) => Failure(e)
    case Accepted(k) => Success(ProcessText(a, text, k, false, s))
  }

  /* ---------------------------------------------------------------------
     Properties
     --------------------------------------------------------------------- */

  lemma {:induction false} ProcessTextAppend(a: Alphabet, x: string, y: string, key: int, isEncrypt: bool, s: Settings)
    requires a.Valid() && 1 <= key <= MaxKey(a)
    ensures ProcessText(a, x + y, key, isEncrypt, s) == ProcessText(a, x, key, isEncrypt, s) + ProcessText(a, y, key, isEncrypt, s)
  {
    if x == [] {
      assert x + y == y;
    } else {
      assert (x + y)[0] == x[0];
      assert (x + y)[1..] == x[1..] + y;
      ProcessTextAppend(a, x[1..], y, key, isEncrypt, s);
    }
  }

  lemma ShiftBack(i: int, d: int, n: int)
    requires 0 <= i < n && 0 <= d <= n
    ensures ((i + d) % n + (n - d)) % n == i
  {
    if i + d < n {
      ModOfMultiplePlus(0, n, i + d);
      assert (i + d) % n == 0 * n + (i + d);
      ModOfMultiplePlus(1, n, i);
      assert i + d + (n - d) == 1 * n + i;
    } else {
      ModOfMultiplePlus(1, n, i + d - n);
      assert i + d == 1 * n + (i + d - n);
      ModOfMultiplePlus(0, n, i);
      assert i + d - n + (n - d) == 0 * n + i;
    }
  }

  /** Number of letters of the alphabet in the text. */
  function CountLetters(a: Alphabet, text: string): nat {
    if text == [] then 0 else (if IsLetter(a, text[0]) then 1 else 0) + CountLetters(a, text[1..])
  }

  /** Every letter yields one character; other characters yield one each
      unless the policy removes them. */
  lemma {:induction false} OutputLength(a: Alphabet, text: string, key: int, isEncrypt: bool, s: Settings)
    requires a.Valid() && 1 <= key <= MaxKey(a)
    ensures |ProcessText(a, text, key, isEncrypt, s)| ==
      if s.nonAlphaHandling == RemoveNonAlpha then CountLetters(a, text) else |text|
  {
    if text != [] {
      OutputLength(a, text[1..], key, isEncrypt, s);
    }
  }

  /** The text with each letter put in the case the policy emits. */
  function Recased(a: Alphabet, text: string, h: CaseHandling): string
    requires a.Valid()
  {
    if text == [] then ""
    else
      var c := text[0];
      var c' := if IsLetter(a, c) then LetterAt(a, LetterIndex(a, c), EmitCapital(h, IsCapitalLetter(a, c))) else c;
      [c'] + Recased(a, text[1..], h)
  }

  lemma {:induction false} RecasedPreserve(a: Alphabet, text: string)
    requires a.Valid()
    ensures Recased(a, text, PreserveCase) == text
  {
    if text != [] {
      if IsLetter(a, text[0]) {
        LetterOfIndex(a, text[0]);
      }
      RecasedPreserve(a, text[1..]);
      assert [text[0]] + text[1..] == text;
    }
  }

  lemma ProcessTextSingle(a: Alphabet, c: char, key: int, isEncrypt: bool, s: Settings)
    requires a.Valid() && 1 <= key <= MaxKey(a)
    ensures ProcessText(a, [c], key, isEncrypt, s) == ProcessChar(a, c, key, isEncrypt, s)
  {
    assert [c][1..] == [];
  }

  /** A shifted letter is again a letter, at the shifted position, in the
      case the policy emits. */
  lemma ShiftedLetter(a: Alphabet, c: char, key: int, isEncrypt: bool, s: Settings)
    requires a.Valid() && 1 <= key <= MaxKey(a) && IsLetter(a, c)
    ensures var r := ProcessChar(a, c, key, isEncrypt, s);
      && |r| == 1 && IsLetter(a, r[0])
      && LetterIndex(a, r[0]) == (LetterIndex(a, c) + Shift(a, key, isEncrypt)) % a.Size()
      && IsCapitalLetter(a, r[0]) == EmitCapital(s.caseHandling, IsCapitalLetter(a, c))
  {
    var j := (LetterIndex(a, c) + Shift(a, key, isEncrypt)) % a.Size();
    LetterAtIndex(a, j, EmitCapital(s.caseHandling, IsCapitalLetter(a, c)));
  }

  lemma LetterRoundTrip(a: Alphabet, c: char, key: int, first: bool, h: CaseHandling)
    requires a.Valid() && 1 <= key <= MaxKey(a) && IsLetter(a, c)
    ensures var s := Settings(h, KeepNonAlpha);
      ProcessChar(a, ProcessChar(a, c, key, first, s)[0], key, !first, s)
        == [LetterAt(a, LetterIndex(a, c), EmitCapital(h, IsCapitalLetter(a, c)))]
  {
    var s := Settings(h, KeepNonAlpha);
    var n := a.Size();
    var i := LetterIndex(a, c);
    var d := Shift(a, key, first);
    ShiftedLetter(a, c, key, first, s);
    var c1 := ProcessChar(a, c, key, first, s)[0];
    var j := LetterIndex(a, c1);
    var cap := IsCapitalLetter(a, c1);
    assert Shift(a, key, !first) == n - d;
    assert ProcessChar(a, c1, key, !first, s) == [LetterAt(a, (j + (n - d)) % n, EmitCapital(h, cap))];
    ShiftBack(i, d, n);
    assert (j + (n - d)) % n == i;
    assert EmitCapital(h, cap) == EmitCapital(h, IsCapitalLetter(a, c));
  }

  lemma CharRoundTrip(a: Alphabet, c: char, key: int, first: bool, h: CaseHandling)
    requires a.Valid() && 1 <= key <= MaxKey(a)
    ensures var s := Settings(h, KeepNonAlpha);
      ProcessText(a, ProcessChar(a, c, key, first, s), key, !first, s) == Recased(a, [c], h)
  {
    var s := Settings(h, KeepNonAlpha);
    var mid := ProcessChar(a, c, key, first, s);
    assert [c][1..] == [];
    if IsLetter(a, c) {
      ShiftedLetter(a, c, key, first, s);
      assert mid == [mid[0]];
      ProcessTextSingle(a, mid[0], key, !first, s);
      LetterRoundTrip(a, c, key, first, h);
    } else {
      ProcessTextSingle(a, c, key, !first, s);
    }
  }

  /** With non-letters kept, shifting one way and then the other gives the
      text back letter for letter, in the case the policy emits. */
  lemma {:induction false} RoundTrip(a: Alphabet, text: string, key: int, first: bool, h: CaseHandling)
    requires a.Valid() && 1 <= key <= MaxKey(a)
    ensures var s := Settings(h, KeepNonAlpha);
      ProcessText(a, ProcessText(a, text, key, first, s), key, !first, s) == Recased(a, text, h)
  {
    var s := Settings(h, KeepNonAlpha);
    if text != [] {
      var head := ProcessChar(a, text[0], key, first, s);
      var tail := ProcessText(a, text[1..], key, first, s);
      ProcessTextAppend(a, head, tail, key, !first, s);
      CharRoundTrip(a, text[0], key, first, h);
      RoundTrip(a, text[1..], key, first, h);
    }
  }

  /** Decrypting what was encrypted with the same key, under the default
      preferences, gives the original text; and the other way round. */
  lemma EncryptDecrypt(a: Alphabet, text: string, key: KeyArg)
    requires a.Valid()
    ensures Encrypt(a, text, key, Defaults).Success? ==>
      Decrypt(a, Encrypt(a, text, key, Defaults).value, key, Defaults) == Success(text)
    ensures Decrypt(a, text, key, Defaults).Success? ==>
      Encrypt(a, Decrypt(a, text, key, Defaults).value, key, Defaults) == Success(text)
  {
    if Validate(a, key).Accepted? {
      var k := Validate(a, key).key;
      RoundTrip(a, text, k, true, PreserveCase);
      RoundTrip(a, text, k, false, PreserveCase);
      RecasedPreserve(a, text);
    }
  }
}
