/** The Trithemius cipher (`TrithemiusCipher`): a Caesar-like shift whose
    amount changes from letter to letter, following a key schedule. The
    cipher is given the capital string of an alphabet and lower-cases it
    itself; the position counter moves on only after a letter. */
module Trithemius {
  import opened JsText
  import Letters
  import opened Alphabets
  import opened Preferences
  import opened TrithemiusKeys
  import Caesar

  /** Where a character sits: its index in the alphabet of its case (-1 when
      absent), and whether it was taken as a capital. */
  datatype CharPos = CharPos(idx: int, isUpper: bool)

  /** `indexOfChar`: a character is a letter when its two case forms differ,
      and a capital when it equals its upper-case form; it is looked up among
      the capitals or the small forms accordingly. */
  function IndexOfChar(alphabet: string, ch: char): (r: CharPos)
    ensures -1 <= r.idx < |alphabet|
  {
    var isLetter := Letters.LowerOf(ch) != Letters.UpperOf(ch);
    var isUpper := isLetter && ch == Letters.UpperOf(ch);
    var base := if isUpper then alphabet else Letters.LowerCased(alphabet);
    CharPos(IndexOf(base, ch), isUpper)
  }

  /** For a cased alphabet, `IndexOfChar` finds exactly the alphabet's
      letters, at their position, and tells their case. */
  lemma IndexOfCharIsLetterIndex(alphabet: string, ch: char)
    requires Cased(alphabet)
    ensures IndexOfChar(alphabet, ch).idx == LetterIndex(PairOf(alphabet), ch)
    ensures IndexOfChar(alphabet, ch).idx >= 0 ==>
      IndexOfChar(alphabet, ch).isUpper == IsCapitalLetter(PairOf(alphabet), ch)
  {
    if ch in Letters.LowerCased(alphabet) {
      var i := IndexOf(Letters.LowerCased(alphabet), ch);
      assert Letters.IsCapital(alphabet[i]);
    }
  }

  /** `mapIdx`: the letter at a position, in the case asked for. */
  function MapIdx(alphabet: string, idx: int, isUpper: bool): (c: char)
    requires 0 <= idx < |alphabet|
  {
    if isUpper then alphabet[idx] else Letters.LowerCased(alphabet)[idx]
  }

  /** `mapIdx` and `indexOfChar` are inverse: the letter at a position, read
      back, gives the same position and case; and a letter is the letter at
      its own position and case. */
  lemma MapIdxInverse(alphabet: string, idx: int, isUpper: bool, ch: char)
    requires Cased(alphabet) && 0 <= idx < |alphabet|
    ensures IndexOfChar(alphabet, MapIdx(alphabet, idx, isUpper)) == CharPos(idx, isUpper)
    ensures IndexOfChar(alphabet, ch).idx >= 0 ==>
      MapIdx(alphabet, IndexOfChar(alphabet, ch).idx, IndexOfChar(alphabet, ch).isUpper) == ch
  {
    var a := PairOf(alphabet);
    LetterAtIndex(a, idx, isUpper);
    IndexOfCharIsLetterIndex(alphabet, MapIdx(alphabet, idx, isUpper));
    IndexOfCharIsLetterIndex(alphabet, ch);
    PairCaseMapping(a, ch);
  }

  /** The position a letter moves to: the source's `(idx + k) % n` when
      encrypting and `((idx - (k % n)) % n + n) % n` when decrypting, both of
      which are the mathematical remainder of the shifted index. */
  function Shifted(idx: int, k: int, isEncrypt: bool, n: int): (y: int)
    requires 0 <= idx < n && 0 <= k
    ensures 0 <= y < n
    ensures y == (if isEncrypt then idx + k else idx - k) % n
  {
    if isEncrypt then Rem(idx + k, n)
    else
      NormalizedRem(idx - Rem(k, n), n);
      DivMod(k, n);
      ModAddMultiple(idx - k, k / n, n);
      Rem(Rem(idx - Rem(k, n), n) + n, n)
  }

  /** The output for one letter found at `pos`, shifted by `k`: the letter at
      the shifted position, in the case the policy asks for. */
  function LetterOut(alphabet: string, pos: CharPos, k: int, isEncrypt: bool, s: Settings): (c: char)
    requires 0 <= pos.idx < |alphabet| && 0 <= k
    ensures var y := (if isEncrypt then pos.idx + k else pos.idx - k) % |alphabet|;
      c == (if EmitCapital(s.caseHandling, pos.isUpper) then alphabet[y] else Letters.LowerCased(alphabet)[y])
  {
    var y := Shifted(pos.idx, k, isEncrypt, |alphabet|);
    var mapped := MapIdx(alphabet, y, pos.isUpper);
    if s.caseHandling == UpperCase then alphabet[y]
    else if s.caseHandling == LowerCase then Letters.LowerCased(alphabet)[y]
    else mapped
  }

  /** A character `transform` shifts, as opposed to one it hands to the
      non-letter policy. */
  predicate IsCipherLetter(alphabet: string, ch: char) {
    IndexOfChar(alphabet, ch).idx != -1
  }

  /** One iteration of `transform`, with the counter at `p`. */
  function Step(alphabet: string, ch: char, key: Key, p: nat, isEncrypt: bool, s: Settings): (r: string)
    ensures IsCipherLetter(alphabet, ch) ==> |r| == 1
    ensures !IsCipherLetter(alphabet, ch) ==> r == NonAlphaOutput(s.nonAlphaHandling, ch)
  {
    var pos := IndexOfChar(alphabet, ch);
    if pos.idx == -1 then NonAlphaOutput(s.nonAlphaHandling, ch)
    else [LetterOut(alphabet, pos, KAt(key, p, |alphabet|, alphabet), isEncrypt, s)]
  }

  /** The counter after a character: one more after a letter, unchanged
      otherwise. */
  function Next(alphabet: string, ch: char, p: nat): nat {
    if IsCipherLetter(alphabet, ch) then p + 1 else p
  }

  /** The number of characters of `text` the cipher treats as letters. */
  function LetterCount(alphabet: string, text: string): nat {
    if text == [] then 0 else Next(alphabet, text[0], 0) + LetterCount(alphabet, text[1..])
  }

  /** `transform` with the position counter starting at `p`: each letter is
      shifted by the schedule's value at the current position, which then
      moves on; other characters follow the non-letter policy and leave the
      counter where it is. Every character yields one character unless the
      policy removes it. */
  function TransformFrom(alphabet: string, text: string, key: Key, p: nat, isEncrypt: bool, s: Settings): (r: string)
    ensures |r| <= |text|
    ensures s.nonAlphaHandling != RemoveNonAlpha ==> |r| == |text|
    ensures s.nonAlphaHandling == RemoveNonAlpha ==> |r| == LetterCount(alphabet, text)
    decreases |text|
  {
    if text == [] then ""
    else Step(alphabet, text[0], key, p, isEncrypt, s) + TransformFrom(alphabet, text[1..], key, Next(alphabet, text[0], p), isEncrypt, s)
  }

  /** `encrypt`. */
  function Encrypt(alphabet: string, text: string, key: Key, s: Settings): (r: string)
    ensures s.nonAlphaHandling != RemoveNonAlpha ==> |r| == |text|
  {
    TransformFrom(alphabet, text, key, 0, true, s)
  }

  /** `decrypt`. */
  function Decrypt(alphabet: string, text: string, key: Key, s: Settings): (r: string)
    ensures s.nonAlphaHandling != RemoveNonAlpha ==> |r| == |text|
  {
    TransformFrom(alphabet, text, key, 0, false, s)
  }

  /* ---------------------------------------------------------------------
     Properties
     --------------------------------------------------------------------- */

  /** The counter after `text`, starting from `p`. */
  function After(alphabet: string, text: string, p: nat): nat
    decreases |text|
  {
    if text == [] then p else After(alphabet, text[1..], Next(alphabet, text[0], p))
  }

  /** The counter moves on by exactly the number of letters passed. */
  lemma {:induction false} AfterCountsLetters(alphabet: string, text: string, p: nat)
    ensures After(alphabet, text, p) == p + LetterCount(alphabet, text)
  {
    if text != [] {
      AfterCountsLetters(alphabet, text[1..], Next(alphabet, text[0], p));
    }
  }

  /** Transforming a concatenation transforms the second part with the
      counter where the first part left it. */
  lemma {:induction false} TransformAppend(alphabet: string, x: string, y: string, key: Key, p: nat, isEncrypt: bool, s: Settings)
    ensures TransformFrom(alphabet, x + y, key, p, isEncrypt, s)
      == TransformFrom(alphabet, x, key, p, isEncrypt, s)
       + TransformFrom(alphabet, y, key, After(alphabet, x, p), isEncrypt, s)
  {
    if x == [] {
      assert x + y == y;
    } else {
      assert (x + y)[0] == x[0];
      assert (x + y)[1..] == x[1..] + y;
      TransformAppend(alphabet, x[1..], y, key, Next(alphabet, x[0], p), isEncrypt, s);
    }
  }

  /** The position counter counts letters only: a character preceded by `x`
      is transformed with the counter where `x` left it, which is `p` plus
      the number of letters in `x` whatever non-letters `x` holds; the text
      after the character continues from there, one further on only if the
      character was a letter. */
  lemma ShiftOfCharAfter(alphabet: string, x: string, ch: char, y: string, key: Key, p: nat, isEncrypt: bool, s: Settings)
    ensures After(alphabet, x, p) == p + LetterCount(alphabet, x)
    ensures var q := After(alphabet, x, p);
      TransformFrom(alphabet, x + ([ch] + y), key, p, isEncrypt, s)
        == TransformFrom(alphabet, x, key, p, isEncrypt, s)
         + (Step(alphabet, ch, key, q, isEncrypt, s) + TransformFrom(alphabet, y, key, Next(alphabet, ch, q), isEncrypt, s))
  {
    AfterCountsLetters(alphabet, x, p);
    TransformAppend(alphabet, x, [ch] + y, key, p, isEncrypt, s);
    StepThenRest(alphabet, ch, y, key, After(alphabet, x, p), isEncrypt, s);
  }

  /** What `Step` emits for a letter found at `pos` when the schedule's
      value at the counter is `k`: the letter at the shifted position, in the
      case the policy asks for. */
  lemma StepOfLetter(alphabet: string, ch: char, key: Key, q: nat, isEncrypt: bool, s: Settings, pos: CharPos, k: int)
    requires pos == IndexOfChar(alphabet, ch) && pos.idx != -1
    requires k == KAt(key, q, |alphabet|, alphabet)
    ensures var y := (if isEncrypt then pos.idx + k else pos.idx - k) % |alphabet|;
      Step(alphabet, ch, key, q, isEncrypt, s)
        == [if EmitCapital(s.caseHandling, pos.isUpper) then alphabet[y] else Letters.LowerCased(alphabet)[y]]
  {
    StepWithShift(alphabet, ch, key, q, isEncrypt, s, k);
  }

  /** A text that starts with `ch`: the step for `ch`, then the rest. */
  lemma StepThenRest(alphabet: string, ch: char, y: string, key: Key, q: nat, isEncrypt: bool, s: Settings)
    ensures TransformFrom(alphabet, [ch] + y, key, q, isEncrypt, s)
      == Step(alphabet, ch, key, q, isEncrypt, s) + TransformFrom(alphabet, y, key, Next(alphabet, ch, q), isEncrypt, s)
  {
    assert ([ch] + y)[0] == ch;
    assert ([ch] + y)[1..] == y;
  }

  /** Shifting forward by `k` and back by `k` returns every position. */
  lemma ShiftBackAndForth(idx: int, k: int, n: int)
    requires 0 <= idx < n && 0 <= k
    ensures Shifted(Shifted(idx, k, true, n), k, false, n) == idx
  {
    var y := Shifted(idx, k, true, n);
    DivMod(idx + k, n);
    assert y - k == idx + (-((idx + k) / n)) * n;
    ModAddMultiple(idx, -((idx + k) / n), n);
    ModOfMultiplePlus(0, n, idx);
  }

  /** One letter, encrypted and then decrypted at the same position under the
      default preferences, is restored, and its encryption is again a letter. */
  lemma StepRoundTrip(alphabet: string, ch: char, key: Key, p: nat)
    requires Cased(alphabet)
    ensures var c1 := Step(alphabet, ch, key, p, true, Defaults);
      && |c1| == 1
      && IsCipherLetter(alphabet, c1[0]) == IsCipherLetter(alphabet, ch)
      && Step(alphabet, c1[0], key, p, false, Defaults) == [ch]
  {
    var pos := IndexOfChar(alphabet, ch);
    if pos.idx >= 0 {
      var k := KAt(key, p, |alphabet|, alphabet);
      var y := Shifted(pos.idx, k, true, |alphabet|);
      var c1 := LetterOut(alphabet, pos, k, true, Defaults);
      assert c1 == MapIdx(alphabet, y, pos.isUpper);
      MapIdxInverse(alphabet, y, pos.isUpper, ch);
      ShiftBackAndForth(pos.idx, k, |alphabet|);
      assert LetterOut(alphabet, CharPos(y, pos.isUpper), k, false, Defaults) == MapIdx(alphabet, pos.idx, pos.isUpper);
    }
  }

  /** Decryption undoes encryption for every schedule, from any starting
      position, under the default preferences. */
  lemma {:induction false} RoundTrip(alphabet: string, text: string, key: Key, p: nat)
    requires Cased(alphabet)
    ensures TransformFrom(alphabet, TransformFrom(alphabet, text, key, p, true, Defaults), key, p, false, Defaults) == text
  {
    if text != [] {
      var ch := text[0];
      var q := Next(alphabet, ch, p);
      var rest := TransformFrom(alphabet, text[1..], key, q, true, Defaults);
      StepRoundTrip(alphabet, ch, key, p);
      var c := Step(alphabet, ch, key, p, true, Defaults)[0];
      assert [ch] + text[1..] == text;
      StepThenRest(alphabet, ch, text[1..], key, p, true, Defaults);
      assert TransformFrom(alphabet, text, key, p, true, Defaults) == [c] + rest;
      StepThenRest(alphabet, c, rest, key, p, false, Defaults);
      assert Next(alphabet, c, p) == q;
      RoundTrip(alphabet, text[1..], key, q);
    }
  }

  /** `Decrypt` undoes `Encrypt` under the default preferences. */
  lemma EncryptDecrypt(alphabet: string, text: string, key: Key)
    requires Cased(alphabet)
    ensures Decrypt(alphabet, Encrypt(alphabet, text, key, Defaults), key, Defaults) == text
  {
    RoundTrip(alphabet, text, key, 0);
  }

  /** A linear schedule with A = 0 and B = k, for a key the Caesar validator
      accepts, is the Caesar cipher with key k, in both directions and under
      every preference. */
  lemma {:induction false} ConstantScheduleIsCaesar(alphabet: string, text: string, k: int, pBase: int, p: nat, isEncrypt: bool, s: Settings)
    requires Cased(alphabet) && 1 <= k <= Caesar.MaxKey(PairOf(alphabet))
    ensures TransformFrom(alphabet, text, Linear(0, k, pBase), p, isEncrypt, s)
      == Caesar.ProcessText(PairOf(alphabet), text, k, isEncrypt, s)
  {
    if text != [] {
      CaesarStep(alphabet, text[0], k, pBase, p, isEncrypt, s);
      ConstantScheduleIsCaesar(alphabet, text[1..], k, pBase, Next(alphabet, text[0], p), isEncrypt, s);
    }
  }

  lemma CaesarStep(alphabet: string, ch: char, k: int, pBase: int, p: nat, isEncrypt: bool, s: Settings)
    requires Cased(alphabet) && 1 <= k <= Caesar.MaxKey(PairOf(alphabet))
    ensures Step(alphabet, ch, Linear(0, k, pBase), p, isEncrypt, s) == Caesar.ProcessChar(PairOf(alphabet), ch, k, isEncrypt, s)
  {
    IndexOfCharIsLetterIndex(alphabet, ch);
    if IsCipherLetter(alphabet, ch) {
      ConstantStepOfLetter(alphabet, ch, k, pBase, p, isEncrypt, s);
      CaesarOfCipherLetter(alphabet, ch, k, isEncrypt, s, IndexOfChar(alphabet, ch));
    } else {
      assert !IsLetter(PairOf(alphabet), ch);
    }
  }

  /** The letter a constant schedule emits is shifted by `B` itself. */
  lemma ConstantStepOfLetter(alphabet: string, ch: char, k: int, pBase: int, p: nat, isEncrypt: bool, s: Settings)
    requires 1 <= k < |alphabet| && IsCipherLetter(alphabet, ch)
    ensures Step(alphabet, ch, Linear(0, k, pBase), p, isEncrypt, s)
      == [LetterOut(alphabet, IndexOfChar(alphabet, ch), k, isEncrypt, s)]
  {
    ConstantShift(alphabet, k, pBase, p);
    StepWithShift(alphabet, ch, Linear(0, k, pBase), p, isEncrypt, s, k);
  }

  /** Caesar emits the letter `LetterOut` gives for the position `pos` and
      case of a letter of the alphabet pair. */
  lemma CaesarOfCipherLetter(alphabet: string, ch: char, k: int, isEncrypt: bool, s: Settings, pos: CharPos)
    requires PairOf(alphabet).Valid() && 1 <= k <= Caesar.MaxKey(PairOf(alphabet)) && IsLetter(PairOf(alphabet), ch)
    requires pos.idx == LetterIndex(PairOf(alphabet), ch) && pos.isUpper == IsCapitalLetter(PairOf(alphabet), ch)
    ensures Caesar.ProcessChar(PairOf(alphabet), ch, k, isEncrypt, s) == [LetterOut(alphabet, pos, k, isEncrypt, s)]
  {
    CaesarOfLetter(PairOf(alphabet), ch, k, isEncrypt, s, pos.idx, pos.isUpper, |alphabet|);
    LetterOutIsLetterAt(alphabet, pos, k, isEncrypt, s);
  }

  /** A letter's step, once the shift the schedule gives is known. */
  lemma StepWithShift(alphabet: string, ch: char, key: Key, q: nat, isEncrypt: bool, s: Settings, k: int)
    requires IsCipherLetter(alphabet, ch) && KAt(key, q, |alphabet|, alphabet) == k
    ensures Step(alphabet, ch, key, q, isEncrypt, s) == [LetterOut(alphabet, IndexOfChar(alphabet, ch), k, isEncrypt, s)]
  {
  }

  /** `LetterOut` in the alphabet pair's terms. */
  lemma LetterOutIsLetterAt(alphabet: string, pos: CharPos, k: int, isEncrypt: bool, s: Settings)
    requires PairOf(alphabet).Valid() && 0 <= pos.idx < |alphabet| && 0 <= k
    ensures LetterOut(alphabet, pos, k, isEncrypt, s)
      == LetterAt(PairOf(alphabet), (if isEncrypt then pos.idx + k else pos.idx - k) % |alphabet|, EmitCapital(s.caseHandling, pos.isUpper))
  {
  }

  /** The letter Caesar emits, with its shift written as a plain remainder
      of the letter's position `idx` in an alphabet of `n` letters. */
  lemma CaesarOfLetter(a: Alphabet, ch: char, k: int, isEncrypt: bool, s: Settings, idx: int, capital: bool, n: int)
    requires a.Valid() && 1 <= k <= Caesar.MaxKey(a) && IsLetter(a, ch)
    requires idx == LetterIndex(a, ch) && capital == IsCapitalLetter(a, ch) && n == a.Size()
    ensures Caesar.ProcessChar(a, ch, k, isEncrypt, s)
      == [LetterAt(a, (if isEncrypt then idx + k else idx - k) % n, EmitCapital(s.caseHandling, capital))]
  {
    CaesarIndex(idx, k, n, isEncrypt);
  }

  /** The constant schedule shifts every letter by B when 0 < B < n. */
  lemma ConstantShift(alphabet: string, k: int, pBase: int, p: nat)
    requires 1 <= k < |alphabet|
    ensures KAt(Linear(0, k, pBase), p, |alphabet|, alphabet) == k
  {
    KAtFormula(Linear(0, k, pBase), p, |alphabet|, alphabet);
    ModOfMultiplePlus(0, |alphabet|, k);
  }

  /** Caesar's N - k shift lands where the Trithemius decryption formula
      does. */
  lemma CaesarIndex(idx: int, k: int, n: int, isEncrypt: bool)
    requires 0 <= idx < n && 1 <= k < n
    ensures (idx + (if isEncrypt then k else n - k)) % n == (if isEncrypt then idx + k else idx - k) % n
  {
    if !isEncrypt {
      ModAddMultiple(idx - k, 1, n);
      assert idx - k + 1 * n == idx + (n - k);
    }
  }
}
