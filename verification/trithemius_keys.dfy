/** Trithemius key schedules (`TrithemiusKey`) and the check of their
    parameters (`TrithemiusKeyValidator`). A schedule gives the shift applied
    to the letter at each position of the text. */
module TrithemiusKeys {
  import opened Results
  import opened JsText
  import opened Alphabets
  import Letters

  /** A key schedule: one constructor per family, plus the object the source
      builds for any other mode string, whose shift is always 0. */
  datatype Key =
    | Linear(a: int, b: int, pBase: int)
    | Quadratic(a: int, b: int, c: int, pBase: int)
    | Motto(motto: string, pBase: int)
    | UnknownMode(mode: string)

  /** The position the arithmetic families are evaluated at: the letter's
      index, plus one when the position base reads as 1 after `| 0`. */
  function Position(pBase: int, pIndex: nat): (p: nat)
    ensures p == pIndex || p == pIndex + 1
    ensures p == pIndex + 1 <==> ToInt32(pBase) == 1
  {
    pIndex + (if ToInt32(pBase) == 1 then 1 else 0)
  }

  /** Where a motto character sits: its index among the capitals, else among
      the lower-cased capitals, else -1. */
  function MottoIndex(alphabet: string, ch: char): (idx: int)
    ensures -1 <= idx < |alphabet|
    ensures idx == -1 <==> ch !in alphabet && ch !in Letters.LowerCased(alphabet)
    ensures ch in alphabet ==> alphabet[idx] == ch
    ensures ch !in alphabet && idx >= 0 ==> Letters.LowerCased(alphabet)[idx] == ch
  {
    var idx := IndexOf(alphabet, ch);
    if idx >= 0 then idx else IndexOf(Letters.LowerCased(alphabet), ch)
  }

  /** `kAt`: the shift for the letter at position `pIndex` of the text, for
      an alphabet of `n` letters whose capitals are `alphabet`. Every shift
      lies in `[0, n)`; an empty motto and an unknown mode shift by 0. */
  function KAt(key: Key, pIndex: nat, n: int, alphabet: string): (k: int)
    requires n > 0
    ensures 0 <= k < n
    ensures key.Motto? && key.motto == [] ==> k == 0
    ensures key.UnknownMode? ==> k == 0
  {
    match key
    case Linear(a, b, pBase) =>
      var p := Position(pBase, pIndex);
      NormalizedRem(a * p + b, n);
      Rem(Rem(a * p + b, n) + n, n)
    case Quadratic(a, b, c, pBase) =>
      var p := Position(pBase, pIndex);
      NormalizedRem(a * p * p + b * p + c, n);
      Rem(Rem(a * p * p + b * p + c, n) + n, n)
    case Motto(motto, _) =>
      if |motto| == 0 then 0
      else
        var idx := MottoIndex(alphabet, motto[pIndex % |motto|]);
        var found := if idx >= 0 then idx else 0;
        NormalizedRem(found, n);
        Rem(Rem(found, n) + n, n)
    case UnknownMode(_) => 0
  }

  /** The source's `((x % n) + n) % n` is the mathematical remainder: each
      family's shift is its formula at the position, reduced modulo `n`; a
      linear schedule with A = 0 is the constant B mod n; a motto shift
      depends only on the motto character at `pIndex` modulo the motto's
      length, not on the base. */
  lemma KAtFormula(key: Key, pIndex: nat, n: int, alphabet: string)
    requires n > 0
    ensures key.Linear? ==> KAt(key, pIndex, n, alphabet) == (key.a * Position(key.pBase, pIndex) + key.b) % n
    ensures key.Linear? && key.a == 0 ==> KAt(key, pIndex, n, alphabet) == key.b % n
    ensures key.Quadratic? ==>
      var p := Position(key.pBase, pIndex);
      KAt(key, pIndex, n, alphabet) == (key.a * p * p + key.b * p + key.c) % n
    ensures key.Motto? && key.motto != [] ==>
      var idx := MottoIndex(alphabet, key.motto[pIndex % |key.motto|]);
      KAt(key, pIndex, n, alphabet) == (if idx >= 0 then idx else 0) % n
  {
    match key
    case Linear(a, b, pBase) =>
      var p := Position(pBase, pIndex);
      NormalizedRem(a * p + b, n);
      if a == 0 {
        assert a * p + b == b;
      }
    case Quadratic(a, b, c, pBase) =>
      NormalizedRem(a * Position(pBase, pIndex) * Position(pBase, pIndex) + b * Position(pBase, pIndex) + c, n);
    case Motto(motto, _) =>
      if |motto| > 0 {
        var idx := MottoIndex(alphabet, motto[pIndex % |motto|]);
        NormalizedRem(if idx >= 0 then idx else 0, n);
      }
    case UnknownMode(_) =>
  }

  /** `KAtFormula` at every position and alphabet size. */
  lemma KAtFormulaEverywhere(key: Key, alphabet: string)
    ensures key.Linear? ==> forall pIndex: nat, n: int | n > 0 ::
      KAt(key, pIndex, n, alphabet) == (key.a * Position(key.pBase, pIndex) + key.b) % n
    ensures key.Quadratic? ==> forall pIndex: nat, n: int | n > 0 ::
      var p := Position(key.pBase, pIndex);
      KAt(key, pIndex, n, alphabet) == (key.a * p * p + key.b * p + key.c) % n
  {
    forall pIndex: nat, n: int | n > 0
      ensures key.Linear? ==> KAt(key, pIndex, n, alphabet) == (key.a * Position(key.pBase, pIndex) + key.b) % n
      ensures key.Quadratic? ==>
        var p := Position(key.pBase, pIndex);
        KAt(key, pIndex, n, alphabet) == (key.a * p * p + key.b * p + key.c) % n
    {
      KAtFormula(key, pIndex, n, alphabet);
    }
  }

  /* ---------------------------------------------------------------------
     Parameter validation
     --------------------------------------------------------------------- */

  /** A parameter as the page reads it with unary `+`: an integer, or a value
      `Number.isFinite` rejects (NaN, an infinity). */
  datatype Num = Finite(value: int) | NonFinite

  /** The parameter record: A, B, C for the arithmetic families, the motto
      text, and the position base. */
  datatype Params = Params(a: Num, b: Num, c: Num, motto: string, pBase: int)

  datatype ParamError =
    | LinearNotNumbers      // A and B must be numbers
    | QuadraticNotNumbers   // A, B and C must be numbers
    | EmptyMotto            // the motto must not be empty
    | ForeignSymbol(symbol: char)  // this motto character is not in the alphabet
    | UnknownKeyMode

  datatype Check = Valid | Invalid(error: ParamError)

  /** A motto character the schedule can look up: a capital of the alphabet
      or one of their lower-cased forms. */
  predicate InAlphabet(alphabet: string, ch: char) {
    ch in alphabet || ch in Letters.LowerCased(alphabet)
  }

  /** `ch` is the first character of `motto` outside the alphabet. */
  predicate IsFirstForeign(motto: string, alphabet: string, ch: char) {
    exists i | 0 <= i < |motto| ::
      && motto[i] == ch
      && !InAlphabet(alphabet, ch)
      && forall j | 0 <= j < i :: InAlphabet(alphabet, motto[j])
  }

  /** The index of the first motto character outside the alphabet, or -1. */
  function FirstForeign(motto: string, alphabet: string): (i: int)
    ensures -1 <= i < |motto|
    ensures i == -1 <==> forall j | 0 <= j < |motto| :: InAlphabet(alphabet, motto[j])
    ensures i >= 0 ==> !InAlphabet(alphabet, motto[i])
    ensures i >= 0 ==> forall j | 0 <= j < i :: InAlphabet(alphabet, motto[j])
  {
    if motto == [] then -1
    else if !InAlphabet(alphabet, motto[0]) then 0
    else
      var rest := FirstForeign(motto[1..], alphabet);
      if rest == -1 then -1 else rest + 1
  }

  /** `TrithemiusKeyValidator.validate`. */
  function ValidateParams(mode: string, params: Params, alphabet: string): (r: Check)
    ensures mode == "linear" ==>
      r == (if params.a.Finite? && params.b.Finite? then Valid else Invalid(LinearNotNumbers))
    ensures mode == "quadratic" ==>
      r == (if params.a.Finite? && params.b.Finite? && params.c.Finite? then Valid
            else Invalid(QuadraticNotNumbers))
    ensures mode == "motto" ==>
      (r == Valid <==> params.motto != [] && forall j | 0 <= j < |params.motto| :: InAlphabet(alphabet, params.motto[j]))
    ensures mode == "motto" && params.motto == [] ==> r == Invalid(EmptyMotto)
    ensures mode == "motto" && params.motto != [] && r != Valid ==>
      r.error.ForeignSymbol? && IsFirstForeign(params.motto, alphabet, r.error.symbol)
    ensures mode != "linear" && mode != "quadratic" && mode != "motto" ==> r == Invalid(UnknownKeyMode)
  {
    if mode == "linear" then
      if params.a.NonFinite? || params.b.NonFinite? then Invalid(LinearNotNumbers) else Valid
    else if mode == "quadratic" then
      if params.a.NonFinite? || params.b.NonFinite? || params.c.NonFinite? then Invalid(QuadraticNotNumbers)
      else Valid
    else if mode == "motto" then
      if |params.motto| == 0 then Invalid(EmptyMotto)
      else
        var i := FirstForeign(params.motto, alphabet);
        if i >= 0 then Invalid(ForeignSymbol(params.motto[i]))
        else Valid
    else Invalid(UnknownKeyMode)
  }

  /** The schedule the page builds from parameters that passed validation. */
  function KeyOf(mode: string, params: Params, alphabet: string): (key: Key)
    requires ValidateParams(mode, params, alphabet) == Valid
    ensures mode == "linear" ==> key == Linear(params.a.value, params.b.value, params.pBase)
    ensures mode == "quadratic" ==>
      key == Quadratic(params.a.value, params.b.value, params.c.value, params.pBase)
    ensures mode == "motto" ==> key == Motto(params.motto, params.pBase)
    ensures mode == "linear" ==> forall pIndex: nat, n: int | n > 0 ::
      KAt(key, pIndex, n, alphabet) == (params.a.value * Position(params.pBase, pIndex) + params.b.value) % n
    ensures mode == "quadratic" ==> forall pIndex: nat, n: int | n > 0 ::
      var p := Position(params.pBase, pIndex);
      KAt(key, pIndex, n, alphabet) == (params.a.value * p * p + params.b.value * p + params.c.value) % n
    ensures mode == "motto" ==>
      key.motto != [] && forall j | 0 <= j < |key.motto| :: InAlphabet(alphabet, key.motto[j])
  {
    var key :=
      if mode == "linear" then Linear(params.a.value, params.b.value, params.pBase)
      else if mode == "quadratic" then Quadratic(params.a.value, params.b.value, params.c.value, params.pBase)
      else Motto(params.motto, params.pBase);
    KAtFormulaEverywhere(key, alphabet);
    key
  }

  /* ---------------------------------------------------------------------
     Properties
     --------------------------------------------------------------------- */

  /** A motto shift is the motto character's position in the alphabet, in
      either case, and 0 for a character outside it. */
  lemma MottoShift(alphabet: string, motto: string, pBase: int, pIndex: nat)
    requires Cased(alphabet) && motto != []
    ensures var ch := motto[pIndex % |motto|];
      KAt(Motto(motto, pBase), pIndex, |alphabet|, alphabet)
        == (if IsLetter(PairOf(alphabet), ch) then LetterIndex(PairOf(alphabet), ch) else 0)
  {
    var ch := motto[pIndex % |motto|];
    var idx := MottoIndex(alphabet, ch);
    KAtFormula(Motto(motto, pBase), pIndex, |alphabet|, alphabet);
    MottoIndexIsLetterIndex(alphabet, ch);
    var found := if idx >= 0 then idx else 0;
    ModOfMultiplePlus(0, |alphabet|, found);
    assert found % |alphabet| == found;
  }

  /** Looking a character up among the capitals and then among the small
      forms finds its letter position. */
  lemma MottoIndexIsLetterIndex(alphabet: string, ch: char)
    requires Cased(alphabet)
    ensures MottoIndex(alphabet, ch) == LetterIndex(PairOf(alphabet), ch)
  {
  }

  /** A motto schedule repeats with the motto's length, whatever the base. */
  lemma MottoPeriodic(motto: string, pBase: int, pIndex: nat, n: int, alphabet: string)
    requires motto != [] && n > 0
    ensures KAt(Motto(motto, pBase), pIndex + |motto|, n, alphabet) == KAt(Motto(motto, pBase), pIndex, n, alphabet)
    ensures KAt(Motto(motto, pBase), pIndex, n, alphabet) == KAt(Motto(motto, 0), pIndex, n, alphabet)
  {
    ModAddMultiple(pIndex, 1, |motto|);
    KAtFormula(Motto(motto, pBase), pIndex, n, alphabet);
    KAtFormula(Motto(motto, pBase), pIndex + |motto|, n, alphabet);
    KAtFormula(Motto(motto, 0), pIndex, n, alphabet);
  }

  /** A base of 1 shifts an arithmetic schedule one position along. */
  lemma BaseOne(a: int, b: int, c: int, pIndex: nat, n: int, alphabet: string)
    requires n > 0
    ensures KAt(Linear(a, b, 1), pIndex, n, alphabet) == KAt(Linear(a, b, 0), pIndex + 1, n, alphabet)
    ensures KAt(Quadratic(a, b, c, 1), pIndex, n, alphabet) == KAt(Quadratic(a, b, c, 0), pIndex + 1, n, alphabet)
  {
    assert ToInt32(1) == 1 && ToInt32(0) == 0;
    assert Position(1, pIndex) == Position(0, pIndex + 1);
  }

  /** `pBase | 0` wraps modulo 2^32: a base congruent to 1 evaluates the
      arithmetic families one position later than base 0, and every other
      base evaluates them exactly as base 0 does. */
  lemma BaseWraps(a: int, b: int, c: int, pBase: int, pIndex: nat, n: int, alphabet: string)
    requires n > 0
    ensures pBase % TwoTo32 == 1 ==>
      && KAt(Linear(a, b, pBase), pIndex, n, alphabet) == KAt(Linear(a, b, 0), pIndex + 1, n, alphabet)
      && KAt(Quadratic(a, b, c, pBase), pIndex, n, alphabet) == KAt(Quadratic(a, b, c, 0), pIndex + 1, n, alphabet)
    ensures pBase % TwoTo32 != 1 ==>
      && KAt(Linear(a, b, pBase), pIndex, n, alphabet) == KAt(Linear(a, b, 0), pIndex, n, alphabet)
      && KAt(Quadratic(a, b, c, pBase), pIndex, n, alphabet) == KAt(Quadratic(a, b, c, 0), pIndex, n, alphabet)
  {
    assert ToInt32(pBase) == 1 <==> pBase % TwoTo32 == 1;
    assert ToInt32(0) == 0;
    if pBase % TwoTo32 == 1 {
      assert Position(pBase, pIndex) == Position(0, pIndex + 1);
    } else {
      assert Position(pBase, pIndex) == Position(0, pIndex);
    }
  }

  /** A motto that passed validation never falls back to the shift 0 for a
      missing character: every shift is the true position of its letter. */
  lemma ValidMottoShift(params: Params, alphabet: string, pIndex: nat)
    requires Cased(alphabet) && ValidateParams("motto", params, alphabet) == Valid
    ensures var ch := params.motto[pIndex % |params.motto|];
      && IsLetter(PairOf(alphabet), ch)
      && KAt(KeyOf("motto", params, alphabet), pIndex, |alphabet|, alphabet) == LetterIndex(PairOf(alphabet), ch)
  {
    var ch := params.motto[pIndex % |params.motto|];
    assert InAlphabet(alphabet, ch);
    MottoShift(alphabet, params.motto, params.pBase, pIndex);
  }
}
