/** The brute-force attack on the Caesar cipher: decrypt with every key from
    1 to N - 1, score each candidate by the share of its words that contain a
    common word of the language, and rank the candidates by score. */
module BruteForce {
  import opened Results
  import opened JsText
  import Letters
  import opened Alphabets
  import opened Preferences
  import Caesar
  import opened Ranking

  /* ---------------------------------------------------------------------
     Scoring
     --------------------------------------------------------------------- */

  const UkrainianWords: seq<string> :=
    ["і", "в", "на", "з", "до", "за", "по", "від", "для", "про", "що", "як", "але", "або", "та", "це"]
  const EnglishWords: seq<string> :=
    ["the", "and", "is", "in", "to", "of", "a", "that", "it", "with", "for", "as", "was", "are"]

  /** The common words `scoreText` looks for in a text of the language. */
  function CommonWords(lang: Language): seq<string> {
    if lang == Ukrainian then UkrainianWords else EnglishWords
  }

  /** `commonWords.some(c => w.includes(c))`. */
  predicate ContainsCommon(w: string, common: seq<string>) {
    exists j | 0 <= j < |common| :: Includes(w, common[j])
  }

  /** `words.filter(Boolean).length`: the number of non-empty words. */
  function CountNonEmpty(words: seq<string>): nat {
    if words == [] then 0 else (if words[0] != "" then 1 else 0) + CountNonEmpty(words[1..])
  }

  /** `words.filter(w => commonWords.some(c => w.includes(c))).length`. */
  function CountCommon(words: seq<string>, common: seq<string>): nat {
    if words == [] then 0
    else (if ContainsCommon(words[0], common) then 1 else 0) + CountCommon(words[1..], common)
  }

  /** The words `scoreText` counts: the lower-cased text split at runs of
      whitespace. */
  function Words(text: string): seq<string> {
    SplitWhitespace(Letters.LowerCased(text))
  }

  /** Every common word of both languages is non-empty. */
  predicate NonEmptyWords(common: seq<string>) {
    forall j | 0 <= j < |common| :: common[j] != ""
  }

  lemma CommonWordsNonEmpty(lang: Language)
    ensures NonEmptyWords(CommonWords(lang))
  {
  }

  /** A word that contains a non-empty common word is itself non-empty, so
      the words that match are among the words that are counted. */
  lemma {:induction false} CommonAmongNonEmpty(words: seq<string>, common: seq<string>)
    requires NonEmptyWords(common)
    ensures CountCommon(words, common) <= CountNonEmpty(words)
  {
    if words != [] {
      if words[0] == "" {
        assert !ContainsCommon(words[0], common) by {
          forall j | 0 <= j < |common| ensures !Includes(words[0], common[j]) {
            assert forall i: nat :: !OccursAt(common[j], words[0], i);
          }
        }
      }
      CommonAmongNonEmpty(words[1..], common);
    }
  }

  /** The share of the (non-empty) words of the text that contain one of
      the common words; 0 when there are no words. */
  function ScoreAgainst(common: seq<string>, text: string): (r: real)
    requires NonEmptyWords(common)
    ensures 0.0 <= r <= 1.0
  {
    var words := Words(text);
    CommonAmongNonEmpty(words, common);
    Ratio(CountCommon(words, common), CountNonEmpty(words))
  }

  /** `matches / wordCount`, after the source's `if (!wordCount) return 0`. */
  function Ratio(matches: nat, wordCount: nat): (r: real)
    requires matches <= wordCount
    ensures 0.0 <= r <= 1.0
    ensures matches == 0 ==> r == 0.0
    ensures r == 1.0 <==> 0 < wordCount == matches
  {
    if wordCount == 0 then 0.0
    else
      Fraction(matches, wordCount);
      matches as real / wordCount as real
  }

  /** The score is 0 when the text has no words or none of them contains a
      common word, and it is 1 exactly when every word contains one. */
  lemma ScoreExtremes(common: seq<string>, text: string)
    requires NonEmptyWords(common)
    ensures var words := Words(text);
      && (CountNonEmpty(words) == 0 ==> ScoreAgainst(common, text) == 0.0)
      && (CountCommon(words, common) == 0 ==> ScoreAgainst(common, text) == 0.0)
      && (ScoreAgainst(common, text) == 1.0 <==> 0 < CountNonEmpty(words) == CountCommon(words, common))
  {
    CommonAmongNonEmpty(Words(text), common);
  }

  lemma Fraction(m: nat, n: nat)
    requires 0 < n && m <= n
    ensures 0.0 <= m as real / n as real <= 1.0
    ensures m as real / n as real == 1.0 <==> m == n
  {
    var q := m as real / n as real;
    assert q * n as real == m as real;
  }

  /** `scoreText`, with the common words of the attacker's language. */
  function ScoreText(lang: Language, text: string): (r: real)
    ensures 0.0 <= r <= 1.0
  {
    CommonWordsNonEmpty(lang);
    ScoreAgainst(CommonWords(lang), text)
  }

  /** `toLowerCase` leaves a lower-cased text alone. */
  lemma LowerCasedTwice(text: string)
    ensures Letters.LowerCased(Letters.LowerCased(text)) == Letters.LowerCased(text)
  {
    var l := Letters.LowerCased(text);
    forall i | 0 <= i < |l| ensures Letters.LowerOf(l[i]) == l[i] {
      Letters.CaseFacts(text[i]);
      Letters.CaseFacts(l[i]);
    }
  }

  /** The score does not depend on the case of the letters: a text scores
      the same as its lower-cased form. */
  lemma ScoreIgnoresCase(lang: Language, text: string)
    ensures ScoreText(lang, Letters.LowerCased(text)) == ScoreText(lang, text)
  {
    CommonWordsNonEmpty(lang);
    LowerCasedTwice(text);
  }

  /* ---------------------------------------------------------------------
     Trying every key
     --------------------------------------------------------------------- */

  /** One call of the progress callback: `callback(key, N - 1, result)`. */
  datatype Progress = Progress(key: int, total: int, latest: Candidate)

  /** What `attack` hands back: the ranked result list, and the calls it
      made to the progress callback, in order. */
  datatype Outcome = Outcome(ranked: seq<Candidate>, trace: seq<Progress>)

  const LikelyThreshold: real := 0.6

  /** The result recorded for a decrypted text. */
  function Scored(common: seq<string>, key: int, text: string): (c: Candidate)
    requires NonEmptyWords(common)
    ensures c.key == key && c.text == text
    ensures c.likely <==> c.score > LikelyThreshold
    ensures 0.0 <= c.score <= 1.0
  {
    var score := ScoreAgainst(common, text);
    Candidate(key, text, score, score > LikelyThreshold)
  }

  /** The attacker's call `this.cipher.decrypt(ciphertext, key)`, with the
      loop counter handed over as a number. */
  function Decryptor(a: Alphabet, ciphertext: string, s: Settings): nat -> Result<string, Caesar.KeyError>
    requires a.Valid()
  {
    k => Caesar.Decrypt(a, ciphertext, Caesar.Number(k), s)
  }

  /** The loop of `attack` from `key` up to N - 1: each key is decrypted
      with, scored and recorded; a key whose decryption throws is skipped by
      the `catch`. */
  function Tries(decrypt: nat -> Result<string, Caesar.KeyError>, common: seq<string>, size: nat, key: nat): (r: seq<Candidate>)
    requires NonEmptyWords(common)
    ensures forall i | 0 <= i < |r| :: key <= r[i].key < size
    decreases size - key
  {
    if key >= size then []
    else
      var rest := Tries(decrypt, common, size, key + 1);
      match decrypt(key)
      case Failure(_) => rest
      case Success(text) => [Scored(common, key, text)] + rest
  }

  /** The unsorted result list: the loop over keys 1..N-1. */
  function AllResults(a: Alphabet, common: seq<string>, ciphertext: string, s: Settings): seq<Candidate>
    requires a.Valid() && NonEmptyWords(common)
  {
    Tries(Decryptor(a, ciphertext, s), common, a.Size(), 1)
  }

  /** The progress callback is called once per result, right after it is
      recorded, with the key, N - 1 and that result. */
  function Trace(size: nat, results: seq<Candidate>): (t: seq<Progress>)
    ensures |t| == |results|
    ensures forall i | 0 <= i < |t| :: t[i] == Progress(results[i].key, size - 1, results[i])
  {
    seq(|results|, i requires 0 <= i < |results| => Progress(results[i].key, size - 1, results[i]))
  }

  /** `attack` on an alphabet with its common words: every key tried, the
      callback called for each, and the results sorted by descending
      score. */
  function AttackWith(a: Alphabet, common: seq<string>, ciphertext: string, s: Settings): Outcome
    requires a.Valid() && NonEmptyWords(common)
  {
    var results := AllResults(a, common, ciphertext, s);
    Outcome(SortByScore(results), Trace(a.Size(), results))
  }

  /** `attack` of the attacker for a language. */
  function Attack(lang: Language, ciphertext: string, s: Settings): Outcome {
    ShippedAlphabets(lang);
    CommonWordsNonEmpty(lang);
    AttackWith(AlphabetOf(lang), CommonWords(lang), ciphertext, s)
  }

  /** When no decryption in the range throws, the loop records one result
      per key, in key order, each holding that key's decryption. */
  lemma {:induction false} TriesEveryKey(decrypt: nat -> Result<string, Caesar.KeyError>, common: seq<string>, size: nat, key: nat)
    requires NonEmptyWords(common) && key <= size
    requires forall k | key <= k < size :: decrypt(k).Success?
    ensures var r := Tries(decrypt, common, size, key);
      && |r| == size - key
      && forall i | 0 <= i < |r| :: r[i] == Scored(common, key + i, decrypt(key + i).value)
    decreases size - key
  {
    if key < size {
      var rest := Tries(decrypt, common, size, key + 1);
      TriesEveryKey(decrypt, common, size, key + 1);
      var r := Tries(decrypt, common, size, key);
      assert r == [Scored(common, key, decrypt(key).value)] + rest;
      forall i | 0 <= i < |r| ensures r[i] == Scored(common, key + i, decrypt(key + i).value) {
        if i > 0 {
          assert r[i] == rest[i - 1];
        }
      }
    }
  }

  /** The validator accepts every key of the loop, so the attacker's
      decryption with it never throws and is the Caesar shift back. */
  lemma DecryptorAccepts(a: Alphabet, ciphertext: string, s: Settings, k: nat)
    requires a.Valid() && 1 <= k < a.Size()
    ensures Decryptor(a, ciphertext, s)(k) == Success(Caesar.ProcessText(a, ciphertext, k, false, s))
  {
    assert Caesar.Validate(a, Caesar.Number(k)) == Caesar.Accepted(k);
  }

  /** The attacker's decryption, over the whole key range, is the Caesar
      shift back by each key. */
  lemma DecryptorAcceptsAll(a: Alphabet, ciphertext: string, s: Settings)
    requires a.Valid()
    ensures forall k | 1 <= k < a.Size() ::
      Decryptor(a, ciphertext, s)(k) == Success(Caesar.ProcessText(a, ciphertext, k, false, s))
  {
    forall k | 1 <= k < a.Size()
      ensures Decryptor(a, ciphertext, s)(k) == Success(Caesar.ProcessText(a, ciphertext, k, false, s))
    {
      DecryptorAccepts(a, ciphertext, s, k);
    }
  }

  /** A decryption that succeeds on every key from 1 with the text `f(k)`
      yields the results for those texts, in key order. */
  lemma TriesDecrypting(decrypt: nat -> Result<string, Caesar.KeyError>, f: nat -> string, common: seq<string>, size: nat)
    requires NonEmptyWords(common) && 1 <= size
    requires forall k | 1 <= k < size :: decrypt(k) == Success(f(k))
    ensures var r := Tries(decrypt, common, size, 1);
      && |r| == size - 1
      && forall i | 0 <= i < |r| :: r[i] == Scored(common, i + 1, f(i + 1))
  {
    TriesEveryKey(decrypt, common, size, 1);
    var r := Tries(decrypt, common, size, 1);
    forall i | 0 <= i < |r| ensures r[i] == Scored(common, i + 1, f(i + 1)) {
      assert decrypt(1 + i) == Success(f(1 + i));
    }
  }

  /** Every key from 1 to N - 1 is tried, in order, and each result holds
      the Caesar decryption with its key. */
  lemma ResultsDecrypt(a: Alphabet, common: seq<string>, ciphertext: string, s: Settings)
    requires a.Valid() && NonEmptyWords(common)
    ensures var r := AllResults(a, common, ciphertext, s);
      && |r| == Caesar.MaxKey(a)
      && forall i | 0 <= i < |r| :: r[i] == Scored(common, i + 1, Caesar.ProcessText(a, ciphertext, i + 1, false, s))
  {
    var f: nat -> string := k => if 1 <= k <= Caesar.MaxKey(a) then Caesar.ProcessText(a, ciphertext, k, false, s) else "";
    DecryptorAcceptsAll(a, ciphertext, s);
    TriesDecrypting(Decryptor(a, ciphertext, s), f, common, a.Size());
  }

  /** The attack yields one result per key 1..N-1 in key order, each being
      the decryption with that key, scored by `scoreText` and marked likely
      exactly when its score exceeds 0.6, and reports each to the callback
      as it is recorded. */
  lemma AttackTriesEveryKey(lang: Language, ciphertext: string, s: Settings)
    ensures var a := AlphabetOf(lang);
      && a.Valid() && NonEmptyWords(CommonWords(lang))
      && var r := AllResults(a, CommonWords(lang), ciphertext, s);
      && |r| == Caesar.MaxKey(a)
      && (forall i | 0 <= i < |r| ::
            && r[i].key == i + 1
            && r[i].text == Caesar.ProcessText(a, ciphertext, i + 1, false, s)
            && r[i].score == ScoreText(lang, r[i].text)
            && (r[i].likely <==> r[i].score > LikelyThreshold))
      && var t := Attack(lang, ciphertext, s).trace;
      && |t| == |r|
      && forall i | 0 <= i < |t| :: t[i] == Progress(i + 1, Caesar.MaxKey(a), r[i])
  {
    ShippedAlphabets(lang);
    CommonWordsNonEmpty(lang);
    ResultsDecrypt(AlphabetOf(lang), CommonWords(lang), ciphertext, s);
  }

  /** Decrypting a Caesar encryption by brute force: whatever key encrypted
      the text under the default preferences, the ranked list holds that key
      together with the original text. */
  lemma AttackRecoversPlaintext(lang: Language, plaintext: string, key: int)
    requires 1 <= key <= Caesar.MaxKey(AlphabetOf(lang))
    ensures var a := AlphabetOf(lang);
      a.Valid() &&
      var ranked := Attack(lang, Caesar.ProcessText(a, plaintext, key, true, Defaults), Defaults).ranked;
      exists i | 0 <= i < |ranked| :: ranked[i].key == key && ranked[i].text == plaintext
  {
    ShippedAlphabets(lang);
    CommonWordsNonEmpty(lang);
    var a := AlphabetOf(lang);
    var ciphertext := Caesar.ProcessText(a, plaintext, key, true, Defaults);
    RecoversPlaintext(a, CommonWords(lang), plaintext, key, ciphertext);
  }

  lemma RecoversPlaintext(a: Alphabet, common: seq<string>, plaintext: string, key: int, ciphertext: string)
    requires a.Valid() && NonEmptyWords(common) && 1 <= key <= Caesar.MaxKey(a)
    requires ciphertext == Caesar.ProcessText(a, plaintext, key, true, Defaults)
    ensures var ranked := AttackWith(a, common, ciphertext, Defaults).ranked;
      exists i | 0 <= i < |ranked| :: ranked[i].key == key && ranked[i].text == plaintext
  {
    var r := AllResults(a, common, ciphertext, Defaults);
    ResultsDecrypt(a, common, ciphertext, Defaults);
    Caesar.RoundTrip(a, plaintext, key, true, PreserveCase);
    Caesar.RecasedPreserve(a, plaintext);
    assert r[key - 1].key == key && r[key - 1].text == plaintext;
    AllResultsRanked(a, common, ciphertext, Defaults);
    var ranked := SortByScore(r);
    assert r[key - 1] in multiset(ranked);
  }

  /** The sort ranks the results: it keeps them all, orders them by
      descending score and equal scores by key. */
  lemma AllResultsRanked(a: Alphabet, common: seq<string>, ciphertext: string, s: Settings)
    requires a.Valid() && NonEmptyWords(common)
    ensures var r := AllResults(a, common, ciphertext, s);
      multiset(SortByScore(r)) == multiset(r) && Ranked(SortByScore(r))
  {
    var r := AllResults(a, common, ciphertext, s);
    ResultsDecrypt(a, common, ciphertext, s);
    AscendingKeys(r);
    SortByScoreFacts(r);
  }

  /** The ranked list is the result list sorted: the same results, by
      descending score, equal scores in key order, and it is the only list
      with those properties. */
  lemma AttackRanks(lang: Language, ciphertext: string, s: Settings)
    ensures AlphabetOf(lang).Valid() && NonEmptyWords(CommonWords(lang))
    ensures var r := AllResults(AlphabetOf(lang), CommonWords(lang), ciphertext, s);
      var ranked := Attack(lang, ciphertext, s).ranked;
      && multiset(ranked) == multiset(r)
      && Ranked(ranked)
      && (forall i, j | 0 <= i < j < |ranked| :: ranked[i].score >= ranked[j].score)
      && (forall other: seq<Candidate> | multiset(other) == multiset(r) && Ranked(other) :: other == ranked)
  {
    ShippedAlphabets(lang);
    CommonWordsNonEmpty(lang);
    var r := AllResults(AlphabetOf(lang), CommonWords(lang), ciphertext, s);
    AllResultsRanked(AlphabetOf(lang), CommonWords(lang), ciphertext, s);
    var ranked := SortByScore(r);
    forall other: seq<Candidate> | multiset(other) == multiset(r) && Ranked(other)
      ensures other == ranked
    {
      RankedUnique(other, ranked);
    }
  }
}
