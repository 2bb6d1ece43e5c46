/** The book (poem) cipher: each character becomes the "row/col" coordinate
    of its first cell in the key grid, characters outside the letter class
    become bracketed literals, and the tokens are joined with ", ". */
module BookCipher {
  import opened Results
  import opened JsText
  import Letters
  import opened Preferences
  import opened BookKeys

  /** The token for a letter of the class that the grid does not hold. */
  const NotFound: string := "--/--"

  /** What decryption writes for a coordinate that names no letter. */
  const Unknown: char := '?'

  /** `[${char}]`. */
  function Bracketed(c: char): string {
    "[" + [c] + "]"
  }

  /** The token one character contributes to the ciphertext, if any. */
  function Token(key: BookKey, ch: char, h: NonAlphaHandling): Option<string> {
    match GetCoordinate(key, ch)
    case Some(coord) => Some(coord)
    case None =>
      if Letters.IsClassLetter(ch) then Some(NotFound)
      else
        match h
        case KeepNonAlpha => Some(Bracketed(ch))
        case RemoveNonAlpha => None
        case SpaceNonAlpha => Some("[_]")
  }

  /** The tokens of the characters of `text`, in order. */
  function Tokens(key: BookKey, text: string, h: NonAlphaHandling): (r: seq<string>)
    ensures |r| <= |text|
    ensures h != RemoveNonAlpha ==> |r| == |text|
  {
    if text == [] then []
    else
      match Token(key, text[0], h)
      case Some(t) => [t] + Tokens(key, text[1..], h)
      case None => Tokens(key, text[1..], h)
  }

  /** `BookCipher.encrypt`: fails without a key; otherwise the tokens joined
      with ", ". Only the non-alphabet policy of the settings matters. */
  function Encrypt(key: Option<BookKey>, text: string, s: Settings): (r: Result<string, BookError>)
    ensures r.Failure? <==> key.None?
    ensures r.Failure? ==> r.error == MissingKey
  {
    match key
    case None => Failure(MissingKey)
    case Some(k) => Success(Join(Tokens(k, text, s.nonAlphaHandling), ", "))
  }

  /** `code.startsWith('[') && code.endsWith(']')`. */
  predicate IsBracketed(code: string) {
    |code| > 0 && code[0] == '[' && code[|code| - 1] == ']'
  }

  /** A code that is not bracketed: `code.split('/')`, `parseInt` of the
      first two pieces (a missing second piece is `undefined`, hence NaN),
      then `charAtCoordinate`. A letter other than '_' is written; anything
      else is '?'; the `TypeError` of a row that is not a number
      propagates. */
  function DecodeCoordinate(key: BookKey, code: string): Result<string, BookError>
    requires key.Valid()
  {
    var pieces := SplitChar(code, '/');
    var row := ParseInt(pieces[0]);
    var col := if |pieces| > 1 then ParseInt(pieces[1]) else None;
    match CharAtCoordinate(key, row, col)
    case Failure(e) => Failure(e)
    case Success(c) => if c.Some? && c.value != Blank then Success([c.value]) else Success([Unknown])
  }

  /** One code of the ciphertext: a bracketed literal stands for its
      inside. */
  function DecodeToken(key: BookKey, code: string): Result<string, BookError>
    requires key.Valid()
  {
    if IsBracketed(code) then Success(code[1..|code| - 1]) else DecodeCoordinate(key, code)
  }

  /** The loop over the codes: the decoded pieces in order, or the first
      failure. */
  function DecodeAll(key: BookKey, codes: seq<string>): (r: Result<string, BookError>)
    requires key.Valid()
    ensures r.Success? <==> forall i | 0 <= i < |codes| :: DecodeToken(key, codes[i]).Success?
    ensures r.Success? ==> |r.value| >= |codes| - CountBracketed(codes)
  {
    if codes == [] then Success("")
    else
      match DecodeToken(key, codes[0])
      case Failure(e) => Failure(e)
      case Success(x) =>
        match DecodeAll(key, codes[1..])
        case Failure(e) => Failure(e)
        case Success(y) => Success(x + y)
  }

  /** How many codes are bracketed literals (each decodes to any number of
      characters, every other code to exactly one). */
  function CountBracketed(codes: seq<string>): nat {
    if codes == [] then 0 else (if IsBracketed(codes[0]) then 1 else 0) + CountBracketed(codes[1..])
  }

  /** `BookCipher.decrypt`: fails without a key; otherwise splits on a comma
      or semicolon and the whitespace after it, and decodes every piece. */
  function Decrypt(key: Option<BookKey>, coordString: string): (r: Result<string, BookError>)
    requires key.Some? ==> key.value.Valid()
    ensures key.None? ==> r == Failure(MissingKey)
    ensures key.Some? ==>
      (r.Success? <==> forall code | code in SplitList(coordString) :: DecodeToken(key.value, code).Success?)
  {
    match key
    case None => Failure(MissingKey)
    case Some(k) => DecodeAll(k, SplitList(coordString))
  }

  /* ---------------------------------------------------------------------
     Decoding single codes
     --------------------------------------------------------------------- */

  /** A bracketed code decodes to what is inside the brackets. */
  lemma BracketDecodes(key: BookKey, x: string)
    requires key.Valid()
    ensures DecodeToken(key, "[" + x + "]") == Success(x)
  {
    var code := "[" + x + "]";
    assert IsBracketed(code);
    assert code[1..|code| - 1] == x;
  }

  /** A row and a column written as integers decode to '?' when either lies
      outside 1..size. */
  lemma OutOfRangeDecodes(key: BookKey, row: int, col: int)
    requires key.Valid()
    requires !(1 <= row <= key.size) || !(1 <= col <= key.size)
    ensures DecodeToken(key, IntText(row) + "/" + IntText(col)) == Success([Unknown])
  {
    CoordinatePieces(IntText(row), IntText(col));
    ParseIntText(row);
    ParseIntText(col);
  }

  /** The coordinate of a padding cell decodes to '?'. */
  lemma BlankDecodes(key: BookKey, r: nat, c: nat)
    requires key.Valid() && r < key.size && c < key.size && key.grid[r][c] == Blank
    ensures DecodeToken(key, CoordText(r, c)) == Success([Unknown])
  {
    CoordinatePieces(Decimal(r + 1), Decimal(c + 1));
    ParseDecimal(r + 1);
    ParseDecimal(c + 1);
  }

  /** The coordinate of a letter cell decodes to that letter. */
  lemma LetterDecodes(key: BookKey, r: nat, c: nat)
    requires key.Valid() && r < key.size && c < key.size && key.grid[r][c] != Blank
    ensures DecodeToken(key, CoordText(r, c)) == Success([key.grid[r][c]])
  {
    CoordinatePieces(Decimal(r + 1), Decimal(c + 1));
    ParseDecimal(r + 1);
    ParseDecimal(c + 1);
  }

  /** "row/col" with no '/' in either part splits into the two parts, and
      is not bracketed when it starts with a digit or a minus sign. */
  lemma CoordinatePieces(x: string, y: string)
    requires '/' !in x && '/' !in y
    requires x != [] && (x[0] == '-' || '0' <= x[0] <= '9')
    ensures SplitChar(x + "/" + y, '/') == [x, y]
    ensures !IsBracketed(x + "/" + y)
  {
    SplitCharFirst(x, '/', y);
    SplitCharNoSeparator(y, '/');
  }

  /** The marker of a letter missing from the grid does not decode: both of
      its numbers are NaN, so the source throws a `TypeError`. */
  lemma NotFoundFails(key: BookKey)
    requires key.Valid()
    ensures DecodeToken(key, NotFound) == Failure(RowNotANumber)
  {
    SplitCharFirst("--", '/', "--");
    SplitCharNoSeparator("--", '/');
    assert ParseInt("--") == None by {
      assert TrimStart("--") == "--";
      assert TrimStart("-") == "-";
    }
  }

  /** An empty ciphertext does not decode: it splits into one empty code,
      whose row is NaN. */
  lemma EmptyFails(key: BookKey)
    requires key.Valid()
    ensures Decrypt(Some(key), "") == Failure(RowNotANumber)
  {
    assert SplitChar("", '/') == [""];
    assert ParseInt("") == None;
  }

  /** A letter of the class that the grid lacks is encrypted as the
      not-found marker, and that ciphertext does not decrypt. */
  lemma MissingLetterBreaks(key: BookKey, ch: char, s: Settings)
    requires key.Valid()
    requires Letters.IsClassLetter(ch) && !Occurs(key, Letters.UpperOf(ch))
    ensures Encrypt(Some(key), [ch], s) == Success(NotFound)
    ensures Decrypt(Some(key), NotFound) == Failure(RowNotANumber)
  {
    GetCoordinateOccurs(key, ch);
    assert Tokens(key, [ch], s.nonAlphaHandling) == [NotFound];
    NotFoundFails(key);
    SplitListNoSeparator(NotFound);
  }

  /* ---------------------------------------------------------------------
     The round trip
     --------------------------------------------------------------------- */

  /** Characters the round trip can carry: no list separators, and every
      letter of the class found in the grid. */
  predicate Encodable(key: BookKey, text: string) {
    forall i | 0 <= i < |text| ::
      && !IsListSeparator(text[i])
      && (Letters.IsClassLetter(text[i]) ==> GetCoordinate(key, text[i]).Some?)
  }

  /** The text in capital form, character by character. */
  function UpperText(text: string): (r: string)
    ensures |r| == |text|
  {
    seq(|text|, i requires 0 <= i < |text| => Letters.UpperOf(text[i]))
  }

  /** Under the keep policy, an encodable character yields a token that
      survives the list split and decodes to its capital form. */
  lemma TokenRoundTrip(key: BookKey, ch: char)
    requires key.Valid()
    requires !IsListSeparator(ch) && (Letters.IsClassLetter(ch) ==> GetCoordinate(key, ch).Some?)
    ensures Token(key, ch, KeepNonAlpha).Some?
    ensures ListSafe(Token(key, ch, KeepNonAlpha).value)
    ensures DecodeToken(key, Token(key, ch, KeepNonAlpha).value) == Success([Letters.UpperOf(ch)])
  {
    Letters.CaseFacts(ch);
    GetCoordinateOccurs(key, ch);
    GetCoordinateFirst(key, ch);
    if GetCoordinate(key, ch).Some? {
      var x := Letters.UpperOf(ch);
      var r: nat, c: nat :| FirstAt(key, x, r, c) && GetCoordinate(key, ch).value == CoordText(r, c);
      LetterDecodes(key, r, c);
      CoordTextSafe(r, c);
    } else {
      assert !Letters.IsClassLetter(ch);
      BracketDecodes(key, [ch]);
      assert Bracketed(ch) == "[" + [ch] + "]";
    }
  }

  lemma CoordTextSafe(r: nat, c: nat)
    ensures ListSafe(CoordText(r, c))
  {
    var t := CoordText(r, c);
    var x, y := Decimal(r + 1), Decimal(c + 1);
    assert t == x + "/" + y;
    forall i | 0 <= i < |t| ensures !IsListSeparator(t[i]) {
      if i < |x| {
        assert t[i] == x[i];
      } else if i > |x| {
        assert t[i] == y[i - |x| - 1];
      }
    }
    assert t[0] == x[0];
  }

  /** Under the keep policy an encodable text yields one token per
      character, the token of that character. */
  lemma {:induction false} TokensOfEncodable(key: BookKey, text: string)
    requires key.Valid() && Encodable(key, text)
    ensures var ts := Tokens(key, text, KeepNonAlpha);
      forall k | 0 <= k < |ts| :: Token(key, text[k], KeepNonAlpha) == Some(ts[k])
  {
    if text != [] {
      var rest := text[1..];
      assert Encodable(key, rest) by {
        forall i | 0 <= i < |rest| ensures rest[i] == text[i + 1] { }
      }
      TokenRoundTrip(key, text[0]);
      TokensOfEncodable(key, rest);
      var ts := Tokens(key, text, KeepNonAlpha);
      assert ts == [Token(key, text[0], KeepNonAlpha).value] + Tokens(key, rest, KeepNonAlpha);
      forall k | 0 <= k < |ts| ensures Token(key, text[k], KeepNonAlpha) == Some(ts[k]) {
        if k > 0 {
          assert ts[k] == Tokens(key, rest, KeepNonAlpha)[k - 1];
          assert text[k] == rest[k - 1];
        }
      }
    }
  }

  /** Codes that each decode to one character decode together to those
      characters in order. */
  lemma {:induction false} DecodeEach(key: BookKey, codes: seq<string>, out: string)
    requires key.Valid() && |codes| == |out|
    requires forall k | 0 <= k < |codes| :: DecodeToken(key, codes[k]) == Success([out[k]])
    ensures DecodeAll(key, codes) == Success(out)
  {
    if codes != [] {
      DecodeEach(key, codes[1..], out[1..]);
      assert [out[0]] + out[1..] == out;
    }
  }

  /** Every token of an encodable text survives the split, and the tokens
      decode to the text in capital form. */
  lemma TokensRoundTrip(key: BookKey, text: string)
    requires key.Valid() && Encodable(key, text)
    ensures |Tokens(key, text, KeepNonAlpha)| == |text|
    ensures forall k | 0 <= k < |Tokens(key, text, KeepNonAlpha)| :: ListSafe(Tokens(key, text, KeepNonAlpha)[k])
    ensures DecodeAll(key, Tokens(key, text, KeepNonAlpha)) == Success(UpperText(text))
  {
    var ts := Tokens(key, text, KeepNonAlpha);
    var out := UpperText(text);
    TokensOfEncodable(key, text);
    forall k | 0 <= k < |ts| ensures ListSafe(ts[k]) && DecodeToken(key, ts[k]) == Success([out[k]]) {
      TokenRoundTrip(key, text[k]);
    }
    DecodeEach(key, ts, out);
  }

  /** Decrypting what the keep policy encrypts gives back the text in
      capital form, for any non-empty text without list separators whose
      letters the grid all holds. */
  lemma RoundTrip(key: BookKey, text: string, caseHandling: CaseHandling)
    requires key.Valid() && text != [] && Encodable(key, text)
    ensures Encrypt(Some(key), text, Settings(caseHandling, KeepNonAlpha)).Success?
    ensures Decrypt(Some(key), Encrypt(Some(key), text, Settings(caseHandling, KeepNonAlpha)).value)
         == Success(UpperText(text))
  {
    var tokens := Tokens(key, text, KeepNonAlpha);
    TokensRoundTrip(key, text);
    SplitListJoin(tokens);
  }
}
