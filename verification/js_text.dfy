/** The few JavaScript built-ins the cipher engine leans on, written out:
    `parseInt`, the decimal rendering of a non-negative integer, the
    truncating remainder `%`, the `| 0` conversion to a 32-bit integer,
    `String.prototype.includes`, `join`, and the three ways the engine splits
    a string (on whitespace runs, on a comma or semicolon with the whitespace
    after it, and on a one-character separator). */
module JsText {
  import opened Results

  /* ---------------------------------------------------------------------
     Whitespace
     --------------------------------------------------------------------- */

  /** ECMAScript WhiteSpace and LineTerminator code points: what `parseInt`
      skips and what `\s` matches in a regular expression. */
  predicate IsWhitespace(c: char) {
    || c == '\t' || c == '\n' || c == '\U{000B}' || c == '\U{000C}' || c == '\r'
    || c == ' ' || c == '\U{00A0}' || c == '\U{1680}'
    || ('\U{2000}' <= c <= '\U{200A}')
    || c == '\U{2028}' || c == '\U{2029}' || c == '\U{202F}' || c == '\U{205F}'
    || c == '\U{3000}' || c == '\U{FEFF}'
  }

  /** The string with its leading whitespace removed. */
  function TrimStart(s: string): (r: string)
    ensures |r| <= |s|
    ensures r == [] || !IsWhitespace(r[0])
  {
    if s != [] && IsWhitespace(s[0]) then TrimStart(s[1..]) else s
  }

  /* ---------------------------------------------------------------------
     parseInt and decimal rendering
     --------------------------------------------------------------------- */

  /** Value of a digit character in radices up to 36; 36 for anything else. */
  function DigitValue(c: char): nat {
    if '0' <= c <= '9' then c as nat - '0' as nat
    else if 'a' <= c <= 'z' then c as nat - 'a' as nat + 10
    else if 'A' <= c <= 'Z' then c as nat - 'A' as nat + 10
    else 36
  }

  /** The longest prefix of `s` made of digits of the given radix. */
  function DigitPrefix(s: string, radix: nat): (d: string)
    ensures d <= s
    ensures forall i | 0 <= i < |d| :: DigitValue(d[i]) < radix
    ensures |d| < |s| ==> DigitValue(s[|d|]) >= radix
  {
    if s == [] || DigitValue(s[0]) >= radix then [] else [s[0]] + DigitPrefix(s[1..], radix)
  }

  /** The value of a digit string read most significant digit first. */
  function DigitsValue(d: string, radix: nat): nat {
    if d == [] then 0
    else DigitsValue(d[..|d| - 1], radix) * radix + DigitValue(d[|d| - 1])
  }

  /** The digits at the start of `s` read in the given radix, or `None`
      when `s` does not start with such a digit. */
  function ParseDigits(s: string, radix: nat): (r: Option<nat>)
    ensures r.None? <==> s == [] || DigitValue(s[0]) >= radix
  {
    var d := DigitPrefix(s, radix);
    if d == [] then None else Some(DigitsValue(d, radix))
  }

  /** An unsigned `parseInt` body: a `0x`/`0X` prefix switches to radix 16. */
  function ParseUnsigned(u: string): Option<nat> {
    if |u| >= 2 && u[0] == '0' && (u[1] == 'x' || u[1] == 'X') then ParseDigits(u[2..], 16)
    else ParseDigits(u, 10)
  }

  function Negate(r: Option<nat>): Option<int> {
    match r
    case None => None
    case Some(v) =>
      var negated: int := 0 - v as int;
      Some(negated)
  }

  /** `parseInt(s)` without a radix argument: skip leading whitespace, take an
      optional sign, switch to radix 16 after a `0x`/`0X` prefix, then read
      the longest run of digits. No digits at all gives NaN, here `None`. */
  function ParseInt(s: string): Option<int> {
    var t := TrimStart(s);
    if |t| > 0 && t[0] == '-' then Negate(ParseUnsigned(t[1..]))
    else if |t| > 0 && t[0] == '+' then
      match ParseUnsigned(t[1..])
      case None => None
      case Some(v) => Some(v)
    else
      match ParseUnsigned(t)
      case None => None
      case Some(v) => Some(v)
  }

  function DigitChar(d: nat): (c: char)
    requires d < 10
    ensures '0' <= c <= '9' && DigitValue(c) == d
  {
    ('0' as int + d) as char
  }

  /** The decimal rendering JavaScript gives a non-negative integer (the
      template literal `${n}` and `String(n)`): canonical digits, no sign,
      no leading zero. */
  function Decimal(n: nat): (r: string)
    ensures |r| >= 1
    ensures forall i | 0 <= i < |r| :: '0' <= r[i] <= '9'
    ensures r[0] == '0' ==> n == 0 && |r| == 1
    ensures DigitsValue(r, 10) == n
  {
    if n < 10 then [DigitChar(n)] else Decimal(n / 10) + [DigitChar(n % 10)]
  }

  lemma {:induction false} DigitPrefixOfDigits(s: string, radix: nat)
    requires forall i | 0 <= i < |s| :: DigitValue(s[i]) < radix
    ensures DigitPrefix(s, radix) == s
  {
    if s != [] {
      DigitPrefixOfDigits(s[1..], radix);
    }
  }

  lemma ParseUnsignedDecimal(n: nat)
    ensures ParseUnsigned(Decimal(n)) == Some(n)
  {
    var d := Decimal(n);
    assert !(|d| >= 2 && d[0] == '0');
    DigitPrefixOfDigits(d, 10);
  }

  /** Reading back the decimal rendering of `n` gives `n`. */
  lemma ParseDecimal(n: nat)
    ensures ParseInt(Decimal(n)) == Some(n)
  {
    var d := Decimal(n);
    NoLeadingWhitespace(d);
    assert !(|d| > 0 && (d[0] == '-' || d[0] == '+'));
    ParseUnsignedDecimal(n);
  }

  /** Reading back `-` followed by the decimal rendering of `n` gives `-n`. */
  lemma ParseNegativeDecimal(n: nat)
    ensures ParseInt("-" + Decimal(n)) == Some(-(n as int))
  {
    var s := "-" + Decimal(n);
    NoLeadingWhitespace(s);
    assert s[1..] == Decimal(n);
    ParseUnsignedDecimal(n);
    assert ParseInt(s) == Negate(ParseUnsigned(Decimal(n)));
  }

  /** An integer written the way a user types it: decimal digits, with a
      leading minus sign when negative. */
  function IntText(k: int): string {
    if k < 0 then "-" + Decimal(-k) else Decimal(k)
  }

  lemma ParseIntText(k: int)
    ensures ParseInt(IntText(k)) == Some(k)
  {
    if k < 0 {
      ParseNegativeDecimal(-k);
    } else {
      ParseDecimal(k);
    }
  }

  lemma NoLeadingWhitespace(s: string)
    requires s != [] && (s[0] == '-' || '0' <= s[0] <= '9')
    ensures TrimStart(s) == s
  {
    assert !IsWhitespace(s[0]);
  }

  lemma ParseEmpty()
    ensures ParseInt("") == None
  {
  }

  /* ---------------------------------------------------------------------
     Integer conversions
     --------------------------------------------------------------------- */

  lemma DivMod(x: int, n: int)
    requires n > 0
    ensures x == (x / n) * n + x % n && 0 <= x % n < n
  {
  }

  lemma ModOfMultiplePlus(q: int, n: int, m: int)
    requires n > 0 && 0 <= m < n
    ensures (q * n + m) % n == m
  {
    var a := q * n + m;
    var k := a / n - q;
    assert a == (a / n) * n + a % n;
    assert k * n == m - a % n;
  }

  /** Adding a multiple of `n` does not change the remainder. */
  lemma ModAddMultiple(x: int, q: int, n: int)
    requires n > 0
    ensures (x + q * n) % n == x % n
  {
    DivMod(x, n);
    assert x + q * n == (x / n + q) * n + x % n;
    ModOfMultiplePlus(x / n + q, n, x % n);
  }

  /** JavaScript's truncating integer quotient (`Math.trunc(x / n)`). */
  function Quot(x: int, n: int): int
    requires n > 0
  {
    if x >= 0 then x / n else -((-x) / n)
  }

  /** JavaScript's `x % n` for a positive `n`: the remainder of truncating
      division, which takes the sign of the dividend, unlike Dafny's `%`. */
  function Rem(x: int, n: int): (r: int)
    requires n > 0
    ensures -n < r < n
    ensures r == 0 || (r > 0 <==> x > 0)
    ensures x == Quot(x, n) * n + r
  {
    if x >= 0 then
      DivMod(x, n);
      assert x == 0 ==> x % n == 0;
      x % n
    else
      var y := -x;
      DivMod(y, n);
      assert x == (-(y / n)) * n - y % n;
      -(y % n)
  }

  /** The idiom `((x % n) + n) % n` yields the mathematical (Euclidean)
      remainder, which lies in `[0, n)`. */
  lemma NormalizedRem(x: int, n: int)
    requires n > 0
    ensures Rem(Rem(x, n) + n, n) == x % n
  {
    var r := Rem(x, n);
    var q := Quot(x, n);
    assert x == q * n + r;
    if r >= 0 {
      ModOfMultiplePlus(1, n, r);
      assert Rem(r + n, n) == (1 * n + r) % n;
      ModOfMultiplePlus(q, n, r);
    } else {
      ModOfMultiplePlus(0, n, r + n);
      assert Rem(r + n, n) == (0 * n + (r + n)) % n;
      assert x == (q - 1) * n + (r + n);
      ModOfMultiplePlus(q - 1, n, r + n);
    }
  }

  const TwoTo32: int := 0x1_0000_0000
  const TwoTo31: int := 0x8000_0000

  /** `x | 0`: the integer wrapped into the signed 32-bit range. */
  function ToInt32(x: int): (r: int)
    ensures -TwoTo31 <= r < TwoTo31
    ensures (x - r) % TwoTo32 == 0
  {
    var m := x % TwoTo32;
    if m >= TwoTo31 then m - TwoTo32 else m
  }

  /* ---------------------------------------------------------------------
     Substrings
     --------------------------------------------------------------------- */

  predicate OccursAt(p: string, s: string, i: nat) {
    i + |p| <= |s| && s[i..i + |p|] == p
  }

  /** `s.includes(p)`. */
  function Includes(s: string, p: string): (r: bool)
    ensures r <==> exists i: nat :: OccursAt(p, s, i)
  {
    if p <= s then
      assert OccursAt(p, s, 0);
      true
    else if s == [] then
      false
    else
      var r := Includes(s[1..], p);
      if r then
        var i: nat :| OccursAt(p, s[1..], i);
        assert OccursAt(p, s, i + 1);
        true
      else
        assert forall i: nat | OccursAt(p, s, i) :: i > 0 && OccursAt(p, s[1..], i - 1);
        false
  }

  /* ---------------------------------------------------------------------
     Joining and splitting
     --------------------------------------------------------------------- */

  /** `parts.join(delim)`. */
  function Join(parts: seq<string>, delim: string): string {
    if parts == [] then ""
    else if |parts| == 1 then parts[0]
    else parts[0] + delim + Join(parts[1..], delim)
  }

  /** The characters of all the parts, in order. */
  function Concat(parts: seq<string>): string {
    if parts == [] then "" else parts[0] + Concat(parts[1..])
  }

  /** The characters of `s` that are not whitespace, in order. */
  function NonWhitespace(s: string): string {
    if s == [] then ""
    else if IsWhitespace(s[0]) then NonWhitespace(s[1..])
    else [s[0]] + NonWhitespace(s[1..])
  }

  /** `s.split(/\s+/)`: the pieces between maximal runs of whitespace; a
      leading or trailing run yields an empty first or last piece. */
  function SplitWhitespace(s: string): (r: seq<string>)
    ensures |r| >= 1
    decreases |s|
  {
    if s == [] then [""]
    else if IsWhitespace(s[0]) then [""] + SplitWhitespace(TrimStart(s))
    else
      var r := SplitWhitespace(s[1..]);
      [[s[0]] + r[0]] + r[1..]
  }

  /** No piece holds whitespace. */
  predicate PiecesWhitespaceFree(r: seq<string>) {
    forall k | 0 <= k < |r| :: WhitespaceFree(r[k])
  }

  lemma {:induction false} SplitWhitespaceFree(s: string)
    ensures PiecesWhitespaceFree(SplitWhitespace(s))
    decreases |s|
  {
    if s != [] && IsWhitespace(s[0]) {
      var t := SplitWhitespace(TrimStart(s));
      SplitWhitespaceFree(TrimStart(s));
      assert PiecesWhitespaceFree(t);
      var r := SplitWhitespace(s);
      assert r == [""] + t;
      forall k | 0 <= k < |r| ensures WhitespaceFree(r[k]) {
        if k > 0 {
          assert r[k] == t[k - 1];
        }
      }
    } else if s != [] {
      var t := SplitWhitespace(s[1..]);
      SplitWhitespaceFree(s[1..]);
      assert PiecesWhitespaceFree(t);
      assert WhitespaceFree(t[0]);
      var r := SplitWhitespace(s);
      assert WhitespaceFree([s[0]] + t[0]);
      assert r == [[s[0]] + t[0]] + t[1..];
      forall k | 0 <= k < |r| ensures WhitespaceFree(r[k]) {
        if k > 0 {
          assert r[k] == t[k];
        }
      }
    }
  }

  lemma {:induction false} SplitWhitespaceConcat(s: string)
    ensures Concat(SplitWhitespace(s)) == NonWhitespace(s)
    decreases |s|
  {
    if s != [] && IsWhitespace(s[0]) {
      SplitWhitespaceConcat(TrimStart(s));
      NonWhitespaceOfTrim(s);
      var r := SplitWhitespace(s);
      var t := SplitWhitespace(TrimStart(s));
      assert r == [""] + t;
      assert r[1..] == t;
    } else if s != [] {
      SplitWhitespaceConcat(s[1..]);
      var t := SplitWhitespace(s[1..]);
      var r := SplitWhitespace(s);
      assert t == [t[0]] + t[1..];
      assert r == [[s[0]] + t[0]] + t[1..];
      assert r[1..] == t[1..];
      assert Concat(t) == t[0] + Concat(t[1..]);
    }
  }

  predicate WhitespaceFree(t: string) {
    forall i | 0 <= i < |t| :: !IsWhitespace(t[i])
  }

  lemma {:induction false} NonWhitespaceOfTrim(s: string)
    ensures NonWhitespace(TrimStart(s)) == NonWhitespace(s)
  {
    if s != [] && IsWhitespace(s[0]) {
      NonWhitespaceOfTrim(s[1..]);
    }
  }

  /** `s.split(sep)` for a one-character separator. */
  function SplitChar(s: string, sep: char): (r: seq<string>)
    ensures |r| >= 1
    ensures forall k | 0 <= k < |r| :: sep !in r[k]
    ensures Join(r, [sep]) == s
  {
    if s == [] then [""]
    else
      var r := SplitChar(s[1..], sep);
      if s[0] == sep then
        assert Join([""] + r, [sep]) == [sep] + Join(r, [sep]);
        [""] + r
      else
        var r' := [[s[0]] + r[0]] + r[1..];
        assert r'[1..] == r[1..];
        assert |r| > 1 ==> Join(r, [sep]) == r[0] + [sep] + Join(r[1..], [sep]);
        r'
  }

  lemma {:induction false} SplitCharNoSeparator(s: string, sep: char)
    requires sep !in s
    ensures SplitChar(s, sep) == [s]
  {
    if s != [] {
      SplitCharNoSeparator(s[1..], sep);
      assert [s[0]] + s[1..] == s;
    }
  }

  /** The first piece runs up to the first separator. */
  lemma {:induction false} SplitCharFirst(x: string, sep: char, y: string)
    requires sep !in x
    ensures SplitChar(x + [sep] + y, sep) == [x] + SplitChar(y, sep)
  {
    if x == [] {
      assert x + [sep] + y == [sep] + y;
      assert ([sep] + y)[1..] == y;
    } else {
      assert (x + [sep] + y)[1..] == x[1..] + [sep] + y;
      SplitCharFirst(x[1..], sep, y);
      assert [x[0]] + x[1..] == x;
    }
  }

  predicate IsListSeparator(c: char) {
    c == ',' || c == ';'
  }

  /** No comma or semicolon anywhere in `t`. */
  predicate SeparatorFree(t: string) {
    forall i | 0 <= i < |t| :: !IsListSeparator(t[i])
  }

  /** `s.split` on the pattern comma-or-semicolon then optional whitespace:
      the pieces between a comma or semicolon and the whitespace that
      follows it. */
  function SplitList(s: string): (r: seq<string>)
    ensures |r| >= 1
    ensures forall k | 0 <= k < |r| :: SeparatorFree(r[k])
    decreases |s|
  {
    if s == [] then [""]
    else if IsListSeparator(s[0]) then [""] + SplitList(TrimStart(s[1..]))
    else
      var r := SplitList(s[1..]);
      assert SeparatorFree([s[0]] + r[0]);
      [[s[0]] + r[0]] + r[1..]
  }

  /** A piece that the list splitter keeps intact when it follows a
      separator: no comma or semicolon inside, and no whitespace in front. */
  predicate ListSafe(t: string) {
    SeparatorFree(t) && (t == [] || !IsWhitespace(t[0]))
  }

  lemma {:induction false} SplitListPrefix(t: string, rest: string)
    requires SeparatorFree(t)
    requires rest != [] && IsListSeparator(rest[0])
    ensures SplitList(t + rest) == [t] + SplitList(TrimStart(rest[1..]))
  {
    if t == [] {
      assert t + rest == rest;
    } else {
      var u := t + rest;
      assert u[0] == t[0] && !IsListSeparator(u[0]);
      assert u[1..] == t[1..] + rest;
      SplitListPrefix(t[1..], rest);
      assert SplitList(u) == [[t[0]] + t[1..]] + SplitList(TrimStart(rest[1..]));
      assert [t[0]] + t[1..] == t;
    }
  }

  lemma {:induction false} SplitListNoSeparator(t: string)
    requires SeparatorFree(t)
    ensures SplitList(t) == [t]
  {
    if t != [] {
      SplitListNoSeparator(t[1..]);
      assert [t[0]] + t[1..] == t;
    }
  }

  /** Splitting the `", "`-joined list gives the pieces back, provided no
      piece holds a separator and no later piece starts with whitespace. */
  lemma {:induction false} SplitListJoin(parts: seq<string>)
    requires |parts| >= 1 && SeparatorFree(parts[0])
    requires forall k | 1 <= k < |parts| :: ListSafe(parts[k])
    ensures SplitList(Join(parts, ", ")) == parts
  {
    if |parts| == 1 {
      SplitListNoSeparator(parts[0]);
    } else {
      var tail := parts[1..];
      var joined := Join(tail, ", ");
      var rest := ", " + joined;
      JoinCons(parts, ", ");
      SplitListPrefix(parts[0], rest);
      assert rest[1..] == " " + joined;
      assert ListSafe(tail[0]);
      TrimStartJoin(tail);
      assert forall k | 1 <= k < |tail| :: ListSafe(tail[k]) by {
        forall k | 1 <= k < |tail| ensures ListSafe(tail[k]) {
          assert tail[k] == parts[k + 1];
        }
      }
      SplitListJoin(tail);
      calc {
        SplitList(Join(parts, ", "));
        SplitList(parts[0] + rest);
        [parts[0]] + SplitList(TrimStart(rest[1..]));
        [parts[0]] + SplitList(joined);
        [parts[0]] + tail;
        parts;
      }
    }
  }

  lemma JoinCons(parts: seq<string>, delim: string)
    requires |parts| >= 2
    ensures Join(parts, delim) == parts[0] + (delim + Join(parts[1..], delim))
  {
    assert parts[0] + delim + Join(parts[1..], delim) == parts[0] + (delim + Join(parts[1..], delim));
  }

  /** A joined list whose first piece is list-safe does not start with
      whitespace, so the space after a separator is all the splitter skips. */
  lemma TrimStartJoin(parts: seq<string>)
    requires |parts| >= 1 && ListSafe(parts[0])
    ensures TrimStart(" " + Join(parts, ", ")) == Join(parts, ", ")
  {
    var j := Join(parts, ", ");
    if |parts| > 1 {
      JoinCons(parts, ", ");
      if parts[0] == [] {
        assert j[0] == ',';
      } else {
        assert j[0] == parts[0][0];
      }
    }
    assert j == [] || !IsWhitespace(j[0]);
    TrimStartSpace(j);
  }

  lemma TrimStartSpace(s: string)
    requires s == [] || !IsWhitespace(s[0])
    ensures TrimStart(" " + s) == s
  {
    assert IsWhitespace(' ');
    assert (" " + s)[1..] == s;
  }
}
