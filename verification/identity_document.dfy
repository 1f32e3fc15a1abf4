/** A Polish identity document number (ID card or passport) as the ZUS KEDU
    declaration wants it: normalised text and a one-character type code.

    Characters are modelled over ASCII: whitespace is the ASCII part of Python's
    `str.isspace`, upper-casing maps `a`-`z` to `A`-`Z` only, and `\d` is `0`-`9`. */
module IdentityDocuments {
  import opened Wrappers
  import opened Errors

  // ---------------------------------------------------------------------------
  // Characters
  // ---------------------------------------------------------------------------

  /** ASCII characters Python's `str.strip()` removes: space, `\t`, `\n`,
      `\v`, `\f`, `\r` and the separators `\x1c`-`\x1f`. */
  predicate IsSpace(c: char)
  {
    c == ' ' || (9 <= c as int <= 13) || (28 <= c as int <= 31)
  }

  predicate IsLower(c: char)
  {
    'a' <= c <= 'z'
  }

  /** The character class `[A-Z]`. */
  predicate IsUpper(c: char)
  {
    'A' <= c <= 'Z'
  }

  /** The character class `\d`, restricted to ASCII digits. */
  predicate IsDigit(c: char)
  {
    '0' <= c <= '9'
  }

  function UpperChar(c: char): (u: char)
    ensures IsLower(c) ==> IsUpper(u) && u as int - c as int == 'A' as int - 'a' as int
    ensures !IsLower(c) ==> u == c
    ensures !IsLower(u)
  {
    if IsLower(c) then (c as int - 'a' as int + 'A' as int) as char else c
  }

  // ---------------------------------------------------------------------------
  // Normalisation: `strip().upper()`
  // ---------------------------------------------------------------------------

  predicate AllSpace(s: string)
  {
    forall i :: 0 <= i < |s| ==> IsSpace(s[i])
  }

  /** Neither end of `s` is whitespace. */
  predicate IsStripped(s: string)
  {
    s == [] || (!IsSpace(s[0]) && !IsSpace(s[|s| - 1]))
  }

  /** Number of whitespace characters at the start of `s`. */
  function LeadingSpace(s: string): (n: nat)
    ensures n <= |s|
    ensures AllSpace(s[..n])
    ensures n < |s| ==> !IsSpace(s[n])
  {
    if |s| > 0 && IsSpace(s[0]) then 1 + LeadingSpace(s[1..]) else 0
  }

  /** Index where the whitespace at the end of `s` begins. */
  function TrailingStart(s: string): (m: nat)
    ensures m <= |s|
    ensures AllSpace(s[m..])
    ensures m > 0 ==> !IsSpace(s[m - 1])
  {
    if |s| > 0 && IsSpace(s[|s| - 1]) then TrailingStart(s[..|s| - 1]) else |s|
  }

  /** Python's `str.strip()` with no argument. */
  function Strip(s: string): (r: string)
    ensures IsStripped(r)
    ensures exists a :: StripSplit(s, r, a)
  {
    var a := LeadingSpace(s);
    var rest := s[a..];
    var b := TrailingStart(rest);
    assert rest[..b][..] == rest[..b];
    assert s[a + b..] == rest[b..];
    assert StripSplit(s, rest[..b], a);
    rest[..b]
  }

  /** `s` is whitespace, then `r`, then whitespace, with `r` starting at `a`. */
  predicate StripSplit(s: string, r: string, a: int)
  {
    0 <= a <= |s| - |r| && s[a..a + |r|] == r && AllSpace(s[..a]) && AllSpace(s[a + |r|..])
  }

  /** Python's `str.upper()` on ASCII letters. */
  function Upper(s: string): (r: string)
    ensures |r| == |s|
    ensures forall i :: 0 <= i < |s| ==> r[i] == UpperChar(s[i])
  {
    if s == [] then [] else [UpperChar(s[0])] + Upper(s[1..])
  }

  /** `IdentityDocument.number`: the raw input stripped, then upper-cased, so
      no longer than it, with no whitespace at either end and no lower-case
      letter. */
  function Normalise(raw: string): (n: string)
    ensures |n| <= |raw|
    ensures IsStripped(n)
    ensures forall i :: 0 <= i < |n| ==> !IsLower(n[i])
  {
    Upper(Strip(raw))
  }

  /** The stripped text is unique: only one string can be cut out of `s` by
      removing whitespace from both ends and leaving non-space ends. */
  lemma {:induction false} StripUnique(s: string, r: string, a: int)
    requires IsStripped(r) && StripSplit(s, r, a)
    ensures Strip(s) == r
  {
    var t := Strip(s);
    var a' :| StripSplit(s, t, a');
    if r == [] {
      forall i | 0 <= i < |s|
        ensures IsSpace(s[i])
      {
        if i < a {
          assert s[..a][i] == s[i];
        } else {
          assert s[a..][i - a] == s[i];
        }
      }
    }
  }

  /** Stripping a string with no whitespace at either end returns it unchanged. */
  lemma StripStripped(s: string)
    requires IsStripped(s)
    ensures Strip(s) == s
  {
    assert StripSplit(s, s, 0);
    StripUnique(s, s, 0);
  }

  lemma {:induction false} UpperIdempotent(s: string)
    ensures Upper(Upper(s)) == Upper(s)
  {
  }

  /** Normalisation is idempotent: an already normalised number normalises to
      itself. */
  lemma NormaliseIdempotent(raw: string)
    ensures Normalise(Normalise(raw)) == Normalise(raw)
  {
    var n := Normalise(raw);
    StripStripped(n);
    UpperIdempotent(Strip(raw));
  }

  // ---------------------------------------------------------------------------
  // Prefix matching of the two document patterns (`re.match`)
  // ---------------------------------------------------------------------------

  datatype CharClass = UpperLetter | Digit

  /** One repeated character class, `[A-Z]{n}` or `\d{n}`. */
  datatype Atom = Repeat(cls: CharClass, count: nat)

  type Pattern = seq<Atom>

  /** `ID_CARD_REGEX`, `[A-Z]{3}\d{6}`. */
  const IdCardPattern: Pattern := [Repeat(UpperLetter, 3), Repeat(Digit, 6)]

  /** `PASSPORT_REGEX`, `[A-Z]{2}\d{7}`. */
  const PassportPattern: Pattern := [Repeat(UpperLetter, 2), Repeat(Digit, 7)]

  predicate InClass(cls: CharClass, c: char)
  {
    match cls
    case UpperLetter => IsUpper(c)
    case Digit => IsDigit(c)
  }

  /** The first `n` characters of `s` exist and all belong to `cls`. */
  function RunMatches(cls: CharClass, n: nat, s: string): (ok: bool)
    ensures ok <==> n <= |s| && forall i :: 0 <= i < n ==> InClass(cls, s[i])
  {
    if n == 0 then true
    else |s| > 0 && InClass(cls, s[0]) && RunMatches(cls, n - 1, s[1..])
  }

  /** Number of characters a pattern consumes. */
  function Span(p: Pattern): nat
  {
    if p == [] then 0 else p[0].count + Span(p[1..])
  }

  /** `re.match(p, s) is not None`: `p` matches a prefix of `s`, which must
      therefore be at least as long as the pattern's span; whatever follows the
      matched prefix is ignored. */
  function MatchesPrefix(p: Pattern, s: string): (ok: bool)
    ensures ok ==> Span(p) <= |s|
    ensures p != [] && ok ==> RunMatches(p[0].cls, p[0].count, s)
  {
    if p == [] then true
    else RunMatches(p[0].cls, p[0].count, s) && MatchesPrefix(p[1..], s[p[0].count..])
  }

  /** Reference shape of an ID card number: it starts with three upper-case
      letters followed by six digits. */
  predicate IdCardShape(s: string)
  {
    |s| >= 9 && (forall i :: 0 <= i < 3 ==> IsUpper(s[i])) && (forall i :: 3 <= i < 9 ==> IsDigit(s[i]))
  }

  /** Reference shape of a passport number: it starts with two upper-case
      letters followed by seven digits. */
  predicate PassportShape(s: string)
  {
    |s| >= 9 && (forall i :: 0 <= i < 2 ==> IsUpper(s[i])) && (forall i :: 2 <= i < 9 ==> IsDigit(s[i]))
  }

  /** Matching a letters-then-digits pattern is the same as having the reference
      shape on the first `letters + digits` characters. */
  lemma {:induction false} TwoRunMatch(letters: nat, digits: nat, s: string)
    ensures MatchesPrefix([Repeat(UpperLetter, letters), Repeat(Digit, digits)], s)
        <==> letters + digits <= |s|
             && (forall i :: 0 <= i < letters ==> IsUpper(s[i]))
             && (forall i :: letters <= i < letters + digits ==> IsDigit(s[i]))
  {
    var p := [Repeat(UpperLetter, letters), Repeat(Digit, digits)];
    assert p[1..] == [Repeat(Digit, digits)];
    assert p[1..][1..] == [];
    if RunMatches(UpperLetter, letters, s) {
      var t := s[letters..];
      assert MatchesPrefix(p, s) == MatchesPrefix(p[1..], t);
      if RunMatches(Digit, digits, t) {
        assert MatchesPrefix(p[1..][1..], t[digits..]);
      }
      assert MatchesPrefix(p[1..], t) == RunMatches(Digit, digits, t);
      if RunMatches(Digit, digits, t) {
        forall i | letters <= i < letters + digits
          ensures IsDigit(s[i])
        {
          assert t[i - letters] == s[i];
        }
      } else if letters + digits <= |s| {
        var k :| 0 <= k < digits && !IsDigit(t[k]);
        assert t[k] == s[letters + k];
      }
    }
  }

  /** `re.match(ID_CARD_REGEX, s)` succeeds exactly for the ID card shape. */
  lemma IdCardMatch(s: string)
    ensures MatchesPrefix(IdCardPattern, s) <==> IdCardShape(s)
  {
    TwoRunMatch(3, 6, s);
  }

  /** `re.match(PASSPORT_REGEX, s)` succeeds exactly for the passport shape. */
  lemma PassportMatch(s: string)
    ensures MatchesPrefix(PassportPattern, s) <==> PassportShape(s)
  {
    TwoRunMatch(2, 7, s);
  }

  /** No string has both shapes: the third character is a letter in one and a
      digit in the other. */
  lemma ShapesExclusive(s: string)
    ensures !(IdCardShape(s) && PassportShape(s))
  {
    if IdCardShape(s) {
      assert IsUpper(s[2]);
    }
  }

  // ---------------------------------------------------------------------------
  // Classification: `IdentityDocument.type`
  // ---------------------------------------------------------------------------

  const IdCardType: string := "1"
  const PassportType: string := "2"

  /** `IdentityDocument.type`: `"1"` for an ID card, `"2"` for a passport, tried
      in that order on the normalised number; otherwise the error names the raw
      input. */
  function Classify(raw: string): (r: Result<string, Error>)
    ensures r == Ok(IdCardType) <==> IdCardShape(Normalise(raw))
    ensures r == Ok(PassportType) <==> !IdCardShape(Normalise(raw)) && PassportShape(Normalise(raw))
    ensures r.Err? <==> !IdCardShape(Normalise(raw)) && !PassportShape(Normalise(raw))
    ensures r.Err? ==> r.error == UnknownDocumentFormat(raw)
    ensures r.Ok? ==> r.value == IdCardType || r.value == PassportType
  {
    var n := Normalise(raw);
    IdCardMatch(n);
    PassportMatch(n);
    if MatchesPrefix(IdCardPattern, n) then Ok(IdCardType)
    else if MatchesPrefix(PassportPattern, n) then Ok(PassportType)
    else Err(UnknownDocumentFormat(raw))
  }

  /** The same classification with the passport pattern tried first. */
  function ClassifyPassportFirst(raw: string): Result<string, Error>
  {
    var n := Normalise(raw);
    if MatchesPrefix(PassportPattern, n) then Ok(PassportType)
    else if MatchesPrefix(IdCardPattern, n) then Ok(IdCardType)
    else Err(UnknownDocumentFormat(raw))
  }

  /** Because the two formats exclude each other, the order in which they are
      tried does not affect the result. */
  lemma ClassifyOrderIrrelevant(raw: string)
    ensures ClassifyPassportFirst(raw) == Classify(raw)
  {
    var n := Normalise(raw);
    IdCardMatch(n);
    PassportMatch(n);
    ShapesExclusive(n);
  }

  /** The classification depends only on the normalised number, so raw inputs
      differing in surrounding whitespace or letter case classify alike. */
  lemma ClassifyOnlyByNumber(raw1: string, raw2: string)
    requires Normalise(raw1) == Normalise(raw2)
    ensures Classify(raw1).Ok? <==> Classify(raw2).Ok?
    ensures Classify(raw1).Ok? ==> Classify(raw1) == Classify(raw2)
  {
  }

  /** Classifying an already normalised number gives the same code as
      classifying the raw input. */
  lemma ClassifyNormalised(raw: string)
    ensures Classify(Normalise(raw)).Ok? <==> Classify(raw).Ok?
    ensures Classify(raw).Ok? ==> Classify(Normalise(raw)) == Classify(raw)
  {
    NormaliseIdempotent(raw);
  }

  // ---------------------------------------------------------------------------
  // The memoising object
  // ---------------------------------------------------------------------------

  /** An `IdentityDocument` instance: the raw input and the two lazily filled
      caches `_number` and `_type`. */
  datatype IdentityDocument = IdentityDocument(raw: string, cachedNumber: Option<string>, cachedType: Option<string>)

  /** A freshly constructed instance has empty caches. */
  function New(raw: string): (d: IdentityDocument)
    ensures CacheValid(d) && d.raw == raw
  {
    IdentityDocument(raw, None, None)
  }

  /** Every filled cache holds the value the pure definition gives, and the
      type is only ever cached after the number. */
  predicate CacheValid(d: IdentityDocument)
  {
    && (d.cachedNumber.Some? ==> d.cachedNumber.value == Normalise(d.raw))
    && (d.cachedType.Some? ==> Classify(d.raw) == Ok(d.cachedType.value))
    && (d.cachedType.Some? ==> d.cachedNumber.Some?)
  }

  /** Reading the `number` property: the value and the instance afterwards. */
  function ReadNumber(d: IdentityDocument): (res: (string, IdentityDocument))
    requires CacheValid(d)
    ensures res.0 == Normalise(d.raw)
    ensures res.1.raw == d.raw && res.1.cachedNumber == Some(res.0) && CacheValid(res.1)
  {
    match d.cachedNumber
    case Some(n) => (n, d)
    case None =>
      var n := Normalise(d.raw);
      (n, d.(cachedNumber := Some(n)))
  }

  /** Reading the `type` property: the value (or the raised error) and the
      instance afterwards.  The number is cached first, even when the
      classification then fails; a cached type is returned as it is. */
  function ReadType(d: IdentityDocument): (res: (Result<string, Error>, IdentityDocument))
    requires CacheValid(d)
    ensures res.0 == Classify(d.raw)
    ensures res.1.raw == d.raw && res.1.cachedNumber.Some? && CacheValid(res.1)
    ensures res.0.Ok? <==> res.1.cachedType.Some?
    ensures d.cachedType.Some? ==> res.1 == d
  {
    match d.cachedType
    case Some(t) => (Ok(t), d)
    case None =>
      var (n, d1) := ReadNumber(d);
      if MatchesPrefix(IdCardPattern, n) then (Ok(IdCardType), d1.(cachedType := Some(IdCardType)))
      else if MatchesPrefix(PassportPattern, n) then (Ok(PassportType), d1.(cachedType := Some(PassportType)))
      else (Err(UnknownDocumentFormat(d.raw)), d1)
  }

  /** Repeated reads of either property return the same value as the first
      read, whatever was cached before. */
  lemma RepeatedReadsAgree(d: IdentityDocument)
    requires CacheValid(d)
    ensures ReadNumber(ReadNumber(d).1).0 == ReadNumber(d).0
    ensures ReadType(ReadType(d).1).0 == ReadType(d).0
    ensures ReadType(ReadNumber(d).1).0 == ReadType(d).0
  {
  }
}
