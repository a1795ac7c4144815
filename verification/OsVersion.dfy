/** The OS version and patch level: packed into one word by mkbootimg.py, unpacked into text by
    remux-boot-image.py, and parsed from text again by mkbootimg.py. */
module OsVersion {
  import opened Arithmetic

  function Digit(n: nat): char
    requires n < 10
  {
    '0' + n as char
  }

  predicate IsDigit(c: char) {
    '0' <= c <= '9'
  }

  function DigitValue(c: char): nat
    requires IsDigit(c)
  {
    (c - '0') as nat
  }

  /** "%d" for a number of at most three digits. */
  function Decimal(n: nat): string
    requires n < 1000
  {
    if n < 10 then [Digit(n)]
    else if n < 100 then [Digit(n / 10), Digit(n % 10)]
    else [Digit(n / 100), Digit(n / 10 % 10), Digit(n % 10)]
  }

  /** "%02d" */
  function TwoDigits(n: nat): string
    requires n < 100
  {
    [Digit(n / 10), Digit(n % 10)]
  }

  /** A year in four digits. */
  function Year(n: nat): string
    requires n < 10000
  {
    [Digit(n / 1000), Digit(n / 100 % 10), Digit(n / 10 % 10), Digit(n % 10)]
  }

  datatype Version = Version(a: nat, b: nat, c: nat)

  function VersionText(v: Version): string
    requires v.a < 1000 && v.b < 1000 && v.c < 1000
  {
    Decimal(v.a) + "." + Decimal(v.b) + "." + Decimal(v.c)
  }

  function PatchText(year: nat, month: nat): string
    requires year < 10000 && month < 100
  {
    Year(year) + "-" + TwoDigits(month)
  }

  // ----- Packing -----

  function PackVersion(v: Version): nat {
    v.a * 16384 + v.b * 128 + v.c
  }

  function Word(version: nat, patch: nat): nat {
    version * 2048 + patch
  }

  /** decode_os_version: shifts and masks of 7, 7, 7, 7 and 4 bits. */
  function DecodeVersion(word: nat): (v: Version)
    ensures v.a < 128 && v.b < 128 && v.c < 128
  {
    Version(word / 2048 / 16384 % 128, word / 2048 / 128 % 128, word / 2048 % 128)
  }

  function DecodeYear(word: nat): (y: nat)
    ensures 2000 <= y < 2128
  {
    2000 + word % 2048 / 16
  }

  function DecodeMonth(word: nat): (m: nat)
    ensures m < 16
  {
    word % 2048 % 16
  }

  // ----- Parsing -----

  /** How many digits \d{1,max} takes at `i`: as many as there are, at most `max`. */
  function DigitsAt(s: string, i: nat, max: nat): (n: nat)
    requires i <= |s|
    ensures n <= max && i + n <= |s|
    ensures forall k: nat | i <= k < i + n :: IsDigit(s[k])
    decreases max
  {
    if max == 0 || i == |s| || !IsDigit(s[i]) then 0 else 1 + DigitsAt(s, i + 1, max - 1)
  }

  /** int(s[i:i+n]) */
  function Value(s: string, i: nat, n: nat): nat
    requires i + n <= |s| && forall k: nat | i <= k < i + n :: IsDigit(s[k])
  {
    if n == 0 then 0 else Value(s, i, n - 1) * 10 + DigitValue(s[i + n - 1])
  }

  datatype Parsed = Ok(value: nat) | AssertionError

  /** The optional part ".digits" at `i`. */
  function DottedAt(s: string, i: nat): (n: nat)
    requires i <= |s|
    ensures n <= 3 && (n > 0 ==> i + 1 + n <= |s| && forall k: nat | i + 1 <= k < i + 1 + n :: IsDigit(s[k]))
  {
    if i < |s| && s[i] == '.' then DigitsAt(s, i + 1, 3) else 0
  }

  /** parse_os_version: up to three dotted numbers; text that does not start with one gives 0. */
  function ParseVersion(s: string): Parsed {
    var na := DigitsAt(s, 0, 3);
    if na == 0 then Ok(0)
    else
      var nb := DottedAt(s, na);
      var nc := if nb == 0 then 0 else DottedAt(s, na + 1 + nb);
      var a := Value(s, 0, na);
      var b := if nb == 0 then 0 else Value(s, na + 1, nb);
      var c := if nc == 0 then 0 else Value(s, na + 1 + nb + 1, nc);
      if a < 128 && b < 128 && c < 128 then Ok(PackVersion(Version(a, b, c))) else AssertionError
  }

  /** parse_os_patch_level: YYYY-MM, with whatever follows ignored. */
  function ParsePatch(s: string): Parsed {
    if DigitsAt(s, 0, 4) == 4 && 4 < |s| && s[4] == '-' && DigitsAt(s, 5, 2) == 2 then
      var y, m := Value(s, 0, 4), Value(s, 5, 2);
      if 2000 <= y < 2128 && 0 < m <= 12 then Ok((y - 2000) * 16 + m) else AssertionError
    else Ok(0)
  }

  // ----- Round trips -----

  lemma DigitOf(d: nat)
    requires d < 10
    ensures IsDigit(Digit(d)) && DigitValue(Digit(d)) == d
  {
  }

  lemma TwoDigitsAt(s: string, i: nat, max: nat)
    requires max >= 2 && i + 2 <= |s| && IsDigit(s[i]) && IsDigit(s[i + 1])
    ensures DigitsAt(s, i, max) == 2 + DigitsAt(s, i + 2, max - 2)
    ensures Value(s, i, 2) == 10 * DigitValue(s[i]) + DigitValue(s[i + 1])
  {
    assert DigitsAt(s, i + 1, max - 1) == 1 + DigitsAt(s, i + 2, max - 2);
    assert Value(s, i, 1) == DigitValue(s[i]);
  }

  lemma ThreeDigitsAt(s: string, i: nat, max: nat)
    requires max >= 3 && i + 3 <= |s| && IsDigit(s[i]) && IsDigit(s[i + 1]) && IsDigit(s[i + 2])
    ensures DigitsAt(s, i, max) == 3 + DigitsAt(s, i + 3, max - 3)
    ensures Value(s, i, 3) == 100 * DigitValue(s[i]) + 10 * DigitValue(s[i + 1]) + DigitValue(s[i + 2])
  {
    TwoDigitsAt(s, i, max);
    assert DigitsAt(s, i + 2, max - 2) == 1 + DigitsAt(s, i + 3, max - 3);
  }

  // ----- Every text of a version -----

  /** One to three digits, possibly with leading zeros. */
  predicate Numeral(d: string) {
    1 <= |d| <= 3 && forall k: nat | k < |d| :: IsDigit(d[k])
  }

  function NumberOf(d: string): nat
    requires Numeral(d)
  {
    match |d|
    case 1 => DigitValue(d[0])
    case 2 => 10 * DigitValue(d[0]) + DigitValue(d[1])
    case _ => 100 * DigitValue(d[0]) + 10 * DigitValue(d[1]) + DigitValue(d[2])
  }

  /** No digit of `rest` can belong to the numeral before it. */
  predicate Ends(d: string, rest: string) {
    |d| == 3 || rest == [] || !IsDigit(rest[0])
  }

  /** Another number follows. */
  predicate Continues(rest: string) {
    |rest| >= 2 && rest[0] == '.' && IsDigit(rest[1])
  }

  /** "%d" is the shortest numeral of the number. */
  lemma DigitsOf(n: nat)
    requires n < 1000
    ensures Numeral(Decimal(n)) && NumberOf(Decimal(n)) == n
    ensures |Decimal(n)| > 1 ==> Decimal(n)[0] != '0'
  {
    DigitOf(n % 10);
    if n >= 100 {
      DigitOf(n / 100);
      DigitOf(n / 10 % 10);
    } else if n >= 10 {
      DigitOf(n / 10);
    }
  }

  lemma {:induction false} AllDigitsAt(s: string, i: nat, n: nat, max: nat)
    requires i + n <= |s| && n <= max && forall k: nat | i <= k < i + n :: IsDigit(s[k])
    requires n == max || i + n == |s| || !IsDigit(s[i + n])
    ensures DigitsAt(s, i, max) == n
    decreases n
  {
    if n > 0 {
      AllDigitsAt(s, i + 1, n - 1, max - 1);
    }
  }

  lemma ValueAt(s: string, i: nat, d: string)
    requires Numeral(d) && i + |d| <= |s| && forall k: nat | k < |d| :: s[i + k] == d[k]
    ensures forall k: nat | i <= k < i + |d| :: IsDigit(s[k])
    ensures Value(s, i, |d|) == NumberOf(d)
  {
    assert forall k: nat | i <= k < i + |d| :: s[k] == d[k - i];
    assert s[i + 0] == d[0];
    assert Value(s, i, 0) == 0 && Value(s, i, 1) == DigitValue(d[0]);
    if |d| == 2 {
      TwoDigitsAt(s, i, 2);
    } else if |d| == 3 {
      ThreeDigitsAt(s, i, 3);
    }
  }

  lemma NumeralBetween(s: string, before: string, d: string, after: string)
    requires Numeral(d) && Ends(d, after) && s == before + d + after
    ensures DigitsAt(s, |before|, 3) == |d|
    ensures forall k: nat | |before| <= k < |before| + |d| :: IsDigit(s[k])
    ensures Value(s, |before|, |d|) == NumberOf(d)
  {
    var i := |before|;
    assert forall k: nat | k < |d| :: s[i + k] == d[k];
    ValueAt(s, i, d);
    if after != [] {
      assert s[i + |d|] == after[0];
    }
    AllDigitsAt(s, i, |d|, 3);
  }

  lemma NoNumberAt(s: string, before: string, rest: string)
    requires s == before + rest && !Continues(rest)
    ensures DottedAt(s, |before|) == 0
  {
    if rest != [] {
      assert s[|before|] == rest[0];
      if |rest| >= 2 {
        assert s[|before| + 1] == rest[1];
      }
    }
  }

  lemma NumberAt(s: string, before: string, d: string, after: string)
    requires Numeral(d) && Ends(d, after) && s == before + "." + d + after
    ensures DottedAt(s, |before|) == |d| && Value(s, |before| + 1, |d|) == NumberOf(d)
  {
    assert s[|before|] == '.';
    NumeralBetween(s, before + ".", d, after);
  }

  /** Seven bits for each number. */
  function Packed(a: nat, b: nat, c: nat): Parsed {
    if a < 128 && b < 128 && c < 128 then Ok(PackVersion(Version(a, b, c))) else AssertionError
  }

  /** Text that starts with no digit packs to 0, without an error. */
  lemma ParseNoVersion(s: string)
    requires s == [] || !IsDigit(s[0])
    ensures ParseVersion(s) == Ok(0)
  {
  }

  /** A single number, whatever follows it. */
  lemma ParseOneNumber(d: string, rest: string)
    requires Numeral(d) && Ends(d, rest) && !Continues(rest)
    ensures ParseVersion(d + rest) == Packed(NumberOf(d), 0, 0)
  {
    NumeralBetween(d + rest, "", d, rest);
    NoNumberAt(d + rest, d, rest);
  }

  lemma TwoParts(d: string, e: string, rest: string)
    ensures var s := d + "." + e + rest;
            && s == "" + d + ("." + e + rest)
            && s == (d + "." + e) + rest
  {
  }

  lemma ParseTwoNumbers(d: string, e: string, rest: string)
    requires Numeral(d) && Numeral(e) && Ends(e, rest) && !Continues(rest)
    ensures ParseVersion(d + "." + e + rest) == Packed(NumberOf(d), NumberOf(e), 0)
  {
    var s := d + "." + e + rest;
    TwoParts(d, e, rest);
    NumeralBetween(s, "", d, "." + e + rest);
    NumberAt(s, d, e, rest);
    NoNumberAt(s, d + "." + e, rest);
  }

  lemma AllParts(d: string, e: string, f: string, rest: string)
    ensures var s := d + "." + e + "." + f + rest;
            && s == "" + d + ("." + e + "." + f + rest)
            && s == d + "." + e + ("." + f + rest)
            && s == (d + "." + e) + "." + f + rest
            && |d + "." + e| == |d| + 1 + |e|
  {
  }

  lemma ParsedParts(s: string, na: nat, nb: nat, nc: nat, d: string, e: string, f: string)
    requires 0 < na == |d| && 0 < nb == |e| && 0 < nc == |f| && na + 1 + nb <= |s|
    requires na == DigitsAt(s, 0, 3) && nb == DottedAt(s, na) && nc == DottedAt(s, na + 1 + nb)
    requires Numeral(d) && Numeral(e) && Numeral(f)
    requires Value(s, 0, na) == NumberOf(d) && Value(s, na + 1, nb) == NumberOf(e)
    requires Value(s, na + 1 + nb + 1, nc) == NumberOf(f)
    ensures ParseVersion(s) == Packed(NumberOf(d), NumberOf(e), NumberOf(f))
  {
  }

  lemma ParseThreeNumbers(d: string, e: string, f: string, rest: string)
    requires Numeral(d) && Numeral(e) && Numeral(f) && Ends(f, rest)
    ensures ParseVersion(d + "." + e + "." + f + rest) == Packed(NumberOf(d), NumberOf(e), NumberOf(f))
  {
    var s := d + "." + e + "." + f + rest;
    AllParts(d, e, f, rest);
    NumeralBetween(s, "", d, "." + e + "." + f + rest);
    NumberAt(s, d, e, "." + f + rest);
    NumberAt(s, d + "." + e, f, rest);
    ParsedParts(s, |d|, |e|, |f|, d, e, f);
  }

  /** Parsing the text of a version packs its numbers, and raises an error when one needs eight bits. */
  lemma ParseVersionText(v: Version)
    requires v.a < 1000 && v.b < 1000 && v.c < 1000
    ensures ParseVersion(VersionText(v)) ==
              if v.a < 128 && v.b < 128 && v.c < 128 then Ok(PackVersion(v)) else AssertionError
  {
    DigitsOf(v.a);
    DigitsOf(v.b);
    DigitsOf(v.c);
    ParseThreeNumbers(Decimal(v.a), Decimal(v.b), Decimal(v.c), "");
    assert VersionText(v) + "" == VersionText(v);
  }

  lemma FourDigits(year: nat)
    requires year < 10000
    ensures var a, b, c, d := year / 1000, year / 100 % 10, year / 10 % 10, year % 10;
            a < 10 && year == 1000 * a + 100 * b + 10 * c + d
  {
    var h, t := year / 100, year / 10;
    assert year == 10 * t + year % 10 && t == 10 * h + t % 10;
    assert h == 10 * (year / 1000) + h % 10;
  }

  lemma YearDigits(year: nat)
    requires year < 10000
    ensures forall k: nat | k < 4 :: IsDigit(Year(year)[k])
    ensures var y := Year(year);
            year == 1000 * DigitValue(y[0]) + 100 * DigitValue(y[1]) + 10 * DigitValue(y[2]) + DigitValue(y[3])
  {
    FourDigits(year);
    DigitOf(year / 1000);
    DigitOf(year / 100 % 10);
    DigitOf(year / 10 % 10);
    DigitOf(year % 10);
  }

  lemma MonthDigits(month: nat)
    requires month < 100
    ensures var m := TwoDigits(month);
            IsDigit(m[0]) && IsDigit(m[1]) && month == 10 * DigitValue(m[0]) + DigitValue(m[1])
  {
    DigitOf(month / 10);
    DigitOf(month % 10);
  }

  lemma FourDigitsAt(s: string, i: nat)
    requires i + 4 <= |s| && IsDigit(s[i]) && IsDigit(s[i + 1]) && IsDigit(s[i + 2]) && IsDigit(s[i + 3])
    ensures DigitsAt(s, i, 4) == 4
    ensures Value(s, i, 4) == 1000 * DigitValue(s[i]) + 100 * DigitValue(s[i + 1])
                              + 10 * DigitValue(s[i + 2]) + DigitValue(s[i + 3])
  {
    ThreeDigitsAt(s, i, 4);
    assert DigitsAt(s, i + 3, 1) == 1 + DigitsAt(s, i + 4, 0);
  }

  /** Four digits, a hyphen and two digits; then anything. */
  predicate MatchesPatch(s: string) {
    && |s| >= 7
    && IsDigit(s[0]) && IsDigit(s[1]) && IsDigit(s[2]) && IsDigit(s[3]) && s[4] == '-'
    && IsDigit(s[5]) && IsDigit(s[6])
  }

  /** A text that does not match packs to 0, and only such a text does. */
  lemma ParseNoPatch(s: string)
    ensures ParsePatch(s) == Ok(0) <==> !MatchesPatch(s)
  {
    if MatchesPatch(s) {
      FourDigitsAt(s, 0);
      TwoDigitsAt(s, 5, 2);
    }
  }

  /** Parsing the text of a patch level, with whatever follows, for example a day, packs year and month, and
      raises an error for a year that does not fit or a month that is none. */
  lemma ParsePatchText(year: nat, month: nat, rest: string)
    requires year < 10000 && month < 100
    ensures ParsePatch(PatchText(year, month) + rest) ==
              if 2000 <= year < 2128 && 0 < month <= 12 then Ok((year - 2000) * 16 + month) else AssertionError
  {
    var s := PatchText(year, month) + rest;
    assert |s| >= 7 && s[..4] == Year(year) && s[4] == '-' && s[5..7] == TwoDigits(month);
    YearDigits(year);
    MonthDigits(month);
    FourDigitsAt(s, 0);
    TwoDigitsAt(s, 5, 2);
  }

  lemma SplitVersion(v: Version)
    requires v.a < 128 && v.b < 128 && v.c < 128
    ensures PackVersion(v) / 16384 == v.a && PackVersion(v) / 128 % 128 == v.b && PackVersion(v) % 128 == v.c
  {
    DivModUnique(PackVersion(v), v.a, 16384, v.b * 128 + v.c);
    DivModUnique(PackVersion(v), v.a * 128 + v.b, 128, v.c);
    DivModUnique(v.a * 128 + v.b, v.a, 128, v.b);
  }

  lemma JoinVersion(n: nat)
    requires n < 0x20_0000
    ensures n == PackVersion(Version(n / 16384 % 128, n / 128 % 128, n % 128))
  {
    var q := n / 128;
    assert n == q * 128 + n % 128 && q == q / 128 * 128 + q % 128;
    DivModUnique(n, q / 128, 16384, q % 128 * 128 + n % 128);
    DivModUnique(n / 16384, 0, 128, n / 16384);
  }

  /** Decoding a packed word gives back its parts. */
  lemma DecodePacked(v: Version, year: nat, month: nat)
    requires v.a < 128 && v.b < 128 && v.c < 128 && 2000 <= year < 2128 && month < 16
    ensures var word := Word(PackVersion(v), (year - 2000) * 16 + month);
            DecodeVersion(word) == v && DecodeYear(word) == year && DecodeMonth(word) == month
  {
    var patch := (year - 2000) * 16 + month;
    DivModUnique(Word(PackVersion(v), patch), PackVersion(v), 2048, patch);
    SplitVersion(v);
    DivModUnique(patch, year - 2000, 16, month);
    DivModUnique(v.a, 0, 128, v.a);
  }

  /** Unpacking a header word to text and packing the text again gives the same word exactly when its
      month is a month; otherwise the patch level is refused. */
  lemma WordRoundTrip(word: nat)
    requires word < 0x1_0000_0000
    ensures var version := ParseVersion(VersionText(DecodeVersion(word)));
            var patch := ParsePatch(PatchText(DecodeYear(word), DecodeMonth(word)));
            && version.Ok?
            && (if 0 < DecodeMonth(word) <= 12 then patch.Ok? && Word(version.value, patch.value) == word
                else patch == AssertionError)
  {
    ParseVersionText(DecodeVersion(word));
    ParsePatchText(DecodeYear(word), DecodeMonth(word), "");
    assert PatchText(DecodeYear(word), DecodeMonth(word)) + "" == PatchText(DecodeYear(word), DecodeMonth(word));
    assert word / 2048 < 0x20_0000;
    JoinVersion(word / 2048);
    assert word % 2048 == (DecodeYear(word) - 2000) * 16 + DecodeMonth(word);
  }

  /** The word that the texts of a version and a patch level are packed into. */
  function PackTexts(version: string, patch: string): Parsed {
    var v, p := ParseVersion(version), ParsePatch(patch);
    if v.Ok? && p.Ok? then Ok(Word(v.value, p.value)) else AssertionError
  }

  lemma PackTextsIs(version: string, patch: string, v: nat, p: nat)
    requires ParseVersion(version) == Ok(v) && ParsePatch(patch) == Ok(p)
    ensures PackTexts(version, patch) == Ok(Word(v, p))
  {
  }

  lemma ParsePatchAlone(year: nat, month: nat) returns (p: nat)
    requires 2000 <= year < 2128 && 0 < month <= 12
    ensures p == (year - 2000) * 16 + month && ParsePatch(PatchText(year, month)) == Ok(p)
  {
    p := (year - 2000) * 16 + month;
    ParsePatchText(year, month, "");
    assert PatchText(year, month) + "" == PatchText(year, month);
  }

  /** The numbers of a version and a patch level that are accepted come back when their word is decoded. */
  lemma TextRoundTrip(v: Version, year: nat, month: nat) returns (word: nat)
    requires v.a < 128 && v.b < 128 && v.c < 128 && 2000 <= year < 2128 && 0 < month <= 12
    ensures PackTexts(VersionText(v), PatchText(year, month)) == Ok(word)
    ensures DecodeVersion(word) == v && DecodeYear(word) == year && DecodeMonth(word) == month
  {
    ParseVersionText(v);
    var p := ParsePatchAlone(year, month);
    PackTextsIs(VersionText(v), PatchText(year, month), PackVersion(v), p);
    word := Word(PackVersion(v), p);
    DecodePacked(v, year, month);
  }
}
