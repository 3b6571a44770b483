/** The field rules of os/note_metadata_format.c: titles, tags, dates and names. */
module NoteFields {
  import opened Bytes
  import opened Utf8
  import BufferText
  import BlockGrammar
  import Segmentation
  import EditorText

  const TITLE_MAX: nat := 256
  const TAG_MAX: nat := 63
  const DATE_LENGTH: nat := 10
  const DASH: Byte := '-' as int

  predicate Control(v: Scalar) {
    v < 0x20 || 0x7F <= v <= 0x9F
  }

  /** The fixed White_Space set of a tag. */
  predicate Space(v: Scalar) {
    v == 0x20 || v == 0x85 || v == 0xA0 || v == 0x1680 || 0x2000 <= v <= 0x200A || v == 0x2028 || v == 0x2029
    || v == 0x202F || v == 0x205F || v == 0x3000
  }

  predicate Permitted(v: Scalar, forTag: bool) {
    !Control(v) && v != 0xFEFF && (forTag ==> !Space(v))
  }

  predicate AllPermitted(vs: seq<Scalar>, forTag: bool) {
    forall k | 0 <= k < |vs| :: Permitted(vs[k], forTag)
  }

  /** Strict UTF-8 of permitted scalars only. */
  ghost predicate Text(s: seq<Byte>, forTag: bool) {
    exists vs: seq<Scalar> :: EncodeAll(vs) == s && AllPermitted(vs, forTag)
  }

  ghost predicate TitleValid(s: seq<Byte>) {
    1 <= |s| <= TITLE_MAX && Text(s, false)
  }

  ghost predicate TagValid(s: seq<Byte>) {
    1 <= |s| <= TAG_MAX && Text(s, true)
  }

  function DaysIn(year: nat, month: nat): nat {
    if month == 2 then (if (year % 4 == 0 && year % 100 != 0) || year % 400 == 0 then 29 else 28)
    else if month == 4 || month == 6 || month == 9 || month == 11 then 30
    else 31
  }

  function Digit(n: nat): Byte {
    48 + n % 10
  }

  /** The ten bytes YYYY-MM-DD. */
  function DateText(year: nat, month: nat, day: nat): seq<Byte> {
    [Digit(year / 1000), Digit(year / 100), Digit(year / 10), Digit(year), DASH,
     Digit(month / 10), Digit(month), DASH, Digit(day / 10), Digit(day)]
  }

  predicate RealDate(year: nat, month: nat, day: nat) {
    1 <= year <= 9999 && 1 <= month <= 12 && 1 <= day <= DaysIn(year, month)
  }

  /** Exactly the spellings of the real Gregorian dates of the years 1 to 9999. */
  ghost predicate DateValid(s: seq<Byte>) {
    exists year, month, day :: RealDate(year, month, day) && s == DateText(year, month, day)
  }

  /** A title holds what can be typed, a tag the same without white space; neither holds a byte order mark. */
  lemma PermittedMeaning(v: Scalar)
    ensures Permitted(v, false) <==> EditorText.Typed([v]) && v != 0xFEFF
    ensures Permitted(v, true) <==> Permitted(v, false) && !Segmentation.WhiteSpace(v)
  {
    assert [v][0] == v;
  }

  // ----- valid values hold no LF

  lemma {:induction false} NoLineFeed(vs: seq<Scalar>, forTag: bool)
    requires AllPermitted(vs, forTag)
    ensures LF !in EncodeAll(vs)
  {
    hide Encode;
    if vs != [] {
      NoLineFeed(vs[1..], forTag);
      NoLineFeedIn(vs[0]);
      assert Permitted(vs[0], forTag);
    }
  }

  lemma NoLineFeedIn(v: Scalar)
    requires v != LF
    ensures LF !in Encode(v)
  {
    EncodeShape(v);
  }

  lemma TextNoLineFeed(s: seq<Byte>, forTag: bool)
    requires Text(s, forTag)
    ensures LF !in s
  {
    var vs: seq<Scalar> :| EncodeAll(vs) == s && AllPermitted(vs, forTag);
    NoLineFeed(vs, forTag);
  }

  lemma NameNoLineFeed(s: seq<Byte>)
    requires BlockGrammar.NameValid(s)
    ensures LF !in s
  {
    assert !BlockGrammar.NameByte(LF);
  }

  lemma DateNoLineFeed(s: seq<Byte>)
    requires DateValid(s)
    ensures LF !in s && |s| == DATE_LENGTH
  {
  }

  // ----- text_is_valid

  /** The scan stands at the boundary after `done`. */
  ghost predicate Scanned(s: seq<Byte>, offset: nat, done: seq<Scalar>, forTag: bool) {
    offset <= |s| && s[..offset] == EncodeAll(done) && AllPermitted(done, forTag)
  }

  lemma ScanStep(s: seq<Byte>, offset: nat, done: seq<Scalar>, v: Scalar, forTag: bool)
    requires Scanned(s, offset, done, forTag) && Encode(v) <= s[offset..] && Permitted(v, forTag)
    ensures Scanned(s, offset + |Encode(v)|, done + [v], forTag)
  {
    hide Encode, EncodeAll, Permitted;
    var n := |Encode(v)|;
    assert s[..offset + n] == s[..offset] + s[offset..][..n];
    EncodeAllSnoc(done, v);
  }

  lemma ScanReject(s: seq<Byte>, offset: nat, done: seq<Scalar>, forTag: bool)
    requires Scanned(s, offset, done, forTag) && offset < |s|
    requires forall v: Scalar :: Encode(v) <= s[offset..] ==> !Permitted(v, forTag)
    ensures !Text(s, forTag)
  {
    hide Encode, Permitted;
    assert s == EncodeAll(done) + s[offset..];
    forall vs: seq<Scalar> | EncodeAll(vs) == s
      ensures !AllPermitted(vs, forTag)
    {
      Cancel(done, s[offset..], vs);
      var next := vs[|done|..];
      assert next != [] && Encode(next[0]) <= s[offset..];
      assert vs[|done|] == next[0];
    }
  }

  method TextIsValid(bytes: seq<Byte>, forTag: bool) returns (valid: bool)
    ensures valid <==> Text(bytes, forTag)
  {
    hide Encode, EncodeAll, AllPermitted;
    var offset := 0;
    ghost var done: seq<Scalar> := [];
    assert Scanned(bytes, 0, [], forTag) by { ScanStart(bytes, forTag); }
    while offset < |bytes|
      invariant Scanned(bytes, offset, done, forTag)
    {
      var used, codePoint := BufferText.DecodeScalar(bytes[offset..]);
      if used == 0 {
        ScanReject(bytes, offset, done, forTag);
        return false;
      }
      if Control(codePoint) || (forTag && Space(codePoint)) || codePoint == 0xFEFF {
        forall v: Scalar | Encode(v) <= bytes[offset..]
          ensures !Permitted(v, forTag)
        {
          PrefixFree(v, codePoint, bytes[offset..]);
        }
        ScanReject(bytes, offset, done, forTag);
        return false;
      }
      ScanStep(bytes, offset, done, codePoint, forTag);
      offset, done := offset + used, done + [codePoint as Scalar];
    }
    assert bytes[..offset] == bytes;
    return true;
  }

  lemma ScanStart(s: seq<Byte>, forTag: bool)
    ensures Scanned(s, 0, [], forTag)
  {
  }

  method TitleIsValid(bytes: seq<Byte>) returns (valid: bool)
    ensures valid <==> TitleValid(bytes)
  {
    if |bytes| < 1 || |bytes| > TITLE_MAX {
      return false;
    }
    valid := TextIsValid(bytes, false);
  }

  method TagIsValid(bytes: seq<Byte>) returns (valid: bool)
    ensures valid <==> TagValid(bytes)
  {
    if |bytes| < 1 || |bytes| > TAG_MAX {
      return false;
    }
    valid := TextIsValid(bytes, true);
  }

  // ----- yan_note_date_valid

  const POSITIONS: seq<nat> := [0, 1, 2, 3, 5, 6, 8, 9]
  const DAYS: seq<nat> := [31, 28, 31, 30, 31, 30, 31, 31, 30, 31, 30, 31]

  function DaysInMonth(year: nat, month: nat): nat
    requires 1 <= month <= 12
  {
    if month == 2 && ((year % 4 == 0 && year % 100 != 0) || year % 400 == 0) then 29 else DAYS[month - 1]
  }

  method DateIsValid(bytes: seq<Byte>) returns (valid: bool)
    ensures valid <==> DateValid(bytes)
  {
    hide RealDate;
    if |bytes| != DATE_LENGTH || bytes[4] != DASH || bytes[7] != DASH {
      return false;
    }
    var digits: seq<nat> := [];
    for i := 0 to 8
      invariant |digits| == i
      invariant forall k | 0 <= k < i :: digits[k] <= 9 && bytes[POSITIONS[k]] == digits[k] + 48
    {
      var byte := bytes[POSITIONS[i]];
      if byte < 48 || byte > 57 {
        NotADate(bytes, POSITIONS[i]);
        return false;
      }
      digits := digits + [byte - 48];
    }
    var year := digits[0] * 1000 + digits[1] * 100 + digits[2] * 10 + digits[3];
    var month := digits[4] * 10 + digits[5];
    var day := digits[6] * 10 + digits[7];
    assert bytes == DateText(year, month, day) && year <= 9999 && month <= 99 && day <= 99 by {
      Spelled(digits, bytes);
    }
    OnlyDate(bytes, year, month, day);
    if year < 1 || year > 9999 || month < 1 || month > 12 || day < 1 {
      DateRange(year, month, day);
      return false;
    }
    DateRange(year, month, day);
    return day <= DaysInMonth(year, month);
  }

  lemma DateRange(year: nat, month: nat, day: nat)
    ensures RealDate(year, month, day) <==>
            1 <= year <= 9999 && 1 <= month <= 12 && 1 <= day && day <= DaysInMonth(year, month)
  {
  }

  lemma NotADate(s: seq<Byte>, k: nat)
    requires k < |s| && k != 4 && k != 7 && !(48 <= s[k] <= 57)
    ensures !DateValid(s)
  {
  }

  lemma DigitOf(a: nat, d: nat)
    requires d <= 9
    ensures Digit(10 * a + d) == 48 + d && (10 * a + d) / 10 == a
  {
  }

  lemma Spelled(d: seq<nat>, s: seq<Byte>)
    requires |d| == 8 && |s| == DATE_LENGTH && s[4] == s[7] == DASH
    requires forall k | 0 <= k < 8 :: d[k] <= 9 && s[POSITIONS[k]] == d[k] + 48
    ensures s == DateText(d[0] * 1000 + d[1] * 100 + d[2] * 10 + d[3], d[4] * 10 + d[5], d[6] * 10 + d[7])
  {
    hide Digit;
    assert POSITIONS[0] == 0 && POSITIONS[1] == 1 && POSITIONS[2] == 2 && POSITIONS[3] == 3
        && POSITIONS[4] == 5 && POSITIONS[5] == 6 && POSITIONS[6] == 8 && POSITIONS[7] == 9;
    var a, b := d[0] * 10 + d[1], d[0] * 100 + d[1] * 10 + d[2];
    var year := d[0] * 1000 + d[1] * 100 + d[2] * 10 + d[3];
    DigitOf(b, d[3]);
    DigitOf(a, d[2]);
    DigitOf(d[0], d[1]);
    DigitOf(0, d[0]);
    Quotients(year);
    DigitOf(d[4], d[5]);
    DigitOf(0, d[4]);
    DigitOf(d[6], d[7]);
    DigitOf(0, d[6]);
  }

  lemma Quotients(n: nat)
    ensures n / 100 == n / 10 / 10 && n / 1000 == n / 10 / 10 / 10
  {
  }

  /** A spelling names one date. */
  lemma OnlyDate(s: seq<Byte>, year: nat, month: nat, day: nat)
    requires year <= 9999 && month <= 99 && day <= 99 && s == DateText(year, month, day)
    ensures DateValid(s) <==> RealDate(year, month, day)
  {
    forall y: nat, m: nat, d: nat | RealDate(y, m, d) && s == DateText(y, m, d)
      ensures y == year && m == month && d == day
    {
      SameDate(y, m, d, year, month, day);
    }
  }

  lemma SameDate(y: nat, m: nat, d: nat, year: nat, month: nat, day: nat)
    requires y <= 9999 && m <= 99 && d <= 99 && year <= 9999 && month <= 99 && day <= 99
    requires DateText(y, m, d) == DateText(year, month, day)
    ensures y == year && m == month && d == day
  {
    var a, b := DateText(y, m, d), DateText(year, month, day);
    Value(y);
    Value(year);
    Value(m);
    Value(month);
    Value(d);
    Value(day);
    hide Digit;
    assert forall k | 0 <= k < 10 :: a[k] == b[k];
    assert a[0] == b[0] && a[1] == b[1] && a[2] == b[2] && a[3] == b[3] && a[5] == b[5] && a[6] == b[6]
        && a[8] == b[8] && a[9] == b[9];
  }

  lemma LastDigit(n: nat)
    ensures n == n / 10 * 10 + (Digit(n) - 48)
  {
  }

  lemma Value(n: nat)
    ensures n <= 9999 ==> n == (Digit(n / 1000) - 48) * 1000 + (Digit(n / 100) - 48) * 100
                              + (Digit(n / 10) - 48) * 10 + (Digit(n) - 48)
    ensures n <= 99 ==> n == (Digit(n / 10) - 48) * 10 + (Digit(n) - 48)
  {
    Quotients(n);
    LastDigit(n);
    LastDigit(n / 10);
    LastDigit(n / 100);
    LastDigit(n / 1000);
    hide Digit;
  }
}
