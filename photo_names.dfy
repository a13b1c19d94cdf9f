/** The photo file names of `CameraCaptureSystem` (src/camera_capture.py):
    `photo_<N>.jpg`, written with `f"photo_{n}.jpg"` and read back with
    `re.match(r'photo_(\d+)\.jpg', name)`. Digits are the ASCII digits. */
module PhotoNames {

  import opened Wrappers

  predicate IsDigit(c: char)
  {
    '0' <= c <= '9'
  }

  predicate AllDigits(s: string)
  {
    forall i :: 0 <= i < |s| ==> IsDigit(s[i])
  }

  function DigitChar(d: nat): (c: char)
    requires d < 10
    ensures IsDigit(c)
  {
    ('0' as int + d) as char
  }

  /** `int(s)` for a string of ASCII digits (leading zeros allowed). */
  function DecimalValue(s: string): nat
    requires AllDigits(s)
  {
    if s == [] then 0
    else DecimalValue(s[..|s| - 1]) * 10 + (s[|s| - 1] as int - '0' as int)
  }

  /** `str(n)`: the decimal digits of `n`, without leading zeros. */
  function DecimalString(n: nat): (s: string)
    ensures |s| > 0 && AllDigits(s)
  {
    if n < 10 then [DigitChar(n)] else DecimalString(n / 10) + [DigitChar(n % 10)]
  }

  /** Reading back the digits Python writes gives the number written. */
  lemma {:induction false} DecimalRoundTrip(n: nat)
    ensures DecimalValue(DecimalString(n)) == n
  {
    if n >= 10 {
      var s := DecimalString(n);
      assert s[..|s| - 1] == DecimalString(n / 10);
      DecimalRoundTrip(n / 10);
    }
  }

  /** The longest run of digits at the start of `s`: what the greedy `\d+`
      consumes. */
  function LeadingDigits(s: string): (d: string)
    ensures |d| <= |s| && d == s[..|d|] && AllDigits(d)
    ensures |d| < |s| ==> !IsDigit(s[|d|])
  {
    if s != [] && IsDigit(s[0]) then [s[0]] + LeadingDigits(s[1..]) else []
  }

  const Prefix: string := "photo_"
  const Extension: string := ".jpg"

  /** `f"photo_{n}.jpg"`. */
  function PhotoName(n: nat): (r: string)
    ensures |Prefix| + |Extension| < |r|
    ensures r[..|Prefix|] == Prefix && r[|r| - |Extension|..] == Extension
    ensures AllDigits(r[|Prefix|..|r| - |Extension|])
  {
    Prefix + DecimalString(n) + Extension
  }

  /** `re.match(r'photo_(\d+)\.jpg', name)` and `int(match.group(1))`: the
      pattern is anchored at the start only, so any text may follow `.jpg`.
      `\d+` is greedy, and since '.' is not a digit, backtracking over it can
      never let `\.jpg` match, so the group is the whole leading digit run. */
  function MatchPhotoNumber(name: string): (r: Option<nat>)
    ensures r.Some? ==> |Prefix| + |Extension| < |name| && name[..|Prefix|] == Prefix
  {
    if |name| < |Prefix| || name[..|Prefix|] != Prefix then None
    else
      var digits := LeadingDigits(name[|Prefix|..]);
      var after := name[|Prefix| + |digits|..];
      if |digits| > 0 && |after| >= |Extension| && after[..|Extension|] == Extension
      then Some(DecimalValue(digits))
      else None
  }

  /** Every name of the form `photo_<digits>.jpg<anything>` is matched, with
      the number its digits spell. */
  lemma MatchAcceptsPhotoNames(digits: string, rest: string)
    requires |digits| > 0 && AllDigits(digits)
    ensures MatchPhotoNumber(Prefix + digits + Extension + rest) == Some(DecimalValue(digits))
  {
    var suffix := Extension + rest;
    var tail := digits + suffix;
    var name := Prefix + digits + Extension + rest;
    assert name == Prefix + tail;
    ConcatSplit(Prefix, tail);
    ConcatSplit(digits, suffix);
    ConcatSplit(Extension, rest);
    LeadingDigitsStopsAt(digits, suffix);
    MatchOfParts(name, digits);
  }

  lemma ConcatSplit(a: string, b: string)
    ensures (a + b)[..|a|] == a && (a + b)[|a|..] == b
  {
  }

  lemma MatchOfParts(name: string, digits: string)
    requires |name| >= |Prefix| && name[..|Prefix|] == Prefix
    requires LeadingDigits(name[|Prefix|..]) == digits && |digits| > 0
    requires |name[|Prefix| + |digits|..]| >= |Extension|
    requires name[|Prefix| + |digits|..][..|Extension|] == Extension
    ensures MatchPhotoNumber(name) == Some(DecimalValue(digits))
  {
  }

  lemma {:induction false} LeadingDigitsStopsAt(digits: string, rest: string)
    requires AllDigits(digits) && (rest == [] || !IsDigit(rest[0]))
    ensures LeadingDigits(digits + rest) == digits
  {
    if digits != [] {
      assert (digits + rest)[1..] == digits[1..] + rest;
      LeadingDigitsStopsAt(digits[1..], rest);
    } else {
      assert digits + rest == rest;
    }
  }

  /** Every name that is matched has that form. */
  lemma MatchOnlyPhotoNames(name: string)
    requires MatchPhotoNumber(name).Some?
    ensures exists digits, rest :: |digits| > 0 && AllDigits(digits)
              && name == Prefix + digits + Extension + rest
              && MatchPhotoNumber(name) == Some(DecimalValue(digits))
  {
    var digits := LeadingDigits(name[|Prefix|..]);
    var rest := name[|Prefix| + |digits| + |Extension|..];
    assert name == Prefix + digits + Extension + rest;
  }

  /** The numbering round trip: the name written for `n` is read back as `n`. */
  lemma PhotoNameRoundTrip(n: nat)
    ensures MatchPhotoNumber(PhotoName(n)) == Some(n)
  {
    MatchAcceptsPhotoNames(DecimalString(n), "");
    assert PhotoName(n) == Prefix + DecimalString(n) + Extension + "";
    DecimalRoundTrip(n);
  }

  /** Names for different numbers are different. */
  lemma PhotoNameInjective(m: nat, n: nat)
    requires PhotoName(m) == PhotoName(n)
    ensures m == n
  {
    PhotoNameRoundTrip(m);
    PhotoNameRoundTrip(n);
  }

  /** `max(photo_numbers)`. */
  function Max(s: seq<nat>): (m: nat)
    requires |s| > 0
    ensures m in s
    ensures forall i :: 0 <= i < |s| ==> s[i] <= m
  {
    if |s| == 1 then s[0]
    else
      var rest := Max(s[1..]);
      if s[0] >= rest then s[0] else rest
  }

  /** `_get_last_photo_number()` over the directory listing `listing`: the
      largest number of a matching name, or -1 when no name matches. */
  method GetLastPhotoNumber(listing: seq<string>) returns (last: int)
    ensures last >= -1
    ensures last == -1 <==> forall i :: 0 <= i < |listing| ==> MatchPhotoNumber(listing[i]).None?
    ensures last >= 0 ==> exists i :: 0 <= i < |listing| && MatchPhotoNumber(listing[i]) == Some(last)
    ensures forall i :: 0 <= i < |listing| && MatchPhotoNumber(listing[i]).Some? ==>
              MatchPhotoNumber(listing[i]).value <= last
  {
    var photoNumbers: seq<nat> := [];
    for k := 0 to |listing|
      invariant forall i :: 0 <= i < k && MatchPhotoNumber(listing[i]).Some? ==>
                  MatchPhotoNumber(listing[i]).value in photoNumbers
      invariant forall n :: n in photoNumbers ==>
                  exists i :: 0 <= i < k && MatchPhotoNumber(listing[i]) == Some(n)
    {
      var found := MatchPhotoNumber(listing[k]);
      if found.Some? {
        photoNumbers := photoNumbers + [found.value];
      }
    }
    if photoNumbers == [] {
      last := -1;
    } else {
      last := Max(photoNumbers);
    }
  }
}
