/** The string operations the source takes from its languages' standard
    libraries: trimming, splitting and joining on one character. */
module Text {
  import opened Wrappers

  predicate AllIn(s: string, p: char -> bool) {
    forall i | 0 <= i < |s| :: p(s[i])
  }

  // ---- Digits and letters

  predicate IsDigit(c: char) {
    '0' <= c <= '9'
  }

  predicate IsAlphanumeric(c: char) {
    IsDigit(c) || 'a' <= c <= 'z' || 'A' <= c <= 'Z'
  }

  const DIGITS := "0123456789"
  const LOWER_LETTERS := "abcdefghijklmnopqrstuvwxyz"
  const UPPER_LETTERS := "ABCDEFGHIJKLMNOPQRSTUVWXYZ"

  /** The digits and letters of ASCII, written out. */
  lemma AlphanumericsAre(c: char)
    ensures IsAlphanumeric(c) <==> c in DIGITS || c in LOWER_LETTERS || c in UPPER_LETTERS
  {
    DigitsAre(c);
    LowerLettersAre(c);
    UpperLettersAre(c);
    hide DIGITS, LOWER_LETTERS, UPPER_LETTERS;
  }

  lemma DigitsAre(c: char)
    ensures IsDigit(c) <==> c in DIGITS
  {
    if IsDigit(c) { assert DIGITS[c as int - '0' as int] == c; }
  }

  lemma LowerLettersAre(c: char)
    ensures 'a' <= c <= 'z' <==> c in LOWER_LETTERS
  {
    if 'a' <= c <= 'z' { assert LOWER_LETTERS[c as int - 'a' as int] == c; }
  }

  lemma UpperLettersAre(c: char)
    ensures 'A' <= c <= 'Z' <==> c in UPPER_LETTERS
  {
    if 'A' <= c <= 'Z' { assert UPPER_LETTERS[c as int - 'A' as int] == c; }
  }

  /** The number that digits write. */
  function Number(digits: string): nat
    requires AllIn(digits, IsDigit)
  {
    if digits == "" then 0
    else Number(digits[..|digits| - 1]) * 10 + (digits[|digits| - 1] as int - '0' as int)
  }

  /** A number's own digits. */
  function Decimal(n: nat): (s: string)
    ensures s != "" && AllIn(s, IsDigit)
  {
    var digit := '0' + (n % 10) as char;
    if n < 10 then [digit] else Decimal(n / 10) + [digit]
  }

  function Zeros(k: nat): (s: string)
    ensures |s| == k && AllIn(s, IsDigit)
  {
    seq(k, i => '0')
  }

  /** A number's digits write it, and nothing else does but the same after zeros. */
  lemma {:induction false} NumberOfDecimal(n: nat)
    ensures Number(Decimal(n)) == n
    ensures Decimal(n)[0] == '0' ==> n == 0
  {
    if n >= 10 {
      NumberOfDecimal(n / 10);
      var s := Decimal(n);
      assert s[..|s| - 1] == Decimal(n / 10);
    } else {
      assert Decimal(n)[..0] == "";
    }
  }

  lemma {:induction false} DecimalOfNumber(s: string) returns (k: nat)
    requires s != "" && AllIn(s, IsDigit)
    ensures s == Zeros(k) + Decimal(Number(s))
  {
    var before, last := s[..|s| - 1], s[|s| - 1];
    assert s == before + [last];
    if before == "" {
      k := 0;
      assert Number(before) == 0;
      assert Zeros(0) + Decimal(Number(s)) == [last];
    } else {
      var j := DecimalOfNumber(before);
      var n := Number(before);
      assert Number(s) == n * 10 + (last as int - '0' as int);
      if n == 0 {
        k := j + 1;
        assert Decimal(0) == "0" && Decimal(Number(s)) == [last];
        assert Zeros(j) + "0" == Zeros(k);
      } else {
        k := j;
        assert Decimal(Number(s)) == Decimal(n) + [last];
        assert s == Zeros(j) + (Decimal(n) + [last]);
      }
    }
  }

  lemma {:induction false} NumberAfterZeros(k: nat, s: string)
    requires AllIn(s, IsDigit)
    ensures AllIn(Zeros(k) + s, IsDigit) && Number(Zeros(k) + s) == Number(s)
  {
    var all := Zeros(k) + s;
    if s == "" {
      assert all == Zeros(k);
      if k > 0 {
        NumberAfterZeros(k - 1, "");
        assert Zeros(k)[..k - 1] == Zeros(k - 1) + "";
      }
    } else {
      NumberAfterZeros(k, s[..|s| - 1]);
      assert all[..|all| - 1] == Zeros(k) + s[..|s| - 1];
    }
  }

  // ---- Trimming, splitting, joining

  /** `trim_start_matches(c)`. */
  function TrimStart(s: string, c: char): (r: string)
    ensures |r| <= |s|
    ensures r == "" || r[0] != c
    ensures s == "" || s[0] != c ==> r == s
  {
    if s != "" && s[0] == c then TrimStart(s[1..], c) else s
  }

  /** `trim_end_matches(c)`. */
  function TrimEnd(s: string, c: char): (r: string)
    ensures |r| <= |s|
    ensures r == "" || r[|r| - 1] != c
    ensures s == "" || s[|s| - 1] != c ==> r == s
    ensures r <= s
  {
    if s != "" && s[|s| - 1] == c then TrimEnd(s[..|s| - 1], c) else s
  }

  /** `trim_matches(c)`. */
  function Trim(s: string, c: char): string {
    TrimEnd(TrimStart(s, c), c)
  }

  /** `split_once(c)`: what comes before and after the first `c`. */
  function SplitOnce(s: string, c: char): (r: Option<(string, string)>)
    ensures r.None? <==> c !in s
    ensures r.Some? ==> s == r.value.0 + [c] + r.value.1 && c !in r.value.0
  {
    if s == "" then None
    else if s[0] == c then Some(("", s[1..]))
    else
      match SplitOnce(s[1..], c)
      case None => None
      case Some((before, after)) => Some(([s[0]] + before, after))
  }

  /** The first `c` of a text splits it in one way only. */
  lemma {:induction false} SplitOnceAt(before: string, c: char, after: string)
    requires c !in before
    ensures SplitOnce(before + [c] + after, c) == Some((before, after))
  {
    var s := before + [c] + after;
    if before == "" {
      assert s[0] == c && s[1..] == after;
    } else {
      assert s[1..] == before[1..] + [c] + after && s[0] == before[0] && before[0] in before;
      SplitOnceAt(before[1..], c, after);
      assert [s[0]] + before[1..] == before;
    }
  }

  /** `split(c)`: every part, empty ones included. */
  function SplitAll(s: string, c: char): (parts: seq<string>)
    ensures |parts| > 0
    ensures forall i | 0 <= i < |parts| :: c !in parts[i]
    decreases |s|
  {
    match SplitOnce(s, c)
    case None => [s]
    case Some((before, after)) => [before] + SplitAll(after, c)
  }

  /** `c.join(parts)`. */
  function Join(parts: seq<string>, c: char): string {
    if parts == [] then ""
    else if |parts| == 1 then parts[0]
    else parts[0] + [c] + Join(parts[1..], c)
  }

  /** Splitting undoes joining, when no part holds the separator. */
  lemma {:induction false} SplitJoin(parts: seq<string>, c: char)
    requires |parts| > 0
    requires forall i | 0 <= i < |parts| :: c !in parts[i]
    ensures SplitAll(Join(parts, c), c) == parts
  {
    if |parts| == 1 {
    } else {
      SplitOnceAt(parts[0], c, Join(parts[1..], c));
      SplitJoin(parts[1..], c);
    }
  }

  /** Joining undoes splitting. */
  lemma {:induction false} JoinSplit(s: string, c: char)
    ensures Join(SplitAll(s, c), c) == s
    decreases |s|
  {
    match SplitOnce(s, c)
    case None =>
    case Some((before, after)) =>
      JoinSplit(after, c);
      assert SplitAll(s, c)[1..] == SplitAll(after, c);
  }

  predicate Space(c: char) {
    c == ' ' || '\t' <= c <= '\r'
  }

  function StripLeft(s: string): string {
    if s != "" && Space(s[0]) then StripLeft(s[1..]) else s
  }

  function StripRight(s: string): string {
    if s != "" && Space(s[|s| - 1]) then StripRight(s[..|s| - 1]) else s
  }

  /** Without the spaces at both ends. */
  function Strip(s: string): string {
    StripRight(StripLeft(s))
  }

  function LowerChar(c: char): char {
    if 'A' <= c <= 'Z' then c - 'A' + 'a' else c
  }

  function Lower(s: string): (r: string)
    ensures |r| == |s|
  {
    seq(|s|, i requires 0 <= i < |s| => LowerChar(s[i]))
  }

  // ---- What stripping and lower case are

  const SPACES := " \t\n\U{0B}\U{0C}\r"

  lemma SpacesAre(c: char)
    ensures Space(c) <==> c in SPACES
  {
    if '\t' <= c <= '\r' {
      assert c == '\t' || c == '\n' || c == '\U{0B}' || c == '\U{0C}' || c == '\r';
    }
    assert SPACES[0] == ' ' && SPACES[1] == '\t' && SPACES[2] == '\n';
    assert SPACES[3] == '\U{0B}' && SPACES[4] == '\U{0C}' && SPACES[5] == '\r';
  }

  /** What is stripped is spaces, and all of them, at the two ends. */
  lemma StripIs(s: string) returns (left: string, right: string)
    ensures s == left + Strip(s) + right && AllIn(left, Space) && AllIn(right, Space)
    ensures Strip(s) != "" ==> !Space(Strip(s)[0]) && !Space(Strip(s)[|Strip(s)| - 1])
  {
    left := StripLeftIs(s);
    right := StripRightIs(StripLeft(s));
    assert left + (Strip(s) + right) == left + Strip(s) + right;
  }

  lemma {:induction false} StripLeftIs(s: string) returns (left: string)
    ensures s == left + StripLeft(s) && AllIn(left, Space)
    ensures StripLeft(s) != "" ==> !Space(StripLeft(s)[0])
  {
    if s != "" && Space(s[0]) {
      var rest := StripLeftIs(s[1..]);
      left := [s[0]] + rest;
      assert s == [s[0]] + s[1..];
    } else {
      left := "";
    }
  }

  lemma {:induction false} StripRightIs(s: string) returns (right: string)
    ensures s == StripRight(s) + right && AllIn(right, Space)
    ensures StripRight(s) != "" ==> !Space(StripRight(s)[|StripRight(s)| - 1])
  {
    if s != "" && Space(s[|s| - 1]) {
      var rest := StripRightIs(s[..|s| - 1]);
      right := rest + [s[|s| - 1]];
      assert s == s[..|s| - 1] + [s[|s| - 1]];
    } else {
      right := "";
    }
  }

  /** Letters of ASCII in lower case, and everything else as it is. */
  lemma LowerIs(c: char)
    ensures forall i: nat | i < 26 :: LowerChar(UPPER_LETTERS[i]) == LOWER_LETTERS[i]
    ensures c !in UPPER_LETTERS ==> LowerChar(c) == c
  {
    UpperLettersAre(c);
    forall i: nat | i < 26
      ensures LowerChar(UPPER_LETTERS[i]) == LOWER_LETTERS[i]
    {
      UpperLetterAt(i);
      LowerLetterAt(i);
      hide UPPER_LETTERS, LOWER_LETTERS;
    }
  }

  lemma UpperLetterAt(i: nat)
    requires i < 26
    ensures UPPER_LETTERS[i] == 'A' + i as char
  {}

  lemma LowerLetterAt(i: nat)
    requires i < 26
    ensures LOWER_LETTERS[i] == 'a' + i as char
  {}
}
