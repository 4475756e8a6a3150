/** The parts of Go's strings and strconv packages that the request handling relies on. */
module GoText {
  import opened Optional

  newtype int64 = x: int | -0x8000_0000_0000_0000 <= x < 0x8000_0000_0000_0000

  const MAX_INT64: int := 0x7fff_ffff_ffff_ffff

  // ----- strings

  /** The white space of strings.TrimSpace. */
  predicate IsSpace(c: char) {
    '\t' <= c <= '\r' || c == ' ' || c == '\U{0085}' || c == '\U{00A0}' || c == '\U{1680}'
    || '\U{2000}' <= c <= '\U{200A}' || c == '\U{2028}' || c == '\U{2029}' || c == '\U{202F}'
    || c == '\U{205F}' || c == '\U{3000}'
  }

  function TrimLeft(s: string): string {
    if s != "" && IsSpace(s[0]) then TrimLeft(s[1..]) else s
  }

  function TrimRight(s: string): string {
    if s != "" && IsSpace(s[|s| - 1]) then TrimRight(s[..|s| - 1]) else s
  }

  function TrimSpace(s: string): string {
    TrimRight(TrimLeft(s))
  }

  /** Position of the first c, or the length when there is none. */
  function IndexOf(s: string, c: char): (i: nat)
    ensures i <= |s| && (i < |s| ==> s[i] == c) && c !in s[..i]
  {
    if s == "" || s[0] == c then 0 else 1 + IndexOf(s[1..], c)
  }

  function Split(s: string, c: char): (parts: seq<string>)
    ensures |parts| > 0
  {
    var i := IndexOf(s, c);
    if i == |s| then [s] else [s[..i]] + Split(s[i + 1..], c)
  }

  function Join(parts: seq<string>, c: char): string
    requires |parts| > 0
  {
    if |parts| == 1 then parts[0] else parts[0] + [c] + Join(parts[1..], c)
  }

  lemma {:induction false} IndexOfFirst(s: string, c: char, t: string)
    requires c !in s
    ensures IndexOf(s + [c] + t, c) == |s| && IndexOf(s, c) == |s|
  {
    if s != "" {
      assert (s + [c] + t)[1..] == s[1..] + [c] + t;
      IndexOfFirst(s[1..], c, t);
    }
  }

  /** Splitting undoes joining, for parts without the separator. */
  lemma {:induction false} SplitJoin(parts: seq<string>, c: char)
    requires |parts| > 0 && forall p | p in parts :: c !in p
    ensures Split(Join(parts, c), c) == parts
  {
    if |parts| == 1 {
      IndexOfFirst(parts[0], c, "");
    } else {
      var rest := Join(parts[1..], c);
      IndexOfFirst(parts[0], c, rest);
      var s := parts[0] + [c] + rest;
      assert s[..|parts[0]|] == parts[0] && s[|parts[0]| + 1..] == rest;
      SplitJoin(parts[1..], c);
    }
  }

  /** strings.Count for a single character. */
  function Count(s: string, c: char): nat {
    if s == "" then 0 else (if s[0] == c then 1 else 0) + Count(s[1..], c)
  }

  lemma {:induction false} CountSplits(s: string, c: char)
    ensures |Split(s, c)| == Count(s, c) + 1
  {
    var i := IndexOf(s, c);
    CountSkips(s, c, i);
    if i < |s| {
      CountSplits(s[i + 1..], c);
    }
  }

  lemma {:induction false} CountSkips(s: string, c: char, i: nat)
    requires i <= |s| && c !in s[..i]
    ensures Count(s, c) == Count(s[i..], c)
  {
    if i > 0 {
      assert s[0] == s[..i][0];
      assert s[1..][..i - 1] == s[..i][1..] && s[1..][i - 1..] == s[i..];
      CountSkips(s[1..], c, i - 1);
    }
  }

  lemma TrimNothing(s: string)
    requires s != "" && !IsSpace(s[0]) && !IsSpace(s[|s| - 1])
    ensures TrimSpace(s) == s
  {
  }

  // ----- strconv, base 10

  predicate IsDigit(c: char) { '0' <= c <= '9' }

  function DigitValue(c: char): nat
    requires IsDigit(c)
  {
    c as int - '0' as int
  }

  /** The number a nonempty string of digits writes. */
  function ParseDigits(s: string): Option<nat> {
    if s == "" then None
    else if !IsDigit(s[|s| - 1]) then None
    else if |s| == 1 then Some(DigitValue(s[0]))
    else
      var front := ParseDigits(s[..|s| - 1]);
      if front == None then None else Some(10 * front.value + DigitValue(s[|s| - 1]))
  }

  /** strconv.ParseInt with base 10 and 64 bits: one sign is allowed, values out of range are errors. */
  function ParseInt64(s: string): Option<int64> {
    var signed := s != "" && (s[0] == '+' || s[0] == '-');
    var digits := ParseDigits(if signed then s[1..] else s);
    if digits == None then None
    else if signed && s[0] == '-' then
      if digits.value <= MAX_INT64 + 1 then Some((0 - digits.value as int) as int64) else None
    else if digits.value <= MAX_INT64 then Some(digits.value as int64)
    else None
  }

  function FormatNat(n: nat): (s: string)
    ensures s != "" && forall c | c in s :: IsDigit(c)
  {
    var last := ('0' as int + n % 10) as char;
    if n < 10 then [last] else FormatNat(n / 10) + [last]
  }

  lemma {:induction false} ParseFormat(n: nat)
    ensures ParseDigits(FormatNat(n)) == Some(n)
  {
    if n >= 10 {
      ParseFormat(n / 10);
      assert FormatNat(n)[..|FormatNat(n)| - 1] == FormatNat(n / 10);
    }
  }

  lemma ParseFormatInt64(n: nat)
    requires n <= MAX_INT64
    ensures ParseInt64(FormatNat(n)) == Some(n as int64)
  {
    ParseFormat(n);
    assert FormatNat(n)[0] in FormatNat(n);
  }

  // ----- what trimming, splitting and reading numbers mean

  /** The white space of Unicode. */
  lemma SpaceMeaning(c: char)
    ensures IsSpace(c) <==>
      || c in "\t\n\U{000B}\U{000C}\r \U{0085}\U{00A0}\U{1680}\U{2000}\U{2001}\U{2002}\U{2003}\U{2004}\U{2005}\U{2006}"
      || c in "\U{2007}\U{2008}\U{2009}\U{200A}\U{2028}\U{2029}\U{202F}\U{205F}\U{3000}"
  {
  }

  ghost predicate AllSpace(s: string) {
    forall c | c in s :: IsSpace(c)
  }

  /** Trimming takes all white space from both ends, and nothing else. */
  lemma TrimMeaning(s: string) returns (a: string, b: string)
    ensures s == a + TrimSpace(s) + b && AllSpace(a) && AllSpace(b)
    ensures TrimSpace(s) != "" ==> !IsSpace(TrimSpace(s)[0]) && !IsSpace(TrimSpace(s)[|TrimSpace(s)| - 1])
  {
    hide IsSpace;
    a := TrimLeftMeaning(s);
    b := TrimRightMeaning(TrimLeft(s));
  }

  lemma {:induction false} TrimLeftMeaning(s: string) returns (a: string)
    ensures s == a + TrimLeft(s) && AllSpace(a) && (TrimLeft(s) != "" ==> !IsSpace(TrimLeft(s)[0]))
  {
    hide IsSpace;
    if s != "" && IsSpace(s[0]) {
      var rest := TrimLeftMeaning(s[1..]);
      a := [s[0]] + rest;
      assert s == [s[0]] + s[1..];
    } else {
      a := "";
      assert "" + s == s;
    }
  }

  lemma {:induction false} TrimRightMeaning(s: string) returns (b: string)
    ensures s == TrimRight(s) + b && AllSpace(b) && |TrimRight(s)| <= |s|
    ensures TrimRight(s) != "" ==> TrimRight(s)[0] == s[0] && !IsSpace(TrimRight(s)[|TrimRight(s)| - 1])
  {
    hide IsSpace;
    if s != "" && IsSpace(s[|s| - 1]) {
      var rest := TrimRightMeaning(s[..|s| - 1]);
      b := rest + [s[|s| - 1]];
      assert s == s[..|s| - 1] + [s[|s| - 1]];
    } else {
      b := "";
      assert s + "" == s;
    }
  }

  /** White space around a text that does not begin or end with any is trimmed off. */
  lemma TrimPadded(a: string, s: string, b: string)
    requires AllSpace(a) && AllSpace(b) && s != "" && !IsSpace(s[0]) && !IsSpace(s[|s| - 1])
    ensures TrimSpace(a + s + b) == s
  {
    hide IsSpace;
    assert a + s + b == a + (s + b);
    LeftPadding(a, s + b);
    RightPadding(s, b);
  }

  lemma {:induction false} LeftPadding(a: string, s: string)
    requires AllSpace(a) && s != "" && !IsSpace(s[0])
    ensures TrimLeft(a + s) == s
  {
    hide IsSpace;
    if a == "" {
      assert a + s == s;
    } else {
      assert (a + s)[1..] == a[1..] + s;
      LeftPadding(a[1..], s);
    }
  }

  lemma {:induction false} RightPadding(s: string, b: string)
    requires AllSpace(b) && s != "" && !IsSpace(s[|s| - 1])
    ensures TrimRight(s + b) == s
    decreases |b|
  {
    hide IsSpace;
    if b == "" {
      assert s + b == s;
    } else {
      assert (s + b)[..|s + b| - 1] == s + b[..|b| - 1];
      RightPadding(s, b[..|b| - 1]);
    }
  }

  /** Joining undoes splitting, and no part contains the separator. */
  lemma {:induction false} JoinSplit(s: string, c: char)
    ensures Join(Split(s, c), c) == s && forall p | p in Split(s, c) :: c !in p
  {
    var i := IndexOf(s, c);
    if i < |s| {
      JoinSplit(s[i + 1..], c);
      assert Split(s, c)[1..] == Split(s[i + 1..], c);
      assert s == s[..i] + [c] + s[i + 1..];
    }
  }

  ghost function Power10(n: nat): nat {
    if n == 0 then 1 else 10 * Power10(n - 1)
  }

  /** The value of a string of digits, each times the power of ten of its place. */
  ghost function Decimal(s: string): int {
    if s == "" then 0 else (s[0] as int - '0' as int) * Power10(|s| - 1) + Decimal(s[1..])
  }

  lemma {:induction false} DecimalAppend(s: string, c: char)
    ensures Decimal(s + [c]) == 10 * Decimal(s) + (c as int - '0' as int)
  {
    if s == "" {
      assert s + [c] == [c] && [c][1..] == "";
      assert Power10(0) == 1;
    } else {
      assert (s + [c])[1..] == s[1..] + [c];
      DecimalAppend(s[1..], c);
      var d := s[0] as int - '0' as int;
      assert d * Power10(|s|) == 10 * (d * Power10(|s| - 1));
    }
  }

  lemma {:induction false} DigitsMeaning(s: string)
    ensures ParseDigits(s).Some? <==> s != "" && forall c | c in s :: '0' <= c <= '9'
    ensures ParseDigits(s).Some? ==> ParseDigits(s).value == Decimal(s)
  {
    if s != "" {
      var front, last := s[..|s| - 1], s[|s| - 1];
      assert s == front + [last];
      assert last in s && forall c | c in front :: c in s;
      assert forall c :: c in s <==> c in front || c == last;
      if front == "" {
        assert s == [last] && s[1..] == "" && Power10(0) == 1;
      } else {
        DigitsMeaning(front);
        DecimalAppend(front, last);
        assert (forall c | c in s :: '0' <= c <= '9') <==>
          (forall c | c in front :: '0' <= c <= '9') && '0' <= last <= '9';
      }
    }
  }

  /** A number is one optional sign and at least one digit, with its value in 64 bits. */
  lemma NumberMeaning(s: string)
    ensures
      var signed := s != "" && (s[0] == '+' || s[0] == '-');
      var digits := if signed then s[1..] else s;
      if digits == "" || exists c | c in digits :: !('0' <= c <= '9') then ParseInt64(s) == None
      else if signed && s[0] == '-' then
        if Decimal(digits) <= 0x8000_0000_0000_0000 then
          ParseInt64(s).Some? && ParseInt64(s).value as int == -Decimal(digits)
        else ParseInt64(s) == None
      else if Decimal(digits) <= 0x7fff_ffff_ffff_ffff then
        ParseInt64(s).Some? && ParseInt64(s).value as int == Decimal(digits)
      else ParseInt64(s) == None
  {
    hide ParseDigits, Decimal;
    var signed := s != "" && (s[0] == '+' || s[0] == '-');
    DigitsMeaning(if signed then s[1..] else s);
  }

  /** Numbers are written without leading zeros. */
  lemma {:induction false} NoLeadingZero(n: nat)
    ensures |FormatNat(n)| > 1 ==> FormatNat(n)[0] != '0'
  {
    if n >= 10 {
      NoLeadingZero(n / 10);
      if n / 10 < 10 {
        assert FormatNat(n / 10) == [('0' as int + n / 10) as char];
      }
    }
  }
}
