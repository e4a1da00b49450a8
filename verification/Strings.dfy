/**
 The string functions of Go's standard library that the options and annotations code
 uses: strings.TrimSpace, Split, Join, Contains, strconv.FormatUint and ParseUint.
 */
module Strings {
  import opened Wire

  // ------------------------------------------------------------------------ TrimSpace

  /** unicode.IsSpace. */
  predicate IsSpace(c: char) {
    || c in "\t\n\r "
    || c as int in {0x0B, 0x0C, 0x85, 0xA0, 0x1680, 0x2028, 0x2029, 0x202F, 0x205F, 0x3000}
    || 0x2000 <= c as int <= 0x200A
  }

  function TrimLeft(s: string): (r: string)
    ensures r == [] || !IsSpace(r[0])
  {
    if s != [] && IsSpace(s[0]) then TrimLeft(s[1..]) else s
  }

  function TrimSpace(s: string): (r: string)
    ensures IsTrimmed(r)
  {
    TrimRight(TrimLeft(s))
  }

  function TrimRight(s: string): (r: string)
    ensures r <= s
    ensures r == [] || !IsSpace(r[|r| - 1])
  {
    if s != [] && IsSpace(s[|s| - 1]) then TrimRight(s[..|s| - 1]) else s
  }

  predicate IsTrimmed(s: string) {
    s != [] ==> !IsSpace(s[0]) && !IsSpace(s[|s| - 1])
  }

  predicate AllSpace(s: string) {
    forall c :: c in s ==> IsSpace(c)
  }

  /** The trimmed string is the input without leading and trailing space. */
  lemma TrimExactly(s: string) returns (before: string, after: string)
    ensures s == before + TrimSpace(s) + after && AllSpace(before) && AllSpace(after)
    ensures IsTrimmed(TrimSpace(s))
  {
    before := TrimLeftExactly(s);
    after := TrimRightExactly(TrimLeft(s));
  }

  lemma {:induction false} TrimLeftExactly(s: string) returns (before: string)
    ensures s == before + TrimLeft(s) && AllSpace(before)
  {
    if s != [] && IsSpace(s[0]) {
      before := TrimLeftExactly(s[1..]);
      before := [s[0]] + before;
      assert s == [s[0]] + s[1..];
    } else {
      before := [];
    }
  }

  lemma {:induction false} TrimRightExactly(s: string) returns (after: string)
    ensures s == TrimRight(s) + after && AllSpace(after)
  {
    if s != [] && IsSpace(s[|s| - 1]) {
      after := TrimRightExactly(s[..|s| - 1]);
      after := after + [s[|s| - 1]];
      assert s == s[..|s| - 1] + [s[|s| - 1]];
    } else {
      after := [];
    }
  }

  // ------------------------------------------------------------------- Split and Join

  function Split(s: string, sep: char): (r: seq<string>)
    ensures |r| > 0
    ensures forall p :: p in r ==> sep !in p
  {
    if s == [] then [""]
    else if s[0] == sep then [""] + Split(s[1..], sep)
    else var rest := Split(s[1..], sep); [[s[0]] + rest[0]] + rest[1..]
  }

  function Join(parts: seq<string>, sep: char): string {
    if parts == [] then ""
    else if |parts| == 1 then parts[0]
    else parts[0] + [sep] + Join(parts[1..], sep)
  }

  lemma {:induction false} SplitFirst(p: string, rest: string, sep: char)
    requires sep !in p
    ensures Split(p + [sep] + rest, sep) == [p] + Split(rest, sep)
    ensures Split(p, sep) == [p]
  {
    if p != [] {
      SplitFirst(p[1..], rest, sep);
      assert (p + [sep] + rest)[1..] == p[1..] + [sep] + rest;
      assert [p[0]] + p[1..] == p;
    } else {
      assert (p + [sep] + rest)[1..] == rest;
    }
  }

  lemma {:induction false} SplitJoin(parts: seq<string>, sep: char)
    requires forall p :: p in parts ==> sep !in p
    ensures Split(Join(parts, sep), sep) == if parts == [] then [""] else parts
  {
    if |parts| == 1 {
      SplitFirst(parts[0], "", sep);
    } else if parts != [] {
      SplitFirst(parts[0], Join(parts[1..], sep), sep);
      SplitJoin(parts[1..], sep);
    }
  }

  // ------------------------------------------------------------------------- Contains

  predicate Contains(s: string, t: string) {
    t <= s || (s != [] && Contains(s[1..], t))
  }

  lemma {:induction false} ContainsExactly(s: string, t: string)
    ensures Contains(s, t) <==> exists i :: 0 <= i <= |s| && t <= s[i..]
  {
    if t <= s {
      assert s[0..] == s;
    } else if s != [] {
      ContainsExactly(s[1..], t);
      forall i | 0 < i <= |s|
        ensures s[i..] == s[1..][i - 1..]
      {
      }
      if Contains(s[1..], t) {
        var i :| 0 <= i <= |s[1..]| && t <= s[1..][i..];
        assert s[i + 1..] == s[1..][i..];
      }
      assert s[0..] == s;
    } else {
      assert forall i :: 0 <= i <= |s| ==> s[i..] == s;
    }
  }

  // -------------------------------------------------------------------------- decimal

  predicate IsDigit(c: char) {
    '0' <= c <= '9'
  }

  function FormatUint(n: nat): (s: string)
    ensures s != [] && forall c :: c in s ==> IsDigit(c)
  {
    var digit := [('0' as int + n % 10) as char];
    if n < 10 then digit else FormatUint(n / 10) + digit
  }

  function DecimalValue(s: string): nat
    requires forall c :: c in s ==> IsDigit(c)
  {
    if s == [] then 0
    else assert IsDigit(s[|s| - 1]); 10 * DecimalValue(s[..|s| - 1]) + (s[|s| - 1] as int - '0' as int)
  }

  /** strconv.ParseUint in base 10; `limit` is 2 to the bit size. */
  function ParseUint(s: string, limit: nat): (r: Option<nat>)
    ensures r.Some? ==> r.value < limit
  {
    if s != [] && (forall c :: c in s ==> IsDigit(c)) && DecimalValue(s) < limit then Some(DecimalValue(s)) else None
  }

  lemma {:induction false} DecimalRoundTrip(n: nat)
    ensures DecimalValue(FormatUint(n)) == n
  {
    if n >= 10 {
      DecimalRoundTrip(n / 10);
      var s := FormatUint(n);
      assert s[..|s| - 1] == FormatUint(n / 10);
    }
  }

  /** A number survives formatting and parsing exactly if it fits the bit size. */
  lemma ParseFormat(n: nat, limit: nat)
    ensures ParseUint(FormatUint(n), limit) == if n < limit then Some(n) else None
  {
    DecimalRoundTrip(n);
  }

  predicate AllZeros(s: string) {
    forall c :: c in s ==> c == '0'
  }

  lemma {:induction false} ZeroValue(s: string)
    requires forall c :: c in s ==> IsDigit(c)
    ensures DecimalValue(s) == 0 <==> AllZeros(s)
  {
    if s != [] {
      var init, last := s[..|s| - 1], s[|s| - 1];
      ZeroValue(init);
      assert s == init + [last] && IsDigit(last);
      assert forall c :: c in s <==> c in init || c == last;
    }
  }

  /** Digits spell a number exactly if they are its decimal form behind zeros. */
  lemma {:induction false} DigitsOf(s: string) returns (zeros: string)
    requires s != [] && forall c :: c in s ==> IsDigit(c)
    ensures AllZeros(zeros) && s == zeros + FormatUint(DecimalValue(s))
  {
    var init, last := s[..|s| - 1], s[|s| - 1];
    assert s == init + [last] && IsDigit(last);
    ZeroValue(init);
    if DecimalValue(init) == 0 {
      zeros := init;
      assert FormatUint(DecimalValue(s)) == [last];
    } else {
      zeros := DigitsOf(init);
      assert DecimalValue(s) / 10 == DecimalValue(init);
      assert FormatUint(DecimalValue(s)) == FormatUint(DecimalValue(init)) + [last];
    }
  }

  lemma {:induction false} ZerosDoNotCount(zeros: string, s: string)
    requires AllZeros(zeros) && forall c :: c in s ==> IsDigit(c)
    ensures DecimalValue(zeros + s) == DecimalValue(s)
  {
    if s == [] {
      assert zeros + s == zeros;
      ZeroValue(zeros);
    } else {
      ZerosDoNotCount(zeros, s[..|s| - 1]);
      assert (zeros + s)[..|zeros + s| - 1] == zeros + s[..|s| - 1];
    }
  }

  /** ParseUint accepts exactly the decimal forms of the numbers below the limit, with any
      leading zeros. */
  lemma ParseUintExactly(s: string, limit: nat, n: nat)
    ensures ParseUint(s, limit) == Some(n) <==> n < limit && exists zeros :: AllZeros(zeros) && s == zeros + FormatUint(n)
  {
    if ParseUint(s, limit) == Some(n) {
      var zeros := DigitsOf(s);
    }
    forall zeros | AllZeros(zeros) && s == zeros + FormatUint(n)
      ensures ParseUint(s, limit) == if n < limit then Some(n) else None
    {
      ZerosDoNotCount(zeros, FormatUint(n));
      DecimalRoundTrip(n);
    }
  }
}
