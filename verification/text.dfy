/**
 * The string helpers the handlers lean on: case folding, whitespace trimming,
 * splitting on a separator, and decimal conversion in both directions
 * (`strings.ToLower`, `strings.ToUpper`, `strings.TrimSpace`, `strings.Split`,
 * `strconv.Atoi`, `strconv.Itoa`).  Case folding covers ASCII letters only.
 */
module Text {
  import opened Wrappers

  // ---------------------------------------------------------------- case

  function LowerChar(c: char): char {
    if 'A' <= c <= 'Z' then (c as int + 32) as char else c
  }

  function UpperChar(c: char): char {
    if 'a' <= c <= 'z' then (c as int - 32) as char else c
  }

  function ToLower(s: string): (r: string)
    ensures |r| == |s|
    ensures forall i :: 0 <= i < |s| ==> r[i] == LowerChar(s[i])
  {
    if s == [] then [] else [LowerChar(s[0])] + ToLower(s[1..])
  }

  function ToUpper(s: string): (r: string)
    ensures |r| == |s|
    ensures forall i :: 0 <= i < |s| ==> r[i] == UpperChar(s[i])
  {
    if s == [] then [] else [UpperChar(s[0])] + ToUpper(s[1..])
  }

  /** Two names are the same name ignoring case (the `LOWER(x) = LOWER(y)` comparisons). */
  predicate SameFold(a: string, b: string) {
    ToLower(a) == ToLower(b)
  }

  lemma ToLowerIdempotent(s: string)
    ensures ToLower(ToLower(s)) == ToLower(s)
  {
    assert forall i :: 0 <= i < |s| ==> LowerChar(LowerChar(s[i])) == LowerChar(s[i]);
  }

  lemma ToUpperIdempotent(s: string)
    ensures ToUpper(ToUpper(s)) == ToUpper(s)
  {
    assert forall i :: 0 <= i < |s| ==> UpperChar(UpperChar(s[i])) == UpperChar(s[i]);
  }

  /** A name differs from itself ignoring case only if it differs from itself. */
  lemma SameFoldOfEqual(a: string, b: string)
    requires a == b
    ensures SameFold(a, b)
  {
  }

  // ---------------------------------------------------------------- trimming

  /** The characters Go's `unicode.IsSpace` accepts. */
  predicate IsSpace(c: char) {
    var n := c as int;
    (9 <= n <= 13) || n == 32 || n == 0x85 || n == 0xA0 || n == 0x1680
    || (0x2000 <= n <= 0x200A) || n == 0x2028 || n == 0x2029 || n == 0x202F
    || n == 0x205F || n == 0x3000
  }

  /** How many white-space characters open `s`. */
  function LeadingSpaces(s: string): (n: nat)
    ensures n <= |s|
    ensures forall i :: 0 <= i < n ==> IsSpace(s[i])
    ensures n == |s| || !IsSpace(s[n])
  {
    if s != [] && IsSpace(s[0]) then 1 + LeadingSpaces(s[1..]) else 0
  }

  /** How many white-space characters close `s`. */
  function TrailingSpaces(s: string): (n: nat)
    ensures n <= |s|
    ensures forall i :: |s| - n <= i < |s| ==> IsSpace(s[i])
    ensures n == |s| || !IsSpace(s[|s| - 1 - n])
  {
    if s != [] && IsSpace(s[|s| - 1]) then 1 + TrailingSpaces(s[..|s| - 1]) else 0
  }

  /** `strings.TrimSpace`: drop leading and trailing white space. */
  function TrimSpace(s: string): (r: string)
    ensures r == [] || (!IsSpace(r[0]) && !IsSpace(r[|r| - 1]))
    ensures LeadingSpaces(s) + |r| <= |s| && r == s[LeadingSpaces(s)..LeadingSpaces(s) + |r|]
  {
    var i := LeadingSpaces(s);
    var t := s[i..];
    var r := t[..|t| - TrailingSpaces(t)];
    assert r == s[i..i + |r|];
    r
  }

  lemma TrimSpaceIdempotent(s: string)
    ensures TrimSpace(TrimSpace(s)) == TrimSpace(s)
  {
    var t := TrimSpace(s);
    if t != [] {
      assert LeadingSpaces(t) == 0;
      assert TrailingSpaces(t) == 0;
    }
  }

  // ---------------------------------------------------------------- splitting

  /** `strings.Split(s, sep)` for a one-character separator. */
  function Split(s: string, sep: char): (parts: seq<string>)
    ensures |parts| >= 1
    ensures forall i :: 0 <= i < |parts| ==> sep !in parts[i]
  {
    if s == [] then [""]
    else
      var rest := Split(s[1..], sep);
      if s[0] == sep then [""] + rest
      else [[s[0]] + rest[0]] + rest[1..]
  }

  /** `strings.Join(parts, sep)`. */
  function Join(parts: seq<string>, sep: char): string
    requires |parts| >= 1
  {
    if |parts| == 1 then parts[0] else parts[0] + [sep] + Join(parts[1..], sep)
  }

  /** Splitting and joining again on the same separator gives back the input. */
  lemma {:induction false} JoinSplit(s: string, sep: char)
    ensures Join(Split(s, sep), sep) == s
  {
    if s != [] {
      var rest := Split(s[1..], sep);
      JoinSplit(s[1..], sep);
      if s[0] == sep {
        assert Split(s, sep) == [""] + rest;
        assert Split(s, sep)[1..] == rest;
      } else {
        var parts := [[s[0]] + rest[0]] + rest[1..];
        assert Split(s, sep) == parts;
        if |rest| == 1 {
          assert parts == [[s[0]] + rest[0]];
        } else {
          assert parts[1..] == rest[1..];
          assert Join(rest, sep) == rest[0] + [sep] + Join(rest[1..], sep);
        }
      }
    }
  }

  /** A string without the separator splits into itself alone. */
  lemma {:induction false} SplitNoSeparator(s: string, sep: char)
    requires sep !in s
    ensures Split(s, sep) == [s]
  {
    if s != [] {
      SplitNoSeparator(s[1..], sep);
      assert [s[0]] + s[1..] == s;
    }
  }

  /** A separator-free prefix followed by the separator splits off as the first part. */
  lemma {:induction false} SplitConcat(a: string, sep: char, b: string)
    requires sep !in a
    ensures Split(a + [sep] + b, sep) == [a] + Split(b, sep)
  {
    var s := a + [sep] + b;
    if a == [] {
      assert s == [sep] + b;
      assert s[1..] == b;
    } else {
      SplitConcat(a[1..], sep, b);
      assert s[0] == a[0];
      assert s[1..] == a[1..] + [sep] + b;
      assert [a[0]] + a[1..] == a;
    }
  }

  // ---------------------------------------------------------------- integers

  predicate IsDigit(c: char) { '0' <= c <= '9' }

  predicate AllDigits(s: string) { forall i :: 0 <= i < |s| ==> IsDigit(s[i]) }

  function DigitValue(c: char): nat
    requires IsDigit(c)
  {
    c as int - '0' as int
  }

  function DigitChar(d: nat): (c: char)
    requires d < 10
    ensures IsDigit(c) && DigitValue(c) == d
  {
    ('0' as int + d) as char
  }

  /** The value of a run of decimal digits, most significant first. */
  function DigitsValue(s: string): nat
    requires AllDigits(s)
  {
    if s == [] then 0 else DigitsValue(s[..|s| - 1]) * 10 + DigitValue(s[|s| - 1])
  }

  /** `strconv.Atoi`: an optional sign followed by at least one decimal digit, anything else fails. */
  function Atoi(s: string): Option<int> {
    if s != [] && (s[0] == '+' || s[0] == '-') then
      var d := s[1..];
      if d != [] && AllDigits(d) then
        var v: int := DigitsValue(d);
        Some(if s[0] == '-' then -v else v)
      else None
    else if s != [] && AllDigits(s) then Some(DigitsValue(s))
    else None
  }

  /** Decimal digits of a natural number, no leading zeros. */
  function NatToDigits(n: nat): (s: string)
    ensures s != [] && AllDigits(s)
  {
    if n < 10 then [DigitChar(n)] else NatToDigits(n / 10) + [DigitChar(n % 10)]
  }

  /** `strconv.Itoa`. */
  function Itoa(n: int): (s: string)
    ensures s != []
  {
    if n < 0 then "-" + NatToDigits(-n) else NatToDigits(n)
  }

  lemma {:induction false} DigitsRoundTrip(n: nat)
    ensures DigitsValue(NatToDigits(n)) == n
  {
    if n >= 10 {
      DigitsRoundTrip(n / 10);
      var s := NatToDigits(n);
      assert s[..|s| - 1] == NatToDigits(n / 10);
    }
  }

  /** Every decimal rendering parses back to the number it renders. */
  lemma AtoiItoa(n: int)
    ensures Atoi(Itoa(n)) == Some(n)
  {
    if n < 0 {
      DigitsRoundTrip(-n);
      assert Itoa(n)[1..] == NatToDigits(-n);
    } else {
      DigitsRoundTrip(n);
      assert IsDigit(NatToDigits(n)[0]);
    }
  }

  /** Distinct numbers render as distinct strings. */
  lemma ItoaInjective(a: int, b: int)
    requires Itoa(a) == Itoa(b)
    ensures a == b
  {
    AtoiItoa(a);
    AtoiItoa(b);
  }

  /** A decimal rendering holds only digits and possibly a leading minus sign. */
  lemma ItoaWithout(n: int, c: char)
    requires !IsDigit(c) && c != '-'
    ensures c !in Itoa(n)
  {
    var d := NatToDigits(if n < 0 then -n else n);
    assert forall i :: 0 <= i < |d| ==> d[i] != c;
    if n < 0 {
      assert Itoa(n) == "-" + d;
    }
  }

  // ---------------------------------------------------------------- bytes

  newtype byte = x: int | 0 <= x < 256

  /** The UTF-8 encoding of one scalar value: one byte for ASCII, up to four otherwise. */
  function EncodeChar(c: char): (b: seq<byte>)
    ensures 1 <= |b| <= 4
    ensures |b| == 1 <==> c as int < 0x80
    ensures |b| == 1 ==> b[0] as int == c as int
  {
    var n := c as int;
    if n < 0x80 then [n as byte]
    else if n < 0x800 then [(0xC0 + n / 0x40) as byte, (0x80 + n % 0x40) as byte]
    else if n < 0x10000 then
      [(0xE0 + n / 0x1000) as byte, (0x80 + n / 0x40 % 0x40) as byte, (0x80 + n % 0x40) as byte]
    else
      [(0xF0 + n / 0x40000) as byte, (0x80 + n / 0x1000 % 0x40) as byte,
       (0x80 + n / 0x40 % 0x40) as byte, (0x80 + n % 0x40) as byte]
  }

  /** The bytes of a Go string holding `s`. */
  function Utf8(s: string): (b: seq<byte>)
    ensures |s| <= |b| <= 4 * |s|
  {
    if s == [] then [] else EncodeChar(s[0]) + Utf8(s[1..])
  }

  lemma {:induction false} Utf8Append(a: string, b: string)
    ensures Utf8(a + b) == Utf8(a) + Utf8(b)
  {
    if a == [] {
      assert a + b == b;
    } else {
      assert (a + b)[0] == a[0];
      assert (a + b)[1..] == a[1..] + b;
      Utf8Append(a[1..], b);
    }
  }

  /** `strconv.Atoi` over a list of posted ids: every one must parse. */
  function ParseIds(ss: seq<string>): (r: Option<seq<int>>)
    ensures r.Some? ==> |r.value| == |ss|
    decreases |ss|
  {
    if ss == [] then Some([])
    else match (ParseIds(ss[..|ss| - 1]), Atoi(ss[|ss| - 1]))
      case (Some(init), Some(n)) => Some(init + [n])
      case _ => None
  }

  /** Ids rendered in decimal parse back to the same ids. */
  lemma {:induction false} ParseRenderedIds(ids: seq<int>)
    ensures ParseIds(seq(|ids|, i requires 0 <= i < |ids| => Itoa(ids[i]))) == Some(ids)
    decreases |ids|
  {
    if ids != [] {
      var init := ids[..|ids| - 1];
      var ss := seq(|ids|, i requires 0 <= i < |ids| => Itoa(ids[i]));
      assert ss[..|ss| - 1] == seq(|init|, i requires 0 <= i < |init| => Itoa(init[i]));
      ParseRenderedIds(init);
      AtoiItoa(ids[|ids| - 1]);
      assert init + [ids[|ids| - 1]] == ids;
    }
  }

  /** The parsing loops of the handlers that take id lists, stopping at the first id that does not parse. */
  method ParseIdList(ss: seq<string>) returns (r: Option<seq<int>>)
    ensures r == ParseIds(ss)
  {
    var ids: seq<int> := [];
    var i := 0;
    while i < |ss|
      invariant 0 <= i <= |ss|
      invariant ParseIds(ss[..i]) == Some(ids)
    {
      assert ss[..i + 1][..i] == ss[..i];
      var n := Atoi(ss[i]);
      if n.None? {
        ParseFailsAfter(ss, i);
        return None;
      }
      ids := ids + [n.value];
      i := i + 1;
    }
    assert ss[..i] == ss;
    r := Some(ids);
  }

  /** Once an id fails to parse, the whole list fails. */
  lemma {:induction false} ParseFailsAfter(ss: seq<string>, i: int)
    requires 0 <= i < |ss| && Atoi(ss[i]).None?
    ensures ParseIds(ss) == None
    decreases |ss|
  {
    if i < |ss| - 1 {
      assert ss[..|ss| - 1][i] == ss[i];
      ParseFailsAfter(ss[..|ss| - 1], i);
    }
  }

  // ---------------------------------------------------------------- booleans

  /** Go's `strconv.ParseBool`. */
  function ParseBool(s: string): (r: Option<bool>)
    ensures r == Some(true) <==> s in ["1", "t", "T", "TRUE", "true", "True"]
    ensures r == Some(false) <==> s in ["0", "f", "F", "FALSE", "false", "False"]
  {
    if s in ["1", "t", "T", "TRUE", "true", "True"] then Some(true)
    else if s in ["0", "f", "F", "FALSE", "false", "False"] then Some(false)
    else None
  }

  // ---------------------------------------------------------------- searching and ordering

  /** `sub` occurs in `s` (a `LIKE '%sub%'` filter). */
  predicate Contains(s: string, sub: string) {
    exists i :: 0 <= i <= |s| - |sub| && OccursAt(s, sub, i)
  }

  predicate OccursAt(s: string, sub: string, i: int) {
    0 <= i <= |s| - |sub| && s[i..i + |sub|] == sub
  }

  /** Code-point lexicographic order on strings (an `ORDER BY name ASC`). */
  predicate LexLeq(a: string, b: string)
    decreases |a|
  {
    a == [] || (b != [] && (a[0] < b[0] || (a[0] == b[0] && LexLeq(a[1..], b[1..]))))
  }

  /** Lexicographic order is total: of two names one sorts first. */
  lemma {:induction false} LexLeqTotal(a: string, b: string)
    ensures LexLeq(a, b) || LexLeq(b, a)
    decreases |a|
  {
    if a != [] && b != [] && a[0] == b[0] {
      LexLeqTotal(a[1..], b[1..]);
    }
  }

  // ---------------------------------------------------------------- lenient id lists

  /** The parts that parse as integers, in order; a part that does not parse is skipped. */
  function IntsOf(parts: seq<string>): (r: seq<int>)
    ensures |r| <= |parts|
    decreases |parts|
  {
    if parts == [] then []
    else
      IntsOf(parts[..|parts| - 1])
      + match Atoi(parts[|parts| - 1]) case Some(n) => [n] case None => []
  }

  /** A number is in the lenient list exactly when some part parses to it. */
  lemma {:induction false} IntsOfMembership(parts: seq<string>, n: int)
    ensures n in IntsOf(parts) <==> exists k :: 0 <= k < |parts| && Atoi(parts[k]) == Some(n)
    decreases |parts|
  {
    if parts != [] {
      var init := parts[..|parts| - 1];
      var last := parts[|parts| - 1];
      var tail: seq<int> := match Atoi(last) case Some(m) => [m] case None => [];
      assert IntsOf(parts) == IntsOf(init) + tail;
      assert n in tail <==> Atoi(last) == Some(n);
      IntsOfMembership(init, n);
      assert (exists k :: 0 <= k < |parts| && Atoi(parts[k]) == Some(n))
        <==> (exists k :: 0 <= k < |init| && Atoi(init[k]) == Some(n)) || Atoi(last) == Some(n)
      by {
        if exists k :: 0 <= k < |parts| && Atoi(parts[k]) == Some(n) {
          var k :| 0 <= k < |parts| && Atoi(parts[k]) == Some(n);
          if k < |init| {
            assert init[k] == parts[k];
          }
        }
        if exists k :: 0 <= k < |init| && Atoi(init[k]) == Some(n) {
          var k :| 0 <= k < |init| && Atoi(init[k]) == Some(n);
          assert parts[k] == init[k];
        }
      }
    }
  }

  /** Decimal renderings of numbers, one per number. */
  function Rendered(ids: seq<int>): (r: seq<string>)
    ensures |r| == |ids| && forall i :: 0 <= i < |ids| ==> r[i] == Itoa(ids[i])
  {
    seq(|ids|, i requires 0 <= i < |ids| => Itoa(ids[i]))
  }

  /** Joining parts free of the separator and splitting again gives back the parts. */
  lemma {:induction false} SplitJoin(parts: seq<string>, sep: char)
    requires |parts| >= 1 && forall i :: 0 <= i < |parts| ==> sep !in parts[i]
    ensures Split(Join(parts, sep), sep) == parts
    decreases |parts|
  {
    if |parts| == 1 {
      SplitNoSeparator(parts[0], sep);
    } else {
      SplitJoin(parts[1..], sep);
      SplitConcat(parts[0], sep, Join(parts[1..], sep));
      assert [parts[0]] + parts[1..] == parts;
    }
  }

  /** Rendered numbers all parse, so the lenient list gives them back. */
  lemma {:induction false} IntsOfRenderedParts(ids: seq<int>)
    ensures IntsOf(Rendered(ids)) == ids
    decreases |ids|
  {
    if ids != [] {
      var init := ids[..|ids| - 1];
      assert Rendered(ids)[..|ids| - 1] == Rendered(init);
      IntsOfRenderedParts(init);
      AtoiItoa(ids[|ids| - 1]);
      assert init + [ids[|ids| - 1]] == ids;
    }
  }

  /** A comma-separated rendering of numbers parses back to those numbers. */
  lemma IntsOfRendered(ids: seq<int>)
    requires |ids| >= 1
    ensures IntsOf(Split(Join(Rendered(ids), ','), ',')) == ids
  {
    forall i | 0 <= i < |ids|
      ensures ',' !in Rendered(ids)[i]
    {
      ItoaWithout(ids[i], ',');
    }
    SplitJoin(Rendered(ids), ',');
    IntsOfRenderedParts(ids);
  }
}
