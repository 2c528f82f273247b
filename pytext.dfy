/**
 * The few Python `str` operations the client relies on, with Python's
 * semantics: `split` on one separator, `"".join`, `strip()`, `replace`,
 * the slice `[:-1]`, `startswith` and `str` of an integer.
 */
module PyText {

  /** Python's `str.isspace` for one character: the characters `strip()` removes. */
  predicate IsSpace(c: char) {
    var n := c as int;
    || 0x09 <= n <= 0x0D
    || 0x1C <= n <= 0x20
    || n == 0x85 || n == 0xA0 || n == 0x1680
    || 0x2000 <= n <= 0x200A
    || n == 0x2028 || n == 0x2029 || n == 0x202F || n == 0x205F || n == 0x3000
  }

  /** `s.startswith(c)` for a one-character prefix. */
  predicate StartsWith(s: string, c: char) {
    |s| > 0 && s[0] == c
  }

  /** Concatenation is associative. */
  lemma ConcatAssoc<T>(x: seq<T>, y: seq<T>, z: seq<T>)
    ensures (x + y) + z == x + (y + z)
  {
  }

  /** The empty sequence in front changes nothing. */
  lemma EmptyConcat<T>(a: seq<T>, b: seq<T>)
    requires a == []
    ensures a + b == b
  {
  }

  /** A non-empty sequence is its head followed by its tail, also in front of more. */
  lemma ConsConcat<T>(a: seq<T>, b: seq<T>)
    requires a != []
    ensures a == [a[0]] + a[1..] && a + b == [a[0]] + (a[1..] + b)
  {
  }

  /** A sequence is what comes before position `i`, the element there, and what follows. */
  lemma SliceAround<T>(s: seq<T>, i: nat)
    requires i < |s|
    ensures s == s[..i] + [s[i]] + s[i + 1..]
  {
  }

  /** Appending after a middle element appends to what follows it. */
  lemma AppendAfter<T>(a: seq<T>, x: T, rest: seq<T>, y: T)
    ensures a + [x] + rest + [y] == a + [x] + (rest + [y])
  {
  }

  /** Position of the first occurrence of `c` in `s`. */
  function FirstIndex(s: string, c: char): (i: nat)
    requires c in s
    ensures i < |s| && s[i] == c && c !in s[..i]
  {
    if s[0] == c then 0
    else
      var i := 1 + FirstIndex(s[1..], c);
      assert s[..i] == [s[0]] + s[1..][..i - 1];
      i
  }

  /** Any index satisfying FirstIndex's contract is FirstIndex. */
  lemma {:induction false} FirstIndexUnique(s: string, c: char, i: nat)
    requires i < |s| && s[i] == c && c !in s[..i]
    ensures FirstIndex(s, c) == i
  {
    if i > 0 {
      assert s[0] in s[..i];
      assert s[1..][..i - 1] == s[1..i];
      assert forall x :: x in s[1..i] ==> x in s[..i];
      FirstIndexUnique(s[1..], c, i - 1);
    }
  }

  /** Python's `s.split(sep)` for a one-character separator. */
  function Split(s: string, sep: char): (parts: seq<string>)
    ensures |parts| >= 1
    ensures |parts| >= 2 <==> sep in s
    ensures forall k :: 0 <= k < |parts| ==> sep !in parts[k]
    decreases |s|
  {
    if sep !in s then [s]
    else
      var i := FirstIndex(s, sep);
      [s[..i]] + Split(s[i + 1..], sep)
  }

  /** Text without the separator splits into itself alone. */
  lemma SplitWhole(s: string, sep: char)
    requires sep !in s
    ensures Split(s, sep) == [s]
  {
  }

  /** Python's `sep.join(parts)` for a non-empty list and a one-character separator. */
  function Join(parts: seq<string>, sep: char): string
    requires |parts| >= 1
    decreases |parts|
  {
    if |parts| == 1 then parts[0] else parts[0] + [sep] + Join(parts[1..], sep)
  }

  /** Joining the pieces of a split gives back the original text. */
  lemma {:induction false} JoinSplit(s: string, sep: char)
    ensures Join(Split(s, sep), sep) == s
    decreases |s|
  {
    if sep in s {
      var i := FirstIndex(s, sep);
      JoinSplit(s[i + 1..], sep);
      assert s == s[..i] + [sep] + s[i + 1..];
    }
  }

  /** A separator-free piece followed by the separator splits off as the first piece. */
  lemma SplitCons(a: string, rest: string, sep: char)
    requires sep !in a
    ensures Split(a + [sep] + rest, sep) == [a] + Split(rest, sep)
  {
    var s := a + [sep] + rest;
    assert s[..|a|] == a;
    FirstIndexUnique(s, sep, |a|);
    assert s[|a| + 1..] == rest;
  }

  /** Splitting a join of separator-free pieces gives back the pieces. */
  lemma {:induction false} SplitJoin(parts: seq<string>, sep: char)
    requires |parts| >= 1
    requires forall k :: 0 <= k < |parts| ==> sep !in parts[k]
    ensures Split(Join(parts, sep), sep) == parts
    decreases |parts|
  {
    if |parts| > 1 {
      assert forall k :: 0 <= k < |parts| - 1 ==> parts[1..][k] == parts[k + 1];
      SplitJoin(parts[1..], sep);
      SplitCons(parts[0], Join(parts[1..], sep), sep);
      assert parts == [parts[0]] + parts[1..];
    }
  }

  /** Appending one separator to the text adds one empty piece to its split. */
  lemma {:induction false} SplitAppendSeparator(s: string, sep: char)
    ensures Split(s + [sep], sep) == Split(s, sep) + [""]
    decreases |s|
  {
    if sep in s {
      var i := FirstIndex(s, sep);
      var a, rest := s[..i], s[i + 1..];
      SliceAround(s, i);
      AppendAfter(a, sep, rest, sep);
      SplitAppendSeparator(rest, sep);
      SplitCons(a, rest + [sep], sep);
      SplitCons(a, rest, sep);
      ConcatAssoc([a], Split(rest, sep), [""]);
    } else {
      SplitCons(s, "", sep);
      SplitWhole("", sep);
      SplitWhole(s, sep);
    }
  }

  /** Python's `s.replace(c, "")`: every occurrence of `c` removed. */
  function RemoveAll(s: string, c: char): (r: string)
    ensures multiset(r) == multiset(s)[c := 0]
    ensures c !in s ==> r == s
    ensures |s| == 1 ==> r == if s[0] == c then "" else s
  {
    if s == [] then []
    else
      assert s == [s[0]] + s[1..];
      (if s[0] == c then [] else [s[0]]) + RemoveAll(s[1..], c)
  }

  /**
   * Removal works piece by piece and keeps the order of what remains; with
   * the one-character case this fixes the result of every input.
   */
  lemma {:induction false} RemoveAllConcat(a: string, b: string, c: char)
    ensures RemoveAll(a + b, c) == RemoveAll(a, c) + RemoveAll(b, c)
    decreases |a|
  {
    if a != [] {
      var x, rest := a[0], a[1..];
      ConsConcat(a, b);
      RemoveAllConcat(rest, b, c);
      RemoveAllCons(x, rest + b, c);
      RemoveAllCons(x, rest, c);
      ConcatAssoc(if x == c then "" else [x], RemoveAll(rest, c), RemoveAll(b, c));
    } else {
      EmptyConcat(a, b);
      EmptyConcat(RemoveAll(a, c), RemoveAll(b, c));
    }
  }

  /** Removing `c` keeps every other character present exactly where it was present. */
  lemma RemoveAllKeeps(s: string, c: char, x: char)
    requires x != c
    ensures x in RemoveAll(s, c) <==> x in s
  {
    assert multiset(RemoveAll(s, c))[x] == multiset(s)[x];
  }

  /** Removal at the first character. */
  lemma RemoveAllCons(x: char, s: string, c: char)
    ensures RemoveAll([x] + s, c) == (if x == c then "" else [x]) + RemoveAll(s, c)
  {
    assert ([x] + s)[0] == x;
    assert ([x] + s)[1..] == s;
  }

  /** Python's `s.replace(x, y)` for one character replaced by one character. */
  function ReplaceChar(s: string, x: char, y: char): (r: string)
    ensures |r| == |s|
    ensures forall k :: 0 <= k < |s| ==> r[k] == if s[k] == x then y else s[k]
  {
    if s == [] then [] else [if s[0] == x then y else s[0]] + ReplaceChar(s[1..], x, y)
  }

  /** Replacing characters distributes over concatenation. */
  lemma ReplaceCharConcat(a: string, b: string, x: char, y: char)
    ensures ReplaceChar(a + b, x, y) == ReplaceChar(a, x, y) + ReplaceChar(b, x, y)
  {
    var l, r := ReplaceChar(a + b, x, y), ReplaceChar(a, x, y) + ReplaceChar(b, x, y);
    assert forall k :: 0 <= k < |l| ==> l[k] == r[k];
  }

  /** Python's slice `s[:-1]`: the last character dropped (the empty string stays empty). */
  function DropLast(s: string): (r: string)
    ensures |s| > 0 ==> |r| == |s| - 1
    ensures r <= s
  {
    if |s| == 0 then s else s[..|s| - 1]
  }

  /** Number of whitespace characters at the start of `s`. */
  function LeadingSpaces(s: string): (n: nat)
    ensures n <= |s|
  {
    if s == [] || !IsSpace(s[0]) then 0 else 1 + LeadingSpaces(s[1..])
  }

  /** Number of whitespace characters at the end of `s`. */
  function TrailingSpaces(s: string): (n: nat)
    ensures n <= |s|
  {
    if s == [] || !IsSpace(s[|s| - 1]) then 0 else 1 + TrailingSpaces(s[..|s| - 1])
  }

  /** `LeadingSpaces` counts exactly the whitespace run at the start. */
  lemma {:induction false} LeadingSpacesSpec(s: string)
    ensures forall k :: 0 <= k < LeadingSpaces(s) ==> IsSpace(s[k])
    ensures LeadingSpaces(s) < |s| ==> !IsSpace(s[LeadingSpaces(s)])
    decreases |s|
  {
    if s != [] && IsSpace(s[0]) {
      LeadingSpacesSpec(s[1..]);
      forall k | 0 < k < LeadingSpaces(s) ensures IsSpace(s[k]) {
        assert s[k] == s[1..][k - 1];
      }
    }
  }

  /** `TrailingSpaces` counts exactly the whitespace run at the end. */
  lemma {:induction false} TrailingSpacesSpec(s: string)
    ensures forall k :: |s| - TrailingSpaces(s) <= k < |s| ==> IsSpace(s[k])
    ensures TrailingSpaces(s) < |s| ==> !IsSpace(s[|s| - 1 - TrailingSpaces(s)])
    decreases |s|
  {
    if s != [] && IsSpace(s[|s| - 1]) {
      var p := s[..|s| - 1];
      TrailingSpacesSpec(p);
      forall k | |s| - TrailingSpaces(s) <= k < |s| - 1 ensures IsSpace(s[k]) {
        assert s[k] == p[k];
      }
      if TrailingSpaces(s) < |s| {
        assert s[|s| - 1 - TrailingSpaces(s)] == p[|p| - 1 - TrailingSpaces(p)];
      }
    }
  }

  /** Python's `s.strip()`: whitespace removed from both ends, the middle kept. */
  function Strip(s: string): string {
    var a := LeadingSpaces(s);
    var t := s[a..];
    t[..|t| - TrailingSpaces(t)]
  }

  /** The whitespace run at the end of a suffix of `s` is whitespace of `s` itself. */
  lemma TrailingSpacesOfSuffix(s: string, a: nat)
    requires a <= |s|
    ensures forall k :: |s| - TrailingSpaces(s[a..]) <= k < |s| ==> IsSpace(s[k])
  {
    var t := s[a..];
    TrailingSpacesSpec(t);
    forall k | |s| - TrailingSpaces(t) <= k < |s| ensures IsSpace(s[k]) {
      assert s[k] == t[k - a];
    }
  }

  /** What `strip()` keeps is the slice between the leading and the trailing whitespace runs. */
  lemma StripSlice(s: string)
    ensures var r, a := Strip(s), LeadingSpaces(s);
      && a + |r| <= |s|
      && r == s[a..a + |r|]
      && (forall k :: 0 <= k < a || a + |r| <= k < |s| ==> IsSpace(s[k]))
  {
    var a := LeadingSpaces(s);
    var e := |s| - TrailingSpaces(s[a..]);
    assert Strip(s) == s[a..e];
    LeadingSpacesSpec(s);
    TrailingSpacesOfSuffix(s, a);
  }

  /** What `strip()` keeps starts and ends with non-whitespace, unless it is empty. */
  lemma StripEnds(s: string)
    ensures var r := Strip(s); r == "" || (!IsSpace(r[0]) && !IsSpace(r[|r| - 1]))
  {
    var a := LeadingSpaces(s);
    var t := s[a..];
    var r := Strip(s);
    if r != "" {
      LeadingSpacesSpec(s);
      TrailingSpacesSpec(t);
      assert r[0] == s[a];
      assert r[|r| - 1] == t[|t| - 1 - TrailingSpaces(t)];
    }
  }

  /**
   * `strip()` cuts only whitespace, and only from the ends: the result is a
   * slice of the input that is empty or starts and ends with non-whitespace,
   * and it is empty exactly when the input is all whitespace.
   */
  lemma StripSpec(s: string)
    ensures var r, a := Strip(s), LeadingSpaces(s);
      && a + |r| <= |s|
      && r == s[a..a + |r|]
      && (forall k :: 0 <= k < a || a + |r| <= k < |s| ==> IsSpace(s[k]))
    ensures var r := Strip(s); r == "" || (!IsSpace(r[0]) && !IsSpace(r[|r| - 1]))
    ensures Strip(s) == "" <==> forall k :: 0 <= k < |s| ==> IsSpace(s[k])
  {
    StripSlice(s);
    StripEnds(s);
    var a := LeadingSpaces(s);
    if Strip(s) == "" && a < |s| {
      LeadingSpacesSpec(s);
    }
  }

  /** The decimal digit for 0 <= d < 10. */
  function Digit(d: nat): (c: char)
    requires d < 10
    ensures '0' <= c <= '9' && c as int - '0' as int == d
  {
    ['0', '1', '2', '3', '4', '5', '6', '7', '8', '9'][d]
  }

  /** Decimal digits only, at least one, and no leading zero unless the number is 0. */
  predicate CanonicalDigits(s: string) {
    && |s| >= 1
    && (forall k :: 0 <= k < |s| ==> '0' <= s[k] <= '9')
    && (|s| > 1 ==> s[0] != '0')
  }

  /** Python's `str(n)` for a non-negative integer: decimal digits, no leading zero. */
  function NatToString(n: nat): (r: string)
    ensures CanonicalDigits(r)
    decreases n
  {
    if n < 10 then [Digit(n)] else NatToString(n / 10) + [Digit(n % 10)]
  }

  /** The value of a string of decimal digits (the reading `int(s)` gives it). */
  function DigitsValue(s: string): int
    decreases |s|
  {
    if s == [] then 0 else 10 * DigitsValue(s[..|s| - 1]) + (s[|s| - 1] as int - '0' as int)
  }

  /** `int(str(n)) == n` for a non-negative integer. */
  lemma {:induction false} NatToStringRoundTrip(n: nat)
    ensures DigitsValue(NatToString(n)) == n
    decreases n
  {
    if n >= 10 {
      NatToStringRoundTrip(n / 10);
      var s := NatToString(n);
      assert s[..|s| - 1] == NatToString(n / 10);
    }
  }

  /** A digit string without leading zero and with a non-zero first digit reads as at least 1, and at least 10 when longer than one digit. */
  lemma {:induction false} CanonicalDigitsLowerBound(s: string)
    requires CanonicalDigits(s) && s[0] != '0'
    ensures DigitsValue(s) >= 1
    ensures |s| > 1 ==> DigitsValue(s) >= 10
    decreases |s|
  {
    if |s| > 1 {
      var p := s[..|s| - 1];
      assert p[0] == s[0];
      CanonicalDigitsLowerBound(p);
    }
  }

  /** Two canonical digit strings with the same value are the same string: `str(n)` is unique. */
  lemma {:induction false} CanonicalDigitsUnique(s: string, t: string)
    requires CanonicalDigits(s) && CanonicalDigits(t)
    requires DigitsValue(s) == DigitsValue(t)
    ensures s == t
    decreases |s|
  {
    if |s| == 1 && |t| > 1 {
      CanonicalDigitsLowerBound(t);
    } else if |t| == 1 && |s| > 1 {
      CanonicalDigitsLowerBound(s);
    } else if |s| > 1 {
      var p, q := s[..|s| - 1], t[..|t| - 1];
      var d, e := s[|s| - 1] as int - '0' as int, t[|t| - 1] as int - '0' as int;
      assert 10 * DigitsValue(p) + d == 10 * DigitsValue(q) + e;
      assert DigitsValue(p) == DigitsValue(q) && d == e by {
        assert 10 * (DigitsValue(p) - DigitsValue(q)) == e - d;
      }
      assert p[0] == s[0] && q[0] == t[0];
      CanonicalDigitsUnique(p, q);
      assert s == p + [s[|s| - 1]] && t == q + [t[|t| - 1]];
    }
  }

  /**
   * Python's `str(i)` for any integer: the canonical decimal digits of `i`,
   * behind a `-` when `i` is negative.
   */
  function IntToString(i: int): (r: string)
    ensures i >= 0 ==> CanonicalDigits(r) && DigitsValue(r) == i
    ensures i < 0 ==> |r| >= 2 && r[0] == '-' && CanonicalDigits(r[1..]) && DigitsValue(r[1..]) == -i
  {
    var r := if i < 0 then "-" + NatToString(-i) else NatToString(i);
    NatToStringRoundTrip(if i < 0 then -i else i);
    assert i < 0 ==> r[1..] == NatToString(-i);
    r
  }

  /** The contract of `IntToString` admits exactly one string for each integer. */
  lemma IntToStringUnique(i: int, r: string)
    requires i >= 0 ==> CanonicalDigits(r) && DigitsValue(r) == i
    requires i < 0 ==> |r| >= 2 && r[0] == '-' && CanonicalDigits(r[1..]) && DigitsValue(r[1..]) == -i
    ensures r == IntToString(i)
  {
    var s := IntToString(i);
    if i >= 0 {
      CanonicalDigitsUnique(r, s);
    } else {
      CanonicalDigitsUnique(r[1..], s[1..]);
      assert r == [r[0]] + r[1..] && s == [s[0]] + s[1..];
    }
  }
}
