/** Optional values, for parses that can fail. */
module Wrappers {

  datatype Option<+T> = None | Some(value: T)
}

/** The Python string built-ins the pipeline relies on, stated over
    `seq<char>`: `str.upper`, `str.replace`, `str.strip`, `str.isdigit`,
    `int(...)`, the `d` and `02d` format specifications, `str.join`, the `in`
    operator on strings and the `<` order on strings. */
module Text {

  import opened Sorting

  predicate IsDigit(c: char) {
    '0' <= c <= '9'
  }

  /** The characters Python's `str.isspace()` accepts, which are exactly the
      ones `str.strip()` with no argument removes. */
  predicate IsSpace(c: char) {
    || c == ' '
    || '\t' <= c <= '\r'
    || '\U{1C}' <= c <= '\U{1F}'
    || c == '\U{85}' || c == '\U{A0}' || c == '\U{1680}'
    || '\U{2000}' <= c <= '\U{200A}'
    || c == '\U{2028}' || c == '\U{2029}' || c == '\U{202F}' || c == '\U{205F}'
    || c == '\U{3000}'
  }

  /** Upper-casing of the ASCII letters; every other character is kept. */
  function UpperChar(c: char): (u: char)
    ensures IsDigit(u) <==> IsDigit(c)
    ensures IsSpace(u) <==> IsSpace(c)
    ensures u == 'H' <==> c == 'H' || c == 'h'
    ensures !('a' <= u <= 'z')
  {
    if 'a' <= c <= 'z' then (c as int - 'a' as int + 'A' as int) as char else c
  }

  function Upper(s: string): (r: string)
    ensures |r| == |s|
    ensures forall i :: 0 <= i < |s| ==> r[i] == UpperChar(s[i])
  {
    if s == [] then [] else [UpperChar(s[0])] + Upper(s[1..])
  }

  /** An upper-cased text holds no lower-case ASCII letter. */
  lemma UpperHasNoLower(v: string)
    ensures forall x :: x in Upper(v) ==> !('a' <= x <= 'z')
  {
    forall x | x in Upper(v) ensures !('a' <= x <= 'z') {
      var i :| 0 <= i < |v| && Upper(v)[i] == x;
    }
  }

  /** `s.replace(c, '')` for a one-character `c`. */
  function RemoveChar(s: string, c: char): (r: string)
    ensures |r| <= |s|
  {
    if s == [] then []
    else (if s[0] == c then [] else [s[0]]) + RemoveChar(s[1..], c)
  }

  /** `s.replace(c, '')` keeps every other character and only those. */
  lemma {:induction false} RemoveCharKeeps(s: string, c: char)
    ensures c !in RemoveChar(s, c)
    ensures forall d :: d in RemoveChar(s, c) <==> d in s && d != c
  {
    if s != [] {
      RemoveCharKeeps(s[1..], c);
      assert s == [s[0]] + s[1..];
    }
  }

  /** `replace` works piece by piece. */
  lemma {:induction false} RemoveCharAppend(a: string, b: string, c: char)
    ensures RemoveChar(a + b, c) == RemoveChar(a, c) + RemoveChar(b, c)
  {
    if a == [] {
      assert a + b == b;
    } else {
      assert (a + b)[1..] == a[1..] + b;
      RemoveCharAppend(a[1..], b, c);
    }
  }

  /** Removing a character that does not occur changes nothing. */
  lemma {:induction false} RemoveAbsentChar(s: string, c: char)
    requires c !in s
    ensures RemoveChar(s, c) == s
  {
    if s != [] {
      RemoveAbsentChar(s[1..], c);
      assert s == [s[0]] + s[1..];
    }
  }

  lemma AbsentFromJoined(a: string, b: string, c: char)
    requires c !in a && c !in b
    ensures c !in a + b
  {
    assert forall x :: x in a + b <==> x in a || x in b;
  }

  lemma AbsentFromGrouped(a: string, m: char, b: string, c: char)
    requires c !in a && c !in b && c != m
    ensures c !in a + [m] + b
  {
    assert forall x :: x in a + [m] + b <==> x in a || x == m || x in b;
  }

  /** Removing the one occurrence of `c`. */
  lemma RemoveOnlyOccurrence(a: string, b: string, c: char)
    requires c !in a && c !in b
    ensures RemoveChar(a + [c] + b, c) == a + b
  {
    RemoveInside(a, [c], b, c);
    assert [c][1..] == [];
    assert RemoveChar([c], c) == [];
    assert a + [] + b == a + b;
  }

  /** Removing a character that only occurs in the middle piece. */
  lemma RemoveInside(a: string, m: string, b: string, c: char)
    requires c !in a && c !in b
    ensures RemoveChar(a + m + b, c) == a + RemoveChar(m, c) + b
  {
    RemoveCharAppend(a + m, b, c);
    RemoveCharAppend(a, m, c);
    RemoveAbsentChar(a, c);
    RemoveAbsentChar(b, c);
  }

  /** `s.replace(a, b)` for one-character `a` and `b`. */
  function ReplaceChar(s: string, a: char, b: char): (r: string)
    ensures |r| == |s|
    ensures forall i :: 0 <= i < |s| ==> r[i] == if s[i] == a then b else s[i]
  {
    if s == [] then [] else [if s[0] == a then b else s[0]] + ReplaceChar(s[1..], a, b)
  }

  function TrimStart(s: string): (r: string)
    ensures |r| <= |s| && r == s[|s| - |r|..]
    ensures forall i :: 0 <= i < |s| - |r| ==> IsSpace(s[i])
    ensures r != [] ==> !IsSpace(r[0])
  {
    if s != [] && IsSpace(s[0]) then TrimStart(s[1..]) else s
  }

  function TrimEnd(s: string): (r: string)
    ensures |r| <= |s| && r == s[..|r|]
    ensures forall i :: |r| <= i < |s| ==> IsSpace(s[i])
    ensures r != [] ==> !IsSpace(r[|r| - 1])
  {
    if s != [] && IsSpace(s[|s| - 1]) then TrimEnd(s[..|s| - 1]) else s
  }

  /** `s.strip()`: the longest infix of `s` that neither starts nor ends with
      whitespace, everything cut away on either side being whitespace. */
  function Strip(s: string): (r: string)
    ensures r != [] ==> !IsSpace(r[0]) && !IsSpace(r[|r| - 1])
  {
    TrimEnd(TrimStart(s))
  }

  /** What `strip` cuts away is whitespace, and it cuts only at the ends. */
  lemma StripCutsSpaceOnly(s: string)
    ensures exists i, j :: (0 <= i <= j <= |s| && Strip(s) == s[i..j]
                            && (forall k :: 0 <= k < i ==> IsSpace(s[k]))
                            && (forall k :: j <= k < |s| ==> IsSpace(s[k])))
  {
    var t := TrimStart(s);
    var r := TrimEnd(t);
    assert r == s[|s| - |t|..|s| - |t| + |r|];
  }

  /** `strip` introduces no character. */
  lemma StripKeepsChars(s: string)
    ensures forall x :: x in Strip(s) ==> x in s
  {
    var t := TrimStart(s);
    var r := TrimEnd(t);
    forall x | x in r ensures x in s {
      var i :| 0 <= i < |r| && r[i] == x;
      assert t[i] == x;
      assert s[|s| - |t| + i] == x;
    }
  }

  lemma KeptByStrip(s: string, c: char)
    requires c in s && !IsSpace(c)
    ensures c in Strip(s)
  {
    KeptByTrimStart(s, c);
    KeptByTrimEnd(TrimStart(s), c);
  }

  lemma {:induction false} KeptByTrimStart(s: string, c: char)
    requires c in s && !IsSpace(c)
    ensures c in TrimStart(s)
  {
    if IsSpace(s[0]) {
      assert s == [s[0]] + s[1..];
      KeptByTrimStart(s[1..], c);
    }
  }

  lemma {:induction false} KeptByTrimEnd(s: string, c: char)
    requires c in s && !IsSpace(c)
    ensures c in TrimEnd(s)
  {
    if IsSpace(s[|s| - 1]) {
      assert s == s[..|s| - 1] + [s[|s| - 1]];
      KeptByTrimEnd(s[..|s| - 1], c);
    }
  }

  lemma {:induction false} TrimStartAppendSpace(w: string, c: char)
    requires IsSpace(c)
    ensures TrimStart(w + [c]) == if TrimStart(w) == [] then [] else TrimStart(w) + [c]
  {
    if w == [] {
      assert TrimStart([c]) == TrimStart([]) by {
        assert [c][1..] == [];
      }
    } else {
      assert (w + [c])[1..] == w[1..] + [c];
      TrimStartAppendSpace(w[1..], c);
    }
  }

  lemma StripDropsTrailingSpace(w: string, c: char)
    requires IsSpace(c)
    ensures Strip(w + [c]) == Strip(w)
  {
    TrimStartAppendSpace(w, c);
    var t := TrimStart(w);
    if t != [] {
      assert (t + [c])[..|t|] == t;
      assert TrimEnd(t + [c]) == TrimEnd(t);
    }
  }

  /** `s.isdigit()` restricted to the ASCII digits; false on the empty string. */
  predicate IsDigits(s: string) {
    |s| > 0 && forall i :: 0 <= i < |s| ==> IsDigit(s[i])
  }

  /** `int(s)` for a non-empty run of ASCII digits; leading zeros are allowed. */
  function DigitsValue(s: string): nat
    requires forall i :: 0 <= i < |s| ==> IsDigit(s[i])
  {
    if s == [] then 0
    else
      assert IsDigit(s[|s| - 1]);
      DigitsValue(s[..|s| - 1]) * 10 + (s[|s| - 1] as int - '0' as int)
  }

  function DigitChar(d: nat): (c: char)
    requires d < 10
    ensures IsDigit(c) && c as int - '0' as int == d
  {
    ('0' as int + d) as char
  }

  /** `str(n)` for a non-negative `n`: the shortest decimal numeral. */
  function NatToString(n: nat): (r: string)
    ensures IsDigits(r)
    ensures DigitsValue(r) == n
    ensures r[0] == '0' ==> r == "0"
  {
    if n < 10 then [DigitChar(n)]
    else
      var r := NatToString(n / 10) + [DigitChar(n % 10)];
      assert r[..|r| - 1] == NatToString(n / 10);
      r
  }

  /** `f"{n:02d}"`: the numeral of `n`, zero-padded on the left to two characters. */
  function Pad2(n: nat): (r: string)
    ensures IsDigits(r)
    ensures DigitsValue(r) == n
    ensures |r| >= 2
    ensures n < 100 <==> |r| == 2
    ensures n >= 10 ==> r == NatToString(n)
  {
    if n < 10 then
      var r := ['0', DigitChar(n)];
      assert r[..1] == ['0'];
      assert DigitsValue(r[..1]) == 0 by {
        assert r[..1][..0] == [];
      }
      r
    else
      NatDigitsCount(n);
      NatToString(n)
  }

  /** A numeral of at least two digits stands for at least 10; one of exactly
      two digits, for less than 100. */
  lemma {:induction false} NatDigitsCount(n: nat)
    ensures n >= 10 ==> |NatToString(n)| >= 2
    ensures n < 100 <==> |NatToString(n)| <= 2
  {
    if n >= 10 {
      NatDigitsCount(n / 10);
    }
  }

  /** `str(n)` for any integer. */
  function IntToString(n: int): string {
    if n < 0 then "-" + NatToString(-n) else NatToString(n)
  }

  lemma StripKeepsNumeral(d: string)
    requires IsDigits(d)
    ensures Strip(d) == d
  {
    assert !IsSpace(d[0]);
    assert TrimStart(d) == d;
    assert !IsSpace(d[|d| - 1]);
  }

  lemma NumeralsJoin(a: string, b: string)
    requires IsDigits(a) && IsDigits(b)
    ensures IsDigits(a + b)
  {
    forall i | 0 <= i < |a + b| ensures IsDigit((a + b)[i]) {
      if i < |a| {
        assert (a + b)[i] == a[i];
      } else {
        assert (a + b)[i] == b[i - |a|];
      }
    }
  }

  /** The position of the first `c` in `s`, or `|s|` when there is none. */
  function IndexOf(s: string, c: char): (i: nat)
    ensures i <= |s|
  {
    if s == [] || s[0] == c then 0 else 1 + IndexOf(s[1..], c)
  }

  /** The first `c` of `a + x` is the head of `x` when `a` has none. */
  lemma {:induction false} IndexAfterPrefix(a: string, x: string, c: char)
    requires c !in a && x != [] && x[0] == c
    ensures IndexOf(a + x, c) == |a|
  {
    if a == [] {
      assert a + x == x;
    } else {
      assert (a + x)[1..] == a[1..] + x;
      assert a == [a[0]] + a[1..];
      IndexAfterPrefix(a[1..], x, c);
    }
  }

  /** A prefix free of `c` and followed by `c` can be read back off the
      front of a string. */
  lemma PrefixBeforeSeparator(a: string, x: string, b: string, y: string, c: char)
    requires c !in a && c !in b
    requires x != [] && x[0] == c && y != [] && y[0] == c
    requires a + x == b + y
    ensures a == b && x == y
  {
    IndexAfterPrefix(a, x, c);
    IndexAfterPrefix(b, y, c);
    assert a == (a + x)[..|a|];
    assert b == (b + y)[..|b|];
    assert x == (a + x)[|a|..];
    assert y == (b + y)[|b|..];
  }

  /** A numeral followed by a non-digit separator can be read back off the
      front of a string. */
  lemma NumeralBeforeSeparator(a: string, x: string, b: string, y: string, c: char)
    requires IsDigits(a) && IsDigits(b) && !IsDigit(c)
    requires x != [] && x[0] == c && y != [] && y[0] == c
    requires a + x == b + y
    ensures a == b && x == y
  {
    PrefixBeforeSeparator(a, x, b, y, c);
  }

  /** `sep.join(parts)`. */
  function Join(parts: seq<string>, sep: string): (r: string)
    ensures parts == [] ==> r == ""
    ensures |parts| == 1 ==> r == parts[0]
  {
    if parts == [] then ""
    else if |parts| == 1 then parts[0]
    else parts[0] + sep + Join(parts[1..], sep)
  }

  /** Every part occurs in the joined text. */
  lemma {:induction false} JoinHoldsParts(parts: seq<string>, sep: string, i: nat)
    requires i < |parts|
    ensures Contains(Join(parts, sep), parts[i])
  {
    var r := Join(parts, sep);
    if |parts| == 1 {
      assert OccursAt(r, parts[i], 0);
    } else if i == 0 {
      assert r[..|parts[0]|] == parts[0];
      assert OccursAt(r, parts[i], 0);
    } else {
      var tail := Join(parts[1..], sep);
      JoinHoldsParts(parts[1..], sep, i - 1);
      var j :| OccursAt(tail, parts[i], j);
      var off := |parts[0] + sep|;
      assert r == (parts[0] + sep) + tail;
      assert r[off + j..off + j + |parts[i]|] == tail[j..j + |parts[i]|];
      assert OccursAt(r, parts[i], off + j);
    }
  }

  /** What occurs in `b` occurs in `a + b + c`. */
  lemma ContainsInside(a: string, b: string, c: string, sub: string)
    requires Contains(b, sub)
    ensures Contains(a + b + c, sub)
  {
    var j :| OccursAt(b, sub, j);
    var s := a + b + c;
    assert s[|a| + j..|a| + j + |sub|] == b[j..j + |sub|];
    assert OccursAt(s, sub, |a| + j);
  }

  /** `sub` occurs in `s` starting at index `i`. */
  predicate OccursAt(s: string, sub: string, i: int) {
    0 <= i && i + |sub| <= |s| && s[i..i + |sub|] == sub
  }

  /** Python's `sub in s` for strings. */
  function Contains(s: string, sub: string): (b: bool)
    ensures b <==> exists i :: OccursAt(s, sub, i)
  {
    if |sub| <= |s| && s[..|sub|] == sub then
      assert OccursAt(s, sub, 0);
      true
    else if s == [] then false
    else
      var b := Contains(s[1..], sub);
      assert b ==> exists i :: OccursAt(s, sub, i) by {
        if b {
          var i :| OccursAt(s[1..], sub, i);
          assert s[1..][i..i + |sub|] == s[i + 1..i + 1 + |sub|];
          assert OccursAt(s, sub, i + 1);
        }
      }
      assert (exists i :: OccursAt(s, sub, i)) ==> b by {
        if exists i :: OccursAt(s, sub, i) {
          var i :| OccursAt(s, sub, i);
          assert i != 0;
          assert s[1..][i - 1..i - 1 + |sub|] == s[i..i + |sub|];
          assert OccursAt(s[1..], sub, i - 1);
        }
      }
      b
  }

  /** Python's `a < b` on strings: lexicographic by code point, a proper prefix
      coming first. */
  function StrLt(a: string, b: string): bool {
    if a == [] then b != []
    else if b == [] then false
    else if a[0] != b[0] then a[0] < b[0]
    else StrLt(a[1..], b[1..])
  }

  /** Python's `a > b` on strings, the order of `sorted(..., reverse=True)`. */
  function StrGt(a: string, b: string): bool {
    StrLt(b, a)
  }

  lemma {:induction false} StrLtIrreflexive(a: string)
    ensures !StrLt(a, a)
  {
    if a != [] {
      StrLtIrreflexive(a[1..]);
    }
  }

  lemma {:induction false} StrLtTransitive(a: string, b: string, c: string)
    requires StrLt(a, b) && StrLt(b, c)
    ensures StrLt(a, c)
  {
    if a != [] && b != [] && c != [] && a[0] == b[0] && b[0] == c[0] {
      StrLtTransitive(a[1..], b[1..], c[1..]);
    }
  }

  lemma StrLtAsymmetric(a: string, b: string)
    requires StrLt(a, b)
    ensures !StrLt(b, a)
  {
    if StrLt(b, a) {
      StrLtTransitive(a, b, a);
      StrLtIrreflexive(a);
    }
  }

  lemma {:induction false} StrLtConnected(a: string, b: string)
    requires a != b
    ensures StrLt(a, b) || StrLt(b, a)
  {
    if a != [] && b != [] && a[0] == b[0] {
      assert a == [a[0]] + a[1..];
      assert b == [b[0]] + b[1..];
      StrLtConnected(a[1..], b[1..]);
    }
  }

  /** Python's string order is a strict total order, so sorting strings in
      either direction is well defined. */
  lemma StrOrdersAreTotal()
    ensures StrictTotalOrder(StrLt)
    ensures StrictTotalOrder(StrGt)
  {
    forall a ensures !StrLt(a, a) {
      StrLtIrreflexive(a);
    }
    forall a, b, c | StrLt(a, b) && StrLt(b, c) ensures StrLt(a, c) {
      StrLtTransitive(a, b, c);
    }
    forall a, b | a != b ensures StrLt(a, b) || StrLt(b, a) {
      StrLtConnected(a, b);
    }
    assert forall a, b :: StrGt(a, b) == StrLt(b, a);
  }
}
