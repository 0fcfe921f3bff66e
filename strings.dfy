/** The Python `str` operations the core relies on: `in`, `startswith`,
    `replace`, `split`, `strip`, `upper`/`lower` and decimal conversion. */
module Strings {
  import opened Wrappers

  predicate StartsWith(s: string, prefix: string) {
    |prefix| <= |s| && s[..|prefix|] == prefix
  }

  /** Python's `needle in s`. */
  predicate Contains(s: string, needle: string)
    decreases |s|
  {
    StartsWith(s, needle) || (|s| > 0 && Contains(s[1..], needle))
  }

  lemma {:induction false} ContainsAt(s: string, needle: string, i: nat)
    requires i + |needle| <= |s| && s[i..i + |needle|] == needle
    ensures Contains(s, needle)
    decreases i
  {
    if i > 0 {
      assert s[1..][i - 1..i - 1 + |needle|] == s[i..i + |needle|];
      ContainsAt(s[1..], needle, i - 1);
    }
  }

  lemma {:induction false} ContainsWitness(s: string, needle: string) returns (i: nat)
    requires Contains(s, needle)
    ensures i + |needle| <= |s| && s[i..i + |needle|] == needle
    decreases |s|
  {
    if StartsWith(s, needle) {
      i := 0;
    } else {
      var j := ContainsWitness(s[1..], needle);
      i := j + 1;
      assert s[i..i + |needle|] == s[1..][j..j + |needle|];
    }
  }

  /** Python's `s.replace(old, new)`: every non-overlapping occurrence of
      `old`, scanning from the left, is replaced. */
  function ReplaceAll(s: string, pat: string, rep: string): (r: string)
    requires |pat| > 0
    decreases |s|
  {
    if |s| < |pat| then s
    else if StartsWith(s, pat) then rep + ReplaceAll(s[|pat|..], pat, rep)
    else [s[0]] + ReplaceAll(s[1..], pat, rep)
  }

  lemma {:induction false} ReplaceAbsent(s: string, pat: string, rep: string)
    requires |pat| > 0 && !Contains(s, pat)
    ensures ReplaceAll(s, pat, rep) == s
    decreases |s|
  {
    if |s| >= |pat| {
      assert !StartsWith(s, pat);
      ReplaceAbsent(s[1..], pat, rep);
      assert [s[0]] + s[1..] == s;
    }
  }

  /** A replacement whose rep text begins with the pat text leaves an
      occurrence of the pat text wherever it replaced one. */
  lemma {:induction false} ReplaceKeepsOccurrence(s: string, pat: string, rep: string)
    requires |pat| > 0 && Contains(s, pat) && StartsWith(rep, pat)
    ensures Contains(ReplaceAll(s, pat, rep), rep)
    decreases |s|
  {
    if StartsWith(s, pat) {
      ContainsAt(ReplaceAll(s, pat, rep), rep, 0);
    } else {
      ReplaceKeepsOccurrence(s[1..], pat, rep);
      var r := ReplaceAll(s[1..], pat, rep);
      var i := ContainsWitness(r, rep);
      assert ([s[0]] + r)[i + 1..i + 1 + |rep|] == r[i..i + |rep|];
      ContainsAt([s[0]] + r, rep, i + 1);
    }
  }

  /** Replacing a one-character pattern works character by character. */
  lemma ReplaceCharCons(c: char, t: string, p: char, rep: string)
    ensures ReplaceAll([c] + t, [p], rep) == (if c == p then rep else [c]) + ReplaceAll(t, [p], rep)
  {
    var s := [c] + t;
    assert s[..1] == [c] && s[1..] == t;
  }

  /** A replacement never touches a first character that cannot begin the
      pattern. */
  lemma ReplaceKeepsHead(s: string, pat: string, rep: string)
    requires |pat| > 0 && |s| > 0 && s[0] != pat[0]
    ensures |ReplaceAll(s, pat, rep)| > 0 && ReplaceAll(s, pat, rep)[0] == s[0]
  {
  }

  predicate NoLowerAscii(s: string) {
    forall k | 0 <= k < |s| :: !('a' <= s[k] <= 'z')
  }

  /** Replacing with text free of lower-case letters adds none. */
  lemma {:induction false} ReplaceKeepsNoLower(s: string, pat: string, rep: string)
    requires |pat| > 0 && NoLowerAscii(s) && NoLowerAscii(rep)
    ensures NoLowerAscii(ReplaceAll(s, pat, rep))
    decreases |s|
  {
    if |s| >= |pat| {
      if StartsWith(s, pat) {
        ReplaceKeepsNoLower(s[|pat|..], pat, rep);
      } else {
        ReplaceKeepsNoLower(s[1..], pat, rep);
      }
    }
  }

  /** A one-character needle occurs only where that character does. */
  lemma {:induction false} NotContainsChar(s: string, c: char)
    requires c !in s
    ensures !Contains(s, [c])
    decreases |s|
  {
    if s != [] {
      assert s[..1][0] == s[0];
      NotContainsChar(s[1..], c);
    }
  }

  /** A two-character needle occurs only where the pair does. */
  lemma {:induction false} NotContainsPair(s: string, a: char, b: char)
    requires forall i | 0 <= i < |s| - 1 :: !(s[i] == a && s[i + 1] == b)
    ensures !Contains(s, [a, b])
    decreases |s|
  {
    if s != [] {
      if |s| >= 2 { assert s[..2][0] == s[0] && s[..2][1] == s[1]; }
      NotContainsPair(s[1..], a, b);
    }
  }

  /** No `a` is directly followed by `b`. */
  predicate NoPair(s: string, a: char, b: char) {
    forall i | 0 <= i < |s| - 1 :: !(s[i] == a && s[i + 1] == b)
  }

  lemma NoPairConcat(x: string, y: string, a: char, b: char)
    requires NoPair(x, a, b) && NoPair(y, a, b)
    requires |x| > 0 && |y| > 0 ==> !(x[|x| - 1] == a && y[0] == b)
    ensures NoPair(x + y, a, b)
  {
    var s := x + y;
    forall i | 0 <= i < |s| - 1 ensures !(s[i] == a && s[i + 1] == b) {
      if i + 1 < |x| {
        assert s[i] == x[i] && s[i + 1] == x[i + 1];
      } else if i >= |x| {
        assert s[i] == y[i - |x|] && s[i + 1] == y[i + 1 - |x|];
      }
    }
  }

  /** A two-character pattern that cannot start inside `a` leaves `a` as it
      is. */
  lemma {:induction false} ReplacePairSkipsPrefix(a: string, s: string, c: char, d: char, rep: string)
    requires NoPair(a, c, d) && (|a| > 0 ==> a[|a| - 1] != c)
    ensures ReplaceAll(a + s, [c, d], rep) == a + ReplaceAll(s, [c, d], rep)
    decreases |a|
  {
    if a != [] && |a + s| >= 2 {
      var t := a + s;
      assert !StartsWith(t, [c, d]) by {
        if |a| >= 2 {
          assert t[0] == a[0] && t[1] == a[1];
        } else {
          assert t[0] == a[0];
        }
      }
      assert t[1..] == a[1..] + s;
      ReplacePairSkipsPrefix(a[1..], s, c, d, rep);
    } else if a != [] {
      assert s == [] && a + s == a;
      assert ReplaceAll(a, [c, d], rep) == a;
      assert ReplaceAll(s, [c, d], rep) == [];
    } else {
      assert a + s == s;
    }
  }

  /** Replacing with shorter text never lengthens the string, and shortens
      it wherever the pattern occurs. */
  lemma {:induction false} ReplaceShrinks(s: string, pat: string, rep: string)
    requires 0 < |pat| && |rep| < |pat|
    ensures |ReplaceAll(s, pat, rep)| <= |s|
    ensures Contains(s, pat) ==> |ReplaceAll(s, pat, rep)| < |s|
    decreases |s|
  {
    if |s| >= |pat| {
      if StartsWith(s, pat) {
        ReplaceShrinks(s[|pat|..], pat, rep);
      } else {
        ReplaceShrinks(s[1..], pat, rep);
      }
    } else if Contains(s, pat) {
      var i := ContainsWitness(s, pat);
      assert false;
    }
  }

  /** Python's `s.split(sep)` with a one-character separator. */
  function Split(s: string, sep: char): (r: seq<string>)
    decreases |s|
  {
    if s == [] then [[]]
    else
      var rest := Split(s[1..], sep);
      if s[0] == sep then [[]] + rest
      else [[s[0]] + rest[0]] + rest[1..]
  }

  /** The inverse of `Split`: `sep.join(chunks)`. */
  function Join(chunks: seq<string>, sep: char): string
    decreases |chunks|
  {
    if chunks == [] then []
    else if |chunks| == 1 then chunks[0]
    else chunks[0] + [sep] + Join(chunks[1..], sep)
  }

  function Count(s: string, c: char): nat
    decreases |s|
  {
    if s == [] then 0 else (if s[0] == c then 1 else 0) + Count(s[1..], c)
  }

  /** `split` never loses a character, yields one more chunk than there are
      separators, and no chunk holds a separator. */
  lemma {:induction false} SplitProperties(s: string, sep: char)
    ensures Join(Split(s, sep), sep) == s
    ensures |Split(s, sep)| == Count(s, sep) + 1
    ensures forall k | 0 <= k < |Split(s, sep)| :: sep !in Split(s, sep)[k]
    decreases |s|
  {
    if s != [] {
      SplitProperties(s[1..], sep);
      var rest := Split(s[1..], sep);
      if s[0] == sep {
        assert Split(s, sep) == [[]] + rest;
        assert ([[]] + rest)[1..] == rest;
      } else {
        var r := Split(s, sep);
        assert r == [[s[0]] + rest[0]] + rest[1..];
        if |rest| == 1 {
          assert Join(r, sep) == [s[0]] + rest[0];
          assert Join(rest, sep) == rest[0];
        } else {
          assert r[1..] == rest[1..];
          assert Join(rest, sep) == rest[0] + [sep] + Join(rest[1..], sep);
        }
        forall k | 0 <= k < |r| ensures sep !in r[k] {
          if k > 0 { assert r[k] == rest[k]; }
        }
      }
    }
  }

  /** The characters Python's `str.isspace` accepts. */
  predicate IsSpace(c: char) {
    c == ' ' || ('\t' <= c <= '\r') || ('\U{1c}' <= c <= '\U{1f}') || c == '\U{85}' || c == '\U{a0}'
    || c == '\U{1680}' || ('\U{2000}' <= c <= '\U{200a}') || c == '\U{2028}' || c == '\U{2029}'
    || c == '\U{202f}' || c == '\U{205f}' || c == '\U{3000}'
  }

  function StripLeft(s: string): (r: string)
    decreases |s|
  {
    if s != [] && IsSpace(s[0]) then StripLeft(s[1..]) else s
  }

  function StripRight(s: string): (r: string)
    decreases |s|
  {
    if s != [] && IsSpace(s[|s| - 1]) then StripRight(s[..|s| - 1]) else s
  }

  /** Python's `s.strip()`. */
  function Strip(s: string): string {
    StripRight(StripLeft(s))
  }

  /** `strip` removes only surrounding white space: the result is a
      contiguous piece of the input that neither begins nor ends with it. */
  lemma {:induction false} StripProperties(s: string)
    ensures var r := Strip(s);
      (exists i, j | 0 <= i <= j <= |s| :: r == s[i..j])
      && (r != [] ==> !IsSpace(r[0]) && !IsSpace(r[|r| - 1]))
  {
    var i := StripLeftIsSuffix(s);
    var t := StripLeft(s);
    var j := StripRightIsPrefix(t);
    assert Strip(s) == s[i..i + j];
    StripRightBeginsLikeInput(t);
  }

  /** A character the input lacks is missing from its stripped form too. */
  lemma StripKeepsAbsent(s: string, c: char)
    requires c !in s
    ensures c !in Strip(s)
  {
    StripProperties(s);
    var i, j :| 0 <= i <= j <= |s| && Strip(s) == s[i..j];
    assert forall x | x in s[i..j] :: x in s;
  }

  lemma {:induction false} StripLeftIsSuffix(s: string) returns (i: nat)
    ensures i <= |s| && StripLeft(s) == s[i..]
    ensures StripLeft(s) != [] ==> !IsSpace(StripLeft(s)[0])
    decreases |s|
  {
    if s != [] && IsSpace(s[0]) {
      var k := StripLeftIsSuffix(s[1..]);
      i := k + 1;
    } else {
      i := 0;
    }
  }

  lemma {:induction false} StripRightIsPrefix(s: string) returns (j: nat)
    ensures j <= |s| && StripRight(s) == s[..j]
    ensures StripRight(s) != [] ==> !IsSpace(StripRight(s)[|StripRight(s)| - 1])
    decreases |s|
  {
    if s != [] && IsSpace(s[|s| - 1]) {
      j := StripRightIsPrefix(s[..|s| - 1]);
    } else {
      j := |s|;
    }
  }

  lemma {:induction false} StripRightBeginsLikeInput(s: string)
    requires s != [] ==> !IsSpace(s[0])
    ensures StripRight(s) != [] ==> !IsSpace(StripRight(s)[0])
    decreases |s|
  {
    if s != [] && IsSpace(s[|s| - 1]) {
      StripRightBeginsLikeInput(s[..|s| - 1]);
    }
  }

  function UpperChar(c: char): char {
    if 'a' <= c <= 'z' then (c as int - 32) as char else c
  }

  function LowerChar(c: char): char {
    if 'A' <= c <= 'Z' then (c as int + 32) as char else c
  }

  /** Python's `s.upper()` on ASCII letters. */
  function Upper(s: string): (r: string)
    ensures |r| == |s|
    ensures forall k | 0 <= k < |r| :: r[k] == UpperChar(s[k]) && !('a' <= r[k] <= 'z')
  {
    seq(|s|, k requires 0 <= k < |s| => UpperChar(s[k]))
  }

  /** Python's `s.lower()` on ASCII letters. */
  function Lower(s: string): (r: string)
    ensures |r| == |s|
    ensures forall k | 0 <= k < |r| :: r[k] == LowerChar(s[k]) && !('A' <= r[k] <= 'Z')
  {
    seq(|s|, k requires 0 <= k < |s| => LowerChar(s[k]))
  }

  predicate IsDigit(c: char) { '0' <= c <= '9' }

  predicate AllDigits(s: string) { forall k | 0 <= k < |s| :: IsDigit(s[k]) }

  function DigitChar(d: nat): char
    requires d < 10
  {
    ('0' as int + d) as char
  }

  /** `str(n)` for a non-negative integer. */
  function NatToString(n: nat): (r: string)
    ensures |r| > 0 && AllDigits(r)
    decreases n
  {
    if n < 10 then [DigitChar(n)] else NatToString(n / 10) + [DigitChar(n % 10)]
  }

  /** `s.rjust(width, "0")`, i.e. Python's `:0Nd` padding of a digit string. */
  function PadZeros(s: string, width: nat): (r: string)
    ensures |r| == if |s| < width then width else |s|
    ensures AllDigits(s) ==> AllDigits(r)
  {
    if |s| < width then seq(width - |s|, _ => '0') + s else s
  }

  function DigitsValue(acc: nat, s: string): nat
    requires AllDigits(s)
    decreases |s|
  {
    if s == [] then acc else DigitsValue(acc * 10 + (s[0] as int - '0' as int), s[1..])
  }

  /** `int(s)` for strings of ASCII digits; anything else is refused here. */
  function ParseNat(s: string): (r: Option<nat>)
    ensures r.Some? <==> s != [] && AllDigits(s)
  {
    if s != [] && AllDigits(s) then Some(DigitsValue(0, s)) else None
  }

  lemma {:induction false} DigitsValueSnoc(acc: nat, s: string, c: char)
    requires AllDigits(s) && IsDigit(c)
    ensures AllDigits(s + [c])
    ensures DigitsValue(acc, s + [c]) == DigitsValue(acc, s) * 10 + (c as int - '0' as int)
    decreases |s|
  {
    if s != [] {
      assert (s + [c])[1..] == s[1..] + [c];
      DigitsValueSnoc(acc * 10 + (s[0] as int - '0' as int), s[1..], c);
    }
  }

  /** `int(str(n)) == n`. */
  lemma {:induction false} ParseNatToString(n: nat)
    ensures ParseNat(NatToString(n)) == Some(n)
    decreases n
  {
    if n < 10 {
      assert DigitsValue(0, [DigitChar(n)]) == DigitsValue(n, []);
    } else {
      ParseNatToString(n / 10);
      DigitsValueSnoc(0, NatToString(n / 10), DigitChar(n % 10));
    }
  }

  lemma {:induction false} LeadingZeros(k: nat, s: string)
    requires AllDigits(s)
    ensures AllDigits(seq(k, _ => '0') + s)
    ensures DigitsValue(0, seq(k, _ => '0') + s) == DigitsValue(0, s)
    decreases k
  {
    if k > 0 {
      var z := seq(k, _ => '0') + s;
      assert z[0] == '0' && z[1..] == seq(k - 1, _ => '0') + s;
      LeadingZeros(k - 1, s);
      assert DigitsValue(0, z) == DigitsValue(0, z[1..]);
    } else {
      assert seq(k, _ => '0') + s == s;
    }
  }

  /** `int(f"{n:0Wd}") == n`: zero padding does not change the value. */
  lemma ParsePadded(n: nat, width: nat)
    ensures ParseNat(PadZeros(NatToString(n), width)) == Some(n)
  {
    ParseNatToString(n);
    var s := NatToString(n);
    if |s| < width { LeadingZeros(width - |s|, s); }
  }
}
