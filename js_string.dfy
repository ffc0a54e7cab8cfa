/** Models of the JavaScript string built-ins the converter relies on:
    `toLowerCase`, `replaceAll` and `replace` with a string pattern,
    `Array.prototype.join`, `String.prototype.split` (used only to read
    generated text back in lemmas) and the conversion of an integer to
    text that a template literal performs. */
module JsString {

  /** An ASCII upper-case letter. */
  predicate IsUpper(c: char) {
    'A' <= c <= 'Z'
  }

  /** Lower-casing of one character; only ASCII letters change. */
  function LowerChar(c: char): (d: char)
    ensures !IsUpper(d)
    ensures IsUpper(c) ==> 'a' <= d <= 'z' && d as int == c as int + 32
    ensures !IsUpper(c) ==> d == c
  {
    if IsUpper(c) then (c as int + 32) as char else c
  }

  /** `s.toLowerCase()`: every character lower-cased, the length kept. The
      result holds no capital, and a character that is no capital stays. */
  function ToLowerCase(s: string): (r: string)
    ensures |r| == |s|
    ensures forall i :: 0 <= i < |s| ==> r[i] == LowerChar(s[i])
    ensures forall c :: c in r ==> !IsUpper(c)
    ensures forall i :: 0 <= i < |s| && !IsUpper(s[i]) ==> r[i] == s[i]
  {
    seq(|s|, i requires 0 <= i < |s| => LowerChar(s[i]))
  }

  /** Lower-casing twice is lower-casing once. */
  lemma ToLowerCaseIdempotent(s: string)
    ensures ToLowerCase(ToLowerCase(s)) == ToLowerCase(s)
  {
    var t := ToLowerCase(s);
    forall i | 0 <= i < |t|
      ensures ToLowerCase(t)[i] == t[i]
    {
      assert t[i] in t;
    }
  }

  /** A text without capitals is its own lower-case form. */
  lemma ToLowerCaseNoCapitals(s: string)
    requires forall i :: 0 <= i < |s| ==> !IsUpper(s[i])
    ensures ToLowerCase(s) == s
  {
  }

  /** `s.replaceAll(from, to)` where `from` and `to` are one character each:
      every `from` becomes `to`, every other character stays where it is. */
  function ReplaceAllChar(s: string, from: char, to: char): (r: string)
    ensures |r| == |s|
    ensures forall i :: 0 <= i < |s| ==> r[i] == if s[i] == from then to else s[i]
    ensures from != to ==> from !in r
  {
    seq(|s|, i requires 0 <= i < |s| => if s[i] == from then to else s[i])
  }

  /** `pat` occurs in `s` starting at index `k`. */
  predicate OccursAt(s: string, pat: string, k: int) {
    0 <= k && k + |pat| <= |s| && s[k..k + |pat|] == pat
  }

  /** `k` is the leftmost index at which `pat` occurs in `s`. */
  predicate IsFirstOccurrence(s: string, pat: string, k: int) {
    OccursAt(s, pat, k) && forall j :: 0 <= j < k ==> !OccursAt(s, pat, j)
  }

  lemma OccursAtTail(s: string, pat: string)
    requires |s| > 0
    ensures forall k :: 0 <= k ==> (OccursAt(s[1..], pat, k) <==> OccursAt(s, pat, k + 1))
  {
    forall k | 0 <= k
      ensures OccursAt(s[1..], pat, k) <==> OccursAt(s, pat, k + 1)
    {
      if k + |pat| <= |s[1..]| {
        assert s[1..][k..k + |pat|] == s[k + 1..k + 1 + |pat|];
      }
    }
  }

  /** `s.replace(pat, rep)` with a string pattern: only the leftmost
      occurrence of `pat` is replaced; without one, `s` is returned
      (`ReplaceFirstAt` and `ReplaceFirstAbsent` state this). `rep` is
      inserted as it is: the `$` patterns JavaScript expands in a
      replacement string are not modelled. At most one replacement happens,
      so the length either stays or changes by `|rep| - |pat|`. */
  function ReplaceFirst(s: string, pat: string, rep: string): (r: string)
    ensures |r| == |s| || |r| == |s| - |pat| + |rep|
    decreases |s|
  {
    if |s| < |pat| then s
    else if s[..|pat|] == pat then rep + s[|pat|..]
    else [s[0]] + ReplaceFirst(s[1..], pat, rep)
  }

  /** Without an occurrence of the pattern, `ReplaceFirst` changes nothing. */
  lemma {:induction false} ReplaceFirstAbsent(s: string, pat: string, rep: string)
    requires forall k :: !OccursAt(s, pat, k)
    ensures ReplaceFirst(s, pat, rep) == s
    decreases |s|
  {
    if |s| >= |pat| {
      assert !OccursAt(s, pat, 0);
      assert s[..|pat|] != pat;
      OccursAtTail(s, pat);
      forall k ensures !OccursAt(s[1..], pat, k) {
        if k >= 0 { assert !OccursAt(s, pat, k + 1); }
      }
      ReplaceFirstAbsent(s[1..], pat, rep);
      assert s == [s[0]] + s[1..];
    }
  }

  /** `ReplaceFirst` replaces exactly the leftmost occurrence of the pattern. */
  lemma {:induction false} ReplaceFirstAt(s: string, pat: string, rep: string, k: int)
    requires IsFirstOccurrence(s, pat, k)
    ensures ReplaceFirst(s, pat, rep) == s[..k] + rep + s[k + |pat|..]
    decreases |s|
  {
    if k == 0 {
      assert s[..|pat|] == pat;
      assert s[..k] + rep + s[k + |pat|..] == rep + s[|pat|..];
    } else {
      assert !OccursAt(s, pat, 0);
      assert s[..|pat|] != pat;
      OccursAtTail(s, pat);
      assert IsFirstOccurrence(s[1..], pat, k - 1) by {
        assert OccursAt(s[1..], pat, k - 1);
        forall j | 0 <= j < k - 1 ensures !OccursAt(s[1..], pat, j) {
          assert !OccursAt(s, pat, j + 1);
        }
      }
      ReplaceFirstAt(s[1..], pat, rep, k - 1);
      var u := s[1..];
      assert ReplaceFirst(s, pat, rep) == [s[0]] + ReplaceFirst(u, pat, rep);
      assert s[..k] == [s[0]] + u[..k - 1];
      assert s[k + |pat|..] == u[k - 1 + |pat|..];
    }
  }

  /** `ReplaceFirst` brings in no character that is neither in the text nor
      in the replacement. */
  lemma {:induction false} ReplaceFirstChars(s: string, pat: string, rep: string)
    ensures forall c :: c in ReplaceFirst(s, pat, rep) ==> c in s || c in rep
    decreases |s|
  {
    if |s| >= |pat| && s[..|pat|] != pat {
      ReplaceFirstChars(s[1..], pat, rep);
    }
  }

  /** Removing the first occurrence of one character: the character count
      drops by exactly one when `c` is present, and nothing changes otherwise. */
  lemma {:induction false} RemoveFirstChar(s: string, c: char)
    ensures c !in s ==> ReplaceFirst(s, [c], "") == s
    ensures c in s ==> |ReplaceFirst(s, [c], "")| == |s| - 1
    ensures multiset(ReplaceFirst(s, [c], "")) == if c in s then multiset(s) - multiset{c} else multiset(s)
    decreases |s|
  {
    if s == [] {
    } else if s[..1] == [c] {
      assert s == [s[0]] + s[1..];
    } else {
      RemoveFirstChar(s[1..], c);
      assert s == [s[0]] + s[1..];
    }
  }

  /** Removing the first `c` commutes with a character map `f` that sends
      `c`, and only `c`, to `c`. */
  lemma {:induction false} RemoveFirstCharImage(s: string, t: string, c: char, f: char -> char)
    requires |t| == |s|
    requires forall i :: 0 <= i < |s| ==> t[i] == f(s[i])
    requires forall x :: f(x) == c <==> x == c
    ensures |ReplaceFirst(t, [c], "")| == |ReplaceFirst(s, [c], "")|
    ensures forall i :: 0 <= i < |ReplaceFirst(s, [c], "")| ==>
              ReplaceFirst(t, [c], "")[i] == f(ReplaceFirst(s, [c], "")[i])
    decreases |s|
  {
    if s == [] {
    } else {
      assert (s[..1] == [c]) <==> (s[0] == c);
      assert (t[..1] == [c]) <==> (t[0] == c);
      if s[0] != c {
        RemoveFirstCharImage(s[1..], t[1..], c, f);
      }
    }
  }

  /** `parts.join(sep)`: the first part comes first, and every further part
      adds itself and one separator. */
  function Join(parts: seq<string>, sep: string): (r: string)
    ensures |parts| > 0 ==> |r| >= |parts[0]| && r[..|parts[0]|] == parts[0]
    ensures |parts| > 0 ==> |r| >= (|parts| - 1) * |sep|
  {
    if |parts| == 0 then ""
    else if |parts| == 1 then parts[0]
    else parts[0] + sep + Join(parts[1..], sep)
  }

  /** Every character of a join comes from the separator or from a part. */
  lemma {:induction false} JoinChars(parts: seq<string>, sep: string)
    ensures forall c :: c in Join(parts, sep) ==> c in sep || exists i :: 0 <= i < |parts| && c in parts[i]
  {
    if |parts| > 1 {
      JoinChars(parts[1..], sep);
      forall c | c in Join(parts[1..], sep) && c !in sep
        ensures exists i :: 0 <= i < |parts| && c in parts[i]
      {
        var i :| 0 <= i < |parts[1..]| && c in parts[1..][i];
        assert c in parts[i + 1];
      }
    }
  }

  lemma {:induction false} JoinSnoc(parts: seq<string>, x: string, sep: string)
    requires |parts| > 0
    ensures Join(parts + [x], sep) == Join(parts, sep) + sep + x
  {
    if |parts| > 1 {
      assert (parts + [x])[1..] == parts[1..] + [x];
      JoinSnoc(parts[1..], x, sep);
    }
  }

  /** `s.split(sep)` for a one-character separator: the pieces between
      separators, at least one and none holding a separator. */
  function Split(s: string, sep: char): (r: seq<string>)
    ensures |r| >= 1
    ensures forall i :: 0 <= i < |r| ==> sep !in r[i]
  {
    if s == [] then [""]
    else
      var t := Split(s[1..], sep);
      if s[0] == sep then [""] + t else [[s[0]] + t[0]] + t[1..]
  }

  lemma {:induction false} SplitNoSeparator(a: string, sep: char)
    requires sep !in a
    ensures Split(a, sep) == [a]
  {
    if a != [] {
      SplitNoSeparator(a[1..], sep);
      assert a == [a[0]] + a[1..];
    }
  }

  lemma {:induction false} SplitAfterPiece(a: string, b: string, sep: char)
    requires sep !in a
    ensures Split(a + [sep] + b, sep) == [a] + Split(b, sep)
  {
    if a == [] {
      assert a + [sep] + b == [sep] + b;
      assert ([sep] + b)[1..] == b;
    } else {
      assert (a + [sep] + b)[1..] == a[1..] + [sep] + b;
      SplitAfterPiece(a[1..], b, sep);
      assert a == [a[0]] + a[1..];
    }
  }

  /** Splitting joined pieces gives the pieces back, when none of them holds
      the separator. */
  lemma {:induction false} SplitJoin(parts: seq<string>, sep: char)
    requires |parts| >= 1
    requires forall i :: 0 <= i < |parts| ==> sep !in parts[i]
    ensures Split(Join(parts, [sep]), sep) == parts
  {
    if |parts| == 1 {
      SplitNoSeparator(parts[0], sep);
    } else {
      SplitJoin(parts[1..], sep);
      SplitAfterPiece(parts[0], Join(parts[1..], [sep]), sep);
      assert parts == [parts[0]] + parts[1..];
    }
  }

  /** Joining the pieces of a split gives the text back. */
  lemma {:induction false} JoinSplit(s: string, sep: char)
    ensures Join(Split(s, sep), [sep]) == s
  {
    if s != [] {
      JoinSplit(s[1..], sep);
      var t := Split(s[1..], sep);
      if s[0] == sep {
        assert ([""] + t)[1..] == t;
      } else {
        assert ([[s[0]] + t[0]] + t[1..])[1..] == t[1..];
        if |t| > 1 {
          assert t == [t[0]] + t[1..];
        }
      }
    }
  }

  predicate IsDigit(c: char) {
    '0' <= c <= '9'
  }

  function DigitChar(d: int): (c: char)
    requires 0 <= d < 10
    ensures IsDigit(c) && c as int - '0' as int == d
  {
    ('0' as int + d) as char
  }

  /** The decimal text of a natural number, without leading zeros. */
  function NatToString(n: nat): (r: string)
    ensures |r| >= 1
    ensures forall i :: 0 <= i < |r| ==> IsDigit(r[i])
    ensures r[0] == '0' ==> n == 0
    decreases n
  {
    if n < 10 then [DigitChar(n)] else NatToString(n / 10) + [DigitChar(n % 10)]
  }

  /** What a template literal writes for an integer-valued number. */
  function IntToString(n: int): (r: string)
    ensures |r| >= 1
    ensures IsDigit(r[0]) || (r[0] == '-' && n < 0)
  {
    if n < 0 then "-" + NatToString(-n) else NatToString(n)
  }

  /** The number denoted by a sequence of decimal digits. */
  function ParseNat(s: string): nat
    requires forall i :: 0 <= i < |s| ==> IsDigit(s[i])
  {
    if s == [] then 0
    else
      assert IsDigit(s[|s| - 1]);
      10 * ParseNat(s[..|s| - 1]) + (s[|s| - 1] as int - '0' as int)
  }

  /** The number denoted by an optionally negative decimal text. */
  function ParseInt(s: string): int
    requires |s| >= 1
    requires s[0] == '-' ==> |s| >= 2
    requires forall i :: (if s[0] == '-' then 1 else 0) <= i < |s| ==> IsDigit(s[i])
  {
    if s[0] == '-' then -(ParseNat(s[1..]) as int) else ParseNat(s)
  }

  lemma {:induction false} ParseNatToString(n: nat)
    ensures ParseNat(NatToString(n)) == n
    decreases n
  {
    if n >= 10 {
      ParseNatToString(n / 10);
      var r := NatToString(n / 10) + [DigitChar(n % 10)];
      assert r[..|r| - 1] == NatToString(n / 10);
    }
  }

  /** The integer text reads back as the same integer. */
  lemma ParseIntToString(n: int)
    ensures ParseInt(IntToString(n)) == n
  {
    if n < 0 {
      ParseNatToString(-n);
      assert IntToString(n)[1..] == NatToString(-n);
    } else {
      ParseNatToString(n);
    }
  }
}
