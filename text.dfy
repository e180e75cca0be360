/** The parts of Python's `str` that the pipeline relies on: character classes,
    `strip`, `split` on one character, `join`, `in`, `lower` and decimal
    formatting of a count. Strings are sequences of Unicode scalar values. */
module Text {

  /** Python's `str.isspace()` for one character; a `\s` in a `str` pattern
      matches exactly these characters too. */
  predicate IsSpace(c: char) {
    c == ' ' || '\t' <= c <= '\r' || '\U{1C}' <= c <= '\U{1F}'
    || c == '\U{85}' || c == '\U{A0}' || c == '\U{1680}'
    || '\U{2000}' <= c <= '\U{200A}' || c == '\U{2028}' || c == '\U{2029}'
    || c == '\U{202F}' || c == '\U{205F}' || c == '\U{3000}'
  }

  /** The regular-expression class `[A-Z]`. */
  predicate IsAsciiUpper(c: char) { 'A' <= c <= 'Z' }

  /** The regular-expression class `[a-z]`. */
  predicate IsAsciiLower(c: char) { 'a' <= c <= 'z' }

  /** The regular-expression class `[0-9]`. */
  predicate IsAsciiDigit(c: char) { '0' <= c <= '9' }

  /** No character of `s` is in `[A-Z]`. */
  predicate NoAsciiUpper(s: string) {
    forall i :: 0 <= i < |s| ==> !IsAsciiUpper(s[i])
  }

  /** Every character of `s` is whitespace. */
  predicate AllSpace(s: string) {
    forall i :: 0 <= i < |s| ==> IsSpace(s[i])
  }

  /** `lower()` of one character, for the ASCII letters. */
  function LowerChar(c: char): (d: char)
    ensures !IsAsciiUpper(d)
    ensures IsAsciiUpper(c) ==> d as int == c as int + 32
    ensures !IsAsciiUpper(c) ==> d == c
  {
    if IsAsciiUpper(c) then (c as int + 32) as char else c
  }

  /** Python's `str.lower()` on the ASCII letters. */
  function Lower(s: string): (r: string)
    ensures |r| == |s|
    ensures forall i :: 0 <= i < |s| ==> r[i] == LowerChar(s[i])
    ensures NoAsciiUpper(r)
    decreases |s|
  {
    if s == [] then [] else [LowerChar(s[0])] + Lower(s[1..])
  }

  /** `s` with its leading characters satisfying `drop` removed. */
  function TrimLeft(s: string, drop: char -> bool): string
    decreases |s|
  {
    if s != [] && drop(s[0]) then TrimLeft(s[1..], drop) else s
  }

  /** Trimming on the left keeps a suffix that does not start with a dropped
      character, and drops only dropped characters. */
  lemma {:induction false} TrimLeftSpec(s: string, drop: char -> bool)
    ensures var r := TrimLeft(s, drop);
      && |r| <= |s| && r == s[|s| - |r|..]
      && (r != [] ==> !drop(r[0]))
      && forall i :: 0 <= i < |s| - |r| ==> drop(s[i])
    decreases |s|
  {
    if s != [] && drop(s[0]) {
      TrimLeftSpec(s[1..], drop);
    }
  }

  /** `s` with its trailing characters satisfying `drop` removed. */
  function TrimRight(s: string, drop: char -> bool): string
    decreases |s|
  {
    if s != [] && drop(s[|s| - 1]) then TrimRight(s[..|s| - 1], drop) else s
  }

  /** Trimming on the right keeps a prefix that does not end with a dropped
      character, and drops only dropped characters. */
  lemma {:induction false} TrimRightSpec(s: string, drop: char -> bool)
    ensures var r := TrimRight(s, drop);
      && |r| <= |s| && r == s[..|r|]
      && (r != [] ==> !drop(r[|r| - 1]))
      && forall i :: |r| <= i < |s| ==> drop(s[i])
    decreases |s|
  {
    if s != [] && drop(s[|s| - 1]) {
      TrimRightSpec(s[..|s| - 1], drop);
    }
  }

  /** Python's `str.strip(chars)`, the characters given by `drop`. */
  function StripBy(s: string, drop: char -> bool): string {
    TrimRight(TrimLeft(s, drop), drop)
  }

  /** Python's `str.strip()`. */
  function Strip(s: string): string {
    StripBy(s, IsSpace)
  }

  /** Python's `not s.strip()`. */
  predicate IsBlank(s: string) {
    Strip(s) == []
  }

  /** Trimming a string whose every character is dropped leaves nothing. */
  lemma {:induction false} TrimLeftAll(s: string, drop: char -> bool)
    requires forall i :: 0 <= i < |s| ==> drop(s[i])
    ensures TrimLeft(s, drop) == []
    decreases |s|
  {
    if s != [] {
      TrimLeftAll(s[1..], drop);
    }
  }

  /** A string is blank exactly when it holds nothing but whitespace. */
  lemma BlankIffAllSpace(s: string)
    ensures IsBlank(s) <==> AllSpace(s)
  {
    if AllSpace(s) {
      TrimLeftAll(s, IsSpace);
    }
    var l := TrimLeft(s, IsSpace);
    TrimLeftSpec(s, IsSpace);
    TrimRightSpec(l, IsSpace);
  }

  /** `r` is `s` less whitespace at its two ends and nothing else: a slice of
      `s` between two all-whitespace stretches, with no whitespace at its own
      ends. */
  predicate StrippedFrom(r: string, s: string) {
    && |r| <= |s|
    && (exists a :: 0 <= a <= |s| - |r| && SliceBetweenSpaces(r, s, a))
    && (r != [] ==> !IsSpace(r[0]) && !IsSpace(r[|r| - 1]))
  }

  /** `r` sits at `a` in `s`, with only whitespace before and after it. */
  predicate SliceBetweenSpaces(r: string, s: string, a: nat)
    requires a + |r| <= |s|
  {
    r == s[a..a + |r|] && AllSpace(s[..a]) && AllSpace(s[a + |r|..])
  }

  /** `strip()` removes whitespace from the two ends and nothing else. */
  lemma StripSpec(s: string)
    ensures StrippedFrom(Strip(s), s)
  {
    var l := TrimLeft(s, IsSpace);
    var r := Strip(s);
    TrimLeftSpec(s, IsSpace);
    TrimRightSpec(l, IsSpace);
    var a := |s| - |l|;
    assert r == s[a..a + |r|];
    assert AllSpace(s[..a]);
    var tail := s[a + |r|..];
    assert AllSpace(tail) by {
      forall i | 0 <= i < |tail| ensures IsSpace(tail[i]) {
        assert tail[i] == l[|r| + i];
      }
    }
    assert SliceBetweenSpaces(r, s, a);
  }

  /** At most one string is `s` stripped: `StrippedFrom` pins `strip()` down. */
  lemma StrippedUnique(r1: string, r2: string, s: string)
    requires StrippedFrom(r1, s) && StrippedFrom(r2, s)
    ensures r1 == r2
  {
    var a1 :| 0 <= a1 <= |s| - |r1| && SliceBetweenSpaces(r1, s, a1);
    var a2 :| 0 <= a2 <= |s| - |r2| && SliceBetweenSpaces(r2, s, a2);
    if r1 != [] && r2 != [] {
      SliceStarts(r1, r2, s, a1, a2);
      SliceStarts(r2, r1, s, a2, a1);
      SliceEnds(r1, r2, s, a1, a2);
      SliceEnds(r2, r1, s, a2, a1);
    } else if r1 != [] {
      NoSliceInSpaces(r1, r2, s, a1, a2);
    } else if r2 != [] {
      NoSliceInSpaces(r2, r1, s, a2, a1);
    }
  }

  /** A slice that starts with non-whitespace cannot start inside the leading
      whitespace of another. */
  lemma SliceStarts(r1: string, r2: string, s: string, a1: nat, a2: nat)
    requires a1 + |r1| <= |s| && a2 + |r2| <= |s| && r1 != []
    requires SliceBetweenSpaces(r1, s, a1) && SliceBetweenSpaces(r2, s, a2) && !IsSpace(r1[0])
    ensures a2 <= a1
  {
    SpacesAround(s, a2, a2 + |r2|);
    assert s[a1] == r1[0];
  }

  /** A slice that ends with non-whitespace cannot end inside the trailing
      whitespace of another. */
  lemma SliceEnds(r1: string, r2: string, s: string, a1: nat, a2: nat)
    requires a1 + |r1| <= |s| && a2 + |r2| <= |s| && r1 != []
    requires SliceBetweenSpaces(r1, s, a1) && SliceBetweenSpaces(r2, s, a2) && !IsSpace(r1[|r1| - 1])
    ensures a1 + |r1| <= a2 + |r2|
  {
    SpacesAround(s, a2, a2 + |r2|);
    assert s[a1 + |r1| - 1] == r1[|r1| - 1];
  }

  /** When one slice is empty, the whole string is whitespace, so the other
      starts with whitespace. */
  lemma NoSliceInSpaces(r1: string, r2: string, s: string, a1: nat, a2: nat)
    requires a1 + |r1| <= |s| && a2 + |r2| <= |s| && r1 != [] && r2 == []
    requires SliceBetweenSpaces(r1, s, a1) && SliceBetweenSpaces(r2, s, a2)
    ensures IsSpace(r1[0])
  {
    SpacesAround(s, a2, a2);
    assert s[a1] == r1[0];
  }

  /** The characters before `a` and from `b` on are whitespace. */
  lemma SpacesAround(s: string, a: nat, b: nat)
    requires a <= b <= |s| && AllSpace(s[..a]) && AllSpace(s[b..])
    ensures forall i :: 0 <= i < a ==> IsSpace(s[i])
    ensures forall i :: b <= i < |s| ==> IsSpace(s[i])
  {
    assert forall i :: 0 <= i < a ==> s[..a][i] == s[i];
    assert forall i :: b <= i < |s| ==> s[b..][i - b] == s[i];
  }

  /** Stripping a string that starts and ends with non-whitespace changes nothing. */
  lemma StripUnchanged(s: string)
    requires s != [] && !IsSpace(s[0]) && !IsSpace(s[|s| - 1])
    ensures Strip(s) == s
  {
  }

  /** `s[k..]` starts with `lit`. */
  predicate HasAt(s: string, k: nat, lit: string) {
    k + |lit| <= |s| && s[k..k + |lit|] == lit
  }

  /** An occurrence starts with the literal's first character. */
  lemma HasAtFirst(s: string, k: nat, lit: string)
    requires |lit| > 0 && HasAt(s, k, lit)
    ensures k < |s| && s[k] == lit[0]
  {
    assert s[k..k + |lit|][0] == s[k];
  }

  /** An occurrence of `a + b` is an occurrence of `a` followed by one of `b`. */
  lemma HasAtConcat(s: string, k: nat, a: string, b: string)
    requires HasAt(s, k, a + b)
    ensures HasAt(s, k, a) && HasAt(s, k + |a|, b)
  {
    assert s[k..k + |a|] == s[k..k + |a + b|][..|a|];
    assert s[k + |a|..k + |a| + |b|] == s[k..k + |a + b|][|a|..];
  }

  /** `b` occurs in `a + b` right after `a`. */
  lemma HasAtAppend(a: string, b: string)
    ensures HasAt(a + b, |a|, b)
  {
    assert (a + b)[|a|..|a| + |b|] == b;
  }

  /** Python's `sub in s`. */
  function Contains(s: string, sub: string): bool
    decreases |s|
  {
    if HasAt(s, 0, sub) then true
    else if s == [] then false
    else Contains(s[1..], sub)
  }

  /** `sub in s` holds exactly when `sub` occurs at some position of `s`. */
  lemma {:induction false} ContainsSpec(s: string, sub: string)
    ensures Contains(s, sub) <==> exists i :: 0 <= i <= |s| - |sub| && HasAt(s, i, sub)
    decreases |s|
  {
    if !HasAt(s, 0, sub) && s != [] {
      ContainsSpec(s[1..], sub);
      assert forall i :: 0 <= i <= |s| - 1 - |sub| ==> (HasAt(s[1..], i, sub) <==> HasAt(s, i + 1, sub));
      if !Contains(s, sub) {
        forall i | 0 <= i <= |s| - |sub| ensures !HasAt(s, i, sub) {
          if i > 0 { assert !HasAt(s[1..], i - 1, sub); }
        }
      } else {
        var i :| 0 <= i <= |s| - 1 - |sub| && HasAt(s[1..], i, sub);
        assert HasAt(s, i + 1, sub);
      }
    }
  }

  /** An occurrence of `sub` at a known position makes `sub in s` true. */
  lemma ContainsAt(s: string, sub: string, i: nat)
    requires HasAt(s, i, sub)
    ensures Contains(s, sub)
  {
    ContainsSpec(s, sub);
  }

  /** The first index at or after `k` that does not hold whitespace (or `|s|`). */
  function SkipSpaces(s: string, k: nat): (e: nat)
    requires k <= |s|
    ensures k <= e <= |s|
    ensures forall i :: k <= i < e ==> IsSpace(s[i])
    ensures e < |s| ==> !IsSpace(s[e])
    decreases |s| - k
  {
    if k < |s| && IsSpace(s[k]) then SkipSpaces(s, k + 1) else k
  }

  /** Every character of `s[a..b]` is whitespace. */
  predicate SpacesBetween(s: string, a: nat, b: nat) {
    a <= b <= |s| && forall m :: a <= m < b ==> IsSpace(s[m])
  }

  /** Skipping whitespace stops at the first non-whitespace character. */
  lemma {:induction false} SkipSpacesTo(s: string, k: nat, e: nat)
    requires k <= e < |s|
    requires forall i :: k <= i < e ==> IsSpace(s[i])
    requires !IsSpace(s[e])
    ensures SkipSpaces(s, k) == e
    decreases e - k
  {
    if k < e {
      SkipSpacesTo(s, k + 1, e);
    }
  }

  /** The first index at or after `k` that holds `c` (or `|s|`). */
  function Find(s: string, k: nat, c: char): (e: nat)
    requires k <= |s|
    ensures k <= e <= |s|
    ensures forall i :: k <= i < e ==> s[i] != c
    ensures e < |s| ==> s[e] == c
    decreases |s| - k
  {
    if k < |s| && s[k] != c then Find(s, k + 1, c) else k
  }

  /** Finding `c` stops at its first occurrence. */
  lemma {:induction false} FindTo(s: string, k: nat, c: char, e: nat)
    requires k <= e < |s|
    requires forall i :: k <= i < e ==> s[i] != c
    requires s[e] == c
    ensures Find(s, k, c) == e
    decreases e - k
  {
    if k < e {
      FindTo(s, k + 1, c, e);
    }
  }

  /** Python's `s.split(sep)` for a one-character separator. */
  function Split(s: string, sep: char): (parts: seq<string>)
    ensures |parts| >= 1
    decreases |s|
  {
    if s == [] then [""]
    else
      var rest := Split(s[1..], sep);
      if s[0] == sep then [""] + rest else [[s[0]] + rest[0]] + rest[1..]
  }

  /** No part of a split holds the separator. */
  lemma {:induction false} SplitPartsNoSep(s: string, sep: char)
    ensures forall k :: 0 <= k < |Split(s, sep)| ==> sep !in Split(s, sep)[k]
    decreases |s|
  {
    if s != [] {
      SplitPartsNoSep(s[1..], sep);
      var rest := Split(s[1..], sep);
      if s[0] != sep {
        assert sep !in [s[0]] + rest[0];
      }
    }
  }

  /** Python's `sep.join(parts)`. */
  function Join(sep: string, parts: seq<string>): string
    decreases |parts|
  {
    if |parts| == 0 then ""
    else if |parts| == 1 then parts[0]
    else parts[0] + sep + Join(sep, parts[1..])
  }

  /** Putting one more character in front of the first part puts it in front of the join. */
  lemma JoinConsFirst(sep: string, c: char, parts: seq<string>)
    requires |parts| >= 1
    ensures Join(sep, [[c] + parts[0]] + parts[1..]) == [c] + Join(sep, parts)
  {
    var ps := [[c] + parts[0]] + parts[1..];
    assert ps[1..] == parts[1..];
  }

  /** Joining the parts of a split with the separator gives back the string. */
  lemma {:induction false} JoinSplit(s: string, sep: char)
    ensures Join([sep], Split(s, sep)) == s
    decreases |s|
  {
    if s != [] {
      var rest := Split(s[1..], sep);
      JoinSplit(s[1..], sep);
      if s[0] == sep {
        assert ([""] + rest)[1..] == rest;
      } else {
        JoinConsFirst([sep], s[0], rest);
      }
      assert s == [s[0]] + s[1..];
    }
  }

  /** Splitting a string with no separator in it gives that string alone. */
  lemma {:induction false} SplitNoSep(s: string, sep: char)
    requires sep !in s
    ensures Split(s, sep) == [s]
    decreases |s|
  {
    if s != [] {
      SplitNoSep(s[1..], sep);
      assert s == [s[0]] + s[1..];
    }
  }

  /** Splitting `a + [sep] + b`, where `a` holds no separator, gives `a` and then the parts of `b`. */
  lemma {:induction false} SplitAtFirst(a: string, sep: char, b: string)
    requires sep !in a
    ensures Split(a + [sep] + b, sep) == [a] + Split(b, sep)
    decreases |a|
  {
    var s := a + [sep] + b;
    if a == [] {
      assert s[1..] == b;
    } else {
      assert s[1..] == a[1..] + [sep] + b;
      SplitAtFirst(a[1..], sep, b);
      assert [a[0]] + a[1..] == a;
    }
  }

  /** Splitting a join of separator-free parts gives back the parts. */
  lemma {:induction false} SplitJoin(parts: seq<string>, sep: char)
    requires |parts| >= 1
    requires forall k :: 0 <= k < |parts| ==> sep !in parts[k]
    ensures Split(Join([sep], parts), sep) == parts
    decreases |parts|
  {
    if |parts| == 1 {
      SplitNoSep(parts[0], sep);
    } else {
      SplitJoin(parts[1..], sep);
      SplitAtFirst(parts[0], sep, Join([sep], parts[1..]));
      assert parts == [parts[0]] + parts[1..];
    }
  }

  /** The number of occurrences of `c` in `s`. */
  function Count(s: string, c: char): nat
    decreases |s|
  {
    if s == [] then 0 else (if s[0] == c then 1 else 0) + Count(s[1..], c)
  }

  /** Occurrences add up over a concatenation. */
  lemma {:induction false} CountConcat(a: string, b: string, c: char)
    ensures Count(a + b, c) == Count(a, c) + Count(b, c)
    decreases |a|
  {
    if a != [] {
      assert (a + b)[1..] == a[1..] + b;
      CountConcat(a[1..], b, c);
    } else {
      assert a + b == b;
    }
  }

  /** A string without `c` has no occurrence of it. */
  lemma {:induction false} CountAbsent(s: string, c: char)
    requires c !in s
    ensures Count(s, c) == 0
    decreases |s|
  {
    if s != [] { CountAbsent(s[1..], c); }
  }

  /** Joining separator-free parts with a one-character separator puts in one
      separator between each pair of neighbours and no other. */
  lemma {:induction false} CountJoin(parts: seq<string>, c: char)
    requires |parts| >= 1
    requires forall k :: 0 <= k < |parts| ==> c !in parts[k]
    ensures Count(Join([c], parts), c) == |parts| - 1
    decreases |parts|
  {
    CountAbsent(parts[0], c);
    if |parts| > 1 {
      CountJoin(parts[1..], c);
      CountConcat(parts[0], [c], c);
      CountConcat(parts[0] + [c], Join([c], parts[1..]), c);
    }
  }

  /** The decimal digits of `n`, as Python's `str(n)` writes them. */
  function Decimal(n: nat): (r: string)
    ensures r != []
    ensures forall i :: 0 <= i < |r| ==> IsAsciiDigit(r[i])
    decreases n
  {
    var d := ['0' + (n % 10) as char];
    if n < 10 then d else Decimal(n / 10) + d
  }
}
