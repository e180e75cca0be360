/** The two-pass regular-expression rewrite that turns a PascalCase table name
    into snake_case. The same three lines appear as `to_snake_case` and as
    `camel_to_snake_case` in three programs of the repository:

      s1 = re.sub('(.)([A-Z][a-z]+)', r'\1_\2', name)
      return re.sub('([a-z0-9])([A-Z])', r'\1_\2', s1).lower()

    `re.sub` scans left to right, replaces each leftmost match and resumes
    after it; `.` matches any character except a newline. */
module SnakeCase {
  import opened Text

  /** The length of the run of `[a-z]` at the start of `s` (a greedy `[a-z]*`). */
  function LowerRun(s: string): (n: nat)
    ensures n <= |s|
    ensures forall i :: 0 <= i < n ==> IsAsciiLower(s[i])
    ensures n < |s| ==> !IsAsciiLower(s[n])
    decreases |s|
  {
    if s != [] && IsAsciiLower(s[0]) then 1 + LowerRun(s[1..]) else 0
  }

  /** The first pattern, `(.)([A-Z][a-z]+)`, matches at the start of `s`. */
  predicate WordAt(s: string) {
    |s| >= 3 && s[0] != '\n' && IsAsciiUpper(s[1]) && IsAsciiLower(s[2])
  }

  /** The first pass: an underscore goes in front of every capitalised word
      that has some character before it. */
  function SeparateWords(s: string): string
    decreases |s|
  {
    if WordAt(s) then
      var e := 2 + LowerRun(s[2..]);
      [s[0], '_'] + s[1..e] + SeparateWords(s[e..])
    else if s == [] then []
    else [s[0]] + SeparateWords(s[1..])
  }

  /** The second pattern, `([a-z0-9])([A-Z])`, matches at the start of `s`. */
  predicate CapAt(s: string) {
    |s| >= 2 && (IsAsciiLower(s[0]) || IsAsciiDigit(s[0])) && IsAsciiUpper(s[1])
  }

  /** The second pass: an underscore goes between a lower-case letter or digit
      and an upper-case letter that follows it. */
  function SeparateCaps(s: string): string
    decreases |s|
  {
    if CapAt(s) then [s[0], '_', s[1]] + SeparateCaps(s[2..])
    else if s == [] then []
    else [s[0]] + SeparateCaps(s[1..])
  }

  /** `to_snake_case(name)` and `camel_to_snake_case(name)`. */
  function ToSnakeCase(name: string): (r: string)
    ensures NoAsciiUpper(r)
  {
    Lower(SeparateCaps(SeparateWords(name)))
  }

  /** `t` is `s` with zero or more underscores put in. */
  ghost predicate Inserts(t: string, s: string)
    decreases |t|
  {
    if t == [] then s == []
    else
      || (s != [] && t[0] == s[0] && Inserts(t[1..], s[1..]))
      || (t[0] == '_' && Inserts(t[1..], s))
  }

  lemma {:induction false} InsertsRefl(s: string)
    ensures Inserts(s, s)
    decreases |s|
  {
    if s != [] {
      InsertsRefl(s[1..]);
    }
  }

  lemma {:induction false} InsertsConcat(t1: string, s1: string, t2: string, s2: string)
    requires Inserts(t1, s1) && Inserts(t2, s2)
    ensures Inserts(t1 + t2, s1 + s2)
    decreases |t1|
  {
    if t1 == [] {
      assert t1 + t2 == t2 && s1 + s2 == s2;
    } else {
      var t := t1 + t2;
      assert t[0] == t1[0] && t[1..] == t1[1..] + t2;
      if s1 != [] && t1[0] == s1[0] && Inserts(t1[1..], s1[1..]) {
        InsertsConcat(t1[1..], s1[1..], t2, s2);
        assert (s1 + s2)[1..] == s1[1..] + s2;
      } else {
        InsertsConcat(t1[1..], s1, t2, s2);
      }
    }
  }

  /** Putting underscores into a string that already had some put in is again
      putting underscores into the original. */
  lemma {:induction false} InsertsTrans(t: string, u: string, s: string)
    requires Inserts(t, u) && Inserts(u, s)
    ensures Inserts(t, s)
    decreases |t|
  {
    if t != [] {
      if u != [] && t[0] == u[0] && Inserts(t[1..], u[1..]) {
        if s != [] && u[0] == s[0] && Inserts(u[1..], s[1..]) {
          InsertsTrans(t[1..], u[1..], s[1..]);
        } else {
          InsertsTrans(t[1..], u[1..], s);
        }
      } else {
        InsertsTrans(t[1..], u, s);
      }
    }
  }

  /** Lower-casing commutes with putting in underscores. */
  lemma {:induction false} InsertsLower(t: string, s: string)
    requires Inserts(t, s)
    ensures Inserts(Lower(t), Lower(s))
    decreases |t|
  {
    if t != [] {
      var lt := Lower(t);
      assert lt[1..] == Lower(t[1..]);
      if s != [] && t[0] == s[0] && Inserts(t[1..], s[1..]) {
        InsertsLower(t[1..], s[1..]);
        assert Lower(s)[1..] == Lower(s[1..]);
      } else {
        InsertsLower(t[1..], s);
      }
    }
  }

  /** A one-character prefix that both strings share. */
  lemma InsertsCons(c: char, t: string, s: string)
    requires Inserts(t, s)
    ensures Inserts([c] + t, [c] + s)
  {
    assert ([c] + t)[1..] == t;
    assert ([c] + s)[1..] == s;
  }

  /** An underscore in front is one more underscore put in. */
  lemma InsertsUnderscore(t: string, s: string)
    requires Inserts(t, s)
    ensures Inserts(['_'] + t, s)
  {
    assert (['_'] + t)[1..] == t;
  }

  /** The first pass only puts in underscores. */
  lemma {:induction false} SeparateWordsInserts(s: string)
    ensures Inserts(SeparateWords(s), s)
    decreases |s|
  {
    if WordAt(s) {
      var e := 2 + LowerRun(s[2..]);
      SeparateWordsInserts(s[e..]);
      WordInserts(s, e);
    } else if s != [] {
      SeparateWordsInserts(s[1..]);
      InsertsCons(s[0], SeparateWords(s[1..]), s[1..]);
      assert [s[0]] + s[1..] == s;
    }
  }

  /** One step of the first pass at a capitalised word ending at `e`. */
  lemma WordInserts(s: string, e: nat)
    requires WordAt(s) && e == 2 + LowerRun(s[2..])
    requires Inserts(SeparateWords(s[e..]), s[e..])
    ensures Inserts(SeparateWords(s), s)
  {
    var w, rest := s[1..e], s[e..];
    var t := SeparateWords(rest);
    InsertsRefl(w);
    InsertsConcat(w, w, t, rest);
    InsertsUnderscore(w + t, w + rest);
    InsertsCons(s[0], ['_'] + (w + t), w + rest);
    WordSplit(s, e);
  }

  /** The first pass at a capitalised word, and the name, split at the word. */
  lemma WordSplit(s: string, e: nat)
    requires WordAt(s) && e == 2 + LowerRun(s[2..])
    ensures SeparateWords(s) == [s[0]] + (['_'] + (s[1..e] + SeparateWords(s[e..])))
    ensures s == [s[0]] + (s[1..e] + s[e..])
  {
    var w, r := s[1..e], SeparateWords(s[e..]);
    assert SeparateWords(s) == [s[0], '_'] + w + r;
    Regroup(s[0], w, r);
    SplitAt(s, e);
  }

  lemma Regroup(c: char, w: string, r: string)
    ensures [c, '_'] + w + r == [c] + (['_'] + (w + r))
  {
  }

  lemma SplitAt(s: string, e: nat)
    requires 1 <= e <= |s|
    ensures s == [s[0]] + (s[1..e] + s[e..])
  {
    assert s[1..e] + s[e..] == s[1..];
  }

  /** The second pass only puts in underscores. */
  lemma {:induction false} SeparateCapsInserts(s: string)
    ensures Inserts(SeparateCaps(s), s)
    decreases |s|
  {
    if CapAt(s) {
      SeparateCapsInserts(s[2..]);
      var u: string := ['_', s[1]] + SeparateCaps(s[2..]);
      InsertsCons(s[1], SeparateCaps(s[2..]), s[2..]);
      assert u[1..] == [s[1]] + SeparateCaps(s[2..]);
      assert Inserts(u, [s[1]] + s[2..]);
      InsertsCons(s[0], u, [s[1]] + s[2..]);
      assert [s[0]] + u == SeparateCaps(s);
      assert [s[0]] + ([s[1]] + s[2..]) == s;
    } else if s != [] {
      SeparateCapsInserts(s[1..]);
      InsertsCons(s[0], SeparateCaps(s[1..]), s[1..]);
      assert [s[0]] + s[1..] == s;
    }
  }

  /** The result is the lower-cased name with zero or more underscores put in. */
  lemma ToSnakeCaseInserts(name: string)
    ensures Inserts(ToSnakeCase(name), Lower(name))
  {
    SeparateWordsInserts(name);
    SeparateCapsInserts(SeparateWords(name));
    InsertsTrans(SeparateCaps(SeparateWords(name)), SeparateWords(name), name);
    InsertsLower(SeparateCaps(SeparateWords(name)), name);
  }

  /** The result is never shorter than the name. */
  lemma {:induction false} InsertsLength(t: string, s: string)
    requires Inserts(t, s)
    ensures |t| >= |s|
    decreases |t|
  {
    if t != [] {
      if s != [] && t[0] == s[0] && Inserts(t[1..], s[1..]) {
        InsertsLength(t[1..], s[1..]);
      } else {
        InsertsLength(t[1..], s);
      }
    }
  }

  /** The first pass leaves a string without upper-case letters alone. */
  lemma {:induction false} SeparateWordsNoUpper(s: string)
    requires NoAsciiUpper(s)
    ensures SeparateWords(s) == s
    decreases |s|
  {
    if s != [] {
      assert !WordAt(s) by {
        if |s| >= 3 { assert !IsAsciiUpper(s[1]); }
      }
      SeparateWordsNoUpper(s[1..]);
      assert [s[0]] + s[1..] == s;
    }
  }

  /** The second pass leaves a string without upper-case letters alone. */
  lemma {:induction false} SeparateCapsNoUpper(s: string)
    requires NoAsciiUpper(s)
    ensures SeparateCaps(s) == s
    decreases |s|
  {
    if s != [] {
      assert !CapAt(s) by {
        if |s| >= 2 { assert !IsAsciiUpper(s[1]); }
      }
      SeparateCapsNoUpper(s[1..]);
      assert [s[0]] + s[1..] == s;
    }
  }

  /** Lower-casing a string without upper-case letters changes nothing. */
  lemma LowerNoUpper(s: string)
    requires NoAsciiUpper(s)
    ensures Lower(s) == s
  {
  }

  /** Both patterns need an upper-case letter and the result has none, so a
      second conversion changes nothing. */
  lemma ToSnakeCaseIdempotent(name: string)
    ensures ToSnakeCase(ToSnakeCase(name)) == ToSnakeCase(name)
  {
    var t := ToSnakeCase(name);
    SeparateWordsNoUpper(t);
    SeparateCapsNoUpper(t);
    LowerNoUpper(t);
  }

  // The worked example `to_snake_case("DepositTransactions")`, one pass at a time.

  const DepositTransactions: string := "Deposit" + "Transactions"

  /** The first pass copies a stretch that holds no upper-case letter after its first character. */
  lemma {:induction false} SeparateWordsCopy(a: string, b: string)
    requires forall i :: 1 <= i < |a| ==> !IsAsciiUpper(a[i])
    requires |b| > 0 ==> !IsAsciiUpper(b[0])
    ensures SeparateWords(a + b) == a + SeparateWords(b)
    decreases |a|
  {
    if a != [] {
      var r := a[1..] + b;
      assert a + b == [a[0]] + r;
      assert ([a[0]] + r)[1..] == r;
      if |a| > 1 { assert r[0] == a[1]; } else { assert r == b; }
      SeparateWordsCopy(a[1..], b);
      assert a == [a[0]] + a[1..];
    } else {
      assert a + b == b;
    }
  }

  /** A run made only of `[a-z]` is taken whole. */
  lemma {:induction false} LowerRunAll(s: string)
    requires forall i :: 0 <= i < |s| ==> IsAsciiLower(s[i])
    ensures LowerRun(s) == |s|
    decreases |s|
  {
    if s != [] {
      LowerRunAll(s[1..]);
    }
  }

  /** A character followed by one capitalised word that runs to the end. */
  lemma SeparateWordsLastWord(c: char, u: char, w: string, t: string)
    requires c != '\n' && IsAsciiUpper(u)
    requires |w| > 0 && forall i :: 0 <= i < |w| ==> IsAsciiLower(w[i])
    requires t == [c, u] + w
    ensures SeparateWords(t) == [c, '_', u] + w
  {
    LowerRunAll(w);
    assert t[2..] == w;
    assert t[2 + |w|..] == [];
    assert t[1..2 + |w|] == [u] + w;
  }

  lemma ExampleWordsTail(s: string)
    requires s == DepositTransactions
    ensures SeparateWords(s[6..]) == "t_Transactions"
  {
    var w := s[8..];
    assert w == "ransactions";
    SeparateWordsLastWord('t', 'T', w, s[6..]);
  }

  lemma ExampleWordsHead(s: string)
    requires s == DepositTransactions
    ensures SeparateWords(s) == s[..6] + SeparateWords(s[6..])
  {
    SeparateWordsCopy(s[..6], s[6..]);
    assert s[..6] + s[6..] == s;
  }

  lemma ExampleWords(s: string)
    requires s == DepositTransactions
    ensures SeparateWords(s) == "Deposit_Transactions"
  {
    ExampleWordsTail(s);
    ExampleWordsHead(s);
    assert s[..6] == "Deposi";
    ExampleWordsJoin();
  }

  lemma ExampleWordsJoin()
    ensures "Deposi" + "t_Transactions" == "Deposit_Transactions"
  {
  }

  /** The second pass copies a string in which the pattern matches nowhere. */
  lemma {:induction false} SeparateCapsNone(s: string)
    requires forall i :: 0 <= i < |s| - 1 ==> !CapAt(s[i..])
    ensures SeparateCaps(s) == s
    decreases |s|
  {
    if s != [] {
      assert !CapAt(s[0..]);
      assert s[0..] == s;
      forall i | 0 <= i < |s[1..]| - 1 ensures !CapAt(s[1..][i..]) {
        assert s[1..][i..] == s[i + 1..];
      }
      SeparateCapsNone(s[1..]);
      assert [s[0]] + s[1..] == s;
    }
  }

  lemma ExampleCaps(t: string)
    requires t == "Deposit_Transactions"
    ensures SeparateCaps(t) == t
  {
    forall i | 0 <= i < |t| - 1 ensures !CapAt(t[i..]) {
      assert t[i..][0] == t[i] && t[i..][1] == t[i + 1];
    }
    SeparateCapsNone(t);
  }

  lemma ExampleLower(t: string)
    requires t == "Deposit_Transactions"
    ensures Lower(t) == "deposit_transactions"
  {
    var u := "deposit_transactions";
    forall i | 0 <= i < |t| ensures u[i] == LowerChar(t[i]) {
    }
    LowerEach(t, u);
  }

  /** A string that is `t` lower-cased character by character is `Lower(t)`. */
  lemma LowerEach(t: string, u: string)
    requires |u| == |t| && forall i :: 0 <= i < |t| ==> u[i] == LowerChar(t[i])
    ensures Lower(t) == u
  {
  }

  /** `to_snake_case("DepositTransactions") == "deposit_transactions"`. */
  lemma ToSnakeCaseExample(s: string)
    requires s == DepositTransactions
    ensures ToSnakeCase(s) == "deposit_transactions"
  {
    ExampleWords(s);
    var t := SeparateWords(s);
    ExampleCaps(t);
    ExampleLower(t);
  }
}
