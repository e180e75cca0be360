/** `archive/utils/snowflake_utils.py`: `load_data_to_snowflake` splits the
    formatted SQL on `;` and executes every non-blank segment in order. The
    connection, the SQL file and the database are outside the model: whether
    connecting succeeds, the formatted SQL text (absent when reading or
    formatting the file raises) and which `execute` calls the database rejects are
    inputs. */
module SnowflakeUtils {
  import opened Wrappers
  import opened Text
  import opened Seqs

  /** The statement separator. */
  const Separator: char := ';'

  /** `stmt.strip()` is truthy. */
  predicate NonBlank(stmt: string) {
    !IsBlank(stmt)
  }

  /** The segments of `segs` that are executed, raw and in order. */
  function Executed(segs: seq<string>): seq<string> {
    Filter(segs, NonBlank)
  }

  /** The statements that are executed, raw and in order. */
  function Statements(sql: string): seq<string> {
    Executed(Split(sql, Separator))
  }

  /** The database's answer to the `execute` calls: `rejects(j, stmt)` says
      whether the j-th call, made with `stmt`, raises. The answer may depend on
      the position as well as the text, so the same statement can pass once
      and fail later. */
  type Rejects = (nat, string) -> bool

  /** The position of the first statement the database rejects, `|stmts|`
      when it rejects none. */
  function FirstRejected(stmts: seq<string>, rejects: Rejects): (k: nat)
    ensures k <= |stmts|
    ensures forall j :: 0 <= j < k ==> !rejects(j, stmts[j])
    ensures k < |stmts| ==> rejects(k, stmts[k])
  {
    FirstRejectedFrom(stmts, rejects, 0)
  }

  /** The first rejection at position `j` or later. */
  function FirstRejectedFrom(stmts: seq<string>, rejects: Rejects, j: nat): (k: nat)
    requires j <= |stmts|
    ensures j <= k <= |stmts|
    ensures forall m :: j <= m < k ==> !rejects(m, stmts[m])
    ensures k < |stmts| ==> rejects(k, stmts[k])
    decreases |stmts| - j
  {
    if j == |stmts| || rejects(j, stmts[j]) then j else FirstRejectedFrom(stmts, rejects, j + 1)
  }

  /** `load_data_to_snowflake`: `connected` says whether connecting (and
      reading the configuration keys) succeeds, `sql` is the formatted SQL,
      `rejects` which `execute` calls raise. Returns the flag and the
      statements handed to `execute`, in order. */
  method LoadDataToSnowflake(connected: bool, sql: Option<string>, rejects: Rejects)
    returns (success: bool, executed: seq<string>)
    ensures !connected || sql.None? ==> !success && executed == []
    ensures connected && sql.Some? ==>
      var stmts := Statements(sql.value);
      var k := FirstRejected(stmts, rejects);
      && (success <==> k == |stmts|)
      && executed == stmts[..if k < |stmts| then k + 1 else k]
  {
    executed := [];
    if !connected || sql.None? {
      return false, executed;
    }
    var sqlStatements := Split(sql.value, Separator);
    for i := 0 to |sqlStatements|
      invariant executed == Executed(sqlStatements[..i])
      invariant NoneRejected(executed, rejects)
    {
      var stmt := sqlStatements[i];
      ExecuteStep(sqlStatements, i);
      if NonBlank(stmt) {
        var call := |executed|;
        executed := executed + [stmt];
        if rejects(call, stmt) {
          RejectedHere(sqlStatements, i, executed, rejects);
          return false, executed;
        }
      }
    }
    assert sqlStatements[..|sqlStatements|] == sqlStatements;
    return true, executed;
  }

  /** The database rejects none of the calls made with `stmts`. */
  predicate NoneRejected(stmts: seq<string>, rejects: Rejects) {
    forall j :: 0 <= j < |stmts| ==> !rejects(j, stmts[j])
  }

  /** The statements executed after one more segment. */
  lemma ExecuteStep(segs: seq<string>, i: nat)
    requires i < |segs|
    ensures Executed(segs[..i + 1]) == Executed(segs[..i]) + (if NonBlank(segs[i]) then [segs[i]] else [])
  {
    assert segs[..i + 1] == segs[..i] + [segs[i]];
    FilterSnoc(segs[..i], segs[i], NonBlank);
  }

  /** A rejection at segment `i` stops the run at the statement it belongs to. */
  lemma RejectedHere(segs: seq<string>, i: nat, executed: seq<string>, rejects: Rejects)
    requires i < |segs| && executed == Executed(segs[..i + 1]) && executed != []
    requires NoneRejected(executed[..|executed| - 1], rejects)
    requires rejects(|executed| - 1, executed[|executed| - 1])
    ensures var stmts := Executed(segs);
      |executed| <= |stmts| && FirstRejected(stmts, rejects) == |executed| - 1 && executed == stmts[..|executed|]
  {
    FilterConcat(segs[..i + 1], segs[i + 1..], NonBlank);
    assert segs[..i + 1] + segs[i + 1..] == segs;
    var stmts := Executed(segs);
    assert stmts[..|executed|] == executed;
    var n := |executed| - 1;
    assert forall j :: 0 <= j < n ==> stmts[j] == executed[..n][j];
  }

  /** A segment is executed exactly when it is non-blank, and what is
      executed is the raw segment, holding no `;`. */
  lemma StatementsExact(sql: string)
    ensures forall s :: s in Statements(sql) <==> s in Split(sql, Separator) && NonBlank(s)
    ensures forall i :: 0 <= i < |Statements(sql)| ==> Separator !in Statements(sql)[i]
  {
    SplitPartsNoSep(sql, Separator);
    FilterMembers(Split(sql, Separator), NonBlank);
  }

  /** The statements keep the order of the segments. */
  lemma StatementsInOrder(sql: string)
    ensures IsSubsequence(Statements(sql), Split(sql, Separator))
  {
    FilterIsSubsequence(Split(sql, Separator), NonBlank);
  }

  /** Joining the segments with `;` gives back the formatted SQL: splitting
      loses nothing but the separators. */
  lemma SegmentsJoin(sql: string)
    ensures Join([Separator], Split(sql, Separator)) == sql
  {
    JoinSplit(sql, Separator);
  }

  /** The load reports success exactly when the database rejects none of
      the calls. */
  lemma SuccessMeansNoneRejected(stmts: seq<string>, rejects: Rejects)
    ensures FirstRejected(stmts, rejects) == |stmts| <==> NoneRejected(stmts, rejects)
  {
  }

  /** The segments of `"A; B;"`. */
  lemma SplitExample()
    ensures Split("A; B;", Separator) == ["A", " B", ""]
  {
    assert Split(";", Separator) == ["", ""] by {
      assert ";"[1..] == "";
    }
    assert Split("B;", Separator) == ["B", ""] by {
      assert "B;"[1..] == ";" && "B;"[0] == 'B' && ['B'] + "" == "B";
    }
    assert Split(" B;", Separator) == [" B", ""] by {
      assert " B;"[1..] == "B;" && " B;"[0] == ' ' && [' '] + "B" == " B";
    }
    assert Split("; B;", Separator) == ["", " B", ""] by {
      assert "; B;"[1..] == " B;";
    }
    assert "A; B;"[1..] == "; B;" && "A; B;"[0] == 'A' && ['A'] + "" == "A";
  }

  /** Filtering three segments of which the last is blank. */
  lemma FilterLastBlank(a: string, b: string, c: string)
    requires NonBlank(a) && NonBlank(b) && !NonBlank(c)
    ensures Filter([a, b, c], NonBlank) == [a, b]
  {
    var segs := [a, b, c];
    assert segs[..2] == [a, b] && segs[..2][..1] == [a] && segs[..2][..1][..0] == [];
    assert Filter([a], NonBlank) == [a] by {
      assert [a][..0] == [];
    }
    assert Filter([a, b], NonBlank) == [a, b] by {
      assert [a, b][..1] == [a];
    }
    assert segs[..|segs| - 1] == [a, b];
  }

  /** The segments are executed unstripped, and a trailing `;` leaves only a
      blank segment, which is skipped. */
  lemma RawSegments()
    ensures Statements("A; B;") == ["A", " B"]
  {
    SplitExample();
    StripUnchanged("A");
    BlankIffAllSpace(" B");
    BlankIffAllSpace("");
    assert " B"[1] == 'B' && !IsSpace('B') && !AllSpace(" B");
    assert NonBlank("A") && NonBlank(" B") && !NonBlank("");
    FilterLastBlank("A", " B", "");
    assert Statements("A; B;") == Filter(["A", " B", ""], NonBlank);
  }
}
