/**
 * The required-column check both table loaders perform: the expected
 * columns absent from a header, in expected order, and a failure whose
 * message names them joined by ", ".
 */
module Columns {
  import opened Wrappers
  import opened Strings

  /** The expected columns absent from `columns`, in expected order. */
  function Missing(columns: seq<string>, expected: seq<string>): (r: seq<string>)
    ensures |r| <= |expected|
  {
    if |expected| == 0 then []
    else (if expected[0] in columns then [] else [expected[0]]) + Missing(columns, expected[1..])
  }

  /** A column is reported missing exactly when it is expected and absent. */
  lemma {:induction false} MissingMembers(columns: seq<string>, expected: seq<string>, c: string)
    ensures c in Missing(columns, expected) <==> c in expected && c !in columns
  {
    if |expected| > 0 {
      MissingMembers(columns, expected[1..], c);
      assert expected == [expected[0]] + expected[1..];
    }
  }

  /** Missing columns are reported in the order of the expected list. */
  lemma {:induction false} MissingAppend(columns: seq<string>, e1: seq<string>, e2: seq<string>)
    ensures Missing(columns, e1 + e2) == Missing(columns, e1) + Missing(columns, e2)
  {
    if |e1| > 0 {
      MissingAppend(columns, e1[1..], e2);
      assert (e1 + e2)[1..] == e1[1..] + e2;
    } else {
      assert e1 + e2 == e2;
    }
  }

  /**
   * Passes exactly when every expected column is present; otherwise fails
   * with `prefix` followed by the missing columns joined by ", ", so that the
   * message names each of them.
   */
  function CheckColumns(prefix: string, columns: seq<string>, expected: seq<string>): (r: Outcome)
    ensures r.Pass? <==> forall c :: c in expected ==> c in columns
    ensures r.Fail? ==> r.error == prefix + Join(Missing(columns, expected), ", ")
    ensures r.Fail? ==> StartsWith(r.error, prefix)
    ensures r.Fail? ==> forall c :: c in expected && c !in columns ==> Contains(r.error, c)
  {
    var missing := Missing(columns, expected);
    assert forall c :: c in missing <==> c in expected && c !in columns by {
      forall c ensures c in missing <==> c in expected && c !in columns {
        MissingMembers(columns, expected, c);
      }
    }
    if |missing| > 0 then
      var msg := prefix + Join(missing, ", ");
      assert missing[0] in expected && missing[0] !in columns;
      assert msg[..|prefix|] == prefix;
      assert forall c :: c in expected && c !in columns ==> Contains(msg, c) by {
        forall c | c in expected && c !in columns
          ensures Contains(msg, c)
        {
          var k :| 0 <= k < |missing| && missing[k] == c;
          JoinContains(missing, ", ", k);
          ContainsAfter(prefix, Join(missing, ", "), c);
        }
      }
      Fail(msg)
    else
      Pass
  }
}
