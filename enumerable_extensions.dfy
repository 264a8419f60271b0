/**
 * EnumerableExtensions.ToColumn: the elements' texts, one per line. Each
 * element is given by the text its formatting produces.
 */
module EnumerableExtensions {

  /** What the builder holds after the loop: every text followed by a newline. */
  function Joined(rows: seq<string>): string {
    if |rows| == 0 then "" else Joined(rows[..|rows| - 1]) + rows[|rows| - 1] + "\n"
  }

  /** The sum of len(e) + 1 over the texts. */
  function TotalLength(rows: seq<string>): nat {
    if |rows| == 0 then 0 else TotalLength(rows[..|rows| - 1]) + |rows[|rows| - 1]| + 1
  }

  lemma {:induction false} JoinedLength(rows: seq<string>)
    ensures |Joined(rows)| == TotalLength(rows)
    ensures |rows| > 0 ==> |Joined(rows)| >= |rows|
  {
    if |rows| > 0 {
      JoinedLength(rows[..|rows| - 1]);
    }
  }

  /** The builder holds a single character exactly when the input is one empty text. */
  lemma {:induction false} JoinedSingleChar(rows: seq<string>)
    ensures |Joined(rows)| == 1 <==> rows == [""]
  {
    JoinedLength(rows);
    if |rows| == 1 {
      assert rows[..0] == [];
    }
  }

  /**
   * ToColumn. StringBuilder.Remove(Length - 2, 2) throws when the builder holds a
   * single character, that is for one element whose text is empty.
   */
  method ToColumn(rows: seq<string>) returns (s: string)
    requires rows != [""]
    ensures |rows| == 0 ==> s == ""
    ensures |rows| > 0 ==> |Joined(rows)| >= 2 && s == Joined(rows)[..|Joined(rows)| - 2]
    ensures |s| == if |rows| == 0 then 0 else TotalLength(rows) - 2
  {
    var sb := "";
    var i := 0;
    while i < |rows|
      invariant 0 <= i <= |rows|
      invariant sb == Joined(rows[..i])
    {
      assert rows[..i + 1][..i] == rows[..i];
      sb := sb + rows[i] + "\n";
      i := i + 1;
    }
    assert rows[..i] == rows;
    JoinedLength(rows);
    JoinedSingleChar(rows);
    if |sb| > 0 {
      sb := sb[..|sb| - 2];
    }
    s := sb;
  }

  /**
   * Removing two characters drops the trailing newline and also the last
   * character of the final element's text.
   */
  lemma {:induction false} ToColumnDropsLastChar(rows: seq<string>)
    requires |rows| > 0 && |rows[|rows| - 1]| > 0
    ensures var last := rows[|rows| - 1];
      Joined(rows)[..|Joined(rows)| - 2] == Joined(rows[..|rows| - 1]) + last[..|last| - 1]
  {
    var last := rows[|rows| - 1];
    var j := Joined(rows);
    assert j == Joined(rows[..|rows| - 1]) + last + "\n";
    assert j[..|j| - 2] == Joined(rows[..|rows| - 1]) + last[..|last| - 1];
  }

  /** A concrete input: ["ab", "cd"] gives "ab\nc" rather than "ab\ncd". */
  lemma {:induction false} ToColumnExample()
    ensures var j := Joined(["ab", "cd"]); j[..|j| - 2] == "ab\nc"
  {
    assert ["ab", "cd"][..1] == ["ab"];
    assert ["ab"][..0] == [];
    assert Joined(["ab", "cd"]) == "ab\ncd\n";
  }

  /** ToColumn as evidently intended: only the trailing newline is removed. */
  method ToColumnTrimmed(rows: seq<string>) returns (s: string)
    ensures |rows| == 0 ==> s == ""
    ensures |rows| > 0 ==> s + "\n" == Joined(rows)
    ensures |rows| > 0 ==> s == Joined(rows[..|rows| - 1]) + rows[|rows| - 1]
  {
    var sb := "";
    var i := 0;
    while i < |rows|
      invariant 0 <= i <= |rows|
      invariant sb == Joined(rows[..i])
    {
      assert rows[..i + 1][..i] == rows[..i];
      sb := sb + rows[i] + "\n";
      i := i + 1;
    }
    assert rows[..i] == rows;
    if |sb| > 0 {
      assert sb == Joined(rows[..|rows| - 1]) + rows[|rows| - 1] + "\n";
      sb := sb[..|sb| - 1];
    }
    s := sb;
  }
}
