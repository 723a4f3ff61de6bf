/** The choice of the anchor command (`anchor_command` in incident.c): the
    command whose Pop instruction receives control first.  Reading the tags
    left to right, a "run" starts at every command tag (above 2) that differs
    from the last command tag seen; the anchor is the middle-command incidence
    of the command owning the centremost run, or 0 when there is no command. */
module Anchor {
  import opened Common

  /** The tags that open a run, scanning t from a state in which the last
      command tag seen was `last`. */
  function Runs(t: seq<int>, last: int): seq<int>
    decreases |t|
  {
    if t == [] then []
    else if t[0] > 2 && t[0] != last then [t[0]] + Runs(t[1..], t[0])
    else Runs(t[1..], last)
  }

  /** The last command tag seen after scanning t from `last`. */
  function LastSeen(t: seq<int>, last: int): int
    decreases |t|
  {
    if t == [] then last
    else if t[0] > 2 && t[0] != last then LastSeen(t[1..], t[0])
    else LastSeen(t[1..], last)
  }

  /** What anchor_command returns; None stands for its abort(). The second scan
      starts from the last command tag of the first, as in the source. */
  function AnchorOf(t: seq<int>): Option<int>
  {
    var count := |Runs(t, 0)|;
    if count == 0 then Some(0)
    else
      var second := Runs(t, LastSeen(t, 0));
      var target := (count - 1) / 2;
      if target < |second| then Some(second[target] / 3 * 3 + 1) else None
  }

  method AnchorCommand(parsed: seq<int>) returns (r: Option<int>)
    ensures r == AnchorOf(parsed)
  {
    // First scan over the program: count the command incidences.
    var lastIncidence := 0;
    var incidenceCount := 0;
    var i := 0;
    while i < |parsed|
      invariant 0 <= i <= |parsed|
      invariant |Runs(parsed, 0)| == incidenceCount + |Runs(parsed[i..], lastIncidence)|
      invariant LastSeen(parsed, 0) == LastSeen(parsed[i..], lastIncidence)
    {
      assert parsed[i..][1..] == parsed[i + 1..];
      if parsed[i] > 2 && parsed[i] != lastIncidence {
        lastIncidence := parsed[i];
        incidenceCount := incidenceCount + 1;
      }
      i := i + 1;
    }
    if incidenceCount == 0 {
      return Some(0);
    }

    // Second scan: find the centremost incidence.
    ghost var second := Runs(parsed, lastIncidence);
    assert parsed[0..] == parsed;
    var targetIncidence := (incidenceCount - 1) / 2;
    incidenceCount := 0;
    i := 0;
    while i < |parsed|
      invariant 0 <= i <= |parsed|
      invariant 0 <= incidenceCount <= targetIncidence && incidenceCount <= |second|
      invariant second[incidenceCount..] == Runs(parsed[i..], lastIncidence)
    {
      assert parsed[i..][1..] == parsed[i + 1..];
      if parsed[i] > 2 && parsed[i] != lastIncidence {
        if incidenceCount == targetIncidence {
          return Some(parsed[i] / 3 * 3 + 1);
        }
        lastIncidence := parsed[i];
        incidenceCount := incidenceCount + 1;
      }
      i := i + 1;
    }
    return None;
  }

  // ---------------------------------------------------------------------------
  // Properties of the scan.
  // ---------------------------------------------------------------------------

  /** Byte j holds the first command tag of t. */
  predicate FirstBig(t: seq<int>, j: int)
  {
    0 <= j < |t| && t[j] > 2 && forall y :: 0 <= y < j ==> t[y] <= 2
  }

  /** Byte j holds the last command tag of t. */
  predicate LastBig(t: seq<int>, j: int)
  {
    0 <= j < |t| && t[j] > 2 && forall y :: j < y < |t| ==> t[y] <= 2
  }

  /** Run openers are command tags of t. */
  lemma {:induction false} RunsAreTags(t: seq<int>, last: int)
    ensures forall g :: 0 <= g < |Runs(t, last)| ==>
      Runs(t, last)[g] > 2 && exists i :: 0 <= i < |t| && t[i] == Runs(t, last)[g]
    decreases |t|
  {
    if t != [] {
      RunsAreTags(t[1..], if t[0] > 2 && t[0] != last then t[0] else last);
      forall g | 0 <= g < |Runs(t, last)|
        ensures exists i :: 0 <= i < |t| && t[i] == Runs(t, last)[g]
      {
        if t[0] > 2 && t[0] != last && g == 0 {
          assert t[0] == Runs(t, last)[g];
        } else {
          var g' := if t[0] > 2 && t[0] != last then g - 1 else g;
          var i :| 0 <= i < |t[1..]| && t[1..][i] == Runs(t[1..], if t[0] > 2 && t[0] != last then t[0] else last)[g'];
          assert t[i + 1] == Runs(t, last)[g];
        }
      }
    }
  }

  /** Scanning from a non-command tag finds no run exactly when t holds no
      command tag. */
  lemma {:induction false} NoRuns(t: seq<int>, last: int)
    requires last <= 2
    ensures Runs(t, last) == [] <==> forall i :: 0 <= i < |t| ==> t[i] <= 2
    decreases |t|
  {
    if t != [] {
      NoRuns(t[1..], last);
      if forall i :: 0 <= i < |t[1..]| ==> t[1..][i] <= 2 {
        assert forall i :: 1 <= i < |t| ==> t[i] <= 2 by {
          forall i | 1 <= i < |t| ensures t[i] <= 2 { assert t[i] == t[1..][i - 1]; }
        }
      }
    }
  }

  /** The first run opener is the first command tag. */
  lemma {:induction false} FirstRun(t: seq<int>, last: int, j: int)
    requires last <= 2 && FirstBig(t, j)
    ensures Runs(t, last) != [] && Runs(t, last)[0] == t[j]
    decreases |t|
  {
    if j > 0 {
      assert FirstBig(t[1..], j - 1) by {
        forall y | 0 <= y < j - 1 ensures t[1..][y] <= 2 { assert t[1..][y] == t[y + 1]; }
      }
      FirstRun(t[1..], last, j - 1);
    }
  }

  /** The last command tag seen is the last command tag of t. */
  lemma {:induction false} LastSeenIsLastBig(t: seq<int>, last: int, j: int)
    requires LastBig(t, j)
    ensures LastSeen(t, last) == t[j]
    decreases |t|
  {
    var next := if t[0] > 2 && t[0] != last then t[0] else last;
    if j > 0 {
      assert LastBig(t[1..], j - 1) by {
        forall y | j - 1 < y < |t[1..]| ensures t[1..][y] <= 2 { assert t[1..][y] == t[y + 1]; }
      }
      LastSeenIsLastBig(t[1..], next, j - 1);
    } else {
      LastSeenNoBig(t[1..], next);
      assert forall y :: 0 <= y < |t[1..]| ==> t[1..][y] <= 2 by {
        forall y | 0 <= y < |t[1..]| ensures t[1..][y] <= 2 { assert t[1..][y] == t[y + 1]; }
      }
    }
  }

  lemma {:induction false} LastSeenNoBig(t: seq<int>, last: int)
    ensures (forall y :: 0 <= y < |t| ==> t[y] <= 2) ==> LastSeen(t, last) == last
    decreases |t|
  {
    if t != [] {
      LastSeenNoBig(t[1..], last);
      if forall y :: 0 <= y < |t| ==> t[y] <= 2 {
        assert forall y :: 0 <= y < |t[1..]| ==> t[1..][y] <= 2 by {
          forall y | 0 <= y < |t[1..]| ensures t[1..][y] <= 2 { assert t[1..][y] == t[y + 1]; }
        }
      }
    }
  }

  /** Where the scan starts does not matter unless the first command tag is
      taken for the last one seen. */
  lemma {:induction false} RunsRestart(t: seq<int>, x: int, y: int)
    requires Runs(t, x) == [] || Runs(t, x)[0] != y
    requires Runs(t, y) == [] || Runs(t, y)[0] != x
    ensures Runs(t, x) == Runs(t, y)
    decreases |t|
  {
    if x != y && t != [] && t[0] <= 2 {
      RunsRestart(t[1..], x, y);
    }
  }

  /** A scan that opens no run ends where it started. */
  lemma {:induction false} QuietScan(t: seq<int>, last: int)
    requires Runs(t, last) == []
    ensures LastSeen(t, last) == last
    decreases |t|
  {
    if t != [] {
      QuietScan(t[1..], last);
    }
  }

  lemma {:induction false} SingleRunTail(t: seq<int>, last: int)
    requires last <= 2 && |Runs(t, last)| == 1
    ensures Runs(t, LastSeen(t, last)) == []
    decreases |t|
  {
    if t[0] > 2 {
      QuietScan(t[1..], t[0]);
    } else {
      SingleRunTail(t[1..], last);
    }
  }

  /** A program with only one run makes anchor_command abort: the second scan
      starts from that run's own tag and never sees a new one. */
  lemma SingleRunAborts(t: seq<int>)
    requires |Runs(t, 0)| == 1
    ensures AnchorOf(t) == None
  {
    SingleRunTail(t, 0);
  }

  lemma {:induction false} FirstBigExists(t: seq<int>, i: int)
    requires 0 <= i < |t| && t[i] > 2
    ensures exists j :: FirstBig(t, j)
    decreases i
  {
    if exists y :: 0 <= y < i && t[y] > 2 {
      var y :| 0 <= y < i && t[y] > 2;
      FirstBigExists(t, y);
    } else {
      assert FirstBig(t, i);
    }
  }

  lemma {:induction false} LastBigExists(t: seq<int>, i: int)
    requires 0 <= i < |t| && t[i] > 2
    ensures exists j :: LastBig(t, j)
    decreases |t| - i
  {
    if exists y :: i < y < |t| && t[y] > 2 {
      var y :| i < y < |t| && t[y] > 2;
      LastBigExists(t, y);
    } else {
      assert LastBig(t, i);
    }
  }

  /** anchor_command answers 0 exactly when no byte carries a command tag, and
      otherwise the middle incidence 3 * id + 1 of a command whose tag occurs. */
  lemma AnchorShape(t: seq<int>)
    ensures AnchorOf(t) == Some(0) <==> forall i :: 0 <= i < |t| ==> t[i] <= 2
    ensures AnchorOf(t).Some? && AnchorOf(t).value != 0 ==>
      AnchorOf(t).value % 3 == 1 &&
      exists i :: 0 <= i < |t| && t[i] > 2 && AnchorOf(t).value == t[i] / 3 * 3 + 1
  {
    NoRuns(t, 0);
    RunsAreTags(t, LastSeen(t, 0));
  }

  /** The first run opener and the last command tag seen are the tags of the
      first and of the last byte carrying a command tag. */
  lemma RunEnds(t: seq<int>)
    requires Runs(t, 0) != []
    ensures exists j :: FirstBig(t, j) && Runs(t, 0)[0] == t[j]
    ensures exists j :: LastBig(t, j) && LastSeen(t, 0) == t[j]
  {
    NoRuns(t, 0);
    var i :| 0 <= i < |t| && t[i] > 2;
    FirstBigExists(t, i);
    LastBigExists(t, i);
    var j0 :| FirstBig(t, j0);
    var j1 :| LastBig(t, j1);
    FirstRun(t, 0, j0);
    LastSeenIsLastBig(t, 0, j1);
  }

  /** Unless the first run's tag is also the last command tag seen, the second
      scan sees the same runs as the first and anchor_command returns the
      middle incidence of the command owning run number (count - 1) / 2. */
  lemma AnchorOfCentremost(t: seq<int>)
    requires Runs(t, 0) != [] && Runs(t, 0)[0] != LastSeen(t, 0)
    ensures AnchorOf(t) == Some(Runs(t, 0)[(|Runs(t, 0)| - 1) / 2] / 3 * 3 + 1)
  {
    var L := LastSeen(t, 0);
    RunsAreTags(t, L);
    RunsRestart(t, 0, L);
  }

  /** When the first command tag is a first incidence and the last one a last
      incidence -- as in every tagging the lexer produces -- anchor_command does
      not abort. */
  lemma AnchorOfTwoEnded(t: seq<int>)
    requires forall j :: FirstBig(t, j) ==> t[j] % 3 == 0
    requires forall j :: LastBig(t, j) ==> t[j] % 3 == 2
    ensures AnchorOf(t) ==
      if Runs(t, 0) == [] then Some(0)
      else Some(Runs(t, 0)[(|Runs(t, 0)| - 1) / 2] / 3 * 3 + 1)
  {
    if Runs(t, 0) != [] {
      RunEnds(t);
      assert Runs(t, 0)[0] % 3 == 0 && LastSeen(t, 0) % 3 == 2;
      AnchorOfCentremost(t);
    }
  }
}
