/** What `lexical_parse` writes into its tag array, stated over the list of
    provisional incidences: how many incidences cover each byte, which
    provisional commands are deleted by an overlap, how survivors are numbered
    and which role each incidence plays.  The lemmas here are what the marking
    and renumbering loops of lexer.dfy rely on. */
module Tags {

  /** An occurrence of a provisional command: `length` bytes from `start`. */
  datatype Incidence = Incidence(start: int, length: int)

  /** Every incidence lies inside the program and is non-empty, and the list
      holds whole triples (incidences 3k, 3k + 1, 3k + 2 are provisional command k). */
  predicate ValidIncidences(incs: seq<Incidence>, n: int)
  {
    |incs| % 3 == 0 &&
    forall i :: 0 <= i < |incs| ==>
      0 <= incs[i].start && 1 <= incs[i].length && incs[i].start + incs[i].length <= n
  }

  predicate Covers(inc: Incidence, j: int)
  {
    inc.start <= j < inc.start + inc.length
  }

  /** How many incidences of P cover byte j. */
  function CoverCount(P: seq<Incidence>, j: int): nat
    decreases |P|
  {
    if P == [] then 0
    else CoverCount(P[..|P| - 1], j) + (if Covers(P[|P| - 1], j) then 1 else 0)
  }

  /** The last incidence of P that covers j, or -1 if none does. */
  function LastCover(P: seq<Incidence>, j: int): (r: int)
    decreases |P|
    ensures -1 <= r < |P|
    ensures r >= 0 ==> Covers(P[r], j)
    ensures r == -1 <==> CoverCount(P, j) == 0
  {
    if P == [] then -1
    else if Covers(P[|P| - 1], j) then |P| - 1
    else LastCover(P[..|P| - 1], j)
  }

  lemma CoverAppend(Q: seq<Incidence>, x: Incidence, j: int)
    ensures CoverCount(Q + [x], j) == CoverCount(Q, j) + (if Covers(x, j) then 1 else 0)
    ensures LastCover(Q + [x], j) == if Covers(x, j) then |Q| else LastCover(Q, j)
  {
    assert (Q + [x])[..|Q|] == Q;
  }

  /** A byte covered by exactly one incidence is covered by LastCover only. */
  lemma {:induction false} UniqueCover(P: seq<Incidence>, i: int, j: int)
    requires 0 <= i < |P| && Covers(P[i], j) && CoverCount(P, j) <= 1
    ensures CoverCount(P, j) == 1 && LastCover(P, j) == i
  {
    var Q := P[..|P| - 1];
    if i < |P| - 1 {
      assert Q[i] == P[i];
      UniqueCover(Q, i, j);
    }
  }

  /** Byte j lies in an incidence of P that also covers another incidence's byte:
      the rule by which `lexical_parse` deletes a provisional command. */
  predicate Clash(P: seq<Incidence>, i: int)
    requires 0 <= i < |P|
  {
    exists j :: P[i].start <= j < P[i].start + P[i].length && CoverCount(P, j) >= 2
  }

  /** Provisional command k has an incidence that shares a byte with another one. */
  predicate Deleted(P: seq<Incidence>, k: nat)
  {
    exists i :: 3 * k <= i < 3 * k + 3 && i < |P| && Clash(P, i)
  }

  /** The tag the marking loop leaves on byte j after processing the incidences
      of P: 0 if uncovered, 2 if covered twice or more, otherwise
      3 * (owner's command + 1), plus 1 on the first byte of the owner -- except
      that the flag of the last incidence is not yet set while it is `pending`. */
  function MarkTag(P: seq<Incidence>, j: int, pending: bool): int
  {
    var c := CoverCount(P, j);
    if c == 0 then 0
    else if c >= 2 then 2
    else
      var o := LastCover(P, j);
      (o / 3 + 1) * 3 + (if j == P[o].start && !(pending && o == |P| - 1) then 1 else 0)
  }

  /** Survivors among the first k provisional commands. */
  function Rank(P: seq<Incidence>, k: nat): nat
    requires 3 * k <= |P|
  {
    if k == 0 then 0 else Rank(P, k - 1) + (if Deleted(P, k - 1) then 0 else 1)
  }

  function Survivors(P: seq<Incidence>): nat
    requires |P| % 3 == 0
  {
    Rank(P, |P| / 3)
  }

  /** How many incidences of provisional command k start before byte x. */
  function StartsBelow(P: seq<Incidence>, k: nat, x: int): nat
    requires 3 * k + 3 <= |P|
  {
    (if P[3 * k].start < x then 1 else 0) + (if P[3 * k + 1].start < x then 1 else 0) +
    (if P[3 * k + 2].start < x then 1 else 0)
  }

  /** The role of incidence o: how many incidences of its own command come
      before it in the text (0 first, 1 middle, 2 last). */
  function Role(P: seq<Incidence>, o: int): nat
    requires 0 <= o < |P| && |P| % 3 == 0
  {
    StartsBelow(P, o / 3, P[o].start)
  }

  /** The final tag of byte j: 0 noise, 2 overlap, 1 a byte of a deleted
      command, and otherwise 3 * id + role where id = 1 + the command's rank
      among the survivors. */
  function FinalTag(P: seq<Incidence>, j: int): int
    requires |P| % 3 == 0
  {
    var c := CoverCount(P, j);
    if c == 0 then 0
    else if c >= 2 then 2
    else
      var o := LastCover(P, j);
      if Deleted(P, o / 3) then 1 else 3 * (Rank(P, o / 3) + 1) + Role(P, o)
  }

  // ---------------------------------------------------------------------------
  // How the marking loop's state evolves.
  // ---------------------------------------------------------------------------

  /** Extending P by an empty incidence changes neither tags nor deletions. */
  lemma EmptyExtension(Q: seq<Incidence>, start: int)
    ensures forall j :: MarkTag(Q + [Incidence(start, 0)], j, true) == MarkTag(Q, j, false)
    ensures forall i :: 0 <= i < |Q| ==> (Clash(Q + [Incidence(start, 0)], i) <==> Clash(Q, i))
    ensures forall k: nat :: Deleted(Q + [Incidence(start, 0)], k) <==> Deleted(Q, k)
  {
    var P := Q + [Incidence(start, 0)];
    forall j
      ensures CoverCount(P, j) == CoverCount(Q, j) && LastCover(P, j) == LastCover(Q, j)
    {
      CoverAppend(Q, Incidence(start, 0), j);
    }
    forall j
      ensures MarkTag(P, j, true) == MarkTag(Q, j, false)
    {
      if CoverCount(Q, j) == 1 {
        assert P[LastCover(Q, j)] == Q[LastCover(Q, j)];
      }
    }
    forall i | 0 <= i < |Q|
      ensures Clash(P, i) <==> Clash(Q, i)
    {
      assert P[i] == Q[i];
    }
    assert !Clash(P, |Q|) by {
      assert P[|Q|].length == 0;
    }
    forall k: nat
      ensures Deleted(P, k) <==> Deleted(Q, k)
    {
      if Deleted(P, k) {
        var i :| 3 * k <= i < 3 * k + 3 && i < |P| && Clash(P, i);
        assert i != |Q|;
      }
    }
  }

  /** Growing the last incidence of P by the byte `cur` raises the cover count
      of `cur` alone. */
  lemma GrowCounts(Q: seq<Incidence>, start: int, cur: int, j: int)
    requires start <= cur
    ensures CoverCount(Q + [Incidence(start, cur + 1 - start)], j) ==
            CoverCount(Q + [Incidence(start, cur - start)], j) + (if j == cur then 1 else 0)
    ensures j != cur ==> LastCover(Q + [Incidence(start, cur + 1 - start)], j) ==
                         LastCover(Q + [Incidence(start, cur - start)], j)
    ensures LastCover(Q + [Incidence(start, cur + 1 - start)], cur) == |Q|
    ensures CoverCount(Q + [Incidence(start, cur - start)], cur) == CoverCount(Q, cur)
    ensures LastCover(Q + [Incidence(start, cur - start)], cur) == LastCover(Q, cur)
  {
    CoverAppend(Q, Incidence(start, cur + 1 - start), j);
    CoverAppend(Q, Incidence(start, cur - start), j);
    CoverAppend(Q, Incidence(start, cur - start), cur);
    CoverAppend(Q, Incidence(start, cur + 1 - start), cur);
  }

  /** Growing the last incidence by `cur` makes incidence i clash exactly when it
      already did or it covers `cur` and `cur` is now covered twice. */
  lemma GrowClash(Q: seq<Incidence>, start: int, cur: int, i: int)
    requires start <= cur && 0 <= i <= |Q|
    ensures Clash(Q + [Incidence(start, cur + 1 - start)], i) <==>
            Clash(Q + [Incidence(start, cur - start)], i) ||
            (CoverCount(Q + [Incidence(start, cur + 1 - start)], cur) >= 2 &&
             Covers((Q + [Incidence(start, cur + 1 - start)])[i], cur))
  {
    var P, P' := Q + [Incidence(start, cur - start)], Q + [Incidence(start, cur + 1 - start)];
    if Clash(P, i) {
      var j :| Covers(P[i], j) && CoverCount(P, j) >= 2;
      GrowCounts(Q, start, cur, j);
      assert Covers(P'[i], j);
    }
    if Clash(P', i) {
      var j :| Covers(P'[i], j) && CoverCount(P', j) >= 2;
      GrowCounts(Q, start, cur, j);
      if j != cur {
        assert Covers(P[i], j);
      }
    }
    if CoverCount(P', cur) >= 2 && Covers(P'[i], cur) {
      assert Clash(P', i);
    }
  }

  /** Provisional command k is deleted after growing by `cur` exactly when it was
      before or one of its incidences covers a now doubly covered `cur`. */
  lemma GrowDeleted(Q: seq<Incidence>, start: int, cur: int, k: nat)
    requires start <= cur
    ensures Deleted(Q + [Incidence(start, cur + 1 - start)], k) <==>
            Deleted(Q + [Incidence(start, cur - start)], k) ||
            (CoverCount(Q + [Incidence(start, cur + 1 - start)], cur) >= 2 &&
             (3 * k <= |Q| < 3 * k + 3 ||
              exists i :: 3 * k <= i < 3 * k + 3 && i < |Q| && Covers(Q[i], cur)))
  {
    var P, P' := Q + [Incidence(start, cur - start)], Q + [Incidence(start, cur + 1 - start)];
    forall i | 3 * k <= i < 3 * k + 3 && i <= |Q|
      ensures Clash(P', i) <==> Clash(P, i) || (CoverCount(P', cur) >= 2 && Covers(P'[i], cur))
      ensures Covers(P'[i], cur) <==> (i == |Q| || Covers(Q[i], cur))
    {
      GrowClash(Q, start, cur, i);
    }
  }

  /** One step of the marking loop on byte `cur` of the incidence being marked:
      an untagged byte gets the command's tag, a tagged one becomes 2, and then
      the current command and the byte's previous owner are deleted. */
  lemma MarkStep(Q: seq<Incidence>, P: seq<Incidence>, P': seq<Incidence>, start: int, cur: int)
    requires start <= cur
    requires P == Q + [Incidence(start, cur - start)] && P' == Q + [Incidence(start, cur + 1 - start)]
    ensures var v := MarkTag(P, cur, true);
      v == 0 || v == 2 || (3 <= v && 3 * (v / 3 - 1) < |Q|)
    ensures forall j ::
      MarkTag(P', j, true) ==
        (if j != cur then MarkTag(P, j, true)
         else if MarkTag(P, cur, true) == 0 then (|Q| / 3 + 1) * 3
         else 2)
    ensures forall k: nat :: Deleted(P', k) <==>
      (Deleted(P, k) ||
       (MarkTag(P, cur, true) != 0 && (k == |Q| / 3 || k == MarkTag(P, cur, true) / 3 - 1)))
  {
    forall j
      ensures CoverCount(P', j) == CoverCount(P, j) + (if j == cur then 1 else 0)
      ensures j != cur ==> LastCover(P', j) == LastCover(P, j)
    {
      GrowCounts(Q, start, cur, j);
    }
    GrowCounts(Q, start, cur, cur);
    var o := LastCover(P, cur);
    assert o < |Q|;
    forall j
      ensures MarkTag(P', j, true) ==
        if j != cur then MarkTag(P, j, true)
        else if MarkTag(P, cur, true) == 0 then (|Q| / 3 + 1) * 3
        else 2
    {
      if j != cur && CoverCount(P, j) == 1 {
        assert P'[LastCover(P, j)].start == P[LastCover(P, j)].start;
      }
    }
    forall k: nat
      ensures Deleted(P', k) <==>
        (Deleted(P, k) ||
         (MarkTag(P, cur, true) != 0 && (k == |Q| / 3 || k == MarkTag(P, cur, true) / 3 - 1)))
    {
      GrowDeleted(Q, start, cur, k);
      if CoverCount(P, cur) >= 2 {
        forall i | 3 * k <= i < 3 * k + 3 && i < |Q| && Covers(Q[i], cur)
          ensures Deleted(P, k)
        {
          assert P[i] == Q[i];
          assert Clash(P, i);
        }
      }
      if CoverCount(P, cur) == 1 {
        forall i | 3 * k <= i < 3 * k + 3 && i < |Q| && Covers(Q[i], cur)
          ensures k == o / 3
        {
          assert P[i] == Q[i];
          UniqueCover(P, i, cur);
        }
        if k == o / 3 {
          assert P[o] == Q[o];
          assert 3 * k <= o < 3 * k + 3 && o < |Q| && Covers(Q[o], cur);
        }
      }
    }
  }

  /** Setting the flag of the incidence just marked: its first byte, if it still
      carries a command tag, gets one added. */
  lemma MarkFlag(Q: seq<Incidence>, P: seq<Incidence>, inc: Incidence)
    requires inc.length >= 1 && P == Q + [inc]
    ensures forall j ::
      MarkTag(P, j, false) ==
        (if j == inc.start && MarkTag(P, j, true) > 2 then MarkTag(P, j, true) + 1
         else MarkTag(P, j, true))
  {
    assert Covers(P[|Q|], inc.start);
    if CoverCount(P, inc.start) == 1 {
      UniqueCover(P, |Q|, inc.start);
    }
    forall j
      ensures MarkTag(P, j, false) ==
        if j == inc.start && MarkTag(P, j, true) > 2 then MarkTag(P, j, true) + 1
        else MarkTag(P, j, true)
    {
      if j != inc.start && CoverCount(P, j) == 1 && LastCover(P, j) == |Q| {
        assert Covers(P[|Q|], j);
      }
    }
  }

  // ---------------------------------------------------------------------------
  // Survivors own their bytes exclusively.
  // ---------------------------------------------------------------------------

  /** A byte of a surviving command is covered by that incidence alone. */
  lemma SurvivorExclusive(P: seq<Incidence>, i: int, j: int)
    requires 0 <= i < |P| && Covers(P[i], j) && !Deleted(P, i / 3)
    ensures CoverCount(P, j) == 1 && LastCover(P, j) == i
  {
    if CoverCount(P, j) >= 2 {
      assert Clash(P, i);
      assert false;
    }
    UniqueCover(P, i, j);
  }

  /** For a byte x of a surviving incidence o, the incidences of its command that
      start at or before x are o and those before o in the text. */
  lemma RoleByStarts(P: seq<Incidence>, o: int, x: int, n: int)
    requires ValidIncidences(P, n) && 0 <= o < |P| && Covers(P[o], x) && !Deleted(P, o / 3)
    ensures StartsBelow(P, o / 3, x + 1) == Role(P, o) + 1
  {
    var k := o / 3;
    forall r | 3 * k <= r < 3 * k + 3 && r != o
      ensures (P[r].start < x + 1) <==> (P[r].start < P[o].start)
    {
      if P[o].start <= P[r].start <= x {
        assert Covers(P[r], P[r].start) && Covers(P[o], P[r].start);
        SurvivorExclusive(P, o, P[r].start);
        assert r / 3 == k;
        SurvivorExclusive(P, r, P[r].start);
      }
    }
  }

  /** Passing byte x raises StartsBelow of a surviving command exactly when x is
      the first byte of one of its incidences, which is then the only cover of x. */
  lemma StartsStep(P: seq<Incidence>, k: nat, x: int, n: int)
    requires ValidIncidences(P, n) && 3 * k + 3 <= |P| && !Deleted(P, k)
    ensures StartsBelow(P, k, x + 1) == StartsBelow(P, k, x) +
      (if CoverCount(P, x) == 1 && LastCover(P, x) / 3 == k && P[LastCover(P, x)].start == x then 1 else 0)
  {
    forall r | 3 * k <= r < 3 * k + 3 && P[r].start == x
      ensures CoverCount(P, x) == 1 && LastCover(P, x) == r
    {
      assert Covers(P[r], x) && r / 3 == k;
      SurvivorExclusive(P, r, x);
    }
  }

  // ---------------------------------------------------------------------------
  // The role pass.
  // ---------------------------------------------------------------------------

  lemma MarkTagOwner(P: seq<Incidence>, j: int, pending: bool)
    ensures MarkTag(P, j, pending) >= 3 <==> CoverCount(P, j) == 1
    ensures CoverCount(P, j) == 1 ==>
      var o := LastCover(P, j);
      MarkTag(P, j, pending) / 3 - 1 == o / 3 &&
      (MarkTag(P, j, pending) % 3 != 0 <==> (j == P[o].start && !(pending && o == |P| - 1)))
  {
  }

  /** What the last pass of `lexical_parse` sees at byte x: a tag below 3 is
      already final; a command tag names the owner's command, which is final 1
      if deleted and otherwise its number plus the starts met so far, plus one
      at a flagged first byte.  No other command's count of starts moves. */
  lemma RoleStep(P: seq<Incidence>, n: int, x: int)
    requires ValidIncidences(P, n)
    ensures var v := MarkTag(P, x, false);
      v == 0 || v == 2 || 3 <= v
    ensures var v := MarkTag(P, x, false);
      v < 3 ==> FinalTag(P, x) == v
    ensures var v := MarkTag(P, x, false);
      v >= 3 ==>
        var o := LastCover(P, x);
        0 <= o && v / 3 - 1 == o / 3 &&
        (Deleted(P, o / 3) ==> FinalTag(P, x) == 1) &&
        (!Deleted(P, o / 3) ==>
          StartsBelow(P, o / 3, x + 1) == StartsBelow(P, o / 3, x) + (if v % 3 != 0 then 1 else 0) &&
          FinalTag(P, x) == 2 + 3 * Rank(P, o / 3) + StartsBelow(P, o / 3, x + 1))
    ensures forall q: nat ::
      (3 * q + 3 <= |P| && !Deleted(P, q) &&
       (MarkTag(P, x, false) < 3 || q != MarkTag(P, x, false) / 3 - 1)) ==>
      StartsBelow(P, q, x + 1) == StartsBelow(P, q, x)
  {
    MarkTagOwner(P, x, false);
    forall q: nat | 3 * q + 3 <= |P| && !Deleted(P, q)
      ensures StartsBelow(P, q, x + 1) == StartsBelow(P, q, x) +
        (if CoverCount(P, x) == 1 && LastCover(P, x) / 3 == q && P[LastCover(P, x)].start == x then 1 else 0)
    {
      StartsStep(P, q, x, n);
    }
    if CoverCount(P, x) == 1 && !Deleted(P, LastCover(P, x) / 3) {
      RoleByStarts(P, LastCover(P, x), x, n);
    }
  }

  // ---------------------------------------------------------------------------
  // What the final tags mean.
  // ---------------------------------------------------------------------------

  /** A byte covered twice is tagged 2, and every command covering it is deleted. */
  lemma OverlapDeletes(P: seq<Incidence>, i: int, j: int)
    requires |P| % 3 == 0 && 0 <= i < |P| && Covers(P[i], j) && CoverCount(P, j) >= 2
    ensures FinalTag(P, j) == 2 && Deleted(P, i / 3)
  {
    assert Clash(P, i);
  }

  /** Every byte of a deleted command is tagged 1, or 2 where two incidences overlap. */
  lemma DeletedBytes(P: seq<Incidence>, o: int, j: int)
    requires |P| % 3 == 0 && 0 <= o < |P| && Covers(P[o], j) && Deleted(P, o / 3)
    ensures FinalTag(P, j) == if CoverCount(P, j) >= 2 then 2 else 1
  {
    if CoverCount(P, j) <= 1 {
      UniqueCover(P, o, j);
    }
  }

  /** A survivor ranks below every later command. */
  lemma {:induction false} RankStrict(P: seq<Incidence>, k1: nat, k2: nat)
    requires k1 < k2 && 3 * k2 <= |P| && !Deleted(P, k1)
    ensures Rank(P, k1) < Rank(P, k2)
    decreases k2
  {
    if k2 > k1 + 1 {
      RankStrict(P, k1, k2 - 1);
    }
  }

  /** Every rank below Rank(P, k) is the rank of a survivor before k. */
  lemma {:induction false} RankHit(P: seq<Incidence>, k: nat, v: nat)
    requires 3 * k <= |P| && v < Rank(P, k)
    ensures exists q :: 0 <= q < k && !Deleted(P, q) && Rank(P, q) == v
    decreases k
  {
    if v < Rank(P, k - 1) {
      RankHit(P, k - 1, v);
    } else {
      assert !Deleted(P, k - 1) && Rank(P, k - 1) == v;
    }
  }

  lemma RoleBelowThree(P: seq<Incidence>, o: int)
    requires 0 <= o < |P| && |P| % 3 == 0
    ensures Role(P, o) < 3
  {
  }

  /** The three incidences of a surviving command start at distinct bytes, do not
      overlap, and their roles follow their order in the text. */
  lemma RoleOrder(P: seq<Incidence>, n: int, a: int, b: int)
    requires ValidIncidences(P, n) && 0 <= a < |P| && 0 <= b < |P| && a != b
    requires a / 3 == b / 3 && !Deleted(P, a / 3)
    ensures P[a].start != P[b].start
    ensures P[a].start < P[b].start <==> Role(P, a) < Role(P, b)
    ensures P[a].start < P[b].start ==> P[a].start + P[a].length <= P[b].start
  {
    if P[a].start <= P[b].start < P[a].start + P[a].length {
      assert Covers(P[a], P[b].start) && Covers(P[b], P[b].start);
      SurvivorExclusive(P, a, P[b].start);
      SurvivorExclusive(P, b, P[b].start);
    }
    if P[b].start <= P[a].start < P[b].start + P[b].length {
      assert Covers(P[a], P[a].start) && Covers(P[b], P[a].start);
      SurvivorExclusive(P, a, P[a].start);
      SurvivorExclusive(P, b, P[a].start);
    }
  }

  lemma DigitsOfThree(x: int, r: int, y: int, s: int)
    requires 0 <= r < 3 && 0 <= s < 3 && 3 * x + r == 3 * y + s
    ensures x == y && r == s
  {
  }

  /** Only incidence o carries its own number and role. */
  lemma TagOwner(P: seq<Incidence>, n: int, o: int, j: int)
    requires ValidIncidences(P, n) && 0 <= o < |P| && !Deleted(P, o / 3)
    requires FinalTag(P, j) == 3 * (Rank(P, o / 3) + 1) + Role(P, o)
    ensures Covers(P[o], j)
  {
    RoleBelowThree(P, o);
    var o' := LastCover(P, j);
    assert CoverCount(P, j) == 1 && !Deleted(P, o' / 3);
    assert FinalTag(P, j) == 3 * (Rank(P, o' / 3) + 1) + Role(P, o');
    RoleBelowThree(P, o');
    DigitsOfThree(Rank(P, o' / 3) + 1, Role(P, o'), Rank(P, o / 3) + 1, Role(P, o));
    if o' / 3 < o / 3 {
      RankStrict(P, o' / 3, o / 3);
    } else if o / 3 < o' / 3 {
      RankStrict(P, o / 3, o' / 3);
    }
    if o' != o {
      RoleOrder(P, n, o, o');
      RoleOrder(P, n, o', o);
      assert false;
    }
  }

  /** The bytes tagged with the number and role of a surviving incidence are
      exactly the bytes of that incidence: each survivor owns three runs. */
  lemma SurvivorTag(P: seq<Incidence>, n: int, o: int)
    requires ValidIncidences(P, n) && 0 <= o < |P| && !Deleted(P, o / 3)
    ensures forall j :: FinalTag(P, j) == 3 * (Rank(P, o / 3) + 1) + Role(P, o) <==> Covers(P[o], j)
  {
    forall j
      ensures FinalTag(P, j) == 3 * (Rank(P, o / 3) + 1) + Role(P, o) <==> Covers(P[o], j)
    {
      if Covers(P[o], j) {
        SurvivorExclusive(P, o, j);
      }
      if FinalTag(P, j) == 3 * (Rank(P, o / 3) + 1) + Role(P, o) {
        TagOwner(P, n, o, j);
      }
    }
  }

  /** A command tag carries the number of a survivor, between 1 and the number
      of survivors, and a role below 3. */
  lemma TagRange(P: seq<Incidence>, n: int, j: int)
    requires ValidIncidences(P, n)
    ensures FinalTag(P, j) in {0, 1, 2} ||
      (1 <= FinalTag(P, j) / 3 <= Survivors(P) &&
       FinalTag(P, j) % 3 == Role(P, LastCover(P, j)) && !Deleted(P, LastCover(P, j) / 3))
  {
    var c := CoverCount(P, j);
    if c == 1 {
      var o := LastCover(P, j);
      if !Deleted(P, o / 3) {
        RoleBelowThree(P, o);
        RankStrict(P, o / 3, |P| / 3);
      }
    }
  }

  /** Every survivor number from 1 to the number of survivors is used, in all
      three roles: ids are consecutive. */
  lemma IdsUsed(P: seq<Incidence>, n: int, id: int, r: int)
    requires ValidIncidences(P, n) && 1 <= id <= Survivors(P) && 0 <= r < 3
    ensures exists j :: 0 <= j < n && FinalTag(P, j) == 3 * id + r
  {
    RankHit(P, |P| / 3, id - 1);
    var k :| 0 <= k < |P| / 3 && !Deleted(P, k) && Rank(P, k) == id - 1;
    var a, b, c := 3 * k, 3 * k + 1, 3 * k + 2;
    assert a / 3 == k && b / 3 == k && c / 3 == k;
    RoleOrder(P, n, a, b);
    RoleOrder(P, n, a, c);
    RoleOrder(P, n, b, c);
    RoleBelowThree(P, a);
    RoleBelowThree(P, b);
    RoleBelowThree(P, c);
    var o := if Role(P, a) == r then a else if Role(P, b) == r then b else c;
    assert Role(P, o) == r;
    SurvivorTag(P, n, o);
    assert Covers(P[o], P[o].start);
  }

  /** The first byte with a command tag belongs to a first incidence (role 0). */
  lemma FirstCommandByte(P: seq<Incidence>, n: int, j: int)
    requires ValidIncidences(P, n) && FinalTag(P, j) >= 3
    requires forall y :: 0 <= y < j ==> FinalTag(P, y) < 3
    ensures FinalTag(P, j) % 3 == 0
  {
    TagRange(P, n, j);
    var o := LastCover(P, j);
    var k := o / 3;
    if Role(P, o) != 0 {
      var r :| r in {3 * k, 3 * k + 1, 3 * k + 2} && P[r].start < P[o].start;
      assert r / 3 == k;
      SurvivorTag(P, n, r);
      RoleBelowThree(P, r);
      assert Covers(P[r], P[r].start);
    }
  }

  /** The last byte with a command tag belongs to a last incidence (role 2). */
  lemma LastCommandByte(P: seq<Incidence>, n: int, j: int)
    requires ValidIncidences(P, n) && 0 <= j && FinalTag(P, j) >= 3
    requires forall y :: j < y < n ==> FinalTag(P, y) < 3
    ensures FinalTag(P, j) % 3 == 2
  {
    TagRange(P, n, j);
    var o := LastCover(P, j);
    var k := o / 3;
    RoleBelowThree(P, o);
    if Role(P, o) != 2 {
      var a, b, c := 3 * k, 3 * k + 1, 3 * k + 2;
      assert a / 3 == k && b / 3 == k && c / 3 == k;
      var r: int;
      if a != o && P[o].start < P[a].start {
        r := a;
      } else if b != o && P[o].start < P[b].start {
        r := b;
      } else {
        if c == o || P[c].start <= P[o].start {
          if a != o { RoleOrder(P, n, a, o); }
          if b != o { RoleOrder(P, n, b, o); }
          if c != o { RoleOrder(P, n, c, o); }
          assert false;
        }
        r := c;
      }
      RoleOrder(P, n, o, r);
      var x := P[r].start;
      assert Covers(P[r], x) && j < x < n;
      SurvivorTag(P, n, r);
      assert false;
    }
  }
}
