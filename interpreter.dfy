/** The main program of incident.c after option parsing: lexical analysis,
    choosing the anchor, threading the command graph, and running it once
    from the first command or, in fragment mode, once from each `^`.  The
    lemmas here carry what each stage guarantees into what the next one
    needs. */
module Interpreter {
  import opened Common
  import opened Tags
  import opened Lexer
  import opened Anchor
  import opened Threading
  import opened Engine

  // ---------------------------------------------------------------------
  // What the lexer's tags guarantee

  /** t is the tagging lexical_parse produces from the incidences P. */
  ghost predicate TaggedBy(t: seq<int>, P: seq<Incidence>)
  {
    ValidIncidences(P, |t|) && forall j :: 0 <= j < |t| ==> t[j] == FinalTag(P, j)
  }

  /** Every byte between two bytes with the same command tag carries that
      tag too: each surviving incidence is one run of the text. */
  lemma TagRuns(P: seq<Incidence>, n: int, a: int, b: int, k: int)
    requires ValidIncidences(P, n) && a <= k <= b && FinalTag(P, a) == FinalTag(P, b) > 2
    ensures FinalTag(P, k) == FinalTag(P, a)
  {
    TagRange(P, n, a);
    var o := LastCover(P, a);
    assert FinalTag(P, a) == 3 * (Rank(P, o / 3) + 1) + Role(P, o);
    SurvivorTag(P, n, o);
  }

  /** No command tag reappears after the run that ends its first occurrence. */
  lemma LexedContiguous(t: seq<int>, P: seq<Incidence>)
    requires TaggedBy(t, P)
    ensures Contiguous(t)
  {
    forall a, o | 0 <= a < o < |t| && IsOpener(t, o)
      ensures t[a] != t[o]
    {
      if t[a] == t[o] {
        TagRuns(P, |t|, a, o, o - 1);
      }
    }
  }

  /** Command tags name commands 1 .. the number of survivors. */
  lemma LexedInRange(t: seq<int>, P: seq<Incidence>)
    requires TaggedBy(t, P)
    ensures TagsInRange(t, Survivors(P) + 1)
  {
    forall j | 0 <= j < |t| && t[j] > 2
      ensures t[j] / 3 < Survivors(P) + 1
    {
      TagRange(P, |t|, j);
    }
  }

  /** On a tagging the lexer produces, anchor_command never aborts: it
      answers the middle incidence of the command owning the central run. */
  lemma LexedAnchor(t: seq<int>, P: seq<Incidence>)
    requires TaggedBy(t, P)
    ensures AnchorOf(t) ==
      if Runs(t, 0) == [] then Some(0) else Some(Runs(t, 0)[(|Runs(t, 0)| - 1) / 2] / 3 * 3 + 1)
  {
    forall j | FirstBig(t, j)
      ensures t[j] % 3 == 0
    {
      FirstCommandByte(P, |t|, j);
    }
    forall j | LastBig(t, j)
      ensures t[j] % 3 == 2
    {
      LastCommandByte(P, |t|, j);
    }
    AnchorOfTwoEnded(t);
  }

  // ---------------------------------------------------------------------
  // What the threaded graph guarantees

  /** Every value the threading loop has stored is 0 or an incidence of one
      of the commands. */
  predicate BuilderTargets(b: Builder)
  {
    Target(b.first, |b.links|) && GraphOK(b.links)
  }

  lemma StoreTarget(b: Builder, v: int)
    requires BuilderTargets(b) && Target(v, |b.links|)
    ensures BuilderTargets(Store(b, v))
  {
  }

  lemma HaltTargets(b: Builder)
    requires BuilderTargets(b)
    ensures BuilderTargets(Halt(b))
  {
    StoreTarget(b, 0);
  }

  lemma AdvanceTargets(b: Builder, tag: int)
    requires tag > 2 && BuilderTargets(b) && Target(tag, |b.links|)
    ensures BuilderTargets(Advance(b, tag))
  {
    StoreTarget(b, tag);
  }

  /** One pass of the threading loop (either variant) from byte i: it stops
      (the write through NULL) or moves on to byte j with builder b'. */
  lemma TargetsStep(s: seq<Byte>, t: seq<int>, frag: bool, v: Variant, i: int, b: Builder)
    returns (j: int, b': Builder, ok: bool)
    requires |s| == |t| && 0 <= i < |t| && TagsInRange(t, |b.links|) && BuilderTargets(b)
    ensures i < j <= |t| && |b'.links| == |b.links| && BuilderTargets(b')
    ensures ThreadFrom(s, t, frag, v, i, b) == if ok then ThreadFrom(s, t, frag, v, j, b') else None
  {
    if frag && s[i] == Dollar {
      j, b', ok := TargetsAtDollar(s, t, frag, v, i, b);
    } else if t[i] > 2 {
      j, b', ok := TargetsAtCommand(s, t, frag, v, i, b);
    } else {
      UnfoldNoise(s, t, frag, v, i, b);
      j, b', ok := i + 1, b, true;
    }
  }

  /** TargetsStep at a `$` in fragment mode. */
  lemma TargetsAtDollar(s: seq<Byte>, t: seq<int>, frag: bool, v: Variant, i: int, b: Builder)
    returns (j: int, b': Builder, ok: bool)
    requires |s| == |t| && 0 <= i < |t| && frag && s[i] == Dollar && BuilderTargets(b)
    ensures i < j <= |t| && |b'.links| == |b.links| && BuilderTargets(b')
    ensures ThreadFrom(s, t, frag, v, i, b) == if ok then ThreadFrom(s, t, frag, v, j, b') else None
  {
    UnfoldDollar(s, t, frag, v, i, b);
    HaltTargets(b);
    j, b', ok := i + 1, Halt(b), !(b.store == Nowhere && v == AsWritten);
  }

  /** TargetsStep at the first byte of a command run. */
  lemma TargetsAtCommand(s: seq<Byte>, t: seq<int>, frag: bool, v: Variant, i: int, b: Builder)
    returns (j: int, b': Builder, ok: bool)
    requires |s| == |t| && 0 <= i < |t| && !(frag && s[i] == Dollar) && t[i] > 2
    requires t[i] / 3 < |b.links| && BuilderTargets(b)
    ensures i < j <= |t| && |b'.links| == |b.links| && BuilderTargets(b')
    ensures ThreadFrom(s, t, frag, v, i, b) == if ok then ThreadFrom(s, t, frag, v, j, b') else None
  {
    UnfoldCommand(s, t, frag, v, i, b);
    AdvanceTargets(b, t[i]);
    j, b', ok := RunEnd(s, t, frag, v, i) + 1, Advance(b, t[i]), true;
  }

  lemma {:induction false} ThreadFromTargets(s: seq<Byte>, t: seq<int>, frag: bool, v: Variant, i: int, b: Builder)
    requires |s| == |t| && 0 <= i <= |t| && TagsInRange(t, |b.links|) && BuilderTargets(b)
    ensures var r := ThreadFrom(s, t, frag, v, i, b); r.Some? ==> BuilderTargets(r.value)
    decreases |t| - i
  {
    if i < |t| {
      var j, b', ok := TargetsStep(s, t, frag, v, i, b);
      if ok {
        ThreadFromTargets(s, t, frag, v, j, b');
      }
    }
  }

  /** The graph main builds leads only to incidences of its commands or to
      0, so execute_commands_from can run it from its first incidence. */
  lemma ThreadedTargets(s: seq<Byte>, t: seq<int>, count: nat, frag: bool)
    requires |s| == |t| && TagsInRange(t, count + 1)
    ensures var g := Threaded(s, t, count, frag, Corrected).value;
      GraphOK(g.links) && Target(g.first, |g.links|)
  {
    var b := Start(count);
    assert BuilderTargets(b);
    ThreadFromTargets(s, t, frag, Corrected, 0, b);
    var r := ThreadFrom(s, t, frag, Corrected, 0, b).value;
    if r.store != Nowhere {
      StoreTarget(r, 0);
    }
  }

  // ---------------------------------------------------------------------
  // Fragment mode

  /** The first byte at or after i with a command tag, or |t|. */
  function CommandAt(t: seq<int>, i: int): (j: int)
    requires 0 <= i <= |t|
    ensures i <= j <= |t| && (j < |t| ==> t[j] > 2)
    ensures forall y :: i <= y < j ==> t[y] <= 2
    decreases |t| - i
  {
    if i == |t| || t[i] > 2 then i else CommandAt(t, i + 1)
  }

  /** The incidences fragment mode starts from, in order: for each `^` not
      skipped over, the first command byte at or after it.  The bytes passed
      over while looking for it are not examined for `^` again. */
  function FragmentStarts(s: seq<Byte>, t: seq<int>, i: int): (r: seq<int>)
    requires |s| == |t| && 0 <= i
    ensures forall k :: 0 <= k < |r| ==> r[k] > 2 && r[k] in t
    decreases |s| - i
  {
    if i >= |s| then []
    else if s[i] == Caret then
      var j := CommandAt(t, i);
      if j < |t| then [t[j]] + FragmentStarts(s, t, j + 1) else []
    else FragmentStarts(s, t, i + 1)
  }

  /** x is the tag of the first command byte at or after a `^` at or after i. */
  ghost predicate FirstAfterCaret(s: seq<Byte>, t: seq<int>, i: int, x: int)
    requires |s| == |t| && 0 <= i
  {
    exists c :: i <= c < |s| && s[c] == Caret && CommandAt(t, c) < |t| && x == t[CommandAt(t, c)]
  }

  ghost predicate AllAfterCaret(s: seq<Byte>, t: seq<int>, i: int, r: seq<int>)
    requires |s| == |t| && 0 <= i
  {
    forall k :: 0 <= k < |r| ==> FirstAfterCaret(s, t, i, r[k])
  }

  lemma AfterCaretEarlier(s: seq<Byte>, t: seq<int>, a: int, b: int, x: int)
    requires |s| == |t| && 0 <= b <= a && FirstAfterCaret(s, t, a, x)
    ensures FirstAfterCaret(s, t, b, x)
  {
    var c :| a <= c < |s| && s[c] == Caret && CommandAt(t, c) < |t| && x == t[CommandAt(t, c)];
    assert b <= c;
  }

  lemma AllAfterCaretEarlier(s: seq<Byte>, t: seq<int>, a: int, b: int, r: seq<int>)
    requires |s| == |t| && 0 <= b <= a && AllAfterCaret(s, t, a, r)
    ensures AllAfterCaret(s, t, b, r)
  {
    forall k | 0 <= k < |r|
      ensures FirstAfterCaret(s, t, b, r[k])
    {
      AfterCaretEarlier(s, t, a, b, r[k]);
    }
  }

  lemma AfterCaretAt(s: seq<Byte>, t: seq<int>, i: int)
    requires |s| == |t| && 0 <= i < |s| && s[i] == Caret && CommandAt(t, i) < |t|
    requires AllAfterCaret(s, t, CommandAt(t, i) + 1, FragmentStarts(s, t, CommandAt(t, i) + 1))
    ensures AllAfterCaret(s, t, i, FragmentStarts(s, t, i))
  {
    var j := CommandAt(t, i);
    var r := FragmentStarts(s, t, i);
    var rest := FragmentStarts(s, t, j + 1);
    AllAfterCaretEarlier(s, t, j + 1, i, rest);
    assert r == [t[j]] + rest;
    assert FirstAfterCaret(s, t, i, t[j]);
    forall k | 0 <= k < |r|
      ensures FirstAfterCaret(s, t, i, r[k])
    {
      if k > 0 {
        assert r[k] == rest[k - 1];
      }
    }
  }

  /** Each start is the tag of the first command byte at or after some `^`. */
  lemma {:induction false} FragmentStartsAfterCaret(s: seq<Byte>, t: seq<int>, i: int)
    requires |s| == |t| && 0 <= i
    ensures AllAfterCaret(s, t, i, FragmentStarts(s, t, i))
    decreases |s| - i
  {
    if i < |s| {
      if s[i] == Caret {
        if CommandAt(t, i) < |t| {
          FragmentStartsAfterCaret(s, t, CommandAt(t, i) + 1);
          AfterCaretAt(s, t, i);
        }
      } else {
        FragmentStartsAfterCaret(s, t, i + 1);
        AllAfterCaretEarlier(s, t, i + 1, i, FragmentStarts(s, t, i + 1));
      }
    }
  }

  /** A program without `^` runs nothing in fragment mode. */
  lemma {:induction false} NoCaretNoStarts(s: seq<Byte>, t: seq<int>, i: int)
    requires |s| == |t| && 0 <= i && forall c :: i <= c < |s| ==> s[c] != Caret
    ensures FragmentStarts(s, t, i) == []
    decreases |s| - i
  {
    if i < |s| {
      NoCaretNoStarts(s, t, i + 1);
    }
  }

  /** The runs from `starts` one after another on a shared standard input,
      each followed by a newline; a run that does not halt within `fuel`
      passes ends the program there, without its newline. */
  function Sessions(links: seq<Links>, anchor: int, starts: seq<int>, stdin: seq<Byte>, fuel: nat): (seq<Byte>, bool)
    requires GraphOK(links) && forall k :: 0 <= k < |starts| ==> Target(starts[k], |links|)
    decreases |starts|
  {
    if starts == [] then ([], true)
    else
      var r := Run(links, anchor, Init(links, starts[0], stdin), fuel);
      if r.ip != 0 then (r.output, false)
      else
        var rest := Sessions(links, anchor, starts[1..], r.input, fuel);
        (r.output + [10] + rest.0, rest.1)
  }

  /** Every tag of the program names an incidence of the graph. */
  predicate TagsTarget(t: seq<int>, entries: int)
  {
    forall x :: x in t && x > 2 ==> Target(x, entries)
  }

  /** What has been written followed by what the remaining runs write. */
  function Then(written: seq<Byte>, later: (seq<Byte>, bool)): (seq<Byte>, bool)
  {
    (written + later.0, later.1)
  }

  /** "Skip to the first command byte" after a `^` at byte c. */
  method SkipToCommand(parsed: seq<int>, c: int) returns (i: int)
    requires 0 <= c <= |parsed|
    ensures i == CommandAt(parsed, c)
  {
    i := c;
    while i < |parsed| && parsed[i] <= 2
      invariant c <= i <= |parsed| && CommandAt(parsed, c) == CommandAt(parsed, i)
    {
      i := i + 1;
    }
  }

  /** The sessions from a `^` that has a command byte after it: the run from
      that command, then, if it halts, a newline and the sessions after it. */
  lemma SessionsAtCaret(links: seq<Links>, anchor: int, s: seq<Byte>, t: seq<int>, c: int,
                        stdin: seq<Byte>, fuel: nat)
    requires |s| == |t| && GraphOK(links) && TagsTarget(t, |links|)
    requires 0 <= c < |s| && s[c] == Caret && CommandAt(t, c) < |t|
    ensures var j := CommandAt(t, c);
      var m := Run(links, anchor, Init(links, t[j], stdin), fuel);
      var tail := Sessions(links, anchor, FragmentStarts(s, t, j + 1), m.input, fuel);
      Sessions(links, anchor, FragmentStarts(s, t, c), stdin, fuel) ==
        if m.ip == 0 then Then(m.output + [10], tail) else (m.output, false)
  {
    var j := CommandAt(t, c);
    assert FragmentStarts(s, t, c) == [t[j]] + FragmentStarts(s, t, j + 1);
    assert (FragmentStarts(s, t, c))[1..] == FragmentStarts(s, t, j + 1);
  }

  /** The body of the driver at a `^` at byte c: skip to the first command
      byte and, if there is one, run from it.  `next` is where the driver's
      scan resumes. */
  method FragmentAt(input: seq<Byte>, parsed: seq<int>, links: seq<Links>, anchor: int, c: int,
                    stdin: seq<Byte>, fuel: nat)
    returns (next: int, output: seq<Byte>, finished: bool, rest: seq<Byte>)
    requires |input| == |parsed| && GraphOK(links) && TagsTarget(parsed, |links|)
    requires 0 <= c < |input| && input[c] == Caret
    ensures c < next <= |input| + 1
    ensures var tail := Sessions(links, anchor, FragmentStarts(input, parsed, next), rest, fuel);
      Sessions(links, anchor, FragmentStarts(input, parsed, c), stdin, fuel) ==
        if finished then Then(output, tail) else (output, false)
  {
    var i := SkipToCommand(parsed, c);
    if i < |input| {
      var o, halted, r := ExecuteCommandsFrom(links, parsed[i], anchor, stdin, fuel);
      SessionsAtCaret(links, anchor, input, parsed, c, stdin, fuel);
      next, rest := i + 1, r;
      output, finished := if halted then o + [10] else o, halted;
    } else {
      assert FragmentStarts(input, parsed, c) == [];
      next, output, finished, rest := i + 1, [], true, stdin;
      assert FragmentStarts(input, parsed, next) == [];
      assert output + [] == output;
    }
  }

  /** The fragment driver of main: for each `^`, the first command at or
      after it is run and a newline written. */
  method RunFragments(input: seq<Byte>, parsed: seq<int>, links: seq<Links>, anchor: int, stdin: seq<Byte>, fuel: nat)
    returns (output: seq<Byte>, finished: bool)
    requires |input| == |parsed| && GraphOK(links) && TagsTarget(parsed, |links|)
    ensures (output, finished) == Sessions(links, anchor, FragmentStarts(input, parsed, 0), stdin, fuel)
  {
    output := [];
    var rest := stdin;
    var i := 0;
    ghost var all := Sessions(links, anchor, FragmentStarts(input, parsed, 0), stdin, fuel);
    assert output + all.0 == all.0;
    while i < |input|
      invariant 0 <= i <= |input| + 1
      invariant all == Then(output, Sessions(links, anchor, FragmentStarts(input, parsed, i), rest, fuel))
      decreases |input| + 1 - i
    {
      if input[i] == Caret {
        var next, o, ok, r := FragmentAt(input, parsed, links, anchor, i, rest, fuel);
        if !ok {
          return output + o, false;
        }
        ghost var tail := Sessions(links, anchor, FragmentStarts(input, parsed, next), r, fuel);
        assert output + (o + tail.0) == (output + o) + tail.0;
        output, rest, i := output + o, r, next;
      } else {
        assert FragmentStarts(input, parsed, i) == FragmentStarts(input, parsed, i + 1);
        i := i + 1;
      }
    }
    assert output + [] == output;
    return output, true;
  }

  // ---------------------------------------------------------------------
  // The pipeline of main

  /** How one invocation of main ends: exit status 70 after the lexer's
      internal error, or status 0 after writing `output`.  `halted` is false
      when a run was still going after `fuel` steps. */
  datatype Outcome = CannotParse | Ran(output: seq<Byte>, halted: bool)

  /** The sorter delivers true suffix and LCP arrays, or a negative error code. */
  predicate SorterOK(s: seq<Byte>, sorter: SuffixSort)
  {
    (|s| >= 3 && sorter.Sorted? ==> SuffixLcpArrays(s, sorter.sa, sorter.lcp)) &&
    (sorter.SortFailed? ==> sorter.code < 0)
  }

  /** The incidences lexical_parse keeps the survivors of. */
  ghost function Incidences(s: seq<Byte>, sorter: SuffixSort): seq<Incidence>
    requires SorterOK(s, sorter) && |s| >= 3 && sorter.Sorted?
  {
    Found(s, sorter.sa, sorter.lcp, Windows(sorter.lcp))
  }

  /** The tags and the command count the lexer hands to main (all zero for a
      program too short to hold a command). */
  ghost function LexedTags(s: seq<Byte>, sorter: SuffixSort): (t: seq<int>)
    requires SorterOK(s, sorter) && (|s| < 3 || sorter.Sorted?)
    ensures |t| == |s|
  {
    if |s| < 3 then seq(|s|, _ => 0)
    else seq(|s|, j requires 0 <= j < |s| => FinalTag(Incidences(s, sorter), j))
  }

  ghost function LexedCount(s: seq<Byte>, sorter: SuffixSort): nat
    requires SorterOK(s, sorter) && (|s| < 3 || sorter.Sorted?)
  {
    if |s| < 3 then 0 else Survivors(Incidences(s, sorter))
  }

  /** What the later stages need of the lexer's output. */
  lemma LexedFacts(s: seq<Byte>, sorter: SuffixSort)
    requires SorterOK(s, sorter) && (|s| < 3 || sorter.Sorted?)
    ensures var t := LexedTags(s, sorter);
      TagsInRange(t, LexedCount(s, sorter) + 1) && Contiguous(t) && AnchorOf(t).Some?
  {
    var t := LexedTags(s, sorter);
    if |s| < 3 {
      NoRuns(t, 0);
      AnchorShape(t);
    } else {
      var P := Incidences(s, sorter);
      FoundValid(s, sorter.sa, sorter.lcp, Windows(sorter.lcp));
      assert TaggedBy(t, P);
      LexedInRange(t, P);
      LexedContiguous(t, P);
      LexedAnchor(t, P);
    }
  }

  lemma TagsFit(t: seq<int>, entries: int)
    requires TagsInRange(t, entries)
    ensures TagsTarget(t, entries)
  {
    forall x | x in t && x > 2
      ensures Target(x, entries)
    {
      var j :| 0 <= j < |t| && t[j] == x;
    }
  }

  /** The outcome main promises: the lexer's tags, threaded into a graph,
      run from the first incidence, or in fragment mode once from the
      first command after each `^` with a newline after each run. */
  ghost function Expected(s: seq<Byte>, sorter: SuffixSort, fragmented: bool, stdin: seq<Byte>, fuel: nat): Outcome
    requires SorterOK(s, sorter)
  {
    if |s| >= 3 && sorter.SortFailed? then CannotParse
    else
      var t := LexedTags(s, sorter);
      var count := LexedCount(s, sorter);
      LexedFacts(s, sorter);
      ThreadedTargets(s, t, count, fragmented);
      var g := Threaded(s, t, count, fragmented, Corrected).value;
      var anchor := AnchorOf(t).value;
      if !fragmented then
        var r := Run(g.links, anchor, Init(g.links, g.first, stdin), fuel);
        Ran(r.output, r.ip == 0)
      else
        TagsFit(t, count + 1);
        var r := Sessions(g.links, anchor, FragmentStarts(s, t, 0), stdin, fuel);
        Ran(r.0, r.1)
  }

  /** main after option parsing and reading the program file: lexical
      analysis, anchor_command (which never aborts here), threading, and
      execution.  Only the sorter's failure yields exit status 70. */
  method Interpret(program: seq<Byte>, sorter: SuffixSort, fragmented: bool, stdin: seq<Byte>, fuel: nat)
    returns (r: Outcome)
    requires SorterOK(program, sorter)
    ensures r == Expected(program, sorter, fragmented, stdin, fuel)
    ensures r == CannotParse <==> |program| >= 3 && sorter.SortFailed?
  {
    var parsed := new int[|program|];
    var commandcount := LexicalParse(program, sorter, parsed);
    if commandcount < 0 {
      return CannotParse;
    }
    var t := parsed[..];
    assert t == LexedTags(program, sorter);
    LexedFacts(program, sorter);
    var anchor := AnchorCommand(t);
    assert anchor.Some?;
    var first, links := BuildCommands(program, t, commandcount, fragmented);
    ThreadedTargets(program, t, commandcount, fragmented);
    if !fragmented {
      var output, halted, _ := ExecuteCommandsFrom(links, first, anchor.value, stdin, fuel);
      r := Ran(output, halted);
    } else {
      TagsFit(t, commandcount + 1);
      var output, finished := RunFragments(program, t, links, anchor.value, stdin, fuel);
      r := Ran(output, finished);
    }
  }

  // ---------------------------------------------------------------------
  // A worked example: the program `abcabcabc`, one command whose three
  // incidences are tagged 3, 4 and 5

  const Triple3: seq<Byte> := [97, 98, 99, 97, 98, 99, 97, 98, 99]
  const Triple3Tags: seq<int> := [3, 3, 3, 4, 4, 4, 5, 5, 5]
  const Triple3Links: seq<Links> := [Links(0, 0, 0), Links(4, 0, 5)]

  /** Threaded, the program starts at 3; after 3 comes 4 (post_pop0 of
      command 1), after 4 comes 5 (post_push), and after 5 the end of the
      text (post_pop1 is 0). */
  lemma RepeatedTripleGraph()
    ensures Threaded(Triple3, Triple3Tags, 1, false, Corrected) == Some(Graph(3, Triple3Links))
  {
    var s, t := Triple3, Triple3Tags;
    assert RunEnd(s, t, false, Corrected, 6) == 8;
    assert RunEnd(s, t, false, Corrected, 3) == 5;
    assert RunEnd(s, t, false, Corrected, 0) == 2;
    var b0 := Start(1);
    var b1 := Store(b0, 3).(store := Pop0Slot(1));
    var b2 := Store(b1, 4).(store := PushSlot(1));
    var b3 := Store(b2, 5).(store := Pop1Slot(1));
    assert ThreadFrom(s, t, false, Corrected, 9, b3) == Some(b3);
    assert ThreadFrom(s, t, false, Corrected, 6, b2) == Some(b3);
    assert ThreadFrom(s, t, false, Corrected, 3, b1) == Some(b3);
    assert ThreadFrom(s, t, false, Corrected, 0, b0) == Some(b3);
    assert Finish(b3).links == Triple3Links;
  }

  /** The text has three runs, so the anchor is the second run of the
      second scan, which starts with 5 as the last tag seen and finds the
      same three runs: incidence 4, the middle of command 1. */
  lemma RepeatedTripleAnchor()
    ensures AnchorOf(Triple3Tags) == Some(4)
  {
    RepeatedTripleFirstScan();
    RepeatedTripleSecondScan();
  }

  /** The first scan of the example: three runs, the last tag seen is 5. */
  lemma RepeatedTripleFirstScan()
    ensures Runs(Triple3Tags, 0) == [3, 4, 5] && LastSeen(Triple3Tags, 0) == 5
  {
    var t := Triple3Tags;
    assert Runs(t[9..], 5) == [] && LastSeen(t[9..], 5) == 5;
    assert t[8..][1..] == t[9..];
    assert Runs(t[8..], 5) == [] && LastSeen(t[8..], 5) == 5;
    assert t[7..][1..] == t[8..];
    assert Runs(t[7..], 5) == [] && LastSeen(t[7..], 5) == 5;
    assert t[6..][1..] == t[7..];
    assert Runs(t[6..], 4) == [5] && LastSeen(t[6..], 4) == 5;
    assert t[5..][1..] == t[6..];
    assert Runs(t[5..], 4) == [5] && LastSeen(t[5..], 4) == 5;
    assert t[4..][1..] == t[5..];
    assert Runs(t[4..], 4) == [5] && LastSeen(t[4..], 4) == 5;
    assert t[3..][1..] == t[4..];
    assert Runs(t[3..], 3) == [4, 5] && LastSeen(t[3..], 3) == 5;
    assert t[2..][1..] == t[3..];
    assert Runs(t[2..], 3) == [4, 5] && LastSeen(t[2..], 3) == 5;
    assert t[1..][1..] == t[2..];
    assert Runs(t[1..], 3) == [4, 5] && LastSeen(t[1..], 3) == 5;
  }

  /** The second scan, which starts with 5 as the last tag seen. */
  lemma RepeatedTripleSecondScan()
    ensures Runs(Triple3Tags, 5) == [3, 4, 5]
  {
    var t := Triple3Tags;
    assert t[8..][1..] == t[9..];
    assert t[7..][1..] == t[8..];
    assert t[6..][1..] == t[7..];
    assert t[5..][1..] == t[6..];
    assert t[4..][1..] == t[5..];
    assert t[3..][1..] == t[4..];
    assert t[2..][1..] == t[3..];
    assert t[1..][1..] == t[2..];
    assert Runs(t[9..], 5) == [];
    assert Runs(t[8..], 5) == [];
    assert Runs(t[7..], 5) == [];
    assert Runs(t[6..], 5) == [];
    assert Runs(t[5..], 5) == [4, 5];
    assert Runs(t[4..], 5) == [4, 5];
    assert Runs(t[3..], 5) == [4, 5];
    assert Runs(t[2..], 5) == [3, 4, 5];
    assert Runs(t[1..], 5) == [3, 4, 5];
  }

  /** Run with any input, the program pushes 0 (output bit 0, as 3 + 1 is
      the anchor), pushes 1 (output bit 1, as 5 - 1 is the anchor), meets
      that push of 1 again with it still pending and halts: two output bits,
      no whole byte. */
  lemma RepeatedTripleRun(stdin: seq<Byte>)
    ensures var r := Run(Triple3Links, 4, Init(Triple3Links, 3, stdin), 3);
      r.ip == 0 && r.output == [] && OutputBits(r) == [false, true] && r.stacks[1] == [false, true]
  {
    var links := Triple3Links;
    var m0 := Init(links, 3, stdin);
    var m1 := Step(links, 4, m0);
    assert m1.ip == 5 && m1.pending == [3] && m1.outByte == 0 && m1.outBits == 1;
    var m2 := Step(links, 4, m1);
    assert m2.ip == 5 && m2.pending == [5, 3] && m2.outByte == 2 && m2.outBits == 2;
    assert m2.stacks[1] == [false, true];
    var m3 := Step(links, 4, m2);
    assert m3 == m2.(ip := 0);
    assert Run(links, 4, m0, 3) == m3;
    assert Bits(2, 2) == [false, true];
  }

  /** In fragment mode the program `^$` has no command after its `^`, so the
      driver runs nothing and writes nothing, not even a newline. */
  lemma CaretThenDollar(links: seq<Links>, anchor: int, stdin: seq<Byte>, fuel: nat)
    requires GraphOK(links)
    ensures FragmentStarts([Caret, Dollar], [0, 0], 0) == []
    ensures Sessions(links, anchor, FragmentStarts([Caret, Dollar], [0, 0], 0), stdin, fuel) == ([], true)
  {
    assert CommandAt([0, 0], 1) == 2;
    assert CommandAt([0, 0], 0) == 2;
    assert FragmentStarts([Caret, Dollar], [0, 0], 1) == [];
  }

  // ---------------------------------------------------------------------
  // A worked example: the program `a$a$a$`, whose one command `a$` holds a
  // `$` (see Threading.DollarInsideCommand for how it is threaded)

  /** The suffixes of `a$a$a$` in byte order: `$`, `$a$`, `$a$a$`, `a$`,
      `a$a$`, `a$a$a$`, and the common prefix lengths of neighbours. */
  const ThreeDollarsSA: seq<int> := [5, 3, 1, 4, 2, 0]
  const ThreeDollarsLcp: seq<int> := [1, 3, 0, 2, 4]
  const ThreeDollarsIncidences: seq<Incidence> := [Incidence(4, 2), Incidence(2, 2), Incidence(0, 2)]

  /** Of the four windows only the last yields a command: the first passes the
      LCP test but its suffixes `$`, `$a$`, `$a$a$` all follow an `a`.  The
      command `a$` survives, and its incidences at 0, 2 and 4 are tagged 3, 4
      and 5. */
  lemma ThreeDollarsLexed()
    ensures SuffixLcpArrays(ThreeDollars, ThreeDollarsSA, ThreeDollarsLcp)
    ensures Found(ThreeDollars, ThreeDollarsSA, ThreeDollarsLcp, Windows(ThreeDollarsLcp)) == ThreeDollarsIncidences
    ensures Survivors(ThreeDollarsIncidences) == 1
    ensures forall j :: 0 <= j < |ThreeDollars| ==> FinalTag(ThreeDollarsIncidences, j) == ThreeDollarsTags[j]
  {
    ThreeDollarsSorted();
    ThreeDollarsFound();
    ThreeDollarsTagged();
  }

  lemma ThreeDollarsSorted()
    ensures SuffixLcpArrays(ThreeDollars, ThreeDollarsSA, ThreeDollarsLcp)
  {
    ThreeDollarsOrder();
    ThreeDollarsPrefixes();
  }

  lemma ThreeDollarsOrder()
    ensures Shaped(ThreeDollars, ThreeDollarsSA, ThreeDollarsLcp)
    ensures SortedSuffixes(ThreeDollars, ThreeDollarsSA)
  {
    var s, sa := ThreeDollars, ThreeDollarsSA;
    forall i | 0 <= i && i + 1 < |sa|
      ensures LexLeq(s[sa[i]..], s[sa[i + 1]..])
    {
      var x, y := s[sa[i]..], s[sa[i + 1]..];
      // each suffix but `$a$a$` is a prefix of the next one
      LexLeqUnequal(x, y, if i == 2 then 0 else |x|);
    }
  }

  /** x sorts before y when they agree on the first k bytes and then x ends
      or has the smaller byte. */
  lemma {:induction false} LexLeqUnequal(x: seq<Byte>, y: seq<Byte>, k: nat)
    requires k <= |x| && k <= |y| && x[..k] == y[..k] && (k == |x| || (k < |y| && x[k] < y[k]))
    ensures LexLeq(x, y)
    decreases k
  {
    if k > 0 {
      assert x[0] == y[0];
      assert x[1..][..k - 1] == x[..k][1..];
      assert y[1..][..k - 1] == y[..k][1..];
      LexLeqUnequal(x[1..], y[1..], k - 1);
    }
  }

  lemma ThreeDollarsPrefixes()
    ensures forall i :: 0 <= i < |ThreeDollarsLcp| ==>
      IsLcp(ThreeDollars, ThreeDollarsSA[i], ThreeDollarsSA[i + 1], ThreeDollarsLcp[i])
  {
    var s := ThreeDollars;
    assert IsLcp(s, 5, 3, 1) && IsLcp(s, 3, 1, 3) && IsLcp(s, 1, 4, 0) && IsLcp(s, 4, 2, 2) && IsLcp(s, 2, 0, 4);
  }

  lemma ThreeDollarsFound()
    ensures SuffixLcpArrays(ThreeDollars, ThreeDollarsSA, ThreeDollarsLcp)
    ensures Found(ThreeDollars, ThreeDollarsSA, ThreeDollarsLcp, Windows(ThreeDollarsLcp)) == ThreeDollarsIncidences
  {
    var s, sa, lcp := ThreeDollars, ThreeDollarsSA, ThreeDollarsLcp;
    ThreeDollarsSorted();
    assert !Recorded(s, sa, lcp, 0) && !Recorded(s, sa, lcp, 1) && !Recorded(s, sa, lcp, 2);
    assert Recorded(s, sa, lcp, 3);
    assert Found(s, sa, lcp, 1) == [];
    assert Found(s, sa, lcp, 2) == [];
    assert Found(s, sa, lcp, 3) == [];
  }

  lemma ThreeDollarsTagged()
    ensures Survivors(ThreeDollarsIncidences) == 1
    ensures forall j :: 0 <= j < |ThreeDollars| ==> FinalTag(ThreeDollarsIncidences, j) == ThreeDollarsTags[j]
  {
    var P := ThreeDollarsIncidences;
    assert P[..2] == [Incidence(4, 2), Incidence(2, 2)] && P[..2][..1] == [Incidence(4, 2)] && P[..2][..1][..0] == [];
    forall j
      ensures CoverCount(P, j) == if 0 <= j < 6 then 1 else 0
      ensures 0 <= j < 6 ==> LastCover(P, j) == 2 - j / 2
    {
      assert CoverCount(P[..2][..1], j) == if 4 <= j < 6 then 1 else 0;
      assert CoverCount(P[..2], j) == if 2 <= j < 6 then 1 else 0;
    }
    assert !Deleted(P, 0);
    assert Rank(P, 0) == 0 && Survivors(P) == 1;
    forall j | 0 <= j < |ThreeDollars|
      ensures FinalTag(P, j) == ThreeDollarsTags[j]
    {
      assert Role(P, 2 - j / 2) == j / 2;
    }
  }
}
