/** execute_commands_from of incident.c: the automaton that runs a command
    graph.  Every command owns a bit stack; each of its three incidences is
    "push 0" (ip % 3 == 0), "pop" (ip % 3 == 1) or "push 1" (ip % 3 == 2).
    A push whose (command, bit) has already been pushed since the last pop is
    skipped; a pop with an empty stack reads a bit of standard input; the two
    pushes of the anchor command write bits to standard output.

    The specification is a step function on values (Machine, Step, Run); the
    class Executor runs the source's loop on arrays and an intrusive skip list
    and is proved to follow it. */
module Engine {
  import opened Common
  import opened Threading

  /** Standard input and output are byte sequences; `input` is what getchar
      has not yet returned, and an empty `input` is EOF. */
  datatype Machine = Machine(
    ip: int,                   // the current incidence; 0 halts
    stacks: seq<seq<bool>>,    // per command, bottom first
    pending: seq<int>,         // pushes since the last pop, latest first
    inByte: int, inBits: int,  // input bits not yet consumed
    outByte: int, outBits: int,// output bits not yet written
    input: seq<Byte>,
    output: seq<Byte>)

  /** An incidence of one of the commands 1..|links|-1, or 0. */
  predicate Target(v: int, entries: int)
  {
    v == 0 || (3 <= v && v / 3 < entries)
  }

  /** A push incidence of one of the commands. */
  predicate PushSite(x: int, entries: int)
  {
    3 <= x && x / 3 < entries && x % 3 != 1
  }

  /** Every link of the graph leads to an incidence or halts. */
  predicate GraphOK(links: seq<Links>)
  {
    |links| >= 1 &&
    forall c :: 0 <= c < |links| ==>
      Target(links[c].postPop0, |links|) && Target(links[c].postPop1, |links|) &&
      Target(links[c].postPush, |links|)
  }

  predicate Distinct(xs: seq<int>)
  {
    forall j, k :: 0 <= j < k < |xs| ==> xs[j] != xs[k]
  }

  /** The run context is well formed. */
  predicate WellFormed(links: seq<Links>, m: Machine)
  {
    |m.stacks| == |links| && Target(m.ip, |links|) &&
    (forall k :: 0 <= k < |m.pending| ==> PushSite(m.pending[k], |links|)) &&
    Distinct(m.pending) &&
    0 <= m.inBits <= 8 && 0 <= m.inByte < Pow2(m.inBits) &&
    0 <= m.outBits < 8 && 0 <= m.outByte < Pow2(m.outBits)
  }

  /** The context at the start of a run: empty stacks, empty skip list,
      empty bit buffers. */
  function Init(links: seq<Links>, first: int, input: seq<Byte>): (m: Machine)
    requires GraphOK(links) && Target(first, |links|)
    ensures WellFormed(links, m) && m.ip == first && m.input == input && m.output == []
  {
    Machine(first, seq(|links|, _ => []), [], 0, 0, 0, 0, input, [])
  }

  /** "push 0" (bit false) or "push 1" (bit true) at m.ip. */
  function Push(links: seq<Links>, anchor: int, m: Machine, bit: bool): (r: Machine)
    requires GraphOK(links) && WellFormed(links, m) && m.ip != 0 && m.ip % 3 != 1
    requires bit == (m.ip % 3 == 2)
    ensures 0 <= r.outBits <= 8 && 0 <= r.outByte < Pow2(r.outBits)
  {
    var c := m.ip / 3;
    if m.ip in m.pending then
      m.(ip := if bit then links[c].postPop1 else links[c].postPop0)
    else
      var emits := if bit then m.ip - 1 == anchor else m.ip + 1 == anchor;
      m.(ip := links[c].postPush,
         stacks := m.stacks[c := m.stacks[c] + [bit]],
         pending := [m.ip] + m.pending,
         outByte := if emits && bit then m.outByte + Pow2(m.outBits) else m.outByte,
         outBits := if emits then m.outBits + 1 else m.outBits)
  }

  /** "pop" at m.ip: the skip list empties; the top of the stack, or else the
      next input bit, picks the successor; at EOF the pop acts as if pushed. */
  function Pop(links: seq<Links>, m: Machine): (r: Machine)
    requires GraphOK(links) && WellFormed(links, m) && m.ip != 0 && m.ip % 3 == 1
    ensures r.pending == []
  {
    var c := m.ip / 3;
    var l := links[c];
    var s := m.stacks[c];
    if s != [] then
      m.(pending := [], ip := if s[|s| - 1] then l.postPop1 else l.postPop0, stacks := m.stacks[c := s[..|s| - 1]])
    else if m.inBits == 0 && m.input == [] then
      m.(pending := [], ip := l.postPush)
    else
      var byte := if m.inBits == 0 then m.input[0] else m.inByte;
      var bits := if m.inBits == 0 then 8 else m.inBits;
      m.(pending := [], ip := if byte % 2 == 1 then l.postPop1 else l.postPop0,
         inByte := byte / 2, inBits := bits - 1,
         input := if m.inBits == 0 then m.input[1..] else m.input)
  }

  /** Eight output bits make a byte on standard output. */
  function Flush(m: Machine): (r: Machine)
    requires 0 <= m.outBits <= 8 && 0 <= m.outByte < Pow2(m.outBits)
    ensures 0 <= r.outBits < 8 && 0 <= r.outByte < Pow2(r.outBits)
  {
    if m.outBits == 8 then
      assert Pow2(8) == 256;
      m.(output := m.output + [m.outByte], outByte := 0, outBits := 0)
    else m
  }

  lemma PopWellFormed(links: seq<Links>, m: Machine)
    requires GraphOK(links) && WellFormed(links, m) && m.ip != 0 && m.ip % 3 == 1
    ensures WellFormed(links, Pop(links, m))
  {
    var c := m.ip / 3;
    assert Target(links[c].postPop0, |links|) && Target(links[c].postPop1, |links|) &&
      Target(links[c].postPush, |links|);
    if m.stacks[c] == [] && !(m.inBits == 0 && m.input == []) {
      var byte := if m.inBits == 0 then m.input[0] else m.inByte;
      var bits := if m.inBits == 0 then 8 else m.inBits;
      assert Pow2(8) == 256;
      assert 1 <= bits && byte < Pow2(bits) == 2 * Pow2(bits - 1);
      assert byte / 2 < Pow2(bits - 1);
    }
  }

  lemma PushWellFormed(links: seq<Links>, anchor: int, m: Machine, bit: bool)
    requires GraphOK(links) && WellFormed(links, m) && m.ip != 0 && m.ip % 3 != 1
    requires bit == (m.ip % 3 == 2)
    ensures WellFormed(links, Flush(Push(links, anchor, m, bit)))
  {
    var c := m.ip / 3;
    assert Target(links[c].postPop0, |links|) && Target(links[c].postPop1, |links|) &&
      Target(links[c].postPush, |links|);
    var p := Push(links, anchor, m, bit);
    var r := Flush(p);
    assert r.pending == p.pending && r.stacks == p.stacks && r.ip == p.ip;
    if m.ip !in m.pending {
      assert p.pending == [m.ip] + m.pending;
      forall k | 0 <= k < |p.pending|
        ensures PushSite(p.pending[k], |links|)
      {
        if k > 0 {
          assert p.pending[k] == m.pending[k - 1];
        }
      }
      forall j, k | 0 <= j < k < |p.pending|
        ensures p.pending[j] != p.pending[k]
      {
        assert p.pending[k] == m.pending[k - 1];
        if j > 0 {
          assert p.pending[j] == m.pending[j - 1];
        }
      }
    }
  }

  /** One pass of the main loop. */
  function Step(links: seq<Links>, anchor: int, m: Machine): (r: Machine)
    requires GraphOK(links) && WellFormed(links, m) && m.ip != 0
    ensures WellFormed(links, r)
  {
    if m.ip % 3 == 1 then
      PopWellFormed(links, m);
      Pop(links, m)
    else
      PushWellFormed(links, anchor, m, m.ip % 3 == 2);
      Flush(Push(links, anchor, m, m.ip % 3 == 2))
  }

  /** At most `fuel` passes of the loop, stopping when ip is 0. */
  function Run(links: seq<Links>, anchor: int, m: Machine, fuel: nat): (r: Machine)
    requires GraphOK(links) && WellFormed(links, m)
    ensures WellFormed(links, r)
    decreases fuel
  {
    if fuel == 0 || m.ip == 0 then m else Run(links, anchor, Step(links, anchor, m), fuel - 1)
  }

  // ---------------------------------------------------------------------
  // Input and output bit streams

  /** The input bits not yet consumed, in the order pops receive them. */
  function InputBits(m: Machine): (r: seq<bool>)
    requires 0 <= m.inByte && 0 <= m.inBits
    ensures |r| == m.inBits + 8 * |m.input|
  {
    Bits(m.inByte, m.inBits) + StreamBits(m.input)
  }

  /** Every output bit so far: those already written as bytes, then the
      pending ones. */
  function OutputBits(m: Machine): (r: seq<bool>)
    requires 0 <= m.outByte && 0 <= m.outBits
    ensures |r| == 8 * |m.output| + m.outBits
  {
    StreamBits(m.output) + Bits(m.outByte, m.outBits)
  }

  /** A pop with an empty stack takes the next input bit, least significant
      bit of each byte first, and consumes it; at EOF it goes to post_push
      and consumes nothing.  Stacks and output are untouched. */
  lemma PopReadsInput(links: seq<Links>, anchor: int, m: Machine)
    requires GraphOK(links) && WellFormed(links, m) && m.ip != 0 && m.ip % 3 == 1
    requires m.stacks[m.ip / 3] == []
    ensures var r := Step(links, anchor, m); var l := links[m.ip / 3]; var bits := InputBits(m);
      (bits == [] ==> r.ip == l.postPush && InputBits(r) == []) &&
      (bits != [] ==> r.ip == (if bits[0] then l.postPop1 else l.postPop0) && InputBits(r) == bits[1..]) &&
      r.stacks == m.stacks && r.output == m.output && r.outBits == m.outBits && r.outByte == m.outByte
  {
    var bits := InputBits(m);
    if m.inBits == 0 && m.input != [] {
      var b := m.input[0];
      assert StreamBits(m.input) == Bits(b, 8) + StreamBits(m.input[1..]);
      assert Bits(b, 8) == [b % 2 == 1] + Bits(b / 2, 7);
      assert bits == [b % 2 == 1] + (Bits(b / 2, 7) + StreamBits(m.input[1..]));
    } else if m.inBits > 0 {
      assert Bits(m.inByte, m.inBits) == [m.inByte % 2 == 1] + Bits(m.inByte / 2, m.inBits - 1);
    }
  }

  /** Only a pop with an empty stack touches the input. */
  lemma OtherStepsKeepInput(links: seq<Links>, anchor: int, m: Machine)
    requires GraphOK(links) && WellFormed(links, m) && m.ip != 0
    requires m.ip % 3 != 1 || m.stacks[m.ip / 3] != []
    ensures var r := Step(links, anchor, m);
      r.input == m.input && r.inByte == m.inByte && r.inBits == m.inBits
  {
  }

  /** The bits one step writes: only a real push by the anchor command
      writes, and it writes the bit it pushes. */
  function Emitted(anchor: int, m: Machine): seq<bool>
  {
    if m.ip % 3 == 1 || m.ip in m.pending then []
    else if m.ip % 3 == 0 && m.ip + 1 == anchor then [false]
    else if m.ip % 3 == 2 && m.ip - 1 == anchor then [true]
    else []
  }

  /** Setting the next bit of output_byte appends the pushed bit. */
  lemma PushOutput(links: seq<Links>, anchor: int, m: Machine)
    requires GraphOK(links) && WellFormed(links, m) && m.ip != 0 && m.ip % 3 != 1
    ensures var p := Push(links, anchor, m, m.ip % 3 == 2);
      p.output == m.output && Bits(p.outByte, p.outBits) == Bits(m.outByte, m.outBits) + Emitted(anchor, m)
  {
    if m.ip !in m.pending && Emitted(anchor, m) != [] {
      BitsSetTop(m.outByte, m.outBits, m.ip % 3 == 2);
    }
  }

  /** Writing a full output_byte loses no bit. */
  lemma FlushOutput(m: Machine)
    requires 0 <= m.outBits <= 8 && 0 <= m.outByte < Pow2(m.outBits)
    ensures OutputBits(Flush(m)) == OutputBits(m)
  {
    if m.outBits == 8 {
      assert Pow2(8) == 256;
      StreamBitsAppend(m.output, m.outByte);
    }
  }

  /** Collecting bits in output_byte and writing it when full puts the
      emitted bits on standard output in order, least significant first. */
  lemma StepOutput(links: seq<Links>, anchor: int, m: Machine)
    requires GraphOK(links) && WellFormed(links, m) && m.ip != 0
    ensures OutputBits(Step(links, anchor, m)) == OutputBits(m) + Emitted(anchor, m)
  {
    if m.ip % 3 != 1 {
      var p := Push(links, anchor, m, m.ip % 3 == 2);
      PushOutput(links, anchor, m);
      FlushOutput(p);
      assert OutputBits(p) == OutputBits(m) + Emitted(anchor, m);
    }
  }

  // ---------------------------------------------------------------------
  // Stacks and the skip list

  /** A push whose (command, bit) is already pending changes no stack and
      goes to that command's post-pop successor for the bit; otherwise it
      pushes the bit on that command's stack alone and becomes pending. */
  lemma PushElision(links: seq<Links>, anchor: int, m: Machine)
    requires GraphOK(links) && WellFormed(links, m) && m.ip != 0 && m.ip % 3 != 1
    ensures var r := Step(links, anchor, m); var c := m.ip / 3; var bit := m.ip % 3 == 2;
      (m.ip in m.pending ==>
         r.stacks == m.stacks && r.pending == m.pending &&
         r.ip == (if bit then links[c].postPop1 else links[c].postPop0)) &&
      (m.ip !in m.pending ==>
         r.stacks[c] == m.stacks[c] + [bit] && r.ip == links[c].postPush && r.pending == [m.ip] + m.pending &&
         forall d :: 0 <= d < |m.stacks| && d != c ==> r.stacks[d] == m.stacks[d])
  {
  }

  /** A pop empties the skip list; with a non-empty stack it removes the most
      recently pushed bit and branches on it. */
  lemma PopTakesTop(links: seq<Links>, anchor: int, m: Machine)
    requires GraphOK(links) && WellFormed(links, m) && m.ip != 0 && m.ip % 3 == 1
    requires m.stacks[m.ip / 3] != []
    ensures var r := Step(links, anchor, m); var c := m.ip / 3; var s := m.stacks[c];
      r.pending == [] && s == r.stacks[c] + [s[|s| - 1]] &&
      r.ip == (if s[|s| - 1] then links[c].postPop1 else links[c].postPop0) &&
      (forall d :: 0 <= d < |m.stacks| && d != c ==> r.stacks[d] == m.stacks[d]) &&
      r.input == m.input && OutputBits(r) == OutputBits(m)
  {
  }

  /** Last in, first out: a real push followed by a pop of the same command
      restores every stack and branches on the bit just pushed. */
  lemma PushThenPop(links: seq<Links>, anchor: int, m: Machine)
    requires GraphOK(links) && WellFormed(links, m) && m.ip != 0 && m.ip % 3 != 1 && m.ip !in m.pending
    requires links[m.ip / 3].postPush == m.ip / 3 * 3 + 1
    ensures var r := Step(links, anchor, Step(links, anchor, m)); var l := links[m.ip / 3];
      r.stacks == m.stacks && r.pending == [] && r.ip == (if m.ip % 3 == 2 then l.postPop1 else l.postPop0)
  {
    var c := m.ip / 3;
    var r1 := Step(links, anchor, m);
    PushElision(links, anchor, m);
    assert r1.ip != 0 && r1.ip % 3 == 1 && r1.ip / 3 == c;
    PopTakesTop(links, anchor, r1);
    var r := Step(links, anchor, r1);
    assert r.stacks[c] == m.stacks[c];
    assert r.stacks == m.stacks;
  }

  /** How many of command c's two pushes are pending. */
  function Occupied(pending: seq<int>, c: int): (n: nat)
    ensures n <= 2
  {
    (if 3 * c in pending then 1 else 0) + (if 3 * c + 2 in pending then 1 else 0)
  }

  /** The run performs no pop within its first `fuel` steps. */
  ghost predicate NoPop(links: seq<Links>, anchor: int, m: Machine, fuel: nat)
    requires GraphOK(links) && WellFormed(links, m)
    decreases fuel
  {
    fuel == 0 || m.ip == 0 || (m.ip % 3 != 1 && NoPop(links, anchor, Step(links, anchor, m), fuel - 1))
  }

  /** Between two pops each (command, bit) adds at most one entry to the
      command's stack: growth is matched by newly pending pushes, so no
      stack grows by more than two, however the pushes cycle. */
  lemma {:induction false} GrowthBetweenPops(links: seq<Links>, anchor: int, m: Machine, fuel: nat, c: int)
    requires GraphOK(links) && WellFormed(links, m) && NoPop(links, anchor, m, fuel) && 0 <= c < |links|
    ensures var r := Run(links, anchor, m, fuel);
      |r.stacks[c]| + Occupied(m.pending, c) == |m.stacks[c]| + Occupied(r.pending, c) &&
      |r.stacks[c]| <= |m.stacks[c]| + 2 - Occupied(m.pending, c)
    decreases fuel
  {
    if fuel > 0 && m.ip != 0 {
      var m' := Step(links, anchor, m);
      PushElision(links, anchor, m);
      if m.ip !in m.pending {
        assert m'.pending == [m.ip] + m.pending;
        if m.ip / 3 == c {
          assert Occupied(m'.pending, c) == Occupied(m.pending, c) + 1;
        } else {
          assert Occupied(m'.pending, c) == Occupied(m.pending, c);
        }
      }
      GrowthBetweenPops(links, anchor, m', fuel - 1, c);
    }
  }

  /** Standard output is only ever appended to, and the bits written so far
      stay a prefix of the bits written later. */
  lemma {:induction false} RunOutputGrows(links: seq<Links>, anchor: int, m: Machine, fuel: nat)
    requires GraphOK(links) && WellFormed(links, m)
    ensures var r := Run(links, anchor, m, fuel);
      m.output <= r.output && OutputBits(m) <= OutputBits(r)
    decreases fuel
  {
    if fuel > 0 && m.ip != 0 {
      var m' := Step(links, anchor, m);
      StepOutput(links, anchor, m);
      assert m.output <= m'.output;
      RunOutputGrows(links, anchor, m', fuel - 1);
    }
  }

  // ---------------------------------------------------------------------
  // The source's loop on mutable storage

  /** The start of the skip list for the pending pushes: 1 ends it. */
  function Head(pending: seq<int>): int
  {
    if pending == [] then 1 else pending[0]
  }

  /** What the skip field of pending[k] holds. */
  function Next(pending: seq<int>, k: int): int
  {
    if 0 <= k && k + 1 < |pending| then pending[k + 1] else 1
  }

  /** Every pending push has a field. */
  ghost predicate InRange(sk: seq<int>, pending: seq<int>)
  {
    forall k :: 0 <= k < |pending| ==> 0 <= pending[k] < |sk|
  }

  /** From entry `from` on, each pending push's field links to the next. */
  ghost predicate Listed(sk: seq<int>, pending: seq<int>, from: int)
  {
    forall k {:trigger sk[pending[k]]} :: 0 <= from <= k < |pending| && 0 <= pending[k] < |sk| ==>
      sk[pending[k]] == Next(pending, k)
  }

  /** The fields of the first `upto` pending pushes are zero. */
  ghost predicate Zeroed(sk: seq<int>, pending: seq<int>, upto: int)
  {
    forall k {:trigger sk[pending[k]]} :: 0 <= k < upto && k < |pending| && 0 <= pending[k] < |sk| ==>
      sk[pending[k]] == 0
  }

  /** The field of every push that is not pending is zero. */
  ghost predicate Unlisted(sk: seq<int>, pending: seq<int>)
  {
    forall x :: 3 <= x < |sk| && x % 3 != 1 && x !in pending ==> sk[x] == 0
  }

  /** The intrusive skip list `sk`, starting at `head`, holds exactly the
      pending pushes, latest first; every other push field is zero. */
  ghost predicate Chain(sk: seq<int>, head: int, pending: seq<int>)
  {
    head == Head(pending) && InRange(sk, pending) && Listed(sk, pending, 0) && Unlisted(sk, pending)
  }

  /** Linking a push that is not yet pending in front of the list. */
  lemma ChainPush(sk: seq<int>, head: int, pending: seq<int>, x: int)
    requires Chain(sk, head, pending) && 3 <= x < |sk| && x % 3 != 1 && x !in pending
    ensures Chain(sk[x := head], x, [x] + pending)
  {
    var p := [x] + pending;
    var s := sk[x := head];
    forall k | 0 <= k < |p|
      ensures 0 <= p[k] < |s|
    {
      if k > 0 {
        assert p[k] == pending[k - 1];
      }
    }
    forall k | 0 <= k < |p|
      ensures s[p[k]] == Next(p, k)
    {
      if k > 0 {
        assert p[k] == pending[k - 1] && p[k] != x;
        assert Next(p, k) == Next(pending, k - 1);
        assert 0 <= pending[k - 1] < |sk|;
        assert sk[pending[k - 1]] == Next(pending, k - 1);
      }
    }
    forall y | 3 <= y < |s| && y % 3 != 1 && y !in p
      ensures s[y] == 0
    {
      assert y != x && y !in pending;
    }
  }

  /** The state of the clean-up walk after k steps. */
  ghost predicate Clearing(sk: seq<int>, head: int, pending: seq<int>, k: int)
  {
    0 <= k <= |pending| && head == (if k < |pending| then pending[k] else 1) && InRange(sk, pending) &&
    Zeroed(sk, pending, k) && Listed(sk, pending, k) && Unlisted(sk, pending)
  }

  /** One step of the walk zeroes the field at `head` and follows it. */
  lemma ClearStep(sk: seq<int>, head: int, pending: seq<int>, k: int)
    requires Clearing(sk, head, pending, k) && k < |pending| && Distinct(pending)
    ensures 0 <= head < |sk| && Clearing(sk[head := 0], sk[head], pending, k + 1)
  {
    var s := sk[head := 0];
    forall j | k + 1 <= j < |pending|
      ensures s[pending[j]] == Next(pending, j)
    {
      assert pending[j] != pending[k] && 0 <= pending[j] < |sk|;
      assert sk[pending[j]] == Next(pending, j);
    }
    forall j | 0 <= j < k + 1 && j < |pending|
      ensures s[pending[j]] == 0
    {
      assert 0 <= pending[j] < |sk|;
      if j < k {
        assert pending[j] != pending[k];
        assert sk[pending[j]] == 0;
      }
    }
    forall y | 3 <= y < |s| && y % 3 != 1 && y !in pending
      ensures s[y] == 0
    {
    }
  }

  /** The walk stops at the terminator only after the last pending push,
      and then no push field is set. */
  lemma ClearDone(sk: seq<int>, pending: seq<int>, k: int)
    requires Clearing(sk, 1, pending, k) && forall j :: 0 <= j < |pending| ==> pending[j] >= 3
    ensures Chain(sk, 1, [])
  {
    assert k == |pending|;
    forall y | 3 <= y < |sk| && y % 3 != 1
      ensures sk[y] == 0
    {
      if y in pending {
        var j :| 0 <= j < |pending| && pending[j] == y;
      }
    }
  }

  /** The command storage and registers of execute_commands_from.  For a
      push incidence x, skip[x] is next_skipped_after_push0 (x % 3 == 0) or
      next_skipped_after_push1 (x % 3 == 2) of command x / 3: zero when that
      push has not happened since the last pop, otherwise the next entry of
      the list of skipped incidences that starts at `head`
      (first_skipped_incidence), where 1 ends the list.  Stack bits are kept
      as sequences rather than packed into reallocated bytes. */
  class Executor {
    const links: seq<Links>
    const anchor: int
    const skip: array<int>
    const stacks: array<seq<bool>>
    var ip: int
    var head: int
    var inByte: int
    var inBits: int
    var outByte: int
    var outBits: int
    var input: seq<Byte>
    var output: seq<Byte>
    /** The incidences on the skip list, from `head` on. */
    ghost var pending: seq<int>

    /** The context this storage represents. */
    ghost function State(): Machine
      reads this, stacks
    {
      Machine(ip, stacks[..], pending, inByte, inBits, outByte, outBits, input, output)
    }

    /** The arrays fit the graph and the skip fields hold the list. */
    ghost predicate Storage()
      reads this, skip, stacks
    {
      GraphOK(links) && skip.Length == 3 * |links| && stacks.Length == |links| &&
      Chain(skip[..], head, pending)
    }

    ghost predicate Valid()
      reads this, skip, stacks
    {
      Storage() && WellFormed(links, State())
    }

    /** Allocating and zeroing the command storage (incident.c zeroes
        commands 1..commandcount; command 0 is never run). */
    constructor (links: seq<Links>, anchor: int, first: int, input: seq<Byte>)
      requires GraphOK(links) && Target(first, |links|)
      ensures Valid() && State() == Init(links, first, input)
      ensures this.links == links && this.anchor == anchor && fresh(skip) && fresh(stacks)
    {
      this.links := links;
      this.anchor := anchor;
      var n := |links|;
      var sk := new int[3 * n];
      var st := new seq<bool>[n](_ => []);
      var i := 1;
      while i < n
        invariant 1 <= i <= n
        invariant forall x :: 3 <= x < 3 * i && x % 3 != 1 ==> sk[x] == 0
        invariant forall c :: 0 <= c < n ==> st[c] == []
      {
        sk[3 * i] := 0;
        sk[3 * i + 2] := 0;
        st[i] := [];
        i := i + 1;
      }
      skip, stacks := sk, st;
      ip, head := first, 1;
      inByte, inBits, outByte, outBits := 0, 0, 0, 0;
      this.input, output := input, [];
      pending := [];
      new;
      assert stacks[..] == seq(n, _ => []);
    }

    /** A pending push's skip field is non-zero, any other push's is zero. */
    lemma SkipTellsPending(x: int)
      requires Valid() && PushSite(x, |links|)
      ensures (skip[x] != 0) == (x in pending)
    {
      if x in pending {
        var k :| 0 <= k < |pending| && pending[k] == x;
        assert skip[x] == (if k + 1 < |pending| then pending[k + 1] else 1);
        if k + 1 < |pending| {
          assert PushSite(pending[k + 1], |links|);
        }
      }
    }

    /** The clean-up loop of a pop: walks the skip list from `head`, zeroing
        each field it passes, until it reaches the terminator 1. */
    method ClearSkipped()
      requires Valid()
      modifies this, skip
      ensures Valid() && head == 1 && State() == old(State()).(pending := [])
    {
      ghost var k := 0;
      while head != 1
        invariant Clearing(skip[..], head, pending, k)
        invariant State() == old(State())
        decreases |pending| - k
      {
        ClearStep(skip[..], head, pending, k);
        var x := head;
        head := skip[x];
        skip[x] := 0;
        k := k + 1;
      }
      ClearDone(skip[..], pending, k);
      pending := [];
    }

    /** Cases 0 and 2 of the switch.  Setting bit outBits of a byte below
        2^outBits, the source's `output_byte |= 1 << output_bits`, is an
        addition. */
    method PushBit(bit: bool)
      requires Valid() && ip != 0 && ip % 3 != 1 && bit == (ip % 3 == 2)
      modifies this, skip, stacks
      ensures Storage() && State() == Push(links, anchor, old(State()), bit)
    {
      var c := ip / 3;
      SkipTellsPending(ip);
      if skip[ip] != 0 {
        ip := if bit then links[c].postPop1 else links[c].postPop0;
      } else {
        if bit && ip - 1 == anchor {
          outByte := outByte + Pow2(outBits);
          outBits := outBits + 1;
        } else if !bit && ip + 1 == anchor {
          outBits := outBits + 1;
        }
        stacks[c] := stacks[c] + [bit];
        ChainPush(skip[..], head, pending, ip);
        skip[ip] := head;
        pending := [ip] + pending;
        head := ip;
        ip := links[c].postPush;
      }
    }

    /** The full-byte check after the switch. */
    method FlushByte()
      requires Storage() && 0 <= outBits <= 8 && 0 <= outByte < Pow2(outBits)
      modifies this
      ensures Storage() && State() == Flush(old(State()))
    {
      if outBits == 8 {
        assert Pow2(8) == 256;
        output := output + [outByte];
        outBits := 0;
        outByte := 0;
      }
    }

    /** A push incidence: one pass of the loop. */
    method PushStep()
      requires Valid() && ip != 0 && ip % 3 != 1
      modifies this, skip, stacks
      ensures Valid() && State() == Step(links, anchor, old(State()))
    {
      PushBit(ip % 3 == 2);
      FlushByte();
    }

    /** A pop with an empty stack: the next input bit, least significant
        first, after a getchar when the current byte is used up; at EOF the
        pop is skipped to post_push. */
    method ReadBit()
      requires Valid() && ip != 0 && ip % 3 == 1 && stacks[ip / 3] == [] && pending == []
      modifies this
      ensures Valid() && State() == Pop(links, old(State()))
    {
      var c := ip / 3;
      if inBits == 0 {
        if input == [] {
          ip := links[c].postPush;
          return;
        }
        inByte := input[0];
        input := input[1..];
        inBits := 8;
        assert Pow2(8) == 256;
      }
      ip := if inByte % 2 == 1 then links[c].postPop1 else links[c].postPop0;
      inByte := inByte / 2;
      inBits := inBits - 1;
    }

    /** A pop with a non-empty stack takes its top bit. */
    method PopBit()
      requires Valid() && ip != 0 && ip % 3 == 1 && stacks[ip / 3] != [] && pending == []
      modifies this, stacks
      ensures Valid() && State() == Pop(links, old(State()))
    {
      var c := ip / 3;
      var s := stacks[c];
      stacks[c] := s[..|s| - 1];
      ip := if s[|s| - 1] then links[c].postPop1 else links[c].postPop0;
    }

    /** Case 1 of the switch: empty the skip list, then pop. */
    method PopStep()
      requires Valid() && ip != 0 && ip % 3 == 1
      modifies this, skip, stacks
      ensures Valid() && State() == Step(links, anchor, old(State()))
    {
      ghost var m := State();
      ClearSkipped();
      assert Pop(links, State()) == Pop(links, m);
      if stacks[ip / 3] == [] {
        ReadBit();
      } else {
        PopBit();
      }
    }

    /** One pass of the main loop. */
    method Pass()
      requires Valid() && ip != 0
      modifies this, skip, stacks
      ensures Valid() && State() == Step(links, anchor, old(State()))
    {
      if ip % 3 == 1 {
        PopStep();
      } else {
        PushStep();
      }
    }

    /** The main loop, for at most `fuel` passes. */
    method MainLoop(fuel: nat)
      requires Valid()
      modifies this, skip, stacks
      ensures Valid() && State() == Run(links, anchor, old(State()), fuel)
    {
      var left := fuel;
      while left > 0 && ip != 0
        invariant Valid()
        invariant Run(links, anchor, State(), left) == Run(links, anchor, old(State()), fuel)
      {
        Pass();
        left := left - 1;
      }
    }
  }

  /** execute_commands_from: runs the graph from `first` with empty stacks
      for at most `fuel` passes and returns what it wrote, whether ip reached
      0, and the input it left unread. */
  method ExecuteCommandsFrom(links: seq<Links>, first: int, anchor: int, input: seq<Byte>, fuel: nat)
    returns (output: seq<Byte>, halted: bool, rest: seq<Byte>)
    requires GraphOK(links) && Target(first, |links|)
    ensures var r := Run(links, anchor, Init(links, first, input), fuel);
      output == r.output && halted == (r.ip == 0) && rest == r.input
  {
    var e := new Executor(links, anchor, first, input);
    e.MainLoop(fuel);
    output, halted, rest := e.output, e.ip == 0, e.input;
  }
}
